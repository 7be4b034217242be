/** Choice of the CPU a child process is migrated to: a doubly recursive search downwards from the
    highest CPU that avoids the child's and the parent's CPUs. */
module MigrateTarget {

  /** 1 if x is not above the target: the number of CPUs to avoid that the search can still meet. */
  function AtMost(x: int, target: int): nat { if x <= target then 1 else 0 }

  /** get_migrate_target_cpuid, with the local variable `target` as two successive values. */
  function Target(parent: int, child: int, target: int): (r: int)
    ensures r <= target && r != child
    decreases AtMost(child, target) + AtMost(parent, target)
  {
    var t := if child == target then Target(parent, child, target - 1) else target;
    if t >= 0 && parent == t then Target(parent, child, t - 1) else t
  }

  predicate Acceptable(t: int, parent: int, child: int) { t != child && (t < 0 || t != parent) }

  /** The result is the greatest acceptable number not above the target. */
  lemma {:induction false} TargetGreatest(parent: int, child: int, target: int)
    ensures Acceptable(Target(parent, child, target), parent, child)
    ensures forall u | Target(parent, child, target) < u <= target :: !Acceptable(u, parent, child)
    decreases AtMost(child, target) + AtMost(parent, target)
  {
    var t := target;
    if child == target {
      t := Target(parent, child, target - 1);
      TargetGreatest(parent, child, target - 1);
    }
    if t >= 0 && parent == t {
      TargetGreatest(parent, child, t - 1);
    }
  }

  /** The number the search finds is the only greatest acceptable one. */
  lemma TargetIff(parent: int, child: int, target: int, r: int)
    ensures r == Target(parent, child, target) <==>
      && r <= target && Acceptable(r, parent, child)
      && forall u | r < u <= target :: !Acceptable(u, parent, child)
  {
    TargetGreatest(parent, child, target);
    var best := Target(parent, child, target);
    if r <= target && Acceptable(r, parent, child) && r < best {
      assert Acceptable(best, parent, child);
    }
  }

  /** The caller's check on the chosen CPU fails exactly when the parent and the child occupy every
      CPU there is; so never with three CPUs or more. */
  lemma ChosenIff(parent: int, child: int, cpus: nat)
    ensures Target(parent, child, cpus - 1) >= 0 <==> exists t :: 0 <= t < cpus && Acceptable(t, parent, child)
    ensures cpus >= 3 ==> 0 <= Target(parent, child, cpus - 1) < cpus
  {
    var r := Target(parent, child, cpus - 1);
    TargetGreatest(parent, child, cpus - 1);
    assert Acceptable(0, parent, child) || Acceptable(1, parent, child) || Acceptable(2, parent, child);
  }
}
