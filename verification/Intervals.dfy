/** A store of disjoint half-open integer intervals, each carrying one value,
    kept in increasing order.  It is the shape of a list of virtual memory areas:
    an update splits and trims the intervals it meets.  Address spaces and NUMA
    policies are both kept in such a store.
 */
module Intervals {
  import opened Words

  datatype Option<+T> = None | Some(value: T)

  datatype Store<+V> = Empty | Seg(lo: int, hi: int, val: V, rest: Store<V>)

  /** Non-empty intervals in increasing order, all at or above `floor`, none overlapping. */
  predicate Sorted<V>(st: Store<V>, floor: int) {
    match st
    case Empty => true
    case Seg(lo, hi, _, rest) => floor <= lo < hi && Sorted(rest, hi)
  }

  /** The value covering position `a`. */
  function Find<V>(st: Store<V>, a: int): Option<V> {
    match st
    case Empty => None
    case Seg(lo, hi, v, rest) => if lo <= a < hi then Some(v) else Find(rest, a)
  }

  /** The whole interval covering position `a`, as a one-element store. */
  function Cover<V>(st: Store<V>, a: int): Store<V> {
    match st
    case Empty => Empty
    case Seg(lo, hi, v, rest) => if lo <= a < hi then Seg(lo, hi, v, Empty) else Cover(rest, a)
  }

  /** No interval meets [lo, hi). */
  predicate Free<V>(st: Store<V>, lo: int, hi: int) {
    match st
    case Empty => true
    case Seg(l, h, _, rest) => (h <= lo || hi <= l) && Free(rest, lo, hi)
  }

  /** Remove [lo, hi), trimming or splitting every interval that meets it. */
  function Carve<V>(st: Store<V>, lo: int, hi: int): Store<V> {
    match st
    case Empty => Empty
    case Seg(l, h, v, rest) =>
      var tail := Carve(rest, lo, hi);
      var right := if Max(l, hi) < h then Seg(Max(l, hi), h, v, tail) else tail;
      if l < Min(h, lo) then Seg(l, Min(h, lo), v, right) else right
  }

  /** Insert [lo, hi) with value `v`; the place must be free. */
  function Place<V>(st: Store<V>, lo: int, hi: int, v: V): Store<V> {
    match st
    case Empty => Seg(lo, hi, v, Empty)
    case Seg(l, h, w, rest) =>
      if hi <= l then Seg(lo, hi, v, st) else Seg(l, h, w, Place(rest, lo, hi, v))
  }

  /** Give [lo, hi) the value `v`, whatever was there. */
  function Overlay<V>(st: Store<V>, lo: int, hi: int, v: V): Store<V> {
    Place(Carve(st, lo, hi), lo, hi, v)
  }

  // ----- ordering is kept -----

  lemma SortedWeaken<V>(st: Store<V>, f: int, g: int)
    requires Sorted(st, f) && g <= f
    ensures Sorted(st, g)
  {}

  lemma {:induction false} CarveSorted<V>(st: Store<V>, lo: int, hi: int, floor: int)
    requires Sorted(st, floor) && lo <= hi
    ensures Sorted(Carve(st, lo, hi), floor)
  {
    match st
    case Empty =>
    case Seg(l, h, v, rest) =>
      CarveSorted(rest, lo, hi, h);
      SortedWeaken(Carve(rest, lo, hi), h, floor);
      SortedWeaken(Carve(rest, lo, hi), h, Min(h, lo));
  }

  lemma {:induction false} PlaceSorted<V>(st: Store<V>, lo: int, hi: int, v: V, floor: int)
    requires Sorted(st, floor) && floor <= lo < hi && Free(st, lo, hi)
    ensures Sorted(Place(st, lo, hi, v), floor)
  {
    match st
    case Empty =>
    case Seg(l, h, w, rest) =>
      if hi > l { PlaceSorted(rest, lo, hi, v, h); }
  }

  // ----- what each update does to lookups -----

  lemma {:induction false} FindBelow<V>(st: Store<V>, floor: int, a: int)
    requires Sorted(st, floor) && a < floor
    ensures Find(st, a) == None
  {
    match st
    case Empty =>
    case Seg(l, h, v, rest) => FindBelow(rest, h, a);
  }

  lemma {:induction false} CarveFind<V>(st: Store<V>, lo: int, hi: int, floor: int, a: int)
    requires Sorted(st, floor) && lo <= hi
    ensures Find(Carve(st, lo, hi), a) == if lo <= a < hi then None else Find(st, a)
  {
    match st
    case Empty =>
    case Seg(l, h, v, rest) =>
      CarveFind(rest, lo, hi, h, a);
      if l <= a < h { FindBelow(rest, h, a); }
  }

  lemma {:induction false} CarveFree<V>(st: Store<V>, lo: int, hi: int, floor: int)
    requires Sorted(st, floor) && lo <= hi
    ensures Free(Carve(st, lo, hi), lo, hi)
  {
    match st
    case Empty =>
    case Seg(l, h, v, rest) => CarveFree(rest, lo, hi, h);
  }

  lemma {:induction false} PlaceFind<V>(st: Store<V>, lo: int, hi: int, v: V, a: int)
    requires Free(st, lo, hi) && lo < hi
    ensures Find(Place(st, lo, hi, v), a) == if lo <= a < hi then Some(v) else Find(st, a)
  {
    match st
    case Empty =>
    case Seg(l, h, w, rest) =>
      if hi > l { PlaceFind(rest, lo, hi, v, a); }
  }

  // The interval test agrees with the pointwise one.

  lemma {:induction false} FreeFind<V>(st: Store<V>, lo: int, hi: int, a: int)
    requires Free(st, lo, hi) && lo <= a < hi
    ensures Find(st, a) == None
  {
    match st
    case Empty =>
    case Seg(l, h, v, rest) => FreeFind(rest, lo, hi, a);
  }

  lemma {:induction false} FindFree<V>(st: Store<V>, floor: int, lo: int, hi: int)
    requires Sorted(st, floor) && lo < hi
    requires forall a | lo <= a < hi :: Find(st, a) == None
    ensures Free(st, lo, hi)
  {
    match st
    case Empty =>
    case Seg(l, h, v, rest) =>
      assert lo < h && l < hi ==> Find(st, Max(l, lo)) == Some(v);
      forall a | lo <= a < hi ensures Find(rest, a) == None { assert Find(st, a) == None; }
      FindFree(rest, h, lo, hi);
  }

  lemma {:induction false} CoverFind<V>(st: Store<V>, floor: int, a: int)
    requires Sorted(st, floor)
    ensures Cover(st, a) == Empty <==> Find(st, a) == None
    ensures Cover(st, a) != Empty ==>
      var c := Cover(st, a);
      && floor <= c.lo <= a < c.hi
      && c.rest == Empty
      && forall b | c.lo <= b < c.hi :: Find(st, b) == Some(c.val)
  {
    match st
    case Empty =>
    case Seg(l, h, v, rest) =>
      if !(l <= a < h) {
        CoverFind(rest, h, a);
        var c := Cover(rest, a);
        if c != Empty {
          forall b | c.lo <= b < c.hi ensures Find(st, b) == Some(c.val) {}
        }
      }
  }

  // Updates leave the intervals they do not meet whole.

  predicate Apart<V>(c: Store<V>, lo: int, hi: int) { c.Seg? && (c.hi <= lo || hi <= c.lo) }

  lemma {:induction false} CarveCover<V>(st: Store<V>, lo: int, hi: int, floor: int, a: int)
    requires Sorted(st, floor) && lo <= hi && Apart(Cover(st, a), lo, hi)
    ensures Cover(Carve(st, lo, hi), a) == Cover(st, a)
  {
    match st
    case Seg(l, h, v, rest) =>
      if !(l <= a < h) {
        CoverFind(rest, h, a);
        CarveCover(rest, lo, hi, h, a);
      }
  }

  lemma {:induction false} PlaceCover<V>(st: Store<V>, lo: int, hi: int, v: V, a: int)
    requires Free(st, lo, hi) && lo < hi && Cover(st, a).Seg?
    ensures Cover(Place(st, lo, hi, v), a) == Cover(st, a)
  {
    match st
    case Seg(l, h, w, rest) =>
      if hi <= l {
        CoverFreeApart(st, lo, hi, a);
      } else if !(l <= a < h) {
        PlaceCover(rest, lo, hi, v, a);
      }
  }

  lemma {:induction false} CoverFreeApart<V>(st: Store<V>, lo: int, hi: int, a: int)
    requires Free(st, lo, hi) && lo < hi && Cover(st, a).Seg?
    ensures !(lo <= a < hi)
  {
    match st
    case Seg(l, h, w, rest) => if !(l <= a < h) { CoverFreeApart(rest, lo, hi, a); }
  }

  lemma {:induction false} CoverPlaced<V>(st: Store<V>, lo: int, hi: int, v: V, a: int)
    requires Free(st, lo, hi) && lo <= a < hi
    ensures Cover(Place(st, lo, hi, v), a) == Seg(lo, hi, v, Empty)
  {
    match st
    case Empty =>
    case Seg(l, h, w, rest) => if hi > l { CoverPlaced(rest, lo, hi, v, a); }
  }

  /** Overlaying is pointwise "last writer wins", and keeps the store sorted and disjoint. */
  lemma OverlayCorrect<V>(st: Store<V>, lo: int, hi: int, v: V, floor: int)
    requires Sorted(st, floor) && floor <= lo < hi
    ensures Sorted(Overlay(st, lo, hi, v), floor)
    ensures forall a :: Find(Overlay(st, lo, hi, v), a) == if lo <= a < hi then Some(v) else Find(st, a)
  {
    CarveSorted(st, lo, hi, floor);
    CarveFree(st, lo, hi, floor);
    PlaceSorted(Carve(st, lo, hi), lo, hi, v, floor);
    forall a ensures Find(Overlay(st, lo, hi, v), a) == if lo <= a < hi then Some(v) else Find(st, a) {
      CarveFind(st, lo, hi, floor, a);
      PlaceFind(Carve(st, lo, hi), lo, hi, v, a);
    }
  }
}
