/** The integer widths of the suite's target: 64-bit `unsigned long`, 32-bit `int`, bytes. */
module Words {

  const WORD: nat := 0x1_0000_0000_0000_0000
  const INT: nat := 0x1_0000_0000

  lemma Widths()
    ensures INT == 65536 * 65536 && WORD == INT * INT
  {}

  type word = x: int | 0 <= x < WORD
  type byte = x: int | 0 <= x < 256

  function Max(a: int, b: int): int { if a < b then b else a }
  function Min(a: int, b: int): int { if a < b then a else b }

  /** Conversion of an integer to a 32-bit `int`. */
  function Int32(x: int): int {
    var r := x % INT; if r < INT / 2 then r else r - INT
  }

  lemma Int32Twice(x: int)
    ensures Int32(Int32(x)) == Int32(x)
  {}

  /** The conversion keeps exactly the values an `int` can hold. */
  lemma Int32Iff(x: int)
    ensures (Int32(x) - x) % INT == 0
    ensures -(INT / 2) <= Int32(x) < INT / 2
    ensures Int32(x) == x <==> -(INT / 2) <= x < INT / 2
    ensures 0 <= x ==> Int32(x) <= x
  {}
}
