/** What every part uses. */
module Common {

  type byte = x: int | 0 <= x < 256

  datatype Option<+T> = None | Some(value: T)
  {
    predicate IsFailure() { None? }

    function PropagateFailure<U>(): Option<U>
      requires None?
    {
      None
    }

    function Extract(): T
      requires Some?
    {
      value
    }
  }

  function Min(a: int, b: int): int {
    if a <= b then a else b
  }

  function Max(a: int, b: int): int {
    if a >= b then a else b
  }

  /** The number a byte string stands for, most significant byte first. */
  function Value(s: seq<byte>): nat {
    if s == [] then 0 else 256 * Value(s[..|s| - 1]) + s[|s| - 1]
  }

  lemma ValueOfFour(s: seq<byte>)
    requires |s| == 4
    ensures Value(s) == 0x100_0000 * s[0] as int + 0x1_0000 * s[1] as int + 0x100 * s[2] as int + s[3] as int
  {
    assert Value(s[..1]) == 256 * Value([]) + s[0];
    assert s[..2][..1] == s[..1] && s[..3][..2] == s[..2];
    assert Value(s[..2]) == 256 * Value(s[..1]) + s[1];
    assert Value(s[..3]) == 256 * Value(s[..2]) + s[2];
  }

  lemma ValueOfThree(s: seq<byte>)
    requires |s| == 3
    ensures Value(s) == 0x1_0000 * s[0] as int + 0x100 * s[1] as int + s[2] as int
  {
    assert Value(s[..1]) == 256 * Value([]) + s[0];
    assert s[..2][..1] == s[..1];
    assert Value(s[..2]) == 256 * Value(s[..1]) + s[1];
  }
}
