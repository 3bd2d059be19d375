/** The C types, C integer division and NUL-terminated strings that main.c relies on. */
module CTypes {

  type uint8 = x: int | 0 <= x < 0x100
  type uint16 = x: int | 0 <= x < 0x1_0000
  type uint32 = x: int | 0 <= x < 0x1_0000_0000
  type int8 = x: int | -0x80 <= x < 0x80
  type int32 = x: int | -0x8000_0000 <= x < 0x8000_0000

  /** A `char` of a C buffer, as the unsigned value of its bits. */
  type byte = bv8

  /** The only byte value that is zero is the one of 0. */
  lemma ByteZero(x: int)
    requires 0 <= x < 0x100
    ensures x as byte == 0 <==> x == 0
  {
  }

  const UINT16_MOD: int := 0x1_0000
  const UINT32_MOD: int := 0x1_0000_0000

  datatype Option<+T> = None | Some(value: T) {
    predicate IsFailure() { None? }
    function PropagateFailure<U>(): Option<U> requires None? { None }
    function Extract(): T requires Some? { value }
  }

  function Abs(a: int): (r: nat)
    ensures r == a || r == -a
  {
    if a < 0 then -a else a
  }

  /** C's `/` on a signed dividend and a positive divisor: the quotient is
      truncated toward zero, so the remainder takes the sign of the dividend. */
  function CDiv(a: int, b: int): (q: int)
    requires b > 0
    ensures a >= 0 ==> 0 <= a - q * b < b
    ensures a < 0 ==> -b < a - q * b <= 0
  {
    if a >= 0 then
      assert a == (a / b) * b + a % b;
      a / b
    else
      assert -a == ((-a) / b) * b + (-a) % b;
      -((-a) / b)
  }

  /** A `%d` of an `unsigned int` reads its bits as a two's-complement `int`. */
  function AsSigned32(u: uint32): (i: int32)
    ensures i % UINT32_MOD == u
    ensures u < 0x8000_0000 ==> i == u
  {
    if u < 0x8000_0000 then u else u - UINT32_MOD
  }

  /** `strlen`: the index of the first NUL byte, or |s| when there is none. */
  function StrLen(s: seq<byte>): (n: nat)
    ensures n <= |s|
    ensures forall i :: 0 <= i < n ==> s[i] != 0
    ensures n < |s| ==> s[n] == 0
  {
    if s == [] || s[0] == 0 then 0 else 1 + StrLen(s[1..])
  }

  /** A string followed by its terminator has exactly the string's length,
      whatever lies behind the terminator. */
  lemma StrLenOfTerminated(a: seq<byte>, rest: seq<byte>)
    requires forall i :: 0 <= i < |a| ==> a[i] != 0
    ensures StrLen(a + [0] + rest) == |a|
  {
    var s := a + [0] + rest;
    assert s[|a|] == 0;
    assert forall i :: 0 <= i < |a| ==> s[i] == a[i];
  }

  /** If x * b <= a < (x + 1) * b then a / b is x. */
  lemma DivBetween(a: int, b: int, x: int)
    requires b > 0 && x * b <= a < (x + 1) * b
    ensures a / b == x
  {
    var q, r := a / b, a % b;
    assert a == q * b + r && 0 <= r < b;
    if q < x {
      MulMonotone(q + 1, x, b);
    } else if q > x {
      MulMonotone(x + 1, q, b);
    }
  }

  /** Dividing a natural number by a positive one does not increase it. */
  lemma DivNoLarger(a: nat, k: int)
    requires k >= 1
    ensures 0 <= a / k <= a
  {
    var q := a / k;
    assert a == q * k + a % k;
    MulMonotone(1, k, q);
  }

  /** a / k brackets a between two neighbouring multiples of k. */
  lemma DivBracket(a: nat, k: int)
    requires k >= 1
    ensures (a / k) * k <= a < (a / k + 1) * k
  {
    assert a == (a / k) * k + a % k;
  }

  /** Dividing by a divisor no larger than the dividend leaves at least 1. */
  lemma DivAtLeastOne(a: nat, b: int)
    requires 0 < b <= a
    ensures a / b >= 1
  {
    DivBracket(a, b);
  }

  lemma MulMonotone(a: int, c: int, b: nat)
    requires a <= c
    ensures a * b <= c * b
  {
  }
}
