/** `gps_CRC16_checksum`: CRC-16/CCITT-FALSE (generator 0x1021 of ITU-T V.41,
    register preset to 0xFFFF, no reflection, no final XOR) over a
    NUL-terminated string. */
module Crc16 {
  import opened CTypes

  const Poly: bv16 := 0x1021
  const Init: bv16 := 0xFFFF

  /** Turns of the inner loop per byte. */
  const BitsPerByte: nat := 8

  /** One turn of the inner `for` loop: shift left, and XOR the generator
      when the bit shifted out was set. */
  function ShiftStep(crc: bv16): bv16 {
    if crc & 0x8000 != 0 then (crc << 1) ^ Poly else crc << 1
  }

  /** ShiftStep by cases, in the form the loop body writes it. */
  lemma ShiftStepCases(crc: bv16)
    ensures crc & 0x8000 != 0 ==> ShiftStep(crc) == (crc << 1) ^ 0x1021
    ensures crc & 0x8000 == 0 ==> ShiftStep(crc) == crc << 1
  {
  }

  /** n turns of the inner loop. */
  function Shifts(crc: bv16, n: nat): bv16
    decreases n
  {
    if n == 0 then crc else Shifts(ShiftStep(crc), n - 1)
  }

  /** The last of n + 1 turns is one more ShiftStep. */
  lemma {:induction false} ShiftsOneMore(crc: bv16, n: nat)
    ensures Shifts(crc, n + 1) == ShiftStep(Shifts(crc, n))
    decreases n
  {
    if n > 0 {
      ShiftsOneMore(ShiftStep(crc), n - 1);
    }
  }

  /** One turn of the outer loop: the byte goes into the high half of the
      register, then eight shift steps follow. */
  function ByteStep(crc: bv16, b: byte): bv16 {
    Shifts(Load(crc, b), BitsPerByte)
  }

  /** The byte XORed into the high half of the register. */
  function Load(crc: bv16, b: byte): bv16 {
    crc ^ ((b as bv16) << 8)
  }

  /** The outer loop is a left fold of ByteStep over the bytes. */
  function Fold(crc: bv16, s: seq<byte>): bv16 {
    if s == [] then crc else ByteStep(Fold(crc, s[..|s| - 1]), s[|s| - 1])
  }

  lemma FoldLast(crc: bv16, s: seq<byte>)
    requires s != []
    ensures Fold(crc, s) == ByteStep(Fold(crc, s[..|s| - 1]), s[|s| - 1])
  {
  }

  /** The value the firmware computes: the fold from 0xFFFF over the bytes
      before the first NUL. */
  function Checksum(s: seq<byte>): bv16 {
    Fold(Init, s[..StrLen(s)])
  }

  /** Folding over a concatenation is folding over the second part starting
      from the register the first part left behind. */
  lemma {:induction false} FoldAppend(crc: bv16, s: seq<byte>, t: seq<byte>)
    ensures Fold(crc, s + t) == Fold(Fold(crc, s), t)
    decreases |t|
  {
    if t != [] {
      assert (s + t)[..|s + t| - 1] == s + t[..|t| - 1];
      FoldAppend(crc, s, t[..|t| - 1]);
    } else {
      assert s + t == s;
    }
  }

  /** A string that is empty, or starts with its terminator, checks to the
      preset value 0xFFFF. */
  lemma EmptyChecksum(s: seq<byte>)
    requires s == [] || s[0] == 0
    ensures Checksum(s) == 0xFFFF
  {
  }

  /** Nothing after the first NUL takes part in the checksum. */
  lemma ChecksumStopsAtNul(a: seq<byte>, rest: seq<byte>)
    requires forall i :: 0 <= i < |a| ==> a[i] != 0
    ensures Checksum(a + [0] + rest) == Checksum(a) == Fold(Init, a)
  {
    StrLenOfTerminated(a, rest);
    StrLenOfTerminated(a, []);
    assert (a + [0] + rest)[..|a|] == a;
    assert (a + [0])[..|a|] == a;
    assert a + [0] + [] == a + [0];
    assert StrLen(a) == |a|;
    assert a[..|a|] == a;
  }

  /** The checksum of s + t continues from the checksum of s (for NUL-free
      strings): the register is all the state the loop carries. */
  lemma ChecksumContinues(s: seq<byte>, t: seq<byte>)
    requires forall i :: 0 <= i < |s + t| ==> (s + t)[i] != 0
    ensures Checksum(s + t) == Fold(Checksum(s), t)
  {
    ChecksumStopsAtNul(s + t, []);
    assert forall i :: 0 <= i < |s| ==> s[i] == (s + t)[i];
    ChecksumStopsAtNul(s, []);
    FoldAppend(Init, s, t);
  }

  /** The catalogued check value of CRC-16/CCITT-FALSE: "123456789" gives 0x29B1. */
  lemma CheckValue()
    ensures Checksum([0x31, 0x32, 0x33, 0x34, 0x35, 0x36, 0x37, 0x38, 0x39]) == 0x29B1
  {
    var s: seq<byte> := [0x31, 0x32, 0x33, 0x34, 0x35, 0x36, 0x37, 0x38, 0x39];
    var t1 := [] + [0x31];
    var t2 := t1 + [0x32];
    var t3 := t2 + [0x33];
    var t4 := t3 + [0x34];
    var t5 := t4 + [0x35];
    var t6 := t5 + [0x36];
    var t7 := t6 + [0x37];
    var t8 := t7 + [0x38];
    assert t8 + [0x39] == s;
    ChecksumStopsAtNul(s, []);
    assert ByteStep(0xFFFF, 0x31) == 0xC782;
    assert ByteStep(0xC782, 0x32) == 0x3DBA;
    assert ByteStep(0x3DBA, 0x33) == 0x5BCE;
    assert ByteStep(0x5BCE, 0x34) == 0x5349;
    assert ByteStep(0x5349, 0x35) == 0x4560;
    assert ByteStep(0x4560, 0x36) == 0x2EF4;
    assert ByteStep(0x2EF4, 0x37) == 0x7718;
    assert ByteStep(0x7718, 0x38) == 0xA12B;
    assert ByteStep(0xA12B, 0x39) == 0x29B1;
    FoldPush([], 0x31, 0xFFFF);
    FoldPush(t1, 0x32, 0xC782);
    FoldPush(t2, 0x33, 0x3DBA);
    FoldPush(t3, 0x34, 0x5BCE);
    FoldPush(t4, 0x35, 0x5349);
    FoldPush(t5, 0x36, 0x4560);
    FoldPush(t6, 0x37, 0x2EF4);
    FoldPush(t7, 0x38, 0x7718);
    FoldPush(t8, 0x39, 0xA12B);
  }

  /** One more byte is one more ByteStep from where the fold stood. */
  lemma FoldPush(t: seq<byte>, b: byte, v: bv16)
    requires Fold(Init, t) == v
    ensures Fold(Init, t + [b]) == ByteStep(v, b)
  {
    assert (t + [b])[..|t|] == t;
  }

  /** One turn of the outer loop of gps_CRC16_checksum: the byte goes into
      the high half of the register, then the inner loop shifts eight
      times. */
  method UpdateByte(crc0: bv16, b: byte) returns (crc: bv16)
    ensures crc == ByteStep(crc0, b)
  {
    crc := crc0 ^ ((b as bv16) << 8);
    ghost var loaded := crc;
    assert loaded == Load(crc0, b);
    for i := 0 to BitsPerByte
      invariant crc == Shifts(loaded, i)
    {
      ShiftsOneMore(loaded, i);
      ShiftStepCases(crc);
      if crc & 0x8000 != 0 {
        crc := (crc << 1) ^ 0x1021;
      } else {
        crc := crc << 1;
      }
    }
  }

  /** One more turn of the outer loop over a prefix of s. */
  lemma FoldStep(s: seq<byte>, i: nat, prev: bv16, b: byte)
    requires i < |s| && s[i] == b && Fold(Init, s[..i]) == prev
    ensures Fold(Init, s[..i + 1]) == ByteStep(prev, b)
  {
    FoldLast(Init, s[..i + 1]);
    assert s[..i + 1][..i] == s[..i];
  }

  /** gps_CRC16_checksum on the string that starts at buf[start]. The
      source demands a terminator at or after `start`. */
  method GpsCrc16Checksum(buf: array<byte>, start: nat) returns (crc: bv16)
    requires start <= buf.Length
    requires exists k :: start <= k < buf.Length && buf[k] == 0
    ensures crc == Checksum(buf[start..])
  {
    ghost var s := buf[start..];
    ghost var n := StrLen(s);
    assert n < |s| by {
      var k :| start <= k < buf.Length && buf[k] == 0;
      assert s[k - start] == 0;
    }
    crc := 0xffff;
    var p := start;
    assert s[..0] == [];
    while buf[p] != 0
      invariant start <= p <= start + n
      invariant crc == Fold(Init, s[..p - start])
      decreases start + n - p
    {
      var b := buf[p];
      assert s[p - start] == b;
      FoldStep(s, p - start, crc, b);
      crc := UpdateByte(crc, b);
      p := p + 1;
    }
    assert s[p - start] == 0;
    assert p - start == n;
  }
}
