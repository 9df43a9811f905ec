/** Fixed-width little-endian numbers and parts of byte strings: READ_UNALIGNED_CK and SIGN_EXTEND
    (libdwarf/dwarf_util.h, libdwarf/libdwarf_private.h). */
module Words {
  import opened Common

  /** A little-endian number, as de_copy_word leaves it. */
  function FixedValue(s: seq<Byte>): nat {
    if s == [] then 0 else s[0] + 256 * FixedValue(s[1..])
  }

  method ReadFixed(code: seq<Byte>, p: nat, n: nat) returns (v: nat)
    requires p + n <= |code|
    ensures v == FixedValue(code[p..p + n])
  {
    v := 0;
    var k := n;
    assert code[p + n..p + n] == [];
    while k > 0
      invariant 0 <= k <= n
      invariant v == FixedValue(code[p + k..p + n])
    {
      k := k - 1;
      assert code[p + k..p + n][1..] == code[p + k + 1..p + n];
      v := code[p + k] + 256 * v;
    }
  }

  /** 256 to the power k. */
  function Bound(k: nat): nat
    requires k <= 8
  {
    match k
    case 0 => 1
    case 1 => 0x100
    case 2 => 0x1_0000
    case 3 => 0x100_0000
    case 4 => 0x1_0000_0000
    case 5 => 0x100_0000_0000
    case 6 => 0x1_0000_0000_0000
    case 7 => 0x100_0000_0000_0000
    case 8 => TWO64
  }

  lemma {:induction false} FixedValueFits(s: seq<Byte>)
    requires |s| <= 8
    ensures FixedValue(s) < Bound(|s|) <= TWO64
  {
    if s != [] { FixedValueFits(s[1..]); }
  }

  /** A number of n bytes read as signed, then as a 64-bit pattern. */
  function SignExtend(v: nat, n: nat): nat
    requires n <= 8
  {
    if n > 0 && v < Bound(n) <= 2 * v then v + TWO64 - Bound(n) else v
  }

  // ------------------------------------------------------------- encoding

  function EncFixed(v: nat, n: nat): (s: seq<Byte>)
    ensures |s| == n
  {
    if n == 0 then [] else [v % 256] + EncFixed(v / 256, n - 1)
  }

  lemma {:induction false} FixedRoundTrip(v: nat, n: nat)
    requires n <= 8 && v < Bound(n)
    ensures FixedValue(EncFixed(v, n)) == v
  {
    if n > 0 {
      FixedRoundTrip(v / 256, n - 1);
      assert EncFixed(v, n)[1..] == EncFixed(v / 256, n - 1);
    }
  }

  predicate FitsSigned(v: int, n: nat)
    requires n <= 8
  {
    0 <= 2 * v + Bound(n) && 2 * v < Bound(n)
  }

  function EncFixedSigned(v: int, n: nat): (s: seq<Byte>)
    requires n <= 8 && FitsSigned(v, n)
    ensures |s| == n
  {
    EncFixed(if v < 0 then v + Bound(n) else v, n)
  }

  /** Two's complement: a signed number comes back as its 64-bit pattern. */
  lemma FixedSignedRoundTrip(v: int, n: nat)
    requires 1 <= n <= 8 && FitsSigned(v, n)
    ensures SignExtend(FixedValue(EncFixedSigned(v, n)), n) == Wrap64(v)
  {
    FixedRoundTrip(if v < 0 then v + Bound(n) else v, n);
    if v < 0 { assert Wrap64(v) == v + TWO64; }
  }

  // --------------------------------------------------------- byte strings

  /** Part of a byte string, from p on. */
  predicate At(bytes: seq<Byte>, p: nat, part: seq<Byte>) { p + |part| <= |bytes| && bytes[p..p + |part|] == part }

  lemma AtSplit(bytes: seq<Byte>, p: nat, a: seq<Byte>, b: seq<Byte>)
    requires At(bytes, p, a + b)
    ensures At(bytes, p, a) && At(bytes, p + |a|, b)
  {
    var q := p + |a + b|;
    assert bytes[p..p + |a|] == bytes[p..q][..|a|];
    assert bytes[p + |a|..q] == bytes[p..q][|a|..];
  }
}
