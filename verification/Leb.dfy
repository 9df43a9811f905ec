/** LEB128 numbers, libdwarf/dwarf_leb.c (section 7.6 of DWARF 5).

    A C pointer together with its endptr is modelled by the bytes from the
    pointer up to endptr, so "leb128 >= endptr" is the empty sequence. */
module Leb {
  import opened Common

  const BYTESLEBMAX: nat := 24

  datatype Decoded = Fail | Got(value: int, len: nat)

  // ---------------------------------------------------------------- meaning

  /** Number of bytes up to and including the first byte without the
      continuation bit, or 0 when there is none. */
  function LebLen(s: seq<Byte>): (n: nat)
    ensures n <= |s|
    ensures n > 0 ==> s[n - 1] < 128 && forall i :: 0 <= i < n - 1 ==> s[i] >= 128
    ensures n == 0 ==> forall i :: 0 <= i < |s| ==> s[i] >= 128
  {
    if s == [] then 0
    else if s[0] < 128 then 1
    else var n := LebLen(s[1..]); if n == 0 then 0 else n + 1
  }

  lemma LebLenUnique(s: seq<Byte>, n: nat)
    requires 0 < n <= |s| && s[n - 1] < 128
    requires forall i :: 0 <= i < n - 1 ==> s[i] >= 128
    ensures LebLen(s) == n
  {}

  /** The seven data bits of a byte. */
  function Low7(b: Byte): (d: nat)
    ensures d < 128
  {
    if b < 128 then b else b - 128
  }

  /** The number an unsigned LEB128 byte string denotes, of any size. */
  function UValue(s: seq<Byte>): nat {
    if s == [] then 0 else Low7(s[0]) + 128 * UValue(s[1..])
  }

  /** The number a signed LEB128 byte string denotes, of any size. */
  function SValue(s: seq<Byte>): int
    requires s != []
  {
    if |s| == 1 then Low7(s[0]) - (if Low7(s[0]) >= 64 then 128 else 0)
    else Low7(s[0]) + 128 * SValue(s[1..])
  }

  function Pow128(k: nat): (p: nat)
    ensures p > 0
  {
    if k == 0 then 1 else 128 * Pow128(k - 1)
  }

  lemma Pow128Table()
    ensures Pow128(0) == 1 && Pow128(1) == 0x80 && Pow128(2) == 0x4000 && Pow128(3) == 0x20_0000
    ensures Pow128(4) == 0x1000_0000 && Pow128(5) == 0x8_0000_0000 && Pow128(6) == 0x400_0000_0000
    ensures Pow128(7) == 0x2_0000_0000_0000 && Pow128(8) == 0x100_0000_0000_0000
    ensures Pow128(9) == TWO63 && Pow128(10) == 0x40_0000_0000_0000_0000
  {
    assert Pow128(5) == 128 * Pow128(4) && Pow128(4) == 128 * Pow128(3);
    assert Pow128(7) == 128 * Pow128(6) && Pow128(6) == 128 * Pow128(5);
    assert Pow128(9) == 128 * Pow128(8) && Pow128(8) == 128 * Pow128(7);
  }

  lemma Pow128Ten()
    ensures Pow128(9) == TWO63 && Pow128(10) == 0x40_0000_0000_0000_0000
  {
    Pow128Table();
  }

  lemma Product(d: nat, p: nat)
    ensures d * p >= 0
  {}

  lemma Scale(d: int, p: int)
    ensures 128 * (d * p) == d * (128 * p)
  {}

  lemma {:induction false} UValueSnoc(s: seq<Byte>, b: Byte)
    ensures UValue(s + [b]) == UValue(s) + Low7(b) * Pow128(|s|)
  {
    if s != [] {
      assert (s + [b])[1..] == s[1..] + [b];
      UValueSnoc(s[1..], b);
      Scale(Low7(b), Pow128(|s| - 1));
    }
  }

  lemma {:induction false} UValueBound(s: seq<Byte>)
    ensures UValue(s) < Pow128(|s|)
  {
    if s != [] { UValueBound(s[1..]); }
  }

  /** Sign extension: the two readings differ by the weight of the sign bit. */
  lemma {:induction false} SValueSign(s: seq<Byte>)
    requires s != []
    ensures SValue(s) == UValue(s) - (if Low7(s[|s| - 1]) >= 64 then Pow128(|s|) else 0)
  {
    if |s| > 1 { SValueSign(s[1..]); } else { assert UValue(s[1..]) == 0; Pow128Table(); }
  }

  /** C's shift of a data byte into a 64-bit word: bits shifted out at the top
      are lost. */
  function Shl64(b: nat, k: nat): nat { Wrap64(b * Pow128(k)) }

  function SetBit63(u: nat): nat { if u < TWO63 then u + TWO63 else u }

  // ---------------------------------------------------- what the readers do

  /** dwarf_decode_leb128: accepted exactly when the number ends within ten
      bytes; the value is reduced to 64 bits. */
  function ReadU(s: seq<Byte>): (r: Decoded)
    ensures r.Got? ==> 1 <= r.len <= |s| && IsU64(r.value)
  {
    var n := LebLen(s);
    if 1 <= n <= 10 then Got(Wrap64(UValue(s[..n])), n) else Fail
  }

  /** What may follow ten continuation bytes in a signed number: 0x80 bytes and
      then 0x00 or 0x40. */
  predicate PaddedTail(s: seq<Byte>, n: nat)
    requires 10 < n <= |s|
  {
    (s[n - 1] == 0 || s[n - 1] == 64) && forall i :: 10 <= i < n - 1 ==> s[i] == 128
  }

  /** dwarf_decode_signed_leb128. */
  function ReadS(s: seq<Byte>): (r: Decoded)
    ensures r.Got? ==> 1 <= r.len <= |s|
  {
    var n := LebLen(s);
    if n == 0 || n > BYTESLEBMAX then Fail
    else if n <= 9 then Got(SValue(s[..n]), n)
    else if n > 10 && !PaddedTail(s, n) then Fail
    else
      var raw := Wrap64(UValue(s[..10]));
      Got(AsSigned(if s[n - 1] >= 64 then SetBit63(raw) else raw), n)
  }

  /** _dwarf_skip_leb128: the length, or 0 for an error. */
  function SkipLen(s: seq<Byte>): nat {
    if LebLen(s) <= BYTESLEBMAX then LebLen(s) else 0
  }

  // --------------------------------------------------------------- the code

  method SkipLeb128(s: seq<Byte>) returns (ok: bool, len: nat)
    ensures ok == (SkipLen(s) != 0)
    ensures len == SkipLen(s)
  {
    if |s| == 0 { return false, 0; }
    var p, byteLength := 0, 1;
    while true
      invariant byteLength == p + 1 <= BYTESLEBMAX && p <= |s|
      invariant forall i :: 0 <= i < p ==> s[i] >= 128
      decreases |s| - p
    {
      if p >= |s| { return false, 0; }
      var byte := s[p];
      if byte >= 128 {
        if byteLength >= BYTESLEBMAX { return false, 0; }
        byteLength, p := byteLength + 1, p + 1;
        continue;
      }
      break;
    }
    LebLenUnique(s, p + 1);
    return true, byteLength;
  }

  /** One step of the general loop below 64 bits. The bits of number are all
      below the shift, so "number |= b << shift" is an addition. */
  lemma Accumulate(s: seq<Byte>, i: nat)
    requires i < |s| && i <= 9
    ensures Shl64(Low7(s[i]), i) + UValue(s[..i]) == Wrap64(UValue(s[..i + 1]))
    ensures i < 9 ==> UValue(s[..i + 1]) < TWO63
  {
    assert UValue(s[..i + 1]) == UValue(s[..i]) + Low7(s[i]) * Pow128(i) by {
      assert s[..i + 1] == s[..i] + [s[i]];
      UValueSnoc(s[..i], s[i]);
    }
    UValueBound(s[..i]);
    UValueBound(s[..i + 1]);
    PowFits(i);
    if i < 9 {
      Product(Low7(s[i]), Pow128(i));
    } else {
      var b := Low7(s[9]);
      TopByte(UValue(s[..10]), UValue(s[..9]), b);
      TopByte(b * Pow128(9), 0, b);
    }
  }

  lemma PowFits(i: nat)
    requires i <= 9
    ensures Pow128(i) <= TWO63 && (i < 9 ==> Pow128(i + 1) <= TWO63)
    ensures i == 9 ==> Pow128(i) == TWO63
  {
    Pow128Table();
    if i == 0 {} else if i == 1 {} else if i == 2 {} else if i == 3 {} else if i == 4 {}
    else if i == 5 {} else if i == 6 {} else if i == 7 {} else if i == 8 {}
  }

  /** The pattern a ten-byte number leaves in the word: only the lowest bit of
      the tenth byte stays inside. */
  function TenRaw(low: nat, b: nat): nat { low + (if b % 2 == 1 then TWO63 else 0) }

  lemma TopByte(u: nat, low: nat, b: nat)
    requires low < TWO63 && u == low + b * 0x8000_0000_0000_0000
    ensures Wrap64(u) == TenRaw(low, b)
  {
    assert u == b / 2 * 0x1_0000_0000_0000_0000 + TenRaw(low, b);
  }

  lemma OneByte(s: seq<Byte>)
    requires |s| >= 1 && s[0] < 128
    ensures ReadU(s) == Got(s[0], 1)
  {
    assert s[..1] == [s[0]] && UValue([s[0]][1..]) == 0;
  }

  lemma TwoBytes(s: seq<Byte>)
    requires |s| >= 2 && s[0] >= 128 && s[1] < 128
    ensures ReadU(s) == Got(Low7(s[0]) + Low7(s[1]) * 128, 2)
  {
    LebLenUnique(s, 2);
    var t := s[..2];
    assert UValue(t) == Low7(t[0]) + 128 * UValue(t[1..]);
    assert UValue(t[1..]) == Low7(t[1]) + 128 * UValue(t[1..][1..]);
  }

  method DecodeLeb128(s: seq<Byte>) returns (r: Decoded)
    ensures r == ReadU(s)
  {
    hide UValue, Pow128, Shl64;
    if |s| == 0 { return Fail; }
    var byte := s[0];
    if byte < 128 {
      OneByte(s);
      return Got(byte, 1);
    } else {
      if 1 >= |s| { return Fail; }
      var byte2 := s[1];
      if byte2 < 128 {
        TwoBytes(s);
        return Got(Low7(byte) + Low7(byte2) * 128, 2);
      }
    }
    EmptyValue(s);
    var number, shift, byteLength, p := 0, 0, 1, 0;
    while true
      invariant p < |s| && byteLength == p + 1 <= BYTESLEBMAX && shift == 7 * p && byte == s[p]
      invariant forall i :: 0 <= i < p && i < 10 ==> s[i] >= 128
      invariant p <= 9 ==> number == UValue(s[..p])
      decreases |s| - p
    {
      var b := Low7(byte);
      if shift >= 64 {
        if b == 0 {
          byteLength := byteLength + 1;
          if byteLength > BYTESLEBMAX { return Fail; }
          p, shift := p + 1, shift + 7;
          if p >= |s| { return Fail; }
          byte := s[p];
          continue;
        }
        return Fail;
      }
      Accumulate(s, p);
      number := number + Shl64(b, p);
      if byte < 128 {
        LebLenUnique(s, p + 1);
        return Got(number, byteLength);
      }
      shift, byteLength := shift + 7, byteLength + 1;
      if byteLength > BYTESLEBMAX { break; }
      p := p + 1;
      if p >= |s| { return Fail; }
      byte := s[p];
    }
    return Fail;
  }

  /** The final "or" of the sign bits above the data, below and at 64 bits. */
  lemma SignExtension(s: seq<Byte>, n: nat)
    requires 1 <= n <= 9 && LebLen(s) == n
    ensures Pow128(n) <= TWO63 && (n == 9 ==> Pow128(n) == TWO63)
    ensures 0 <= UValue(s[..n]) < Pow128(n) && Wrap64(UValue(s[..n])) == UValue(s[..n])
    ensures ReadS(s) == Got(UValue(s[..n]) - (if s[n - 1] >= 64 then Pow128(n) else 0), n)
  {
    ShortNumber(s[..n]);
    SValueSign(s[..n]);
  }

  lemma ShortNumber(s: seq<Byte>)
    requires 1 <= |s| <= 9
    ensures UValue(s) < Pow128(|s|) <= TWO63 && Wrap64(UValue(s)) == UValue(s)
    ensures |s| == 9 ==> Pow128(|s|) == TWO63
  {
    UValueBound(s);
    PowFits(|s| - 1);
    if |s| == 9 { PowFits(9); }
  }

  /** Where the signed reader gives up: at the end of the data, after 24 bytes, or
      at a tail byte that is neither padding nor a terminator. */
  lemma Unreadable(s: seq<Byte>, p: nat)
    requires p <= |s| && forall i :: 0 <= i < p ==> s[i] >= 128
    requires p == |s| || p >= 24 || (p >= 10 && s[p] != 0 && s[p] != 64 && s[p] != 128)
    ensures ReadS(s) == Fail
  {
    var n := LebLen(s);
    if n > 10 && n > p + 1 { assert p < |s|; }
  }

  lemma LongNumber(s: seq<Byte>, p: nat)
    requires 9 <= p < |s| && p < 24 && s[p] < 128
    requires forall i :: 0 <= i < p ==> s[i] >= 128
    requires p > 9 ==> (s[p] == 0 || s[p] == 64) && forall i :: 10 <= i < p ==> s[i] == 128
    ensures ReadS(s) == Got(AsSigned(if s[p] >= 64 then SetBit63(Wrap64(UValue(s[..10])))
                                                   else Wrap64(UValue(s[..10]))), p + 1)
  {
    LebLenUnique(s, p + 1);
  }

  /** The same in numbers: of ten data bytes 64 bits are kept, and the sign bit of the
      last byte makes the number negative whatever bit 63 was. */
  lemma LongValue(s: seq<Byte>, p: nat)
    requires 9 <= p < |s| && p < 24 && s[p] < 128
    requires forall i :: 0 <= i < p ==> s[i] >= 128
    requires p > 9 ==> (s[p] == 0 || s[p] == 64) && forall i :: 10 <= i < p ==> s[i] == 128
    ensures var kept := UValue(s[..10]) % 0x1_0000_0000_0000_0000;
      ReadS(s) == Got(if s[p] >= 64 then kept % 0x8000_0000_0000_0000 - 0x8000_0000_0000_0000
                      else if kept < 0x8000_0000_0000_0000 then kept else kept - 0x1_0000_0000_0000_0000, p + 1)
  {
    hide ReadS, UValue;
    LongNumber(s, p);
  }

  lemma EmptyValue(s: seq<Byte>)
    ensures UValue(s[..0]) == 0
  {}

  method DecodeSignedLeb128(s: seq<Byte>) returns (r: Decoded)
    ensures r == ReadS(s)
  {
    hide ReadS, UValue, Pow128, Shl64;
    if |s| == 0 { Unreadable(s, 0); return Fail; }
    var byte := s[0];
    EmptyValue(s);
    var number, shift, byteLength, sign, p := 0, 0, 1, false, 0;
    while true
      invariant p < |s| && byteLength == p + 1 <= BYTESLEBMAX && shift == 7 * p && byte == s[p]
      invariant forall i :: 0 <= i < p ==> s[i] >= 128
      invariant forall i :: 10 <= i < p ==> s[i] == 128
      invariant p <= 9 ==> number == UValue(s[..p])
      invariant p > 9 ==> number == Wrap64(UValue(s[..10]))
      decreases |s| - p
    {
      var b := Low7(byte);
      if shift >= 64 {
        sign := b >= 64;
        if byte == 0 || byte == 64 { break; }
        if b == 0 {
          byteLength := byteLength + 1;
          if byteLength > BYTESLEBMAX { Unreadable(s, p + 1); return Fail; }
          p, shift := p + 1, shift + 7;
          if p >= |s| { Unreadable(s, p); return Fail; }
          byte := s[p];
          continue;
        }
        Unreadable(s, p);
        return Fail;
      }
      sign := b >= 64;
      Accumulate(s, p);
      number := number + Shl64(b, p);
      shift := shift + 7;
      if byte < 128 { break; }
      p := p + 1;
      if p >= |s| { Unreadable(s, p); return Fail; }
      byte := s[p];
      byteLength := byteLength + 1;
      if byteLength > BYTESLEBMAX { return Fail; }
    }
    LebLenUnique(s, p + 1);
    if p < 9 { SignExtension(s, p + 1); } else { LongNumber(s, p); }
    if sign {
      if shift < 63 {
        number := number + (TWO64 - Pow128(p + 1));
      } else if shift == 63 {
        number := number + TWO63;
      } else {
        number := SetBit63(number);
      }
    }
    return Got(AsSigned(number), byteLength);
  }

  // ---------------------------------------------------------- the encoders

  /** dwarf_encode_leb128, the bytes it produces. */
  function EncU(val: nat): (s: seq<Byte>)
    ensures s != []
  {
    if val < 128 then [val] else [val % 128 + 128] + EncU(val / 128)
  }

  /** Is value the last chunk, its sign bit already in place? */
  predicate LastChunk(value: int) { -64 <= value < 64 }

  /** dwarf_encode_signed_leb128, the bytes it produces. Both >> 7 on a negative
      C value and "/ 128" here round towards minus infinity. */
  function EncS(value: int): (s: seq<Byte>)
    ensures s != []
    decreases if value < 0 then -value else value
  {
    if LastChunk(value) then [value % 128] else [value % 128 + 128] + EncS(value / 128)
  }

  /** "*a = b", in terms of what is before and after it. */
  method Put(space: array<Byte>, a: nat, b: Byte)
    requires a < space.Length
    modifies space
    ensures space[..a + 1] == old(space[..a]) + [b]
    ensures forall i :: a < i < space.Length ==> space[i] == old(space[i])
  {
    space[a] := b;
  }

  lemma Assoc(s: seq<Byte>, b: Byte, t: seq<Byte>)
    ensures s + ([b] + t) == s + [b] + t && s + [b] == s + [b] + []
  {}

  lemma Split128(d: nat, q: int)
    requires d < 128
    ensures (d + 128 * q) / 128 == q && (d + 128 * q) % 128 == d
  {}

  lemma EncUStep(d: nat, q: nat)
    requires d < 128
    ensures EncU(d + 128 * q) == if q == 0 then [d] else [d + 128] + EncU(q)
  {
    Split128(d, q);
  }

  /** The exit test of the signed encoder, one chunk at a time. */
  lemma ChunkStep(v: int, sign: int)
    requires sign == if v < 0 then -1 else 0
    ensures LastChunk(v) <==> v / 128 == sign && (v % 128 >= 64 <==> sign == -1)
    ensures v / 128 < 0 <==> v < 0
    ensures !LastChunk(v) ==> (v < 0 ==> 0 < -(v / 128) < -v) && (v >= 0 ==> v / 128 < v)
    ensures EncS(v) == if LastChunk(v) then [v % 128] else [v % 128 + 128] + EncS(v / 128)
  {}

  /** Writes the digits of val into space, as far as they fit. */
  method EncodeLeb128(val: nat, space: array<Byte>) returns (ok: bool, nbytes: nat)
    modifies space
    ensures ok == (|EncU(val)| <= space.Length)
    ensures ok ==> nbytes == |EncU(val)| && space[..nbytes] == EncU(val)
    ensures ok ==> space[nbytes..] == old(space[nbytes..])
    ensures !ok ==> space[..] == EncU(val)[..space.Length]
  {
    hide EncU;
    var a, v := 0, val;
    nbytes := 0;
    assert space[..0] + EncU(v) == EncU(v);
    while true
      invariant a <= space.Length
      invariant space[..a] + EncU(v) == EncU(val)
      invariant forall i :: a <= i < space.Length ==> space[i] == old(space[i])
      decreases v
    {
      if a >= space.Length { return false, 0; }
      var uc := v % 128;
      var rest := v / 128;
      EncUStep(uc, rest);
      if rest != 0 { uc := uc + 128; }
      Assoc(space[..a], uc, if rest == 0 then [] else EncU(rest));
      Put(space, a, uc);
      a := a + 1;
      if rest == 0 { break; }
      v := rest;
    }
    return true, a;
  }

  method EncodeSignedLeb128(value: int, space: array<Byte>) returns (ok: bool, nbytes: nat)
    modifies space
    ensures ok == (|EncS(value)| <= space.Length)
    ensures ok ==> nbytes == |EncS(value)| && space[..nbytes] == EncS(value)
    ensures ok ==> space[nbytes..] == old(space[nbytes..])
    ensures !ok ==> space[..] == EncS(value)[..space.Length]
  {
    hide EncS, LastChunk;
    var sign := if value < 0 then -1 else 0;
    var more, str, v := true, 0, value;
    nbytes := 0;
    assert space[..0] + EncS(v) == EncS(v);
    while more
      invariant str <= space.Length
      invariant more ==> space[..str] + EncS(v) == EncS(value)
      invariant !more ==> space[..str] == EncS(value)
      invariant forall i :: str <= i < space.Length ==> space[i] == old(space[i])
      invariant v < 0 <==> sign == -1
      decreases more, if v < 0 then -v else v
    {
      var byte := v % 128;
      var rest := v / 128;
      if str >= space.Length { return false, 0; }
      ChunkStep(v, sign);
      if rest == sign && (byte >= 64 <==> sign == -1) {
        more := false;
      } else {
        byte := byte + 128;
      }
      Assoc(space[..str], byte, if more then EncS(rest) else []);
      Put(space, str, byte);
      str := str + 1;
      v := rest;
    }
    return true, str;
  }

  // -------------------------------------------------------------- theorems

  lemma {:induction false} EncUDenotes(val: nat)
    ensures LebLen(EncU(val)) == |EncU(val)| && UValue(EncU(val)) == val
    decreases val
  {
    if val >= 128 {
      EncUDenotes(val / 128);
      assert EncU(val)[1..] == EncU(val / 128);
    } else {
      assert EncU(val)[1..] == [];
    }
  }

  lemma {:induction false} EncSDenotes(value: int)
    ensures LebLen(EncS(value)) == |EncS(value)| && SValue(EncS(value)) == value
    decreases if value < 0 then -value else value
  {
    if !LastChunk(value) {
      EncSDenotes(value / 128);
      assert EncS(value)[1..] == EncS(value / 128);
    }
  }

  /** A k-byte budget is enough for every value below 128^k. */
  lemma {:induction false} EncUShort(val: nat, k: nat)
    requires k > 0 && val < Pow128(k)
    ensures |EncU(val)| <= k
    decreases k
  {
    if val >= 128 { EncUShort(val / 128, k - 1); }
  }

  lemma {:induction false} EncSShort(value: int, k: nat)
    requires k > 0 && -(Pow128(k) as int) <= 2 * value < Pow128(k)
    ensures |EncS(value)| <= k
    decreases k
  {
    if !LastChunk(value) {
      assert k > 1;
      EncSShort(value / 128, k - 1);
    }
  }

  /** Anything may follow a complete number. */
  lemma LebLenPrefix(s: seq<Byte>, rest: seq<Byte>)
    requires LebLen(s) > 0
    ensures LebLen(s + rest) == LebLen(s) && (s + rest)[..LebLen(s)] == s[..LebLen(s)]
  {
    LebLenUnique(s + rest, LebLen(s));
  }

  /** Every 64-bit unsigned value survives encoding and decoding, in at most ten
      bytes and whatever follows them. */
  lemma RoundTripU(val: nat, rest: seq<Byte>)
    requires IsU64(val)
    ensures |EncU(val)| <= 10 && ReadU(EncU(val) + rest) == Got(val, |EncU(val)|)
  {
    var e := EncU(val);
    EncUDenotes(val);
    Pow128Ten();
    EncUShort(val, 10);
    LebLenPrefix(e, rest);
    assert e[..|e|] == e;
  }

  lemma RoundTripS(value: int, rest: seq<Byte>)
    requires IsS64(value)
    ensures |EncS(value)| <= 10 && ReadS(EncS(value) + rest) == Got(value, |EncS(value)|)
  {
    var e := EncS(value);
    EncSDenotes(value);
    Pow128Ten();
    EncSShort(value, 10);
    LebLenPrefix(e, rest);
    assert e[..|e|] == e;
    if |e| == 10 { TenBytes(e); assert (e + rest)[..10] == e; }
  }

  /** A ten-byte signed number is decoded to what it denotes exactly when that
      fits into 64 bits; the two values have the same low 63 bits in any case. */
  lemma TenBytes(s: seq<Byte>)
    requires |s| == LebLen(s) == 10
    ensures ReadS(s).Got?
    ensures ReadS(s).value == SValue(s) <==> IsS64(SValue(s))
  {
    TenRead(s);
    TenValue(s);
    TenthByte(UValue(s[..9]), s[9]);
  }

  function TenSigned(low: nat, b: nat): int
    requires low < TWO63
  {
    AsSigned(if b >= 64 then SetBit63(TenRaw(low, b)) else TenRaw(low, b))
  }

  lemma TenRead(s: seq<Byte>)
    requires |s| == LebLen(s) == 10
    ensures UValue(s[..9]) < TWO63
    ensures ReadS(s) == Got(TenSigned(UValue(s[..9]), s[9]), 10)
  {
    var low, b, raw := UValue(s[..9]), s[9], Wrap64(UValue(s[..10]));
    assert low < TWO63 && raw == TenRaw(low, b) by {
      assert s[..10] == s;
      TenValue(s);
      TopByte(UValue(s[..10]), low, Low7(s[9]));
    }
    assert ReadS(s) == Got(AsSigned(if b >= 64 then SetBit63(raw) else raw), 10) by {
      LongNumber(s, 9);
    }
  }

  lemma TenValue(s: seq<Byte>)
    requires |s| == 10
    ensures UValue(s) == UValue(s[..9]) + Low7(s[9]) * 0x8000_0000_0000_0000
    ensures UValue(s[..9]) < TWO63
    ensures SValue(s) == UValue(s) - (if Low7(s[9]) >= 64 then 0x40_0000_0000_0000_0000 else 0)
  {
    assert s[..9] + [s[9]] == s;
    UValueSnoc(s[..9], s[9]);
    ShortNumber(s[..9]);
    SValueSign(s);
    Pow128Ten();
  }

  lemma TenthByte(low: nat, b: nat)
    requires low < TWO63 && b < 128
    ensures var meant := low + b * 0x8000_0000_0000_0000 - (if b >= 64 then 0x40_0000_0000_0000_0000 else 0);
            TenSigned(low, b) == meant <==> IsS64(meant)
  {}

  /** Unsigned: any encoding of at most ten bytes, padded or not, is read as the
      number it denotes if and only if that number fits into 64 bits. */
  lemma UnsignedExactWhenItFits(s: seq<Byte>)
    requires 1 <= LebLen(s) <= 10
    ensures ReadU(s).Got? && ReadU(s).len == LebLen(s)
    ensures ReadU(s).value == UValue(s[..LebLen(s)]) <==> IsU64(UValue(s[..LebLen(s)]))
  {}

  lemma SignedExactWhenItFits(s: seq<Byte>)
    requires 1 <= LebLen(s) <= 10
    ensures ReadS(s).Got? && ReadS(s).len == LebLen(s)
    ensures ReadS(s).value == SValue(s[..LebLen(s)]) <==> IsS64(SValue(s[..LebLen(s)]))
  {
    var t := s[..LebLen(s)];
    LebLenUnique(t, |t|);
    if |t| == 10 {
      TenBytes(t);
      assert t[..10] == s[..10];
    } else {
      ShortNumber(t);
      SValueSign(t);
    }
  }

  /** The three readers agree on lengths. Unsigned decoding succeeds exactly on
      skipped lengths up to ten; signed decoding accepts some longer ones. */
  lemma ReadersAgree(s: seq<Byte>)
    ensures ReadU(s).Got? <==> 1 <= SkipLen(s) <= 10
    ensures ReadU(s).Got? ==> ReadU(s).len == SkipLen(s)
    ensures ReadS(s).Got? ==> ReadS(s).len == SkipLen(s) != 0
    ensures ReadU(s).Got? ==> ReadS(s).Got? && ReadS(s).len == ReadU(s).len
  {}

  /** A number of n bytes: all but the last have the continuation bit. */
  predicate Ends(s: seq<Byte>, n: nat)
    requires 0 < n <= |s|
  {
    s[n - 1] < 128 && forall i :: 0 <= i < n - 1 ==> s[i] >= 128
  }

  /** Which byte strings the three readers accept, and how much of them they take. */
  lemma AcceptedIff(s: seq<Byte>, n: nat)
    requires 0 < n <= |s|
    ensures SkipLen(s) == n <==> n <= 24 && Ends(s, n)
    ensures ReadU(s).Got? && ReadU(s).len == n <==> n <= 10 && Ends(s, n)
    ensures ReadS(s).Got? && ReadS(s).len == n <==>
      && n <= 24 && Ends(s, n)
      && (n > 10 ==> (s[n - 1] == 0 || s[n - 1] == 64) && forall i :: 10 <= i < n - 1 ==> s[i] == 128)
  {
    if Ends(s, n) { LebLenUnique(s, n); }
  }

  /** What is read does not depend on what follows. */
  lemma ReadsOn(s: seq<Byte>, rest: seq<Byte>)
    ensures ReadU(s).Got? ==> ReadU(s + rest) == ReadU(s)
    ensures ReadS(s).Got? ==> ReadS(s + rest) == ReadS(s)
  {
    var n := LebLen(s);
    if n > 0 {
      LebLenPrefix(s, rest);
      assert n > 9 ==> (s + rest)[..n][..9] == s[..n][..9];
      assert n > 10 ==> (s + rest)[..10] == s[..10];
    }
  }

  /** Within nine bytes the two decoders see the same bit pattern. */
  lemma SameBits(s: seq<Byte>)
    requires 1 <= LebLen(s) <= 9
    ensures ReadU(s).Got? && ReadS(s).Got?
    ensures ReadU(s).value == 0 <==> ReadS(s).value == 0
    ensures ReadS(s).value == ReadU(s).value - (if s[LebLen(s) - 1] >= 64 then Pow128(LebLen(s)) else 0)
  {
    var t := s[..LebLen(s)];
    ShortNumber(t);
    SValueSign(t);
    if s[LebLen(s) - 1] >= 64 { LastDigit(t); }
  }

  lemma {:induction false} LastDigit(t: seq<Byte>)
    requires t != [] && Low7(t[|t| - 1]) != 0
    ensures UValue(t) > 0
  {
    if |t| > 1 { LastDigit(t[1..]); }
  }

  /** No shorter byte string denotes the same unsigned value, and no other one of
      the same length does. */
  lemma {:induction false} EncUShortest(s: seq<Byte>)
    requires |s| > 0 && LebLen(s) == |s|
    ensures |EncU(UValue(s))| <= |s|
    ensures |EncU(UValue(s))| == |s| ==> EncU(UValue(s)) == s
  {
    var d, q := Low7(s[0]), UValue(s[1..]);
    hide EncU;
    EncUStep(d, q);
    if |s| > 1 {
      EncUShortest(s[1..]);
      assert s == [s[0]] + s[1..];
    } else {
      assert q == 0;
    }
  }

  /** Zero with ten bytes of padding. */
  const PADDED_ZERO: seq<Byte> := [0x80, 0x80, 0x80, 0x80, 0x80, 0x80, 0x80, 0x80, 0x80, 0x80, 0]

  /** It denotes 0; the unsigned decoder refuses it, the signed decoder reads it, and
      the skipper takes its eleven bytes. */
  lemma PaddedZeroRefused()
    ensures UValue(PADDED_ZERO) == 0 && SValue(PADDED_ZERO) == 0
    ensures ReadU(PADDED_ZERO) == Fail && ReadS(PADDED_ZERO) == Got(0, 11) && SkipLen(PADDED_ZERO) == 11
  {
    hide UValue, SValue, LebLen;
    var s := PADDED_ZERO;
    LebLenUnique(s, 11);
    PaddedValue(s);
    PaddedValue(s[..10]);
  }

  lemma {:induction false} PaddedValue(s: seq<Byte>)
    requires s != [] && forall i :: 0 <= i < |s| ==> s[i] == 0x80 || s[i] == 0
    ensures UValue(s) == 0 && SValue(s) == 0
  {
    if |s| > 1 { PaddedValue(s[1..]); }
  }
}
