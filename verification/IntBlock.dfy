/** dwarf_uncompress_integer_block_a, libdwarf/dwarf_form.c: a block of signed
    LEB128 numbers is counted in one pass and expanded in a second one. */
module IntBlock {
  import opened Common
  import opened Leb

  /** The conversion of the 64-bit block length to the int "remain". */
  function ToInt32(n: nat): (r: int)
    ensures r == n <==> n < 0x8000_0000
    ensures -2147483648 <= r < 2147483648 && exists k: nat {:trigger 4294967296 * k} :: n == 4294967296 * k + r
  {
    var u := n % 0x1_0000_0000;
    assert n == 4294967296 * (n / 4294967296) + u == 4294967296 * (n / 4294967296 + 1) + (u - 4294967296);
    if u < 0x8000_0000 then u else u - 0x1_0000_0000
  }

  /** The numbers at the front of data that take exactly remain bytes. Reading
      may look beyond remain, up to the end of data. */
  function Expand(data: seq<Byte>, remain: int): Option<seq<int>>
    decreases |data|
  {
    if remain < 0 then None
    else if remain == 0 then Some([])
    else match ReadS(data)
      case Fail => None
      case Got(v, n) =>
        match Expand(data[n..], remain - n)
        case None => None
        case Some(vs) => Some([v] + vs)
  }

  lemma Onward(data: seq<Byte>, p: nat, n: nat)
    requires p + n <= |data|
    ensures data[p..][n..] == data[p + n..]
  {}

  lemma NextOf(done: seq<int>, i: nat, v: int, tail: seq<int>)
    requires i < |done| && done[i..] == [v] + tail
    ensures done[i] == v && done[i + 1..] == tail
  {
    assert done[i] == done[i..][0] && done[i + 1..] == done[i..][1..];
  }

  method UncompressIntegerBlock(data: seq<Byte>) returns (ok: bool, values: array<int>)
    ensures fresh(values)
    ensures ok == Expand(data, ToInt32(|data|)).Some?
    ensures ok ==> values[..] == Expand(data, ToInt32(|data|)).value
  {
    hide ReadS;
    values := new int[0];
    var count, ptr, remain := 0, 0, ToInt32(|data|);
    ghost var want := Expand(data, remain);
    ghost var done: seq<int> := [];
    assert data[0..] == data && forall vs: seq<int> :: [] + vs == vs;
    while remain > 0
      invariant 0 <= ptr <= |data| && count == |done|
      invariant want == match Expand(data[ptr..], remain) { case None => None case Some(vs) => Some(done + vs) }
    {
      var d := DecodeSignedLeb128(data[ptr..]);
      if d.Fail? { return false, values; }
      Onward(data, ptr, d.len);
      assert forall vs: seq<int> :: done + ([d.value] + vs) == done + [d.value] + vs;
      ptr, remain, count, done := ptr + d.len, remain - d.len, count + 1, done + [d.value];
    }
    if remain != 0 { return false, values; }
    assert done + [] == done && want == Some(done);
    values := new int[count];
    ptr, remain := 0, ToInt32(|data|);
    var i := 0;
    assert data[0..] == data && done[0..] == done;
    while i < count && remain > 0
      invariant 0 <= i <= count && 0 <= ptr <= |data|
      invariant values[..i] == done[..i]
      invariant Expand(data[ptr..], remain) == Some(done[i..])
      decreases count - i
    {
      var d := DecodeSignedLeb128(data[ptr..]);
      if d.Fail? { assert false; return false, values; }
      Onward(data, ptr, d.len);
      NextOf(done, i, d.value, Expand(data[ptr + d.len..], remain - d.len).value);
      values[i] := d.value;
      ptr, remain, i := ptr + d.len, remain - d.len, i + 1;
    }
    if remain != 0 { return false, values; }
    return true, values;
  }

  /** A list as its producer writes it. */
  function Compress(vs: seq<int>): seq<Byte> {
    if vs == [] then [] else EncS(vs[0]) + Compress(vs[1..])
  }

  predicate AllS64(vs: seq<int>) { forall v :: v in vs ==> IsS64(v) }

  lemma {:induction false} ExpandCompress(vs: seq<int>, tail: seq<Byte>)
    requires AllS64(vs)
    ensures Expand(Compress(vs) + tail, |Compress(vs)|) == Some(vs)
  {
    hide ReadS, EncS;
    if vs != [] {
      var e, rest := EncS(vs[0]), Compress(vs[1..]) + tail;
      RoundTripS(vs[0], rest);
      ExpandCompress(vs[1..], tail);
      assert Compress(vs) + tail == e + rest;
      assert (e + rest)[|e|..] == rest;
      assert vs == [vs[0]] + vs[1..];
    }
  }

  /** Whatever length is claimed, only a prefix of that length can come back. */
  lemma {:induction false} ExpandPrefix(vs: seq<int>, remain: int)
    requires AllS64(vs)
    requires Expand(Compress(vs), remain).Some?
    ensures Expand(Compress(vs), remain).value <= vs
    ensures |Compress(Expand(Compress(vs), remain).value)| == remain
    decreases |vs|
  {
    hide ReadS, EncS;
    if remain != 0 {
      assert vs != [];
      var e, rest := EncS(vs[0]), Compress(vs[1..]);
      RoundTripS(vs[0], rest);
      assert (e + rest)[|e|..] == rest;
      ExpandPrefix(vs[1..], remain - |e|);
      var ws := Expand(rest, remain - |e|).value;
      assert Expand(Compress(vs), remain).value == [vs[0]] + ws;
      assert ([vs[0]] + ws)[1..] == ws;
      assert vs == [vs[0]] + vs[1..];
    }
  }

  /** The expansion gives back every list of 64-bit values, except that the int
      "remain" limits the block to less than 2^31 bytes: from there on the
      result is an error or an incomplete list. */
  lemma RoundTrip(vs: seq<int>)
    requires AllS64(vs)
    ensures var data := Compress(vs);
            Expand(data, ToInt32(|data|)) == Some(vs) <==> |data| < 0x8000_0000
  {
    hide ReadS, EncS;
    var data := Compress(vs);
    if |data| < 0x8000_0000 {
      ExpandCompress(vs, []);
      assert data + [] == data;
    } else if Expand(data, ToInt32(|data|)) == Some(vs) {
      ExpandPrefix(vs, ToInt32(|data|));
      assert false;
    }
  }

  lemma ZeroByte()
    ensures EncS(0) == [0]
  {}

  lemma {:induction false} ZerosTake(n: nat)
    ensures AllS64(seq(n, _ => 0)) && |Compress(seq(n, _ => 0))| == n
  {
    hide EncS;
    var vs := seq(n, _ => 0);
    if n > 0 {
      ZeroByte();
      assert vs[1..] == seq(n - 1, _ => 0);
      ZerosTake(n - 1);
    }
  }

  /** 2^31 zeros are a block of 2^31 bytes, which does not come back: the length turns
      negative, and that is an error. */
  lemma TooManyZeros()
    ensures var data := Compress(seq(0x8000_0000, _ => 0));
      |data| == 0x8000_0000 && ToInt32(|data|) < 0 && Expand(data, ToInt32(|data|)) == None
  {
    hide EncS, Compress;
    ZerosTake(0x8000_0000);
  }
}
