/** The discriminant list reader, libdwarf/dwarf_dsc.c. A DW_AT_discr_list block
    does not say whether its numbers are signed, so it is parsed lazily, once in
    each reading, into one shared array. */
module Discr {
  import opened Common
  import opened Leb

  /** One parsed entry: a single value (dsc zero, high zero) or a range. */
  datatype Parsed = Parsed(dsc: int, low: int, high: int)

  /** Dwarf_Dsc_Entry_s; the type field is shared by the two readings. */
  datatype Entry = Entry(ty: nat, lowU: int, highU: int, lowS: int, highS: int)

  function Read(s: seq<Byte>, unsigned: bool): (r: Decoded)
    ensures r.Got? ==> 1 <= r.len <= |s|
  {
    if unsigned then ReadU(s) else ReadS(s)
  }

  datatype One = Bad | Good(p: Parsed, len: nat)

  function ParseOne(s: seq<Byte>, unsigned: bool): (r: One)
    ensures r.Good? ==> 1 <= r.len <= |s|
  {
    match Read(s, unsigned)
    case Fail => Bad
    case Got(dsc, n) =>
      match Read(s[n..], unsigned)
      case Fail => Bad
      case Got(low, m) =>
        if dsc == 0 then Good(Parsed(dsc, low, 0), n + m)
        else match Read(s[n + m..], unsigned)
          case Fail => Bad
          case Got(high, k) => Good(Parsed(dsc, low, high), n + m + k)
  }

  function Parse(s: seq<Byte>, unsigned: bool): Option<seq<Parsed>> {
    if s == [] then Some([])
    else match ParseOne(s, unsigned)
      case Bad => None
      case Good(p, n) =>
        match Parse(s[n..], unsigned)
        case None => None
        case Some(ps) => Some([p] + ps)
  }

  /** The conversion of a descriptor to the 16-bit dsc_type. */
  function Half(dsc: int): (h: nat)
    ensures h < 65536 && exists k: int {:trigger 65536 * k} :: dsc == 65536 * k + h
  {
    assert dsc == 65536 * (dsc / 65536) + dsc % 0x1_0000;
    dsc % 0x1_0000
  }

  predicate Holds(e: Entry, p: Parsed, unsigned: bool) {
    if unsigned then e.lowU == p.low && e.highU == p.high
    else e.lowS == p.low && e.highS == p.high
  }

  function Store(e: Entry, p: Parsed, unsigned: bool): (r: Entry)
    ensures r.ty == Half(p.dsc) && Holds(r, p, unsigned)
    ensures if unsigned then r.lowS == e.lowS && r.highS == e.highS
            else r.lowU == e.lowU && r.highU == e.highU
  {
    if unsigned then e.(ty := Half(p.dsc), lowU := p.low, highU := p.high)
    else e.(ty := Half(p.dsc), lowS := p.low, highS := p.high)
  }

  method Decode(s: seq<Byte>, unsigned: bool) returns (r: Decoded)
    ensures r == Read(s, unsigned)
  {
    if unsigned { r := DecodeLeb128(s); } else { r := DecodeSignedLeb128(s); }
  }

  /** The two or three numbers of one entry. */
  method ReadEntry(s: seq<Byte>, unsigned: bool) returns (one: One)
    ensures one == ParseOne(s, unsigned)
  {
    hide ReadU, ReadS, Read;
    var dsc := Decode(s, unsigned);
    if dsc.Fail? { return Bad; }
    var q := dsc.len;
    var low := Decode(s[q..], unsigned);
    if low.Fail? { return Bad; }
    q := q + low.len;
    if dsc.value == 0 { return Good(Parsed(0, low.value, 0), q); }
    var high := Decode(s[q..], unsigned);
    if high.Fail? { return Bad; }
    return Good(Parsed(dsc.value, low.value, high.value), q + high.len);
  }

  predicate Recorded(es: seq<Entry>, ps: seq<Parsed>, unsigned: bool) {
    |ps| <= |es| &&
    forall i :: 0 <= i < |ps| ==> Holds(es[i], ps[i], unsigned) && es[i].ty == Half(ps[i].dsc)
  }

  /** The fields of the other reading are as they were. */
  predicate OtherKept(es: seq<Entry>, was: seq<Entry>, unsigned: bool) {
    |es| == |was| &&
    forall i :: 0 <= i < |es| ==>
      if unsigned then es[i].lowS == was[i].lowS && es[i].highS == was[i].highS
      else es[i].lowU == was[i].lowU && es[i].highU == was[i].highU
  }

  /** get_dsc_leb_entries with a null array: count the entries. */
  method CountEntries(block: seq<Byte>, unsigned: bool) returns (ok: bool, n: nat)
    ensures ok == Parse(block, unsigned).Some?
    ensures ok ==> n == |Parse(block, unsigned).value|
  {
    var none := new Entry[0];
    ok, n := GetDscLebEntries(block, unsigned, none, false);
  }

  /** get_dsc_leb_entries: counts when there is no array to record in, otherwise
      also records. The reading that is not being loaded is never touched,
      whatever happens. */
  method GetDscLebEntries(block: seq<Byte>, unsigned: bool, ary: array<Entry>, record: bool)
    returns (ok: bool, n: nat)
    modifies if record then {ary} else {}
    ensures !record ==> ok == Parse(block, unsigned).Some?
    ensures record ==> ok == (ary.Length > 0 && Parse(block, unsigned).Some?
                              && |Parse(block, unsigned).value| == ary.Length)
    ensures ok ==> n == |Parse(block, unsigned).value|
    ensures ok && record ==> Recorded(ary[..], Parse(block, unsigned).value, unsigned)
    ensures record ==> OtherKept(ary[..], old(ary[..]), unsigned)
  {
    hide ParseOne;
    if record && ary.Length == 0 { return false, 0; }
    var p := 0;
    n := 0;
    ghost var done: seq<Parsed> := [];
    ghost var want := Parse(block, unsigned);
    assert block[0..] == block && forall ps: seq<Parsed> :: [] + ps == ps;
    while p < |block|
      invariant 0 <= p <= |block| && n == |done|
      invariant want == match Parse(block[p..], unsigned) { case None => None case Some(ps) => Some(done + ps) }
      invariant record ==> Recorded(ary[..], done, unsigned) && OtherKept(ary[..], old(ary[..]), unsigned)
    {
      ghost var rest := Parse(block[p..], unsigned);
      if record && n >= ary.Length {
        assert rest.Some? ==> |rest.value| > 0;
        return false, 0;
      }
      var one := ReadEntry(block[p..], unsigned);
      if one.Bad? { return false, 0; }
      assert block[p..][one.len..] == block[p + one.len..];
      assert forall ps: seq<Parsed> :: done + ([one.p] + ps) == done + [one.p] + ps;
      if record {
        ary[n] := Store(ary[n], one.p, unsigned);
      }
      n, p, done := n + 1, p + one.len, done + [one.p];
    }
    assert done + [] == done && want == Some(done);
    if record && ary.Length != n { return false, n; }
    return true, n;
  }

  predicate Short(s: seq<Byte>) { 1 <= LebLen(s) <= 9 }

  /** The length of an entry whose numbers take at most nine bytes each and whose
      descriptor is 0 or 1; zero for any other entry. */
  function EntryLen(s: seq<Byte>): (len: nat)
    ensures len <= |s|
  {
    if !Short(s) || ReadS(s).value < 0 || ReadS(s).value > 1 then 0
    else
      var n := LebLen(s);
      if !Short(s[n..]) then 0
      else
        var m := n + LebLen(s[n..]);
        if ReadS(s).value == 0 then m
        else if !Short(s[m..]) then 0 else m + LebLen(s[m..])
  }

  /** The blocks for which both readings are possible. */
  predicate Agreeable(s: seq<Byte>) {
    s == [] || (EntryLen(s) > 0 && Agreeable(s[EntryLen(s)..]))
  }

  /** A number of at most nine bytes is read by both decoders, in step. */
  lemma BothRead(s: seq<Byte>)
    requires 1 <= LebLen(s) <= 9
    ensures ReadU(s).Got? && ReadS(s).Got? && ReadU(s).len == ReadS(s).len == LebLen(s)
    ensures ReadU(s).value == 0 <==> ReadS(s).value == 0
    ensures 0 <= ReadS(s).value <= 1 ==> ReadU(s).value == ReadS(s).value
  {
    hide ReadU, ReadS;
    SameBits(s);
    ReadersAgree(s);
    SkipShort(s);
    if 0 <= ReadS(s).value <= 1 { OneBit(s); }
  }

  lemma SkipShort(s: seq<Byte>)
    requires 1 <= LebLen(s) <= 9
    ensures SkipLen(s) == LebLen(s)
  {}

  lemma AgreeableOne(s: seq<Byte>)
    requires EntryLen(s) > 0
    ensures ParseOne(s, true).Good? && ParseOne(s, false).Good?
    ensures ParseOne(s, true).len == ParseOne(s, false).len == EntryLen(s)
    ensures 0 <= ParseOne(s, true).p.dsc == ParseOne(s, false).p.dsc <= 1
  {
    hide ReadU, ReadS, LebLen;
    var n := LebLen(s);
    var m := n + LebLen(s[n..]);
    BothRead(s);
    BothRead(s[n..]);
    if ReadS(s).value != 0 { BothRead(s[m..]); }
  }

  /** Zero and one have the same unsigned reading. */
  lemma OneBit(s: seq<Byte>)
    requires 1 <= LebLen(s) <= 9 && 0 <= ReadS(s).value <= 1
    ensures ReadU(s).value == ReadS(s).value
  {
    hide ReadU, ReadS;
    var n := LebLen(s);
    SameBits(s);
    if s[n - 1] >= 64 { NegativeTop(s); }
  }

  lemma NegativeTop(s: seq<Byte>)
    requires 1 <= LebLen(s) <= 9 && s[LebLen(s) - 1] >= 64
    ensures ReadS(s).value < 0
  {
    SignExtension(s, LebLen(s));
  }

  /** On an agreeable block both readings succeed, find the same entries and give
      them the same type. */
  lemma {:induction false} BothReadings(s: seq<Byte>)
    requires Agreeable(s)
    ensures Parse(s, true).Some? && Parse(s, false).Some?
    ensures |Parse(s, true).value| == |Parse(s, false).value|
    ensures forall i :: 0 <= i < |Parse(s, true).value| ==>
      0 <= Parse(s, true).value[i].dsc == Parse(s, false).value[i].dsc <= 1
    decreases |s|
  {
    hide ParseOne, EntryLen;
    if s != [] {
      AgreeableOne(s);
      BothReadings(s[ParseOne(s, true).len..]);
    }
  }

  /** A discriminant list as a producer writes it (section 7.20 of DWARF 5): a label
      is 0 and the value, a range is 1, the low and the high bound. */
  datatype Choice = Label(value: int) | Range(low: int, high: int)

  predicate NumberFits(v: int, unsigned: bool) { if unsigned then IsU64(v) else IsS64(v) }

  predicate ChoiceFits(c: Choice, unsigned: bool) {
    match c
    case Label(v) => NumberFits(v, unsigned)
    case Range(low, high) => NumberFits(low, unsigned) && NumberFits(high, unsigned)
  }

  function EncNumber(v: int, unsigned: bool): seq<Byte>
    requires NumberFits(v, unsigned)
  {
    if unsigned then EncU(v) else EncS(v)
  }

  function EncChoice(c: Choice, unsigned: bool): seq<Byte>
    requires ChoiceFits(c, unsigned)
  {
    match c
    case Label(v) => [0] + EncNumber(v, unsigned)
    case Range(low, high) => [1] + EncNumber(low, unsigned) + EncNumber(high, unsigned)
  }

  function EncList(cs: seq<Choice>, unsigned: bool): seq<Byte>
    requires forall c :: c in cs ==> ChoiceFits(c, unsigned)
  {
    if cs == [] then [] else EncChoice(cs[0], unsigned) + EncList(cs[1..], unsigned)
  }

  /** What is recorded of each. */
  predicate Records(p: Parsed, c: Choice) {
    match c
    case Label(v) => p == Parsed(0, v, 0)
    case Range(low, high) => p == Parsed(1, low, high)
  }

  lemma NumberReadBack(v: int, unsigned: bool, rest: seq<Byte>)
    requires NumberFits(v, unsigned)
    ensures Read(EncNumber(v, unsigned) + rest, unsigned) == Got(v, |EncNumber(v, unsigned)|)
  {
    hide ReadU, ReadS;
    if unsigned { RoundTripU(v, rest); } else { RoundTripS(v, rest); }
  }

  lemma FirstNumber(v: int, unsigned: bool)
    requires v == 0 || v == 1
    ensures NumberFits(v, unsigned) && EncNumber(v, unsigned) == [v]
  {
    hide ReadU, ReadS;
  }

  lemma LabelReadBack(v: int, unsigned: bool, rest: seq<Byte>)
    requires NumberFits(v, unsigned)
    ensures ParseOne([0] + EncNumber(v, unsigned) + rest, unsigned) == Good(Parsed(0, v, 0), 1 + |EncNumber(v, unsigned)|)
  {
    hide Read, EncNumber;
    var n := EncNumber(v, unsigned);
    var s := [0] + n + rest;
    FirstNumber(0, unsigned);
    NumberReadBack(0, unsigned, n + rest);
    NumberReadBack(v, unsigned, rest);
    assert s == [0] + (n + rest) && s[1..] == n + rest;
  }

  lemma RangeReadBack(low: int, high: int, unsigned: bool, rest: seq<Byte>)
    requires NumberFits(low, unsigned) && NumberFits(high, unsigned)
    ensures ParseOne([1] + EncNumber(low, unsigned) + EncNumber(high, unsigned) + rest, unsigned)
      == Good(Parsed(1, low, high), 1 + |EncNumber(low, unsigned)| + |EncNumber(high, unsigned)|)
  {
    hide Read, EncNumber;
    var n, m := EncNumber(low, unsigned), EncNumber(high, unsigned);
    var s := [1] + n + m + rest;
    FirstNumber(1, unsigned);
    NumberReadBack(1, unsigned, n + (m + rest));
    NumberReadBack(low, unsigned, m + rest);
    NumberReadBack(high, unsigned, rest);
    assert s == [1] + (n + (m + rest)) && s[1..] == n + (m + rest) && s[1 + |n|..] == m + rest;
  }

  lemma ChoiceReadBack(c: Choice, unsigned: bool, rest: seq<Byte>)
    requires ChoiceFits(c, unsigned)
    ensures var one := ParseOne(EncChoice(c, unsigned) + rest, unsigned);
      one.Good? && Records(one.p, c) && one.len == |EncChoice(c, unsigned)|
  {
    hide ParseOne, EncNumber;
    match c
    case Label(v) => LabelReadBack(v, unsigned, rest);
    case Range(low, high) => RangeReadBack(low, high, unsigned, rest);
  }

  /** A discriminant list is parsed to what was written. */
  lemma {:induction false} ListReadBack(cs: seq<Choice>, unsigned: bool)
    requires forall c :: c in cs ==> ChoiceFits(c, unsigned)
    ensures var ps := Parse(EncList(cs, unsigned), unsigned);
      ps.Some? && |ps.value| == |cs| && forall i :: 0 <= i < |cs| ==> Records(ps.value[i], cs[i])
  {
    hide ParseOne, EncChoice, Records;
    if cs != [] {
      var rest := EncList(cs[1..], unsigned);
      ChoiceReadBack(cs[0], unsigned, rest);
      ListReadBack(cs[1..], unsigned);
      var s := EncList(cs, unsigned);
      assert s[|EncChoice(cs[0], unsigned)|..] == rest;
    }
  }

  predicate LowsAndHighs(es: seq<Entry>, ps: seq<Parsed>, unsigned: bool) {
    |ps| == |es| && forall i :: 0 <= i < |ps| ==> Holds(es[i], ps[i], unsigned)
  }

  predicate Types(es: seq<Entry>, ps: seq<Parsed>) {
    |ps| == |es| && forall i :: 0 <= i < |ps| ==> es[i].ty == Half(ps[i].dsc)
  }

  /** Dwarf_Dsc_Head_s. */
  class DscHead {
    const block: seq<Byte>
    const entries: array<Entry>
    var setUnsigned: bool
    var setSigned: bool

    ghost predicate Valid()
      reads this, entries
    {
      && entries.Length > 0
      && Parse(block, false).Some? && |Parse(block, false).value| == entries.Length
      && (setSigned ==> LowsAndHighs(entries[..], Parse(block, false).value, false))
      && (setUnsigned ==> Parse(block, true).Some? && LowsAndHighs(entries[..], Parse(block, true).value, true))
      && (Agreeable(block) && (setSigned || setUnsigned) ==> Types(entries[..], Parse(block, false).value))
    }

    constructor (block: seq<Byte>, count: nat)
      requires count > 0 && Parse(block, false).Some? && |Parse(block, false).value| == count
      ensures Valid() && this.block == block && fresh(entries)
      ensures !setUnsigned && !setSigned
    {
      this.block := block;
      entries := new Entry[count](_ => Entry(0, 0, 0, 0, 0));
      setUnsigned, setSigned := false, false;
    }

    /** dwarf_discr_entry_u: whatever was loaded before, the low and high values
        are those of the unsigned reading of the block. */
    method EntryU(n: nat) returns (r: Res<(nat, int, int)>)
      requires Valid()
      modifies this, entries
      ensures Valid()
      ensures n >= entries.Length <==> r.NoEntry?
      ensures r.Ok? ==> Parse(block, true).Some? && |Parse(block, true).value| == entries.Length
      ensures r.Ok? ==> r.value.1 == Parse(block, true).value[n].low && r.value.2 == Parse(block, true).value[n].high
      ensures n < entries.Length && Parse(block, true).Some? && |Parse(block, true).value| == entries.Length ==> r.Ok?
      ensures Agreeable(block) && n < entries.Length ==>
        r.Ok? && Parse(block, true).Some? && |Parse(block, true).value| == entries.Length
        && r.value.0 == Parse(block, true).value[n].dsc
    {
      hide Parse, Agreeable;
      if Agreeable(block) { BothReadings(block); }
      if n >= entries.Length { return NoEntry; }
      if !setUnsigned {
        var ok, _ := GetDscLebEntries(block, true, entries, true);
        if !ok {
          return Error;
        }
        setUnsigned := true;
      }
      var e := entries[n];
      return Ok((e.ty, e.lowU, e.highU));
    }

    /** dwarf_discr_entry_s, likewise for the signed reading. */
    method EntryS(n: nat) returns (r: Res<(nat, int, int)>)
      requires Valid()
      modifies this, entries
      ensures Valid()
      ensures n >= entries.Length <==> r.NoEntry?
      ensures n < entries.Length ==> r.Ok?
      ensures r.Ok? ==> r.value.1 == Parse(block, false).value[n].low && r.value.2 == Parse(block, false).value[n].high
      ensures Agreeable(block) && n < entries.Length ==> r.value.0 == Parse(block, false).value[n].dsc
    {
      hide Parse, Agreeable;
      if Agreeable(block) { BothReadings(block); }
      if n >= entries.Length { return NoEntry; }
      if !setSigned {
        var ok, _ := GetDscLebEntries(block, false, entries, true);
        if !ok { return Error; }
        setSigned := true;
      }
      var e := entries[n];
      return Ok((e.ty, e.lowS, e.highS));
    }
  }

  /** dwarf_discr_list. */
  method DiscrList(block: seq<Byte>) returns (r: Res<DscHead>)
    ensures r.NoEntry? <==> block == []
    ensures r.Error? <==> block != [] && Parse(block, false).None?
    ensures r.Ok? ==> fresh(r.value) && fresh(r.value.entries) && r.value.Valid() && r.value.block == block
  {
    if |block| == 0 { return NoEntry; }
    var counted, n := CountEntries(block, false);
    if !counted { return Error; }
    assert n > 0 by { assert Parse(block, false).value != []; }
    var head := new DscHead(block, n);
    return Ok(head);
  }
}
