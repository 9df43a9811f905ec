/** Frame sections as producers write them, and what the scan of FdeList makes of
    them. The encoding follows section 7.4 and section 7.24 of DWARF 5 and the
    .eh_frame format, and shares nothing with the reader. */
module FrameSection {
  import opened Common
  import opened Words
  import opened FdeList

  /** An entry in the 32-bit or the 64-bit format, with what follows its id field.
      An FDE belongs to the CIE that is item number cie of the section. */
  datatype Item = CieItem(wide: bool, rest: seq<Byte>) | FdeItem(wide: bool, rest: seq<Byte>, cie: nat)

  function Width(it: Item): nat { if it.wide then 8 else 4 }
  function Header(it: Item): nat { if it.wide then 20 else 8 }

  /** Where item k begins, and where item k - 1 ends. */
  function Start(items: seq<Item>, k: nat): nat
    requires k <= |items|
  {
    if k == 0 then 0 else Start(items, k - 1) + Header(items[k - 1]) + |items[k - 1].rest|
  }

  /** The CIE that item k is or belongs to. */
  function Own(items: seq<Item>, k: nat): nat
    requires k < |items|
  {
    if items[k].CieItem? then k else items[k].cie
  }

  predicate Closed(items: seq<Item>) {
    forall k :: 0 <= k < |items| ==> Own(items, k) < |items| && items[Own(items, k)].CieItem?
  }

  /** The number in the id field: a mark for a CIE, zero in .eh_frame and all ones in
      .debug_frame; for an FDE the place of its CIE, in .eh_frame as the distance
      back to it from the id field, in .debug_frame from the start of the section. */
  function Id(items: seq<Item>, eh: bool, k: nat): int
    requires Closed(items) && k < |items|
  {
    match items[k]
    case CieItem(wide, _) => if eh then 0 else if wide then 0xffff_ffff_ffff_ffff else 0xffff_ffff
    case FdeItem(wide, _, _) =>
      var cie := Start(items, Own(items, k));
      if eh then Start(items, k) + (if wide then 12 else 4) - cie else cie
  }

  /** Does the field have room for it? Distances are signed; the place of a CIE in
      .debug_frame is not, and must not look like the mark. */
  predicate IdFits(items: seq<Item>, eh: bool, k: nat)
    requires Closed(items) && k < |items|
  {
    var wide := items[k].wide;
    if eh then (if wide then -TWO63 <= Id(items, eh, k) < TWO63 else -0x8000_0000 <= Id(items, eh, k) < 0x8000_0000)
    else items[k].FdeItem? ==> Id(items, eh, k) < if wide then 0xffff_ffff_ffff_ffff else 0xffff_ffff
  }

  /** The field: two's complement for a negative distance. */
  function IdField(items: seq<Item>, eh: bool, k: nat): (v: nat)
    requires Closed(items) && k < |items| && IdFits(items, eh, k)
    ensures v < if items[k].wide then TWO64 else 0x1_0000_0000
  {
    var id := Id(items, eh, k);
    if id >= 0 then id else if items[k].wide then id + TWO64 else id + 0x1_0000_0000
  }

  predicate Fits(items: seq<Item>, eh: bool, k: nat)
    requires Closed(items) && k < |items|
  {
    IdFits(items, eh, k) && |items[k].rest| + Width(items[k]) < if items[k].wide then TWO64 else 0xffff_ffff
  }

  /** Initial length, id, rest. */
  function Written(it: Item, id: nat): (s: seq<Byte>)
    ensures |s| == Header(it) + |it.rest|
  {
    if it.wide then EncFixed(0xffff_ffff, 4) + (EncFixed(8 + |it.rest|, 8) + (EncFixed(id, 8) + it.rest))
    else EncFixed(4 + |it.rest|, 4) + (EncFixed(id, 4) + it.rest)
  }

  predicate Writable(items: seq<Item>, eh: bool) {
    Closed(items) && forall k :: 0 <= k < |items| ==> Fits(items, eh, k)
  }

  function ItemBytes(items: seq<Item>, eh: bool, k: nat): (s: seq<Byte>)
    requires Writable(items, eh) && k < |items|
    ensures |s| == Header(items[k]) + |items[k].rest|
  {
    assert Fits(items, eh, k);
    Written(items[k], IdField(items, eh, k))
  }

  /** The first n items of the section. */
  function Layout(items: seq<Item>, eh: bool, n: nat): (s: seq<Byte>)
    requires Writable(items, eh) && n <= |items|
    ensures |s| == Start(items, n)
  {
    if n == 0 then [] else Layout(items, eh, n - 1) + ItemBytes(items, eh, n - 1)
  }

  /** The section begins with the items. Something stands behind every id field. */
  predicate Begins(sec: Section, items: seq<Item>, tail: seq<Byte>) {
    && Writable(items, sec.gnu)
    && sec.bytes == Layout(items, sec.gnu, |items|) + tail
    && sec.cieId == (if sec.gnu then 0 else 0xffff_ffff_ffff_ffff)
    && (forall k :: 0 <= k < |items| ==> Start(items, k) + Header(items[k]) < |sec.bytes|)
  }

  /** It holds nothing else; four zero bytes end it early. */
  predicate Holds(sec: Section, items: seq<Item>, tail: seq<Byte>) {
    Begins(sec, items, tail) && (tail != [] ==> [0, 0, 0, 0] <= tail)
  }

  /** The only thing a writer can get wrong here: the reader takes an id field for
      signed, so the place of a CIE in .debug_frame must be below half the range. */
  predicate Reached(items: seq<Item>, eh: bool, k: nat)
    requires Closed(items) && k < |items|
  {
    items[k].FdeItem? && !eh ==> Start(items, Own(items, k)) < if items[k].wide then TWO63 else 0x8000_0000
  }

  /** What is read behind the id field is acceptable. */
  predicate RestOk(sec: Section, items: seq<Item>, k: nat)
    requires Closed(items) && k < |items|
  {
    var cie := Start(items, Own(items, k));
    sec.cieOk(cie) && (items[k].FdeItem? ==>
      var body := sec.fdeBody(Start(items, k), cie);
      body.Some? && body.value.instrStart <= Start(items, k + 1))
  }

  /** The CIEs among the first n items and those their FDEs belong to, each once, in
      the order in which they are first met. */
  function Met(items: seq<Item>, n: nat): (s: seq<nat>)
    requires Closed(items) && n <= |items|
    ensures forall i :: 0 <= i < |s| ==> s[i] < |items| && items[s[i]].CieItem?
  {
    if n == 0 then []
    else
      var before, c := Met(items, n - 1), Own(items, n - 1);
      if c in before then before else before + [c]
  }

  /** The FDEs among the first n items. */
  function Fdes(items: seq<Item>, n: nat): (s: seq<nat>)
    requires n <= |items|
    ensures forall i :: 0 <= i < |s| ==> s[i] < n && items[s[i]].FdeItem?
  {
    if n == 0 then [] else if items[n - 1].CieItem? then Fdes(items, n - 1) else Fdes(items, n - 1) + [n - 1]
  }

  /** The lists hold exactly the CIEs and the FDEs of the section, each where it lies
      and with what it reads, every FDE with its own CIE. */
  predicate Listed(sec: Section, items: seq<Item>, l: Lists)
    requires Closed(items)
  {
    var met, fdes := Met(items, |items|), Fdes(items, |items|);
    && |l.cies| == |met|
    && (forall i :: 0 <= i < |met| ==> l.cies[i] == Cie(Start(items, met[i]), Start(items, met[i] + 1), i))
    && |l.fdes| == |fdes|
    && forall i :: 0 <= i < |fdes| ==> FdeListed(sec, items, met, fdes[i], l.fdes[i])
  }

  predicate FdeListed(sec: Section, items: seq<Item>, met: seq<nat>, k: nat, f: Fde)
    requires Closed(items) && k < |items| && items[k].FdeItem?
  {
    && f.start == Start(items, k) && f.end == Start(items, k + 1)
    && f.cieIndex < |met| && met[f.cieIndex] == Own(items, k) && f.cie == Start(items, Own(items, k))
    && sec.fdeBody(f.start, f.cie) == Some(f.body)
  }

  // ------------------------------------------------------------- the proof

  lemma {:induction false} Upward(items: seq<Item>, j: nat, k: nat)
    requires j < k <= |items|
    ensures Start(items, j) + Header(items[j]) + |items[j].rest| <= Start(items, k)
    decreases k
  {
    if j < k - 1 { Upward(items, j, k - 1); }
  }

  lemma StartsAtZero(items: seq<Item>)
    ensures Start(items, 0) == 0
  {}

  lemma SameStart(items: seq<Item>, j: nat, k: nat)
    requires j < |items| && k < |items|
    ensures Start(items, j) == Start(items, k) <==> j == k
  {
    hide Start;
    if j < k { Upward(items, j, k); } else if k < j { Upward(items, k, j); }
  }

  lemma {:induction false} LayoutGrows(items: seq<Item>, eh: bool, k: nat, n: nat)
    requires Writable(items, eh) && k < n <= |items|
    ensures At(Layout(items, eh, n), Start(items, k), ItemBytes(items, eh, k))
    decreases n
  {
    hide ItemBytes, Fits;
    if k < n - 1 {
      LayoutGrows(items, eh, k, n - 1);
      var less, part := Layout(items, eh, n - 1), ItemBytes(items, eh, k);
      var p := Start(items, k);
      assert Layout(items, eh, n)[p..p + |part|] == less[p..p + |part|];
    }
  }

  lemma ItemAt(sec: Section, items: seq<Item>, tail: seq<Byte>, k: nat)
    requires Begins(sec, items, tail) && k < |items|
    ensures At(sec.bytes, Start(items, k), ItemBytes(items, sec.gnu, k))
  {
    hide ItemBytes, Fits, Start, Layout;
    LayoutGrows(items, sec.gnu, k, |items|);
    var all, part, p := Layout(items, sec.gnu, |items|), ItemBytes(items, sec.gnu, k), Start(items, k);
    assert sec.bytes[p..p + |part|] == all[p..p + |part|];
  }

  /** The prefix that should be read of item k. */
  ghost function Pre(items: seq<Item>, eh: bool, k: nat): Prefix
    requires Closed(items) && k < |items| && IdFits(items, eh, k)
  {
    var it, p := items[k], Start(items, k);
    Prefix(p, p + Header(it), Width(it) + |it.rest|, Width(it), if it.wide then 4 else 0,
           SignExtend(IdField(items, eh, k), Width(it)), p + Header(it) - Width(it))
  }

  lemma NarrowRead(bytes: seq<Byte>, p: nat, it: Item, id: nat)
    requires !it.wide && At(bytes, p, Written(it, id)) && id < Bound(4)
    requires 4 + |it.rest| < 0xffff_ffff && p + 8 < |bytes|
    ensures ReadPrefix(bytes, p) == Ok(Prefix(p, p + 8, 4 + |it.rest|, 4, 0, SignExtend(id, 4), p + 4))
  {
    hide EncFixed, FixedValue, SignExtend;
    var length := 4 + |it.rest|;
    AtSplit(bytes, p, EncFixed(length, 4), EncFixed(id, 4) + it.rest);
    AtSplit(bytes, p + 4, EncFixed(id, 4), it.rest);
    FixedRoundTrip(length, 4);
    FixedRoundTrip(id, 4);
  }

  lemma WideRead(bytes: seq<Byte>, p: nat, it: Item, id: nat)
    requires it.wide && At(bytes, p, Written(it, id)) && id < Bound(8)
    requires 8 + |it.rest| < TWO64 && p + 20 < |bytes|
    ensures ReadPrefix(bytes, p) == Ok(Prefix(p, p + 20, 8 + |it.rest|, 8, 4, SignExtend(id, 8), p + 12))
  {
    hide EncFixed, FixedValue, SignExtend;
    var length := 8 + |it.rest|;
    AtSplit(bytes, p, EncFixed(0xffff_ffff, 4), EncFixed(length, 8) + (EncFixed(id, 8) + it.rest));
    AtSplit(bytes, p + 4, EncFixed(length, 8), EncFixed(id, 8) + it.rest);
    AtSplit(bytes, p + 12, EncFixed(id, 8), it.rest);
    FixedRoundTrip(0xffff_ffff, 4);
    FixedRoundTrip(length, 8);
    FixedRoundTrip(id, 8);
  }

  lemma ItemRead(bytes: seq<Byte>, p: nat, it: Item, id: nat)
    requires At(bytes, p, Written(it, id)) && id < Bound(Width(it)) && p + Header(it) < |bytes|
    requires |it.rest| + Width(it) < if it.wide then TWO64 else 0xffff_ffff
    ensures ReadPrefix(bytes, p) == Ok(Prefix(p, p + Header(it), Width(it) + |it.rest|, Width(it), if it.wide then 4 else 0,
                                              SignExtend(id, Width(it)), p + Header(it) - Width(it)))
  {
    hide Written, ReadPrefix, SignExtend, At;
    if it.wide { WideRead(bytes, p, it, id); } else { NarrowRead(bytes, p, it, id); }
  }

  lemma PreRead(sec: Section, items: seq<Item>, tail: seq<Byte>, k: nat)
    requires Begins(sec, items, tail) && k < |items|
    ensures IdFits(items, sec.gnu, k)
    ensures ReadPrefix(sec.bytes, Start(items, k)) == Ok(Pre(items, sec.gnu, k))
    ensures Pre(items, sec.gnu, k).End() == Start(items, k + 1)
  {
    hide Written, Start, Layout, ReadPrefix, SignExtend, Id, IdField, At, Closed;
    ItemAt(sec, items, tail, k);
    assert Fits(items, sec.gnu, k);
    StartNext(items, k);
    ItemRead(sec.bytes, Start(items, k), items[k], IdField(items, sec.gnu, k));
  }

  lemma StartNext(items: seq<Item>, k: nat)
    requires k < |items|
    ensures Start(items, k + 1) == Start(items, k) + Header(items[k]) + |items[k].rest|
  {}

  ghost function Pres(items: seq<Item>, eh: bool, n: nat): (s: seq<Prefix>)
    requires Writable(items, eh) && n <= |items|
    ensures |s| == n
  {
    if n == 0 then []
    else
      assert Fits(items, eh, n - 1);
      Pres(items, eh, n - 1) + [Pre(items, eh, n - 1)]
  }

  lemma ZeroWord()
    ensures FixedValue([0, 0, 0, 0]) == 0
  {
    assert EncFixed(0, 4) == [0, 0, 0, 0];
    FixedRoundTrip(0, 4);
  }

  lemma EndOfItems(sec: Section, items: seq<Item>, tail: seq<Byte>)
    requires Holds(sec, items, tail)
    ensures Entries(sec.bytes, Start(items, |items|)) == Some([])
  {
    hide Layout, Closed, Fits, Start, FixedValue;
    var p := Start(items, |items|);
    if tail != [] {
      assert sec.bytes[p..p + 4] == [0, 0, 0, 0];
      ZeroWord();
    }
  }

  lemma {:induction false} EntriesAre(sec: Section, items: seq<Item>, tail: seq<Byte>, k: nat)
    requires Begins(sec, items, tail) && k <= |items|
    ensures var here, end := Entries(sec.bytes, Start(items, k)), Entries(sec.bytes, Start(items, |items|));
      && (here.None? <==> end.None?)
      && (here.Some? ==> Pres(items, sec.gnu, k) + here.value == Pres(items, sec.gnu, |items|) + end.value)
    decreases |items| - k
  {
    hide Start, ReadPrefix, Pre, Closed, Fits, Layout;
    if k < |items| {
      PreRead(sec, items, tail, k);
      EntriesAre(sec, items, tail, k + 1);
      var here, next := Entries(sec.bytes, Start(items, k)), Entries(sec.bytes, Start(items, k + 1));
      if here.Some? {
        assert here.value == [Pre(items, sec.gnu, k)] + next.value;
        assert Pres(items, sec.gnu, k + 1) == Pres(items, sec.gnu, k) + [Pre(items, sec.gnu, k)];
      }
    }
  }

  /** Where item k is a CIE or points to one: at the CIE it belongs to, or before the
      section. */
  lemma MentionIs(sec: Section, items: seq<Item>, tail: seq<Byte>, k: nat)
    requires Begins(sec, items, tail) && k < |items|
    ensures IdFits(items, sec.gnu, k) && (IsCie(sec, Pre(items, sec.gnu, k)) <==> items[k].CieItem?)
    ensures var m := Mention(sec, Pre(items, sec.gnu, k));
      if Reached(items, sec.gnu, k) then m == Start(items, Own(items, k)) else m < 0
  {
    hide Layout, Start;
    assert Fits(items, sec.gnu, k);
    if items[k].FdeItem? {
      var c := Own(items, k);
      if c < k { Upward(items, c, k); } else if k < c { Upward(items, k, c); }
    }
  }

  lemma IsWritable(sec: Section, items: seq<Item>, tail: seq<Byte>)
    requires Begins(sec, items, tail)
    ensures Writable(items, sec.gnu) && Closed(items)
  {}

  lemma OwnIsCie(items: seq<Item>, k: nat)
    requires Closed(items) && k < |items|
    ensures Own(items, k) < |items| && items[Own(items, k)].CieItem?
  {}

  lemma EntryOkIff(sec: Section, items: seq<Item>, tail: seq<Byte>, k: nat)
    requires Begins(sec, items, tail) && k < |items|
    ensures IdFits(items, sec.gnu, k)
    ensures EntryOk(sec, Pre(items, sec.gnu, k)) <==> Reached(items, sec.gnu, k) && RestOk(sec, items, k)
  {
    hide Layout, Start, ReadPrefix, SignExtend, CiePos, Fits, IdFits, Begins, Mention;
    IsWritable(sec, items, tail);
    MentionIs(sec, items, tail, k);
    PreRead(sec, items, tail, k);
    var c := Own(items, k);
    PreRead(sec, items, tail, c);
    MentionIs(sec, items, tail, c);
    StartInside(sec, items, tail, c);
  }

  lemma StartInside(sec: Section, items: seq<Item>, tail: seq<Byte>, k: nat)
    requires Begins(sec, items, tail) && k < |items|
    ensures Start(items, k) < |sec.bytes|
  {}

  predicate AllReached(items: seq<Item>, eh: bool)
    requires Closed(items)
  {
    forall k :: 0 <= k < |items| ==> Reached(items, eh, k)
  }

  /** The same items, once by place and once by number. */
  predicate Placed(items: seq<Item>, places: seq<int>, met: seq<nat>) {
    |places| == |met| && forall i :: 0 <= i < |met| ==> met[i] < |items| && places[i] == Start(items, met[i])
  }

  lemma NonePlaced(items: seq<Item>)
    ensures Placed(items, [], [])
  {}

  lemma PlacedSnoc(items: seq<Item>, places: seq<int>, met: seq<nat>, c: nat)
    requires Placed(items, places, met) && c < |items|
    ensures Start(items, c) in places <==> c in met
    ensures Placed(items, places + [Start(items, c)], met + [c])
  {
    hide Start;
    var m := Start(items, c);
    if m in places {
      var i :| 0 <= i < |places| && places[i] == m;
      SameStart(items, met[i], c);
      assert met[i] in met;
    }
    if c in met {
      var i :| 0 <= i < |met| && met[i] == c;
      assert places[i] in places;
    }
  }

  lemma PresMet(sec: Section, items: seq<Item>, n: nat)
    requires Writable(items, sec.gnu) && n <= |items|
    ensures n == 0 ==> Mentioned(sec, Pres(items, sec.gnu, n)) == [] && Met(items, n) == []
    ensures n > 0 ==>
      && IdFits(items, sec.gnu, n - 1)
      && Pres(items, sec.gnu, n) == Pres(items, sec.gnu, n - 1) + [Pre(items, sec.gnu, n - 1)]
      && var before, c := Met(items, n - 1), Own(items, n - 1);
         Met(items, n) == if c in before then before else before + [c]
  {
    hide Pre, IdFits, Closed, Own;
    if n > 0 { assert Fits(items, sec.gnu, n - 1); }
  }

  lemma {:induction false} MetAre(sec: Section, items: seq<Item>, tail: seq<Byte>, n: nat)
    requires Begins(sec, items, tail) && n <= |items| && AllReached(items, sec.gnu)
    ensures Writable(items, sec.gnu)
    ensures Placed(items, Mentioned(sec, Pres(items, sec.gnu, n)), Met(items, n))
  {
    hide Layout, Start, Pre, Fits, IdFits, Begins, Mention, IsCie, Reached, Own, Closed, FdeEntries, Writable, ReadPrefix, Placed;
    hide Mentioned, Met, Pres;
    IsWritable(sec, items, tail);
    PresMet(sec, items, n);
    if n == 0 {
      NonePlaced(items);
    } else {
      MetAre(sec, items, tail, n - 1);
      MentionIs(sec, items, tail, n - 1);
      assert Reached(items, sec.gnu, n - 1);
      OwnIsCie(items, n - 1);
      var before, e := Pres(items, sec.gnu, n - 1), Pre(items, sec.gnu, n - 1);
      MentionedSnoc(sec, before, e);
      PlacedSnoc(items, Mentioned(sec, before), Met(items, n - 1), Own(items, n - 1));
    }
  }

  /** The elements of a list at the given places. */
  predicate Picked<T(==)>(part: seq<T>, all: seq<T>, places: seq<nat>) {
    |part| == |places| && forall i :: 0 <= i < |part| ==> places[i] < |all| && part[i] == all[places[i]]
  }

  lemma NonePicked<T>()
    ensures Picked<T>([], [], [])
  {}

  lemma PickedSnoc<T>(part: seq<T>, all: seq<T>, places: seq<nat>, e: T)
    requires Picked(part, all, places)
    ensures Picked(part, all + [e], places) && Picked(part + [e], all + [e], places + [|all|])
  {}

  lemma PresFdes(sec: Section, items: seq<Item>, n: nat)
    requires Writable(items, sec.gnu) && n <= |items|
    ensures n == 0 ==> Pres(items, sec.gnu, n) == [] && FdeEntries(sec, []) == [] && Fdes(items, n) == []
    ensures n > 0 ==>
      && IdFits(items, sec.gnu, n - 1)
      && Pres(items, sec.gnu, n) == Pres(items, sec.gnu, n - 1) + [Pre(items, sec.gnu, n - 1)]
      && Fdes(items, n) == Fdes(items, n - 1) + if items[n - 1].CieItem? then [] else [n - 1]
  {
    hide Pre, IdFits, Closed, Own;
    if n > 0 { assert Fits(items, sec.gnu, n - 1); }
  }

  lemma {:induction false} FdesAre(sec: Section, items: seq<Item>, tail: seq<Byte>, n: nat)
    requires Begins(sec, items, tail) && n <= |items|
    ensures Writable(items, sec.gnu)
    ensures Picked(FdeEntries(sec, Pres(items, sec.gnu, n)), Pres(items, sec.gnu, n), Fdes(items, n))
  {
    hide Layout, Start, Pre, Fits, IdFits, Begins, Mention, IsCie, Reached, Own, Closed, Mentioned, Writable, ReadPrefix, Picked;
    hide Pres, Fdes, FdeEntries;
    IsWritable(sec, items, tail);
    PresFdes(sec, items, n);
    if n == 0 {
      NonePicked<Prefix>();
    } else {
      FdesAre(sec, items, tail, n - 1);
      MentionIs(sec, items, tail, n - 1);
      var before, e := Pres(items, sec.gnu, n - 1), Pre(items, sec.gnu, n - 1);
      MentionedSnoc(sec, before, e);
      PickedSnoc(FdeEntries(sec, before), before, Fdes(items, n - 1), e);
      assert FdeEntries(sec, before) + [] == FdeEntries(sec, before) && Fdes(items, n - 1) + [] == Fdes(items, n - 1);
    }
  }

  lemma FdeFrom(sec: Section, items: seq<Item>, tail: seq<Byte>, met: seq<nat>, k: nat, f: Fde, cies: seq<Cie>)
    requires Begins(sec, items, tail) && k < |items| && items[k].FdeItem? && Reached(items, sec.gnu, k)
    requires IdFits(items, sec.gnu, k) && FdeOf(sec, Pre(items, sec.gnu, k), f, cies)
    requires |met| == |cies| && forall i :: 0 <= i < |met| ==> met[i] < |items| && cies[i].start == Start(items, met[i])
    ensures FdeListed(sec, items, met, k, f)
  {
    hide Layout, Start, Fits, IdFits, Begins, Reached;
    IsWritable(sec, items, tail);
    MentionIs(sec, items, tail, k);
    PreRead(sec, items, tail, k);
    SameStart(items, met[f.cieIndex], Own(items, k));
  }

  lemma ListedFrom(sec: Section, items: seq<Item>, tail: seq<Byte>, l: Lists)
    requires Begins(sec, items, tail) && AllReached(items, sec.gnu)
    requires ListsOf(sec, Pres(items, sec.gnu, |items|), l)
    ensures Listed(sec, items, l)
  {
    hide Layout, Start, Pre, Pres, Fits, IdFits, Begins, Reached, Mentioned, FdeEntries, FdeOf, FdeListed, Met, Fdes, CieAt, ReadPrefix;
    hide Closed, Own, Writable;
    IsWritable(sec, items, tail);
    var met, fdes := Met(items, |items|), Fdes(items, |items|);
    MetAre(sec, items, tail, |items|);
    FdesAre(sec, items, tail, |items|);
    PresAt(items, sec.gnu, |items|);
    forall i | 0 <= i < |met| ensures l.cies[i] == Cie(Start(items, met[i]), Start(items, met[i] + 1), i) {
      PreRead(sec, items, tail, met[i]);
    }
    forall i | 0 <= i < |fdes| ensures FdeListed(sec, items, met, fdes[i], l.fdes[i]) {
      assert Reached(items, sec.gnu, fdes[i]);
      FdeFrom(sec, items, tail, met, fdes[i], l.fdes[i], l.cies);
    }
  }

  predicate InOrder(sec: Section, items: seq<Item>)
    requires Closed(items)
  {
    AllReached(items, sec.gnu) && forall k :: 0 <= k < |items| ==> RestOk(sec, items, k)
  }

  lemma AllOkIff(sec: Section, items: seq<Item>, tail: seq<Byte>)
    requires Begins(sec, items, tail)
    ensures AllOk(sec, Pres(items, sec.gnu, |items|)) <==> InOrder(sec, items)
  {
    hide Layout, Start, Pre, Pres, Fits, IdFits, Begins, Reached, RestOk, EntryOk, Closed, Own, Writable;
    IsWritable(sec, items, tail);
    var n, es := |items|, Pres(items, sec.gnu, |items|);
    PresAt(items, sec.gnu, n);
    forall k | 0 <= k < n ensures EntryOk(sec, es[k]) <==> Reached(items, sec.gnu, k) && RestOk(sec, items, k) {
      EntryOkIff(sec, items, tail, k);
    }
  }

  /** What the whole scan makes of a section written like that, in every case. It
      succeeds exactly when every CIE is within reach and what stands behind the id
      fields is acceptable, and then lists what was written. */
  lemma SectionReadsBack(sec: Section, items: seq<Item>, tail: seq<Byte>)
    requires Holds(sec, items, tail) && items != []
    ensures Listing(sec).Ok? <==> InOrder(sec, items)
    ensures !Listing(sec).Ok? ==> Listing(sec).Error?
    ensures Listing(sec).Ok? ==> Listed(sec, items, Listing(sec).value)
  {
    hide Layout, Pre, Fits, IdFits, Begins, Listing, Entries, EntryOk, ListsOf, Reached, RestOk, AllOk, Listed, Closed, Own, Writable;
    IsWritable(sec, items, tail);
    EndOfItems(sec, items, tail);
    EntriesAre(sec, items, tail, 0);
    var es := Pres(items, sec.gnu, |items|);
    assert Pres(items, sec.gnu, 0) + Entries(sec.bytes, 0).value == Entries(sec.bytes, 0).value && es + [] == es;
    ListingIs(sec);
    AllOkIff(sec, items, tail);
    if Listing(sec).Ok? { ListedFrom(sec, items, tail, Listing(sec).value); }
  }

  /** A section cut off anywhere inside an entry is an error, never a shorter list. */
  lemma CutIsError(sec: Section, items: seq<Item>, tail: seq<Byte>, it: Item, id: nat)
    requires Begins(sec, items, tail) && tail != [] && tail < Written(it, id)
    requires |it.rest| + Width(it) < if it.wide then TWO64 else 0xffff_ffff
    ensures Listing(sec).Error?
  {
    hide Layout, Pre, Pres, Fits, Entries, ReadPrefix, Start, Writable, Written;
    CutEntry(sec.bytes, Start(items, |items|), it, id);
    EntriesAre(sec, items, tail, 0);
    EntriesFail(sec.bytes, Start(items, |items|));
    StartsAtZero(items);
    ListingIs(sec);
  }

  lemma EntriesFail(bytes: seq<Byte>, p: nat)
    requires p < |bytes| && ReadPrefix(bytes, p).Error?
    ensures Entries(bytes, p).None?
  {}

  lemma CutEntry(bytes: seq<Byte>, p: nat, it: Item, id: nat)
    requires p < |bytes| && bytes[p..] < Written(it, id)
    requires |it.rest| + Width(it) < if it.wide then TWO64 else 0xffff_ffff
    ensures ReadPrefix(bytes, p).Error?
  {
    hide EncFixed, FixedValue;
    var s, part := Written(it, id), bytes[p..];
    if |part| >= 4 {
      var word := if it.wide then 0xffff_ffff else 4 + |it.rest|;
      assert bytes[p..p + 4] == part[..4] == s[..4] == EncFixed(word, 4);
      FixedRoundTrip(word, 4);
    }
    if it.wide && |part| >= 12 {
      assert bytes[p + 4..p + 12] == part[4..12] == s[4..12] == EncFixed(8 + |it.rest|, 8);
      FixedRoundTrip(8 + |it.rest|, 8);
    }
  }

  lemma {:induction false} PresAt(items: seq<Item>, eh: bool, n: nat)
    requires Writable(items, eh) && n <= |items|
    ensures forall k :: 0 <= k < n ==> IdFits(items, eh, k) && Pres(items, eh, n)[k] == Pre(items, eh, k)
  {
    hide Pre, IdFits, Closed;
    if n > 0 {
      PresAt(items, eh, n - 1);
      assert Fits(items, eh, n - 1);
    }
  }

  // -------------------------------------------------------------- examples

  lemma SmallWord(v: Byte)
    ensures EncFixed(v, 4) == [v, 0, 0, 0]
  {
    assert EncFixed(v / 256, 3) == [0] + EncFixed(0, 2) && EncFixed(0, 2) == [0] + EncFixed(0, 1);
  }

  /** A CIE of 24 bytes and an FDE behind it whose id field, at 28, holds 28. */
  lemma EhBytes(rest: seq<Byte>, more: seq<Byte>)
    requires |rest| == 16 && 0 < |more| < 100
    ensures var items := [CieItem(false, rest), FdeItem(false, more, 0)];
      && Writable(items, true) && Start(items, 0) == 0 && Start(items, 1) == 24 && Start(items, 2) == 32 + |more|
      && Layout(items, true, 2) ==
           ([20, 0, 0, 0, 0, 0, 0, 0] + rest) + ([4 + |more|, 0, 0, 0, 28, 0, 0, 0] + more)
  {
    hide EncFixed;
    var items := [CieItem(false, rest), FdeItem(false, more, 0)];
    assert Start(items, 1) == 24;
    assert Fits(items, true, 0) && Fits(items, true, 1);
    SmallWord(20);
    SmallWord(0);
    SmallWord(4 + |more|);
    SmallWord(28);
    assert ItemBytes(items, true, 0) == [20, 0, 0, 0, 0, 0, 0, 0] + rest;
    assert ItemBytes(items, true, 1) == [4 + |more|, 0, 0, 0, 28, 0, 0, 0] + more;
    assert Layout(items, true, 1) == ItemBytes(items, true, 0);
  }

  lemma EhFrame(sec: Section, rest: seq<Byte>, more: seq<Byte>, body: FdeBody)
    requires |rest| == 16 && 0 < |more| < 100
    requires sec.bytes == ([20, 0, 0, 0, 0, 0, 0, 0] + rest) + ([4 + |more|, 0, 0, 0, 28, 0, 0, 0] + more)
    requires sec.gnu && sec.cieId == 0 && sec.cieOk(0)
    requires sec.fdeBody(24, 0) == Some(body) && body.instrStart <= 32 + |more|
    ensures Listing(sec) == Ok(Lists([Cie(0, 24, 0)], [Fde(24, 32 + |more|, 0, 0, body)]))
  {
    hide Listing, EncFixed, Layout, Start, Writable, Met, Fdes, Listed;
    var items := [CieItem(false, rest), FdeItem(false, more, 0)];
    EhBytes(rest, more);
    assert Closed(items);
    assert sec.bytes == Layout(items, true, 2) + [];
    assert forall k :: 0 <= k < 2 ==> Start(items, k) + Header(items[k]) < |sec.bytes|;
    SectionReadsBack(sec, items, []);
    assert RestOk(sec, items, 0) && RestOk(sec, items, 1);
    assert Reached(items, true, 0) && Reached(items, true, 1);
    PairListed(sec, items, Listing(sec).value);
  }

  lemma PairListed(sec: Section, items: seq<Item>, l: Lists)
    requires |items| == 2 && items[0].CieItem? && items[1].FdeItem? && items[1].cie == 0
    requires Closed(items) && Listed(sec, items, l)
    ensures |l.fdes| == 1 && sec.fdeBody(Start(items, 1), 0).Some?
    ensures l.cies == [Cie(0, Start(items, 1), 0)]
    ensures l.fdes == [Fde(Start(items, 1), Start(items, 2), 0, 0, sec.fdeBody(Start(items, 1), 0).value)]
  {
    hide Start, Met, Fdes;
    StartsAtZero(items);
    PairMet(items);
    var cie, fde := Cie(0, Start(items, 1), 0), l.fdes;
    assert l.cies == [cie];
    assert FdeListed(sec, items, [0], 1, fde[0]);
  }

  lemma PairMet(items: seq<Item>)
    requires |items| == 2 && items[0].CieItem? && items[1].FdeItem? && items[1].cie == 0 && Closed(items)
    ensures Met(items, 2) == [0] && Fdes(items, 2) == [1]
  {
    assert Met(items, 0) == [] && Fdes(items, 0) == [];
    assert Met(items, 1) == [0] && Fdes(items, 1) == [];
  }

  /** A .debug_frame section of just over two gigabytes, as the standard allows it,
      that is refused: its FDE points to a CIE at 2^31. */
  lemma FarCie(rest: seq<Byte>, cieOk: nat -> bool, fdeBody: (nat, nat) -> Option<FdeBody>)
    requires |rest| == 0x7fff_fff8
    ensures var items := [CieItem(false, rest), CieItem(false, [1]), FdeItem(false, [1], 1)];
      Writable(items, false) && Start(items, 1) == 0x8000_0000 &&
      Listing(Section(Layout(items, false, 3), false, 0xffff_ffff_ffff_ffff, cieOk, fdeBody)).Error?
  {
    hide Listing, Written;
    var items := [CieItem(false, rest), CieItem(false, [1]), FdeItem(false, [1], 1)];
    assert Start(items, 1) == 0x8000_0000 && Start(items, 2) == 0x8000_0009 && Start(items, 3) == 0x8000_0012;
    assert Fits(items, false, 0) && Fits(items, false, 1) && Fits(items, false, 2);
    var sec := Section(Layout(items, false, 3), false, 0xffff_ffff_ffff_ffff, cieOk, fdeBody);
    assert Layout(items, false, 3) + [] == sec.bytes;
    assert !Reached(items, false, 2);
    SectionReadsBack(sec, items, []);
  }
}
