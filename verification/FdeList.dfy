/** Scanning a frame section into lists of CIEs and FDEs, and finding the FDE of a
    pc in the sorted list (libdwarf/dwarf_frame2.c, dwarf_get_fde_at_pc in
    libdwarf/dwarf_frame.c). Positions are offsets into the section. */
module FdeList {
  import opened Common
  import opened Words

  /** What follows the CIE id of an FDE. */
  datatype FdeBody = FdeBody(initialLoc: nat, range: nat, instrStart: nat)

  /** A frame section. How the rest of a CIE reads (is it acceptable?), and the rest
      of an FDE, which needs its CIE, is given by position. cieId marks CIEs; gnu is
      the .eh_frame way of pointing to a CIE. */
  datatype Section = Section(bytes: seq<Byte>, gnu: bool, cieId: nat, cieOk: nat -> bool,
                             fdeBody: (nat, nat) -> Option<FdeBody>)

  datatype Prefix = Prefix(start: nat, after: nat, length: nat, lengthSize: nat, extensionSize: nat, id: nat, idPos: nat)
  {
    function End(): nat { start + length + lengthSize + extensionSize }
  }

  /** _dwarf_read_cie_fde_prefix: an initial length, then the id, all inside the
      section together with the entry. A zero length ends the list. */
  function ReadPrefix(bytes: seq<Byte>, p: nat): (r: Res<Prefix>)
    ensures r.Ok? ==> r.value.start == p && p < r.value.after <= r.value.End() + r.value.lengthSize
    ensures r.Ok? ==> p < r.value.End() <= |bytes| && r.value.after < |bytes|
  {
    if |bytes| < p + 4 then Error
    else
      var word := FixedValue(bytes[p..p + 4]);
      if word == 0xffff_ffff then
        if |bytes| < p + 12 then Error
        else ReadId(bytes, p, FixedValue(bytes[p + 4..p + 12]), 8, 4)
      else ReadId(bytes, p, word, 4, 0)
  }

  function ReadId(bytes: seq<Byte>, p: nat, length: nat, lengthSize: nat, extensionSize: nat): (r: Res<Prefix>)
    requires lengthSize == 4 || lengthSize == 8
    ensures r.Ok? ==> r.value.start == p && r.value.lengthSize == lengthSize && r.value.extensionSize == extensionSize
    ensures r.Ok? ==> r.value.length == length > 0 && r.value.after < |bytes| && r.value.End() <= |bytes|
    ensures r.Ok? ==> r.value.after == p + extensionSize + lengthSize + lengthSize
  {
    var idPos := p + extensionSize + lengthSize;
    if length > |bytes| then Error
    else if length == 0 then NoEntry
    else if idPos + lengthSize >= |bytes| then Error
    else
      var id := SignExtend(FixedValue(bytes[idPos..idPos + lengthSize]), lengthSize);
      if idPos + length > |bytes| then Error
      else Ok(Prefix(p, idPos + lengthSize, length, lengthSize, extensionSize, id, idPos))
  }

  predicate IsCie(sec: Section, pre: Prefix) { pre.id == sec.cieId }

  /** get_cieptr_given_offset: back from the id field itself, or from the start of
      the section; the id counts as signed, as pointer arithmetic makes it. */
  function CiePos(sec: Section, pre: Prefix): int {
    var id := AsSigned(Wrap64(pre.id));
    if sec.gnu then pre.idPos - id else id
  }

  datatype Cie = Cie(start: nat, end: nat, index: nat)
  datatype Fde = Fde(start: nat, end: nat, cie: nat, cieIndex: nat, body: FdeBody)

  datatype Lists = Lists(cies: seq<Cie>, fdes: seq<Fde>)

  // ------------------------------------------------------- the list of CIEs

  /** The first CIE at a position. */
  function Find(cies: seq<Cie>, p: int): (r: Option<nat>)
    ensures r.Some? ==> r.value < |cies| && cies[r.value].start == p
    ensures r.None? ==> forall i :: 0 <= i < |cies| ==> cies[i].start != p
    ensures r.Some? ==> forall i :: 0 <= i < r.value ==> cies[i].start != p
  {
    if cies == [] then None
    else if cies[0].start == p then Some(0)
    else
      var r := Find(cies[1..], p);
      assert forall i :: 1 <= i < |cies| ==> cies[i] == cies[1..][i - 1];
      if r.None? then None else Some(1 + r.value)
  }

  /** Is there a CIE at the position that can be made? */
  predicate CieAt(sec: Section, p: int) {
    && 0 <= p < |sec.bytes| && ReadPrefix(sec.bytes, p).Ok?
    && IsCie(sec, ReadPrefix(sec.bytes, p).value) && sec.cieOk(p)
  }

  function MakeCie(sec: Section, p: nat, index: nat): Cie
    requires CieAt(sec, p)
  {
    Cie(p, ReadPrefix(sec.bytes, p).value.End(), index)
  }

  /** The list with a CIE for the position in it: found, or made and appended. */
  function Ensure(sec: Section, cies: seq<Cie>, p: int): (r: Option<seq<Cie>>)
    ensures r.Some? ==> Find(r.value, p).Some?
  {
    if Find(cies, p).Some? then Some(cies)
    else if !CieAt(sec, p) then None
    else
      var more := cies + [MakeCie(sec, p, |cies|)];
      assert more[|cies|].start == p;
      Some(more)
  }

  /** One entry goes into the lists. */
  function Take(sec: Section, l: Lists, e: Prefix): Option<Lists> {
    if IsCie(sec, e) then
      var cies := Ensure(sec, l.cies, e.start);
      if cies.None? then None else Some(l.(cies := cies.value))
    else
      var at := CiePos(sec, e);
      var cies := Ensure(sec, l.cies, at);
      if cies.None? then None
      else
        var k := Find(cies.value, at).value;
        var body := sec.fdeBody(e.start, cies.value[k].start);
        if body.None? || e.End() < body.value.instrStart then None
        else Some(Lists(cies.value, l.fdes + [Fde(e.start, e.End(), cies.value[k].start, k, body.value)]))
  }

  /** The scan of _dwarf_get_fde_list_internal from an entry on. */
  function Scan(sec: Section, p: nat, l: Lists): (r: Option<Lists>)
    decreases |sec.bytes| - p
  {
    if p >= |sec.bytes| then Some(l)
    else match ReadPrefix(sec.bytes, p)
      case Error => None
      case NoEntry => Some(l)
      case Ok(e) =>
        match Take(sec, l, e)
        case None => None
        case Some(l') => Scan(sec, e.End(), l')
  }

  /** The whole function, before the sort: FDEs without any CIE are an error, no
      entries at all no-entry. */
  function Listing(sec: Section): Res<Lists> {
    match Scan(sec, 0, Lists([], []))
    case None => Error
    case Some(l) => if l.cies == [] then (if l.fdes != [] then Error else NoEntry) else Ok(l)
  }

  // -------------------------------------------------- what the lists should be

  /** The entries one after the other, up to the end or a zero length. */
  function Entries(bytes: seq<Byte>, p: nat): Option<seq<Prefix>>
    decreases |bytes| - p
  {
    if p >= |bytes| then Some([])
    else match ReadPrefix(bytes, p)
      case Error => None
      case NoEntry => Some([])
      case Ok(pre) =>
        var rest := Entries(bytes, pre.End());
        if rest.None? then None else Some([pre] + rest.value)
  }

  /** The position of the CIE an entry is or needs. */
  function Mention(sec: Section, e: Prefix): int { if IsCie(sec, e) then e.start else CiePos(sec, e) }

  /** Can the entry be taken into the lists? */
  predicate EntryOk(sec: Section, e: Prefix) {
    && CieAt(sec, Mention(sec, e))
    && (!IsCie(sec, e) ==>
         && sec.fdeBody(e.start, Mention(sec, e)).Some?
         && sec.fdeBody(e.start, Mention(sec, e)).value.instrStart <= e.End())
  }

  predicate AllOk(sec: Section, es: seq<Prefix>) { forall i :: 0 <= i < |es| ==> EntryOk(sec, es[i]) }

  /** The positions mentioned, each at its first mention only. */
  function Mentioned(sec: Section, es: seq<Prefix>): (s: seq<int>)
  {
    if es == [] then []
    else
      var before := Mentioned(sec, es[..|es| - 1]);
      var m := Mention(sec, es[|es| - 1]);
      if m in before then before else before + [m]
  }

  function FdeEntries(sec: Section, es: seq<Prefix>): (s: seq<Prefix>)
    ensures forall i :: 0 <= i < |s| ==> !IsCie(sec, s[i]) && s[i] in es
  {
    if es == [] then []
    else FdeEntries(sec, es[..|es| - 1]) + if IsCie(sec, es[|es| - 1]) then [] else [es[|es| - 1]]
  }

  /** The lists say of the entries es what they should: one CIE for each position
      mentioned, in order of first mention and numbered so; one FDE for each FDE
      entry, in order, with the CIE at the position it points to. */
  predicate ListsOf(sec: Section, es: seq<Prefix>, l: Lists) {
    && |l.cies| == |Mentioned(sec, es)|
    && (forall i :: 0 <= i < |l.cies| ==>
         && l.cies[i].start == Mentioned(sec, es)[i] && l.cies[i].index == i
         && CieAt(sec, l.cies[i].start) && l.cies[i].end == ReadPrefix(sec.bytes, l.cies[i].start).value.End())
    && |l.fdes| == |FdeEntries(sec, es)|
    && (forall i :: 0 <= i < |l.fdes| ==> FdeOf(sec, FdeEntries(sec, es)[i], l.fdes[i], l.cies))
  }

  predicate FdeOf(sec: Section, e: Prefix, f: Fde, cies: seq<Cie>) {
    && f.start == e.start && f.end == e.End()
    && f.cieIndex < |cies| && cies[f.cieIndex].start == f.cie == CiePos(sec, e)
    && sec.fdeBody(e.start, f.cie) == Some(f.body)
  }

  /** No position is mentioned twice. */
  lemma {:induction false} MentionedOnce(sec: Section, es: seq<Prefix>)
    ensures forall i, j :: 0 <= i < j < |Mentioned(sec, es)| ==> Mentioned(sec, es)[i] != Mentioned(sec, es)[j]
    ensures forall i :: 0 <= i < |es| ==> Mention(sec, es[i]) in Mentioned(sec, es)
  {
    if es != [] {
      var before := es[..|es| - 1];
      MentionedOnce(sec, before);
      forall i | 0 <= i < |es| ensures Mention(sec, es[i]) in Mentioned(sec, es) {
        if i < |es| - 1 { assert es[i] == before[i]; }
      }
    }
  }

  lemma MentionedSnoc(sec: Section, es: seq<Prefix>, e: Prefix)
    ensures var before, m := Mentioned(sec, es), Mention(sec, e);
      Mentioned(sec, es + [e]) == if m in before then before else before + [m]
    ensures FdeEntries(sec, es + [e]) == FdeEntries(sec, es) + if IsCie(sec, e) then [] else [e]
  {
    assert (es + [e])[..|es|] == es;
  }

  lemma FindMentioned(sec: Section, es: seq<Prefix>, l: Lists, p: int)
    requires ListsOf(sec, es, l)
    ensures Find(l.cies, p).Some? <==> p in Mentioned(sec, es)
    ensures Find(l.cies, p).Some? ==> CieAt(sec, p)
  {
    if p in Mentioned(sec, es) {
      var i :| 0 <= i < |l.cies| && Mentioned(sec, es)[i] == p;
      assert l.cies[i].start == p;
    }
  }

  /** The CIE of an entry is found or made exactly when there can be one. */
  lemma EnsureIs(sec: Section, es: seq<Prefix>, l: Lists, e: Prefix)
    requires ListsOf(sec, es, l)
    ensures var cies := Ensure(sec, l.cies, Mention(sec, e));
      && (cies.Some? <==> CieAt(sec, Mention(sec, e)))
      && (cies.Some? ==>
           && l.cies <= cies.value && |cies.value| == |Mentioned(sec, es + [e])|
           && forall i :: 0 <= i < |cies.value| ==>
             && cies.value[i].start == Mentioned(sec, es + [e])[i] && cies.value[i].index == i
             && CieAt(sec, cies.value[i].start)
             && cies.value[i].end == ReadPrefix(sec.bytes, cies.value[i].start).value.End())
  {
    hide Mention, CieAt, Mentioned;
    FindMentioned(sec, es, l, Mention(sec, e));
    MentionedSnoc(sec, es, e);
  }

  /** Taking an entry in succeeds exactly when the entry is in order, and keeps the
      lists what they should be. */
  lemma TakeIs(sec: Section, es: seq<Prefix>, l: Lists, e: Prefix)
    requires ListsOf(sec, es, l)
    ensures Take(sec, l, e).Some? <==> EntryOk(sec, e)
    ensures Take(sec, l, e).Some? ==> ListsOf(sec, es + [e], Take(sec, l, e).value)
  {
    hide CieAt, Ensure, Mentioned, FdeEntries, FdeOf;
    EnsureIs(sec, es, l, e);
    MentionedSnoc(sec, es, e);
    var r := Take(sec, l, e);
    if r.Some? {
      var fs := FdeEntries(sec, es + [e]);
      forall i | 0 <= i < |r.value.fdes| ensures FdeOf(sec, fs[i], r.value.fdes[i], r.value.cies) {
        if i < |l.fdes| {
          FdeOfGrows(sec, fs[i], l.fdes[i], l.cies, r.value.cies);
        } else {
          NewFde(sec, e, r.value.fdes[i], r.value.cies);
        }
      }
    }
  }

  lemma FdeOfGrows(sec: Section, e: Prefix, f: Fde, cies: seq<Cie>, more: seq<Cie>)
    requires FdeOf(sec, e, f, cies) && cies <= more
    ensures FdeOf(sec, e, f, more)
  {}

  lemma NewFde(sec: Section, e: Prefix, f: Fde, cies: seq<Cie>)
    requires var at := CiePos(sec, e);
      && Find(cies, at).Some? && var k := Find(cies, at).value;
         f.start == e.start && f.end == e.End() && f.cie == cies[k].start && f.cieIndex == k
         && sec.fdeBody(e.start, f.cie) == Some(f.body)
    ensures FdeOf(sec, e, f, cies)
  {}

  /** The scan from p on succeeds exactly when all entries there can be read and are
      in order, and then adds them to what the lists say. */
  lemma {:induction false} ScanIs(sec: Section, p: nat, before: seq<Prefix>, l: Lists)
    requires ListsOf(sec, before, l)
    ensures Scan(sec, p, l).Some? <==> Entries(sec.bytes, p).Some? && AllOk(sec, Entries(sec.bytes, p).value)
    ensures Scan(sec, p, l).Some? ==> ListsOf(sec, before + Entries(sec.bytes, p).value, Scan(sec, p, l).value)
    decreases |sec.bytes| - p
  {
    hide ListsOf, EntryOk, Take, ReadPrefix;
    if p >= |sec.bytes| || !ReadPrefix(sec.bytes, p).Ok? {
      assert before + [] == before;
    } else {
      var e := ReadPrefix(sec.bytes, p).value;
      TakeIs(sec, before, l, e);
      var l' := Take(sec, l, e);
      var rest := Entries(sec.bytes, e.End());
      if l'.Some? { ScanIs(sec, e.End(), before + [e], l'.value); }
      if rest.Some? {
        AllOkCons(sec, e, rest.value);
        assert (before + [e]) + rest.value == before + ([e] + rest.value);
      }
    }
  }

  lemma AllOkCons(sec: Section, e: Prefix, rest: seq<Prefix>)
    ensures AllOk(sec, [e] + rest) <==> EntryOk(sec, e) && AllOk(sec, rest)
  {
    hide EntryOk;
    if AllOk(sec, [e] + rest) {
      assert ([e] + rest)[0] == e;
      forall i | 0 <= i < |rest| ensures EntryOk(sec, rest[i]) { assert ([e] + rest)[i + 1] == rest[i]; }
    }
  }

  /** The result of the whole scan, in every case. The orphan error cannot occur. */
  lemma ListingIs(sec: Section)
    ensures Listing(sec).Ok? <==>
      Entries(sec.bytes, 0).Some? && Entries(sec.bytes, 0).value != [] && AllOk(sec, Entries(sec.bytes, 0).value)
    ensures Listing(sec).NoEntry? <==> Entries(sec.bytes, 0) == Some([])
    ensures Listing(sec).Ok? ==> ListsOf(sec, Entries(sec.bytes, 0).value, Listing(sec).value)
  {
    hide Scan, Entries, CieAt, EntryOk, FdeOf;
    ScanIs(sec, 0, [], Lists([], []));
    var es := Entries(sec.bytes, 0);
    if es.Some? {
      assert [] + es.value == es.value;
      MentionedOnce(sec, es.value);
      FdeEntriesIn(sec, es.value);
    }
  }

  lemma FdeEntriesIn(sec: Section, es: seq<Prefix>)
    ensures FdeEntries(sec, es) != [] ==> es != []
    ensures Mentioned(sec, es) == [] <==> es == []
  {
    if es != [] { MentionedOnce(sec, es); assert Mention(sec, es[0]) in Mentioned(sec, es); }
  }

  /** CIEs are shared: no two of them start at the same place, each is numbered by
      its place, and each FDE has the one its pointer names. */
  lemma CiesShared(sec: Section)
    requires Listing(sec).Ok?
    ensures var l := Listing(sec).value;
      && (forall i, j :: 0 <= i < j < |l.cies| ==> l.cies[i].start != l.cies[j].start)
      && (forall i :: 0 <= i < |l.cies| ==> l.cies[i].index == i)
      && (forall f :: f in l.fdes ==>
           && f.cieIndex < |l.cies| && l.cies[f.cieIndex].start == f.cie
           && ReadPrefix(sec.bytes, f.start).Ok? && f.cie == CiePos(sec, ReadPrefix(sec.bytes, f.start).value))
  {
    hide Listing, Entries, CieAt, ReadPrefix;
    ListingIs(sec);
    var l, es := Listing(sec).value, Entries(sec.bytes, 0).value;
    MentionedOnce(sec, es);
    EntriesTile(sec.bytes, 0);
    forall f | f in l.fdes
      ensures f.cieIndex < |l.cies| && l.cies[f.cieIndex].start == f.cie
      ensures ReadPrefix(sec.bytes, f.start).Ok? && f.cie == CiePos(sec, ReadPrefix(sec.bytes, f.start).value)
    {
      var i :| 0 <= i < |l.fdes| && l.fdes[i] == f;
      var e := FdeEntries(sec, es)[i];
      assert FdeOf(sec, e, f, l.cies) && e in es;
    }
  }

  /** The entries lie one behind the other from p on, up to the end of the section or
      a zero length. */
  predicate Tiled(bytes: seq<Byte>, p: nat, es: seq<Prefix>) {
    && (forall i :: 0 <= i < |es| ==> ReadPrefix(bytes, es[i].start) == Ok(es[i]))
    && (es != [] ==> es[0].start == p)
    && (forall i :: 0 < i < |es| ==> es[i].start == es[i - 1].End())
    && var q := if es == [] then p else es[|es| - 1].End();
       q >= |bytes| || ReadPrefix(bytes, q).NoEntry?
  }

  lemma {:induction false} EntriesTile(bytes: seq<Byte>, p: nat)
    requires Entries(bytes, p).Some?
    ensures Tiled(bytes, p, Entries(bytes, p).value)
    decreases |bytes| - p
  {
    hide ReadPrefix;
    if p < |bytes| && ReadPrefix(bytes, p).Ok? {
      EntriesTile(bytes, ReadPrefix(bytes, p).value.End());
    }
  }

  // ------------------------------------------------------- the code itself

  class Link<T> {
    const item: T
    var next: Link?<T>

    constructor (item: T)
      ensures this.item == item && next == null
    {
      this.item := item;
      next := null;
    }
  }

  ghost function ItemsOf<T>(links: seq<Link<T>>): (s: seq<T>)
    ensures |s| == |links| && forall i :: 0 <= i < |s| ==> s[i] == links[i].item
  {
    seq(|links|, i requires 0 <= i < |links| => links[i].item)
  }

  /** A chain under construction: chain_up_cie and chain_up_fde append to it. */
  class Chain<T> {
    var head: Link?<T>
    var tail: Link?<T>
    ghost var links: seq<Link<T>>
    ghost var repr: set<Link<T>>

    ghost predicate Valid()
      reads this, repr
    {
      && head == (if links == [] then null else links[0])
      && tail == (if links == [] then null else links[|links| - 1])
      && (forall i :: 0 <= i < |links| ==> links[i] in repr)
      && forall i {:trigger links[i].next} :: 0 <= i < |links| ==>
           links[i].next == if i + 1 < |links| then links[i + 1] else null
    }

    ghost function Items(): (s: seq<T>)
      reads this`links
    {
      ItemsOf(links)
    }

    constructor ()
      ensures Valid() && links == [] && repr == {}
    {
      head, tail, links, repr := null, null, [], {};
    }

    method ChainUp(newone: Link<T>)
      requires Valid() && newone !in repr && newone.next == null
      modifies this, repr
      ensures Valid() && repr == old(repr) + {newone}
      ensures links == old(links) + [newone] && Items() == old(Items()) + [newone.item]
    {
      ghost var was := links;
      if head == null {
        head := newone;
      } else {
        tail.next := newone;
      }
      tail := newone;
      links, repr := was + [newone], repr + {newone};
      forall i | 0 <= i < |links| ensures links[i].next == if i + 1 < |links| then links[i + 1] else null {
        if i < |was| { assert old(was[i].next) == if i + 1 < |was| then was[i + 1] else null; }
      }
    }

    /** The links as an array, by walking the chain. */
    method ToArray(count: nat) returns (a: array<Link?<T>>)
      requires Valid() && count == |links|
      ensures fresh(a) && a.Length == count && forall i :: 0 <= i < count ==> a[i] == links[i]
    {
      a := new Link?<T>[count](_ => null);
      var cur := head;
      var i := 0;
      while i < count
        invariant 0 <= i <= count && cur == if i < count then links[i] else null
        invariant forall j :: 0 <= j < i ==> a[j] == links[j]
      {
        assert cur == links[i];
        a[i] := cur;
        cur := cur.next;
        i := i + 1;
      }
    }
  }

  /** What the scan relies on: CIEs at different places, ending where their headers
      say. */
  predicate Sound(sec: Section, cies: seq<Cie>) {
    && (forall i, j :: 0 <= i < j < |cies| ==> cies[i].start != cies[j].start)
    && (forall i :: 0 <= i < |cies| ==>
         && cies[i].index == i && ReadPrefix(sec.bytes, cies[i].start).Ok?
         && cies[i].end == ReadPrefix(sec.bytes, cies[i].start).value.End())
  }

  lemma EnsureSound(sec: Section, cies: seq<Cie>, p: int)
    requires Sound(sec, cies) && Ensure(sec, cies, p).Some?
    ensures Sound(sec, Ensure(sec, cies, p).value)
    ensures Find(cies, p).None? ==> Find(Ensure(sec, cies, p).value, p) == Some(|cies|)
  {
    hide ReadPrefix;
    if Find(cies, p).None? {
      var more := Ensure(sec, cies, p).value;
      var k := Find(more, p).value;
      assert more[k].start == p && more[|cies|].start == p;
      assert forall i :: 0 <= i < |cies| ==> more[i] == cies[i] && cies[i].start != p;
    }
  }

  ghost predicate Member(cies: Chain<Cie>, cur: Link?<Cie>)
    reads cies
  {
    cur == null || cur in cies.links
  }

  /** _dwarf_find_existing_cie_ptr: the current CIE is tried first. With CIEs at
      different places that gives what the search from the head gives. */
  method FindExistingCie(sec: Section, cies: Chain<Cie>, cur: Link?<Cie>, p: int) returns (r: Link?<Cie>)
    requires cies.Valid() && Sound(sec, cies.Items()) && Member(cies, cur)
    ensures r == null <==> Find(cies.Items(), p).None?
    ensures r != null ==> r == cies.links[Find(cies.Items(), p).value]
  {
    hide ReadPrefix;
    ghost var items := cies.Items();
    if cur != null && cur.item.start == p {
      ghost var i :| 0 <= i < |items| && cies.links[i] == cur;
      assert items[i].start == p;
      return cur;
    }
    r := cies.head;
    ghost var k := 0;
    while r != null
      invariant 0 <= k <= |items| && r == if k < |items| then cies.links[k] else null
      invariant forall i :: 0 <= i < k ==> items[i].start != p
      decreases |items| - k
    {
      assert r == cies.links[k];
      if r.item.start == p { return; }
      r, k := r.next, k + 1;
    }
  }

  /** The CIE for a position: an existing one, or a new one at the end of the chain. */
  method EnsureCie(sec: Section, cies: Chain<Cie>, cur: Link?<Cie>, count: nat, p: int) returns (r: Link?<Cie>, made: bool)
    requires cies.Valid() && Sound(sec, cies.Items()) && Member(cies, cur) && count == |cies.links|
    modifies cies, cies.repr
    ensures cies.Valid() && fresh(cies.repr - old(cies.repr))
    ensures r == null <==> Ensure(sec, old(cies.Items()), p).None?
    ensures r != null ==> cies.Items() == Ensure(sec, old(cies.Items()), p).value && Sound(sec, cies.Items())
    ensures r != null ==> r == cies.links[Find(cies.Items(), p).value]
    ensures |cies.links| == count + if made then 1 else 0
  {
    hide ReadPrefix, Sound, CieAt;
    ghost var items := cies.Items();
    made := false;
    r := FindExistingCie(sec, cies, cur, p);
    if r == null {
      if !CieAt(sec, p) { return; }
      EnsureSound(sec, items, p);
      r := new Link(MakeCie(sec, p, count));
      cies.ChainUp(r);
      made := true;
    }
  }

  /** _dwarf_get_fde_list_internal up to the sort. */
  method GetFdeList(sec: Section)
    returns (res: Res<()>, cieData: array<Link?<Cie>>, fdeData: array<Link?<Fde>>)
    ensures res.Error? <==> Listing(sec).Error?
    ensures res.NoEntry? <==> Listing(sec).NoEntry?
    ensures res.Ok? ==> var l := Listing(sec).value;
      && cieData.Length == |l.cies| && (forall i :: 0 <= i < |l.cies| ==> cieData[i] != null && cieData[i].item == l.cies[i])
      && fdeData.Length == |l.fdes| && (forall i :: 0 <= i < |l.fdes| ==> fdeData[i] != null && fdeData[i].item == l.fdes[i])
  {
    hide Scan, Take, ReadPrefix, Sound, IsCie, ItemsOf;
    cieData := new Link?<Cie>[0];
    fdeData := new Link?<Fde>[0];
    var cies := new Chain<Cie>();
    var fdes := new Chain<Fde>();
    var curCie: Link?<Cie> := null;
    var framePtr, cieCount, fdeCount := 0, 0, 0;
    SoundEmpty(sec);
    assert cies.Items() == [] && fdes.Items() == [];
    while framePtr < |sec.bytes|
      invariant fresh(cies) && fresh(fdes) && cies.Valid() && fdes.Valid()
      invariant fresh(cies.repr) && fresh(fdes.repr)
      invariant cieCount == |cies.links| && fdeCount == |fdes.links|
      invariant Sound(sec, cies.Items()) && Member(cies, curCie)
      invariant Scan(sec, 0, Lists([], [])) == Scan(sec, framePtr, Lists(cies.Items(), fdes.Items()))
      decreases |sec.bytes| - framePtr
    {
      ghost var l := Lists(cies.Items(), fdes.Items());
      ScanUnfolds(sec, framePtr, l);
      var pre := ReadPrefix(sec.bytes, framePtr);
      if pre.Error? { return Error, cieData, fdeData; }
      if pre.NoEntry? { break; }
      var ok, made, next;
      ok, next, curCie, made := TakeEntry(sec, pre.value, cies, curCie, cieCount, fdes);
      if !ok { return Error, cieData, fdeData; }
      if made { cieCount := cieCount + 1; }
      if !IsCie(sec, pre.value) { fdeCount := fdeCount + 1; }
      framePtr := next;
    }
    ScanUnfolds(sec, framePtr, Lists(cies.Items(), fdes.Items()));
    if cieCount == 0 {
      return if fdeCount > 0 then Error else NoEntry, cieData, fdeData;
    }
    cieData := cies.ToArray(cieCount);
    fdeData := fdes.ToArray(fdeCount);
    res := Ok(());
  }

  lemma SoundAt(sec: Section, cies: seq<Cie>, i: nat)
    requires Sound(sec, cies) && i < |cies|
    ensures cies[i].index == i && ReadPrefix(sec.bytes, cies[i].start).Ok?
    ensures cies[i].end == ReadPrefix(sec.bytes, cies[i].start).value.End()
  {}

  lemma SoundEmpty(sec: Section)
    ensures Sound(sec, [])
  {}

  lemma ScanUnfolds(sec: Section, p: nat, l: Lists)
    ensures Scan(sec, p, l) ==
      if p >= |sec.bytes| || ReadPrefix(sec.bytes, p).NoEntry? then Some(l)
      else if ReadPrefix(sec.bytes, p).Error? || Take(sec, l, ReadPrefix(sec.bytes, p).value).None? then None
      else Scan(sec, ReadPrefix(sec.bytes, p).value.End(), Take(sec, l, ReadPrefix(sec.bytes, p).value).value)
  {
    hide ReadPrefix, Take;
  }

  method TakeEntry(sec: Section, e: Prefix, cies: Chain<Cie>, curCie: Link?<Cie>, cieCount: nat, fdes: Chain<Fde>)
    returns (ok: bool, next: nat, cie: Link?<Cie>, made: bool)
    requires ReadPrefix(sec.bytes, e.start) == Ok(e)
    requires cies.Valid() && fdes.Valid() && Sound(sec, cies.Items()) && Member(cies, curCie) && cieCount == |cies.links|
    modifies cies, cies.repr, fdes, fdes.repr
    ensures cies.Valid() && fdes.Valid() && fresh(cies.repr - old(cies.repr)) && fresh(fdes.repr - old(fdes.repr))
    ensures ok ==> next == e.End()
    ensures ok == Take(sec, Lists(old(cies.Items()), old(fdes.Items())), e).Some?
    ensures ok ==> Some(Lists(cies.Items(), fdes.Items())) == Take(sec, Lists(old(cies.Items()), old(fdes.Items())), e)
    ensures ok ==> Sound(sec, cies.Items()) && Member(cies, cie) && |cies.links| == cieCount + if made then 1 else 0
    ensures ok ==> |fdes.links| == |old(fdes.links)| + if IsCie(sec, e) then 0 else 1
  {
    hide ReadPrefix, Sound, Ensure, CiePos, ItemsOf;
    ghost var fdesBefore := fdes.Items();
    var at := if IsCie(sec, e) then e.start else CiePos(sec, e);
    cie, made := EnsureCie(sec, cies, curCie, cieCount, at);
    if cie != null { SoundAt(sec, cies.Items(), Find(cies.Items(), at).value); }
    if cie == null { return false, 0, cie, made; }
    assert fdes.Items() == fdesBefore;
    if !IsCie(sec, e) {
      var body := sec.fdeBody(e.start, cie.item.start);
      if body.None? || e.End() < body.value.instrStart { return false, 0, cie, made; }
      var fde := new Link(Fde(e.start, e.End(), cie.item.start, cie.item.index, body.value));
      fdes.ChainUp(fde);
      next := fde.item.end;
    } else {
      next := cie.item.end;
    }
    ok := true;
  }

  // --------------------------------------------------------- lookup by pc

  /** Where an FDE ends, as the 64-bit sum. */
  function EndPc(f: Fde): nat { Wrap64(f.body.initialLoc + f.body.range) }

  predicate Covers(f: Fde, pc: nat) { f.body.initialLoc <= pc < EndPc(f) }

  /** What qsort makes of the FDEs: the same ones by ascending initial location. */
  predicate Sorted(fdes: seq<Fde>) {
    forall i, j :: 0 <= i < j < |fdes| ==> fdes[i].body.initialLoc <= fdes[j].body.initialLoc
  }

  predicate SortOf(fdes: seq<Fde>, sorted: seq<Fde>) { Sorted(sorted) && multiset(sorted) == multiset(fdes) }

  predicate Disjoint(fdes: seq<Fde>) {
    forall i :: 0 < i < |fdes| ==> EndPc(fdes[i - 1]) <= fdes[i].body.initialLoc
  }

  /** The halving steps of dwarf_get_fde_at_pc on fdes[low..high]. */
  function Halve(fdes: seq<Fde>, low: nat, high: nat, pc: nat): (r: Option<nat>)
    requires low <= high <= |fdes|
    ensures r.Some? ==> low <= r.value < high && Covers(fdes[r.value], pc)
    decreases high - low
  {
    if low == high then None
    else
      var middle := (low + high - 1) / 2;
      if pc < fdes[middle].body.initialLoc then Halve(fdes, low, middle, pc)
      else if pc >= EndPc(fdes[middle]) then Halve(fdes, middle + 1, high, pc)
      else Some(middle)
  }

  method FdeAtPc(fdes: array<Fde>, pc: nat) returns (r: Option<nat>)
    ensures r == Halve(fdes[..], 0, fdes.Length, pc)
  {
    var low, high := 0, fdes.Length - 1;
    while low <= high
      invariant 0 <= low <= high + 1 <= fdes.Length
      invariant Halve(fdes[..], 0, fdes.Length, pc) == Halve(fdes[..], low, high + 1, pc)
      decreases high - low
    {
      var middle := (low + high) / 2;
      if pc < fdes[middle].body.initialLoc {
        high := middle - 1;
      } else if pc >= EndPc(fdes[middle]) {
        low := middle + 1;
      } else {
        return Some(middle);
      }
    }
    return None;
  }

  /** The last FDE beginning at or below pc, or -1. */
  function LastAtOrBelow(fdes: seq<Fde>, pc: nat): (k: int)
    ensures -1 <= k < |fdes| && (k >= 0 ==> fdes[k].body.initialLoc <= pc)
    ensures forall i :: k < i < |fdes| ==> pc < fdes[i].body.initialLoc
  {
    if fdes == [] then -1
    else
      var n := |fdes| - 1;
      if fdes[n].body.initialLoc <= pc then n else LastAtOrBelow(fdes[..n], pc)
  }

  /** The places looked at when halving low..high towards k: nothing in them depends
      on how far the FDEs reach. */
  function Probes(low: nat, high: nat, k: int): set<nat>
    requires low <= high
    decreases high - low
  {
    if low == high then {}
    else
      var middle := (low + high - 1) / 2;
      {middle} + if k < middle then Probes(low, middle, k) else Probes(middle + 1, high, k)
  }

  predicate CoveredAmong(fdes: seq<Fde>, places: set<nat>, pc: nat) {
    exists i :: i in places && i < |fdes| && Covers(fdes[i], pc)
  }

  /** On sorted FDEs, overlapping or not, the search finds an FDE exactly when one of
      those it looks at on its way to the last one beginning at or below pc covers
      pc. */
  lemma {:induction false} SearchFindsIff(fdes: seq<Fde>, low: nat, high: nat, pc: nat)
    requires Sorted(fdes) && low <= high <= |fdes|
    ensures Halve(fdes, low, high, pc).Some? <==> CoveredAmong(fdes, Probes(low, high, LastAtOrBelow(fdes, pc)), pc)
    decreases high - low
  {
    hide LastAtOrBelow, CoveredAmong;
    var k := LastAtOrBelow(fdes, pc);
    if low == high {
      CoveredOneMore(fdes, 0, {}, pc);
    } else {
      var middle := (low + high - 1) / 2;
      assert middle <= k ==> fdes[middle].body.initialLoc <= pc by {
        if middle < k { assert fdes[middle].body.initialLoc <= fdes[k].body.initialLoc; }
      }
      if k < middle {
        CoveredOneMore(fdes, middle, Probes(low, middle, k), pc);
        SearchFindsIff(fdes, low, middle, pc);
      } else {
        CoveredOneMore(fdes, middle, Probes(middle + 1, high, k), pc);
        SearchFindsIff(fdes, middle + 1, high, pc);
      }
    }
  }

  lemma CoveredOneMore(fdes: seq<Fde>, m: nat, rest: set<nat>, pc: nat)
    ensures CoveredAmong(fdes, {m} + rest, pc) <==> (m < |fdes| && Covers(fdes[m], pc)) || CoveredAmong(fdes, rest, pc)
    ensures !CoveredAmong(fdes, {}, pc)
  {
    var all := {m} + rest;
    if m < |fdes| && Covers(fdes[m], pc) { assert m in all; }
    if CoveredAmong(fdes, rest, pc) {
      var i :| i in rest && i < |fdes| && Covers(fdes[i], pc);
      assert i in all;
    }
  }

  /** Halving towards a place in the range gets there. */
  lemma {:induction false} ProbesReach(low: nat, high: nat, k: nat)
    requires low <= k < high
    ensures k in Probes(low, high, k)
    decreases high - low
  {
    var middle := (low + high - 1) / 2;
    if k < middle { ProbesReach(low, middle, k); } else if middle < k { ProbesReach(middle + 1, high, k); }
  }

  /** So the last FDE beginning at or below pc is never passed over. */
  lemma LastIsNotMissed(fdes: seq<Fde>, pc: nat)
    requires Sorted(fdes)
    requires var k := LastAtOrBelow(fdes, pc); k >= 0 && Covers(fdes[k], pc)
    ensures Halve(fdes, 0, |fdes|, pc).Some?
  {
    hide LastAtOrBelow, Halve, Probes;
    ProbesReach(0, |fdes|, LastAtOrBelow(fdes, pc));
    SearchFindsIff(fdes, 0, |fdes|, pc);
  }

  lemma EndsBefore(fdes: seq<Fde>, i: nat, j: nat)
    requires Sorted(fdes) && Disjoint(fdes) && i < |fdes| && j < |fdes|
    ensures i < j ==> EndPc(fdes[i]) <= fdes[j].body.initialLoc
  {
    if i < j {
      assert EndPc(fdes[i]) <= fdes[i + 1].body.initialLoc;
      assert i + 1 == j || fdes[i + 1].body.initialLoc <= fdes[j].body.initialLoc;
    }
  }

  /** On sorted FDEs that do not overlap, the search finds an FDE exactly when one
      covers pc, and it is the only one. */
  lemma SearchIsExact(fdes: seq<Fde>, pc: nat)
    requires Sorted(fdes) && Disjoint(fdes)
    ensures Halve(fdes, 0, |fdes|, pc).Some? <==> exists i :: 0 <= i < |fdes| && Covers(fdes[i], pc)
    ensures forall i :: 0 <= i < |fdes| && Covers(fdes[i], pc) ==> Halve(fdes, 0, |fdes|, pc) == Some(i)
  {
    hide LastAtOrBelow;
    var k := LastAtOrBelow(fdes, pc);
    forall i | 0 <= i < |fdes| && Covers(fdes[i], pc) ensures Halve(fdes, 0, |fdes|, pc) == Some(i) {
      EndsBefore(fdes, i, k);
      assert i == k;
      LastIsNotMissed(fdes, pc);
      var r := Halve(fdes, 0, |fdes|, pc).value;
      EndsBefore(fdes, r, i);
      EndsBefore(fdes, i, r);
    }
  }

  /** An FDE covers the addresses of its range, unless the range reaches up to or
      beyond the end of the address space: then the 64-bit sum makes it empty. */
  lemma CoversIff(f: Fde, pc: nat)
    requires IsU64(f.body.initialLoc) && IsU64(f.body.range)
    ensures Covers(f, pc) <==>
      f.body.initialLoc <= pc < f.body.initialLoc + f.body.range < 0x1_0000_0000_0000_0000
  {
    var sum := f.body.initialLoc + f.body.range;
    if sum >= TWO64 { assert Wrap64(sum) == sum - TWO64 < f.body.initialLoc; }
  }

  predicate Spans(f: Fde, pc: nat) { f.body.initialLoc <= pc < f.body.initialLoc + f.body.range }

  /** So for FDEs that end inside the address space and do not overlap, a pc is found
      exactly when some range holds it, and then with that FDE. */
  lemma PcIsFound(fdes: seq<Fde>, pc: nat)
    requires Sorted(fdes) && forall f :: f in fdes ==> f.body.initialLoc + f.body.range < 0x1_0000_0000_0000_0000
    requires forall i :: 0 < i < |fdes| ==> fdes[i - 1].body.initialLoc + fdes[i - 1].body.range <= fdes[i].body.initialLoc
    ensures Halve(fdes, 0, |fdes|, pc).Some? <==> exists i :: 0 <= i < |fdes| && Spans(fdes[i], pc)
    ensures forall i :: 0 <= i < |fdes| && Spans(fdes[i], pc) ==> Halve(fdes, 0, |fdes|, pc) == Some(i)
  {
    hide Sorted, Halve, Covers;
    forall i | 0 <= i < |fdes| ensures Covers(fdes[i], pc) <==> Spans(fdes[i], pc) {
      assert fdes[i] in fdes;
      CoversIff(fdes[i], pc);
    }
    forall i | 0 < i < |fdes| ensures EndPc(fdes[i - 1]) <= fdes[i].body.initialLoc {
      assert fdes[i - 1] in fdes;
    }
    SearchIsExact(fdes, pc);
  }

  lemma LastBegun(fdes: seq<Fde>, pc: nat)
    requires fdes != [] && fdes[|fdes| - 1].body.initialLoc <= pc
    ensures LastAtOrBelow(fdes, pc) == |fdes| - 1
  {}

  /** With overlaps an FDE can be missed: the first of these three covers 50, but the
      search only looks at the other two. Of the first two alone it looks at the
      first, and finds it. */
  lemma OverlapMisses(a: Fde, b: Fde, c: Fde)
    requires a.body.initialLoc == 0 && a.body.range == 100
    requires b.body.initialLoc == 10 && b.body.range == 5 && c.body.initialLoc == 20 && c.body.range == 5
    ensures Sorted([a, b, c]) && Covers(a, 50) && Probes(0, 3, 2) == {1, 2} && Halve([a, b, c], 0, 3, 50) == None
    ensures Sorted([a, b]) && Probes(0, 2, 1) == {0, 1} && Halve([a, b], 0, 2, 50).Some?
  {
    hide Halve, LastAtOrBelow;
    var three, two := [a, b, c], [a, b];
    assert Probes(2, 3, 2) == {2} + Probes(3, 3, 2) && Probes(1, 2, 1) == {1} + Probes(2, 2, 1);
    LastBegun(three, 50);
    LastBegun(two, 50);
    SearchFindsIff(three, 0, 3, 50);
    SearchFindsIff(two, 0, 2, 50);
    assert two[0] == a && Covers(two[0], 50);
  }

  /** Sorting loses nothing: whatever holds of each listed FDE holds of each sorted
      one, and a pc covered by a listed FDE is found. */
  lemma SortedListing(sec: Section, sorted: seq<Fde>, pc: nat)
    requires Listing(sec).Ok? && SortOf(Listing(sec).value.fdes, sorted) && Disjoint(sorted)
    ensures forall f :: f in sorted <==> f in Listing(sec).value.fdes
    ensures Halve(sorted, 0, |sorted|, pc).Some? <==> exists f :: f in Listing(sec).value.fdes && Covers(f, pc)
    ensures Halve(sorted, 0, |sorted|, pc).Some? ==>
      && sorted[Halve(sorted, 0, |sorted|, pc).value] in Listing(sec).value.fdes
      && forall f :: f in Listing(sec).value.fdes && Covers(f, pc) ==> f == sorted[Halve(sorted, 0, |sorted|, pc).value]
  {
    hide Listing, Halve, Sorted, Disjoint;
    var fdes := Listing(sec).value.fdes;
    SearchIsExact(sorted, pc);
    assert forall f :: f in sorted <==> f in multiset(sorted);
    assert forall f :: f in fdes <==> f in multiset(fdes);
    forall f | f in fdes && Covers(f, pc) ensures exists i :: 0 <= i < |sorted| && Covers(sorted[i], pc) && sorted[i] == f {
      assert f in sorted;
    }
  }
}
