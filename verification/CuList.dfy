/** The list of unit contexts of one section and its three users: the cursor
    (dwarf_next_cu_header_d), random access (dwarf_offdie_b) and signature lookup
    (libdwarf/dwarf_die_deliv.c, libdwarf/dwarf_find_sigref.c). Contexts are made
    lazily; a call may make several of them and may fail after some. */
module CuList {
  import opened Common

  /** The fields of Dwarf_CU_Context_s that come from the unit header. */
  datatype Cu = Cu(offset: nat, length: nat, lengthSize: nat, extensionSize: nat,
                   signature: nat, isTypeUnit: bool, signatureOffset: nat)
  {
    /** _dwarf_calculate_next_cu_context_offset */
    function End(): nat { offset + length + lengthSize + extensionSize }
  }

  /** What lies at an offset: not a header at all, or the header fields, whether
      the part after the length is well formed, and how the step that finishes
      the context from its unit DIE ends. */
  datatype Header = Garbage | Header(cu: Cu, restOk: bool, finish: Res<()>)

  datatype Section = Section(load: Res<()>, size: nat, simpleHeader: nat, headers: map<nat, Header>) {
    predicate Valid() {
      forall p :: p in headers && headers[p].Header? ==>
        headers[p].cu.offset == p && headers[p].cu.lengthSize > 0
    }
  }

  // -------------------------------------------------------- specification

  /** _dwarf_make_CU_Context */
  function MakeCu(sec: Section, p: nat): (r: Res<Cu>)
    requires sec.Valid()
    ensures !r.Error? ==> p in sec.headers && sec.headers[p].Header?
    ensures r.Ok? ==> r.value.offset == p < r.value.End() <= sec.size
    ensures r.Ok? ==> r.value.isTypeUnit ==> p + r.value.signatureOffset < r.value.End()
  {
    if p >= sec.size || p + 4 > sec.size || p !in sec.headers then Error
    else match sec.headers[p]
      case Garbage => Error
      case Header(cu, restOk, _) =>
        if cu.length == 0 then NoEntry
        else if cu.length > sec.size || cu.End() > sec.size then Error
        else if !restOk || (cu.isTypeUnit && cu.signatureOffset >= cu.length) then Error
        else Ok(cu)
  }

  /** The list, the index of the cursor in it, and de_last_offset. */
  datatype Reading = Reading(cus: seq<Cu>, cursor: Option<nat>, lastOffset: nat)

  const START := Reading([], None, 0)

  function EndOf(cus: seq<Cu>): nat { if cus == [] then 0 else cus[|cus| - 1].End() }

  /** The contexts tile the front of the section: they start at 0, each one starts
      where the one before it ends, and none is empty. */
  predicate Tiles(cus: seq<Cu>) {
    && (cus != [] ==> cus[0].offset == 0)
    && (forall i :: 0 <= i < |cus| ==> cus[i].offset < cus[i].End())
    && (forall i :: 0 <= i < |cus| - 1 ==> cus[i + 1].offset == cus[i].End())
  }

  predicate Ascending(cus: seq<Cu>) {
    forall i, j :: 0 <= i < j < |cus| ==> cus[i].offset < cus[i].End() <= cus[j].offset
  }

  predicate Contains(cu: Cu, p: nat) { cu.offset <= p < cu.End() }

  predicate Inv(sec: Section, r: Reading) {
    && Tiles(r.cus)
    && EndOf(r.cus) <= r.lastOffset <= sec.size
    && (r.cursor.Some? ==> r.cursor.value < |r.cus|)
    && (forall i :: 0 <= i < |r.cus| ==> TypeDieInside(r.cus[i]))
  }

  /** The type DIE of a type unit lies in the unit. */
  predicate TypeDieInside(cu: Cu) { cu.isTypeUnit ==> Contains(cu, cu.offset + cu.signatureOffset) }

  lemma {:induction false} TilesAscend(cus: seq<Cu>)
    requires Tiles(cus)
    ensures Ascending(cus)
    ensures forall i :: 0 <= i < |cus| ==> cus[i].End() <= EndOf(cus)
  {
    if |cus| > 1 {
      var front := cus[..|cus| - 1];
      assert forall i :: 0 <= i < |front| ==> cus[i] == front[i];
      TilesAscend(front);
      forall i, j | 0 <= i < j < |cus| ensures cus[i].offset < cus[i].End() <= cus[j].offset {
        assert cus[i] == front[i];
        if j == |cus| - 1 { assert cus[j].offset == cus[j - 1].End() == EndOf(front); }
        else { assert cus[j] == front[j]; }
      }
    }
  }

  /** The plain list scan: the index of the context containing p. */
  function Scan(cus: seq<Cu>, p: nat): (r: Option<nat>)
    ensures r.Some? ==> r.value < |cus| && Contains(cus[r.value], p)
    ensures r.None? ==> forall i :: 0 <= i < |cus| ==> !Contains(cus[i], p)
  {
    if cus == [] then None
    else if Contains(cus[|cus| - 1], p) then Some(|cus| - 1)
    else Scan(cus[..|cus| - 1], p)
  }

  /** _dwarf_create_a_new_cu_context_record_on_list, at the end of the list. */
  function CreateAt(sec: Section, r: Reading, p: nat): (out: (Reading, Res<Cu>))
    requires sec.Valid()
  {
    if p + sec.simpleHeader >= sec.size then (r, Error)
    else match MakeCu(sec, p)
      case Error => (r, Error)
      case NoEntry => (r, NoEntry)
      case Ok(cu) =>
        var r' := r.(lastOffset := cu.End());
        match sec.headers[p].finish
        case Error => (r', Error)
        case NoEntry => (r', NoEntry)
        case Ok(_) => (r'.(cus := r.cus + [cu]), Ok(cu))
  }

  /** How many units the cursor has passed, and where the next one would be. */
  function Position(r: Reading): nat { if r.cursor.None? then 0 else r.cursor.value + 1 }

  function Place(r: Reading): nat {
    if 0 < Position(r) <= |r.cus| then r.cus[Position(r) - 1].End() else 0
  }

  /** _dwarf_next_cu_header_internal */
  function NextHeader(sec: Section, r: Reading): (Reading, Res<Cu>)
    requires sec.Valid()
  {
    if sec.load == Error then (r, Error)
    else if sec.load == NoEntry then (r, NoEntry)
    else
      var p := Place(r);
      if p + sec.simpleHeader >= sec.size then (r.(cursor := None), NoEntry)
      else match Scan(r.cus, p)
        case Some(i) => (r.(cursor := Some(i)), Ok(r.cus[i]))
        case None =>
          var (r', res) := CreateAt(sec, r, p);
          if res.Ok? then (r'.(cursor := Some(|r'.cus| - 1)), res) else (r', res)
  }

  /** The unit context dwarf_offdie_b works in. */
  function OffDie(sec: Section, r: Reading, p: nat): (Reading, Res<Cu>)
    requires sec.Valid()
  {
    if sec.load == Error then (r, Error)
    else if sec.load == NoEntry then (r, NoEntry)
    else match Scan(r.cus, p)
      case Some(i) => (r, Ok(r.cus[i]))
      case None => Extend(sec, r, EndOf(r.cus), p)
  }

  /** Its loop: make contexts from q on until one ends beyond p. */
  function Extend(sec: Section, r: Reading, q: nat, p: nat): (Reading, Res<Cu>)
    requires sec.Valid()
    decreases sec.size - q
  {
    var (r', res) := CreateAt(sec, r, q);
    if !res.Ok? || p < res.value.End() then (r', res) else Extend(sec, r', res.value.End(), p)
  }

  predicate Matches(cu: Cu, signature: nat) { cu.signature == signature && cu.isTypeUnit }

  function FirstMatch(cus: seq<Cu>, signature: nat): (r: Option<nat>)
    ensures r.Some? ==> r.value < |cus| && Matches(cus[r.value], signature)
    ensures r.Some? ==> forall i :: 0 <= i < r.value ==> !Matches(cus[i], signature)
    ensures r.None? ==> forall i :: 0 <= i < |cus| ==> !Matches(cus[i], signature)
  {
    if cus == [] then None
    else match FirstMatch(cus[..|cus| - 1], signature)
      case Some(i) => Some(i)
      case None => if Matches(cus[|cus| - 1], signature) then Some(|cus| - 1) else None
  }

  /** _dwarf_find_CU_Context_given_sig within one section; NoEntry: not here. */
  function FindSig(sec: Section, r: Reading, signature: nat): (Reading, Res<Cu>)
    requires sec.Valid()
  {
    if sec.load == Error then (r, Error)
    else if sec.load == NoEntry then (r, NoEntry)
    else match FirstMatch(r.cus, signature)
      case Some(i) => (r, Ok(r.cus[i]))
      case None => ExtendSig(sec, r, EndOf(r.cus), signature)
  }

  function ExtendSig(sec: Section, r: Reading, q: nat, signature: nat): (Reading, Res<Cu>)
    requires sec.Valid()
    decreases sec.size - q
  {
    if q >= sec.size then (r, NoEntry)
    else
      var (r', res) := CreateAt(sec, r, q);
      if !res.Ok? || Matches(res.value, signature) then (r', res)
      else ExtendSig(sec, r', res.value.End(), signature)
  }

  // --------------------------------------------------------------- the code

  class CuContext {
    const cu: Cu
    var next: CuContext?

    constructor (cu: Cu)
      ensures this.cu == cu && next == null
    {
      this.cu := cu;
      next := null;
    }
  }

  ghost function CusOf(nodes: seq<CuContext>): (cus: seq<Cu>)
    ensures |cus| == |nodes| && forall i :: 0 <= i < |nodes| ==> cus[i] == nodes[i].cu
  {
    seq(|nodes|, i requires 0 <= i < |nodes| => nodes[i].cu)
  }

  /** Each context points to the next one. */
  ghost predicate Chained(nodes: seq<CuContext>, repr: set<CuContext>)
    reads repr
  {
    && (forall i :: 0 <= i < |nodes| ==> nodes[i] in repr)
    && (forall i {:trigger nodes[i].next} :: 0 <= i < |nodes| - 1 ==> nodes[i].next == nodes[i + 1])
  }

  ghost predicate Ordered(nodes: seq<CuContext>) {
    forall i, j :: 0 <= i < j < |nodes| ==> nodes[i].cu.offset < nodes[j].cu.offset
  }

  ghost function Insert(nodes: seq<CuContext>, k: nat, icu: CuContext): (s: seq<CuContext>)
    requires k <= |nodes|
    ensures |s| == |nodes| + 1 && s[k] == icu
    ensures forall i :: 0 <= i < k ==> s[i] == nodes[i]
    ensures forall i :: k < i < |s| ==> s[i] == nodes[i - 1]
  {
    nodes[..k] + [icu] + nodes[k..]
  }

  /** The place of a new offset in an ordered list. */
  ghost predicate Fits(nodes: seq<CuContext>, k: nat, icu: CuContext) {
    && k <= |nodes|
    && (forall i :: 0 <= i < k ==> nodes[i].cu.offset < icu.cu.offset)
    && (forall i :: k <= i < |nodes| ==> icu.cu.offset < nodes[i].cu.offset)
  }

  lemma InsertOrdered(nodes: seq<CuContext>, k: nat, icu: CuContext)
    requires Ordered(nodes) && Fits(nodes, k, icu)
    ensures Ordered(Insert(nodes, k, icu))
  {}

  /** Dwarf_Debug_InfoTypes_s for one section. */
  class InfoReading {
    const sec: Section
    var cuContext: CuContext?
    var list: CuContext?
    var listEnd: CuContext?
    var lastOffset: nat
    ghost var nodes: seq<CuContext>
    ghost var repr: set<CuContext>
    ghost var cursor: Option<nat>

    ghost function Cus(): (cus: seq<Cu>)
      reads this`nodes
    {
      CusOf(nodes)
    }

    ghost function Abs(): Reading
      reads this
    {
      Reading(Cus(), cursor, lastOffset)
    }

    /** The linked list holds exactly nodes, by ascending offset. */
    ghost predicate Linked()
      reads this`list, this`listEnd, this`nodes, this`repr, repr
    {
      && (nodes == [] ==> list == null && listEnd == null)
      && Chained(nodes, repr) && Ordered(nodes)
      && (nodes != [] ==> list == nodes[0] && listEnd == nodes[|nodes| - 1] && listEnd.next == null)
    }

    ghost predicate Valid()
      reads this, repr
    {
      && sec.Valid() && Linked() && Inv(sec, Abs())
      && (cursor.None? ==> cuContext == null)
      && (cursor.Some? ==> cursor.value < |nodes| && cuContext == nodes[cursor.value])
    }

    /** The end of the tail context is the end of what is listed. */
    lemma TailEnd()
      requires Valid()
      ensures forall i :: 0 <= i < |nodes| ==> nodes[i] in repr
      ensures (if listEnd == null then 0 else listEnd.cu.End()) == EndOf(Cus())
    {}

    constructor (sec: Section)
      requires sec.Valid()
      ensures Valid() && this.sec == sec && Abs() == START
    {
      this.sec := sec;
      cuContext, list, listEnd, lastOffset := null, null, null, 0;
      nodes, repr, cursor := [], {}, None;
    }

    /** insert_into_cu_context_list: into its place by offset, wherever that is. */
    method InsertIntoCuContextList(icu: CuContext)
      requires Linked() && icu !in repr && icu.next == null
      requires forall i :: 0 <= i < |nodes| ==> nodes[i].cu.offset != icu.cu.offset
      modifies this`list, this`listEnd, this`nodes, this`repr, repr, icu
      ensures Linked() && repr == old(repr) + {icu}
      ensures exists k :: Fits(old(nodes), k, icu) && nodes == Insert(old(nodes), k, icu)
    {
      hide Insert, Ordered, Fits;
      ghost var was := nodes;
      repr := repr + {icu};
      if list == null {
        list, listEnd := icu, icu;
        nodes := Insert(was, 0, icu);
        NoneFits(icu);
        InsertOrdered(was, 0, icu);
        return;
      }
      var ioffset := icu.cu.offset;
      if listEnd.cu.offset < ioffset {
        EndFits(was, icu);
        listEnd.next := icu;
        listEnd := icu;
        nodes := Insert(was, |was|, icu);
        InsertOrdered(was, |was|, icu);
        return;
      }
      if list.cu.offset > ioffset {
        HeadFits(was, icu);
        var next := list;
        list := icu;
        list.next := next;
        nodes := Insert(was, 0, icu);
        InsertOrdered(was, 0, icu);
        return;
      }
      InsertMiddle(icu);
    }

    /** The loop of the same function: somewhere between head and tail. */
    method InsertMiddle(icu: CuContext)
      requires Linked() && nodes != [] && icu !in nodes && icu in repr && icu.next == null
      requires list.cu.offset < icu.cu.offset < listEnd.cu.offset
      requires forall i :: 0 <= i < |nodes| ==> nodes[i].cu.offset != icu.cu.offset
      modifies this`nodes, repr
      ensures Linked()
      ensures exists k :: Fits(old(nodes), k, icu) && nodes == Insert(old(nodes), k, icu)
    {
      hide Insert, Ordered;
      ghost var was := nodes;
      var ioffset := icu.cu.offset;
      var past := list;
      var cur := past.next;
      ghost var k := 1;
      while cur != null
        invariant 1 <= k <= |nodes| && past == nodes[k - 1]
        invariant cur == if k < |nodes| then nodes[k] else null
        invariant forall i :: 0 <= i < k ==> nodes[i].cu.offset < ioffset
        decreases |nodes| - k
      {
        var next := cur.next;
        var coffset := cur.cu.offset;
        if coffset > ioffset {
          MiddleFits(was, k, icu);
          Distinct(was);
          past.next := icu;
          icu.next := cur;
          nodes := Insert(was, k, icu);
          InsertOrdered(was, k, icu);
          return;
        }
        past := cur;
        cur := next;
        k := k + 1;
      }
      assert false;
    }

    /** _dwarf_find_CU_Context: whatever the cursor is, the answer is that of a
        plain scan of the list. */
    method FindCuContext(offset: nat) returns (ctx: CuContext?, ghost at: Option<nat>)
      requires Valid()
      ensures at == Scan(Cus(), offset)
      ensures ctx == if Scan(Cus(), offset).Some? then nodes[Scan(Cus(), offset).value] else null
    {
      hide Scan, Ordered, Inv, CusOf;
      ghost var r := Abs();
      if offset >= lastOffset { BeyondLast(sec, r, offset); return null, None; }
      if cuContext != null {
        ghost var c := cursor.value;
        if cuContext.next != null && cuContext.next.cu.offset == offset {
          assert c + 1 < |nodes|;
          assert nodes[c].next == nodes[c + 1];
          ScanAtStart(sec, r, c + 1);
          return cuContext.next, Some(c + 1);
        }
        if cuContext.cu.offset <= offset {
          ctx, at := ScanFrom(cuContext, c, offset);
          if ctx != null { return; }
        }
      }
      ctx, at := ScanFrom(list, 0, offset);
      if ctx == null { ScanNothing(r.cus, offset); }
    }

    /** The scanning loop, from the context at index k on. */
    method ScanFrom(first: CuContext?, ghost k: nat, offset: nat) returns (ctx: CuContext?, ghost at: Option<nat>)
      requires Valid() && k <= |nodes|
      requires first == if k < |nodes| then nodes[k] else null
      ensures ctx != null ==> at == Scan(Cus(), offset) && at.Some? && ctx == nodes[at.value]
      ensures ctx == null ==> at == None && forall i :: k <= i < |nodes| ==> !Contains(nodes[i].cu, offset)
    {
      hide Scan, Ordered;
      ctx := first;
      ghost var i := k;
      ghost var cus := Cus();
      while ctx != null
        invariant k <= i <= |nodes|
        invariant ctx == if i < |nodes| then nodes[i] else null
        invariant forall j :: k <= j < i ==> !Contains(nodes[j].cu, offset)
        decreases |nodes| - i
      {
        if offset >= ctx.cu.offset && offset < ctx.cu.End() {
          assert cus[i] == nodes[i].cu;
          ScanUnique(cus, offset, i);
          return ctx, Some(i);
        }
        assert i + 1 < |nodes| ==> nodes[i].next == nodes[i + 1];
        ctx := ctx.next;
        i := i + 1;
      }
      return null, None;
    }

    /** insert_into_cu_context_list, when the new context lies behind all others. */
    method Append(ctx: CuContext)
      requires Linked() && ctx !in repr && ctx.next == null
      requires forall i :: 0 <= i < |nodes| ==> nodes[i].cu.offset < ctx.cu.offset
      modifies this`list, this`listEnd, this`nodes, this`repr, repr, ctx
      ensures Linked() && repr == old(repr) + {ctx} && nodes == old(nodes) + [ctx]
    {
      hide Ordered;
      ghost var was := nodes;
      InsertIntoCuContextList(ctx);
      ghost var k: nat :| Fits(was, k, ctx) && nodes == Insert(was, k, ctx);
      assert k == |was|;
    }

    /** _dwarf_create_a_new_cu_context_record_on_list with _dwarf_make_CU_Context
        and the finishing step. All three users call it with the end of the list. */
    method CreateRecord(p: nat) returns (res: Res<CuContext>, ghost out: Res<Cu>)
      requires Valid() && p == EndOf(Cus())
      modifies this`list, this`listEnd, this`nodes, this`repr, this`lastOffset, repr
      ensures Valid() && (Abs(), out) == CreateAt(sec, old(Abs()), p)
      ensures (out.Ok? <==> res.Ok?) && (out.NoEntry? <==> res.NoEntry?)
      ensures res.Ok? ==> nodes == old(nodes) + [res.value] && res.value.cu == out.value
      ensures !res.Ok? ==> nodes == old(nodes)
      ensures fresh(repr - old(repr))
    {
      hide Inv, Tiles, Ordered, Chained, EndOf, MakeCu;
      ghost var r := Abs();
      CreateInv(sec, r, p);
      AllBefore(sec, r);
      if p + sec.simpleHeader >= sec.size { return Error, Error; }
      var made := Make(p);
      if made.Error? { return Error, Error; }
      if made.NoEntry? { return NoEntry, NoEntry; }
      var cu := made.value;
      lastOffset := cu.End();
      var finish := sec.headers[p].finish;
      if finish.Error? { return Error, Error; }
      if finish.NoEntry? { return NoEntry, NoEntry; }
      var ctx := new CuContext(cu);
      assert forall i :: 0 <= i < |nodes| ==> r.cus[i] == nodes[i].cu;
      Append(ctx);
      assert Cus() == r.cus + [cu];
      return Ok(ctx), Ok(cu);
    }

    /** _dwarf_make_CU_Context. */
    method Make(p: nat) returns (r: Res<Cu>)
      requires sec.Valid()
      ensures r == MakeCu(sec, p)
    {
      if p >= sec.size { return Error; }
      if p + 4 > sec.size { return Error; }
      if p !in sec.headers { return Error; }
      var h := sec.headers[p];
      if h.Garbage? { return Error; }
      if h.cu.length == 0 { return NoEntry; }
      if h.cu.length > sec.size { return Error; }
      if h.cu.End() > sec.size { return Error; }
      if !h.restOk { return Error; }
      if h.cu.isTypeUnit {
        if h.cu.signatureOffset >= h.cu.length { return Error; }
      }
      return Ok(h.cu);
    }

    /** dwarf_next_cu_header_d. */
    method NextCuHeader() returns (res: Res<CuContext>, ghost out: Res<Cu>)
      requires Valid()
      modifies this, repr
      ensures Valid() && (Abs(), out) == NextHeader(sec, old(Abs()))
      ensures (out.Ok? <==> res.Ok?) && (out.NoEntry? <==> res.NoEntry?)
      ensures res.Ok? ==> res.value == cuContext && res.value.cu == out.value
      ensures old(nodes) <= nodes && fresh(repr - old(repr))
    {
      hide CreateAt, Scan, Linked, Inv, EndOf;
      if sec.load.Error? { return Error, Error; }
      if sec.load.NoEntry? { return NoEntry, NoEntry; }
      ghost var r := Abs();
      NextAtEnd(sec, r);
      MoveCursor(sec, r, None);
      var newOffset := 0;
      if cuContext != null { newOffset := cuContext.cu.End(); }
      assert newOffset == Place(r);
      if newOffset + sec.simpleHeader >= sec.size {
        cuContext, cursor := null, None;
        return NoEntry, NoEntry;
      }
      var ctx, at := FindCuContext(newOffset);
      if ctx == null {
        res, out := CreateRecord(newOffset);
        if !res.Ok? { return; }
        ctx := res.value;
        MoveCursor(sec, Abs(), Some(|nodes| - 1));
        cuContext, cursor := ctx, Some(|nodes| - 1);
      } else {
        MoveCursor(sec, r, at);
        cuContext, cursor := ctx, at;
        res, out := Ok(ctx), Ok(ctx.cu);
      }
    }

    /** The part of dwarf_offdie_b that finds or makes the unit context. */
    method OffDieContext(offset: nat) returns (res: Res<CuContext>, ghost out: Res<Cu>)
      requires Valid()
      modifies this`list, this`listEnd, this`nodes, this`repr, this`lastOffset, repr
      ensures Valid() && (Abs(), out) == OffDie(sec, old(Abs()), offset)
      ensures (out.Ok? <==> res.Ok?) && (out.NoEntry? <==> res.NoEntry?)
      ensures res.Ok? ==> res.value in nodes && res.value.cu == out.value
      ensures old(nodes) <= nodes && fresh(repr - old(repr))
    {
      hide CreateAt, Scan, Linked, Inv, EndOf;
      if sec.load.Error? { return Error, Error; }
      if sec.load.NoEntry? { return NoEntry, NoEntry; }
      var ctx, at := FindCuContext(offset);
      if ctx != null { return Ok(ctx), Ok(ctx.cu); }
      var newOffset := 0;
      if listEnd != null { newOffset := listEnd.cu.End(); }
      TailEnd();
      while true
        invariant Valid() && newOffset == EndOf(Cus())
        invariant Extend(sec, Abs(), newOffset, offset) == OffDie(sec, old(Abs()), offset)
        invariant old(nodes) <= nodes && fresh(repr - old(repr))
        decreases sec.size - newOffset
      {
        CreateInv(sec, Abs(), newOffset);
        res, out := CreateRecord(newOffset);
        if !res.Ok? { return; }
        newOffset := res.value.cu.End();
        if offset < newOffset { return; }
      }
    }

    /** Its first loop: is the type unit listed already? prev is the last context. */
    method ScanSig(signature: nat) returns (ctx: CuContext?, prev: CuContext?)
      requires Valid()
      ensures match FirstMatch(Cus(), signature)
        case Some(i) => ctx == nodes[i]
        case None => ctx == null && prev == listEnd
    {
      hide FirstMatch, Inv, Ordered;
      ctx, prev := list, null;
      ghost var i := 0;
      ghost var cus := Cus();
      while ctx != null
        invariant 0 <= i <= |nodes|
        invariant ctx == if i < |nodes| then nodes[i] else null
        invariant prev == if i == 0 then null else nodes[i - 1]
        invariant forall j :: 0 <= j < i ==> !Matches(cus[j], signature)
        decreases |nodes| - i
      {
        prev := ctx;
        assert cus[i] == ctx.cu;
        if ctx.cu.signature == signature {
          if ctx.cu.isTypeUnit {
            FirstMatchIs(cus, signature, i);
            return;
          }
        }
        assert i + 1 < |nodes| ==> nodes[i].next == nodes[i + 1];
        ctx := ctx.next;
        i := i + 1;
      }
      FirstMatchNone(cus, signature);
    }

    /** _dwarf_find_CU_Context_given_sig, the body of its loop over sections. */
    method FindGivenSig(signature: nat) returns (res: Res<CuContext>, ghost out: Res<Cu>)
      requires Valid()
      modifies this`list, this`listEnd, this`nodes, this`repr, this`lastOffset, repr
      ensures Valid() && (Abs(), out) == FindSig(sec, old(Abs()), signature)
      ensures (out.Ok? <==> res.Ok?) && (out.NoEntry? <==> res.NoEntry?)
      ensures res.Ok? ==> res.value in nodes && res.value.cu == out.value
      ensures old(nodes) <= nodes && fresh(repr - old(repr))
    {
      hide CreateAt, FirstMatch, Inv, EndOf, Linked, CusOf;
      if sec.load.Error? { return Error, Error; }
      if sec.load.NoEntry? { return NoEntry, NoEntry; }
      var ctx, prev := ScanSig(signature);
      if ctx != null { return Ok(ctx), Ok(ctx.cu); }
      var newOffset := if prev != null then prev.cu.End() else 0;
      TailEnd();
      while newOffset < sec.size
        invariant Valid() && newOffset == EndOf(Cus())
        invariant ExtendSig(sec, Abs(), newOffset, signature) == FindSig(sec, old(Abs()), signature)
        invariant old(nodes) <= nodes && fresh(repr - old(repr))
        decreases sec.size - newOffset
      {
        CreateInv(sec, Abs(), newOffset);
        res, out := CreateRecord(newOffset);
        if res.Error? { return; }
        if res.NoEntry? { return; }
        if res.value.cu.signature == signature && res.value.cu.isTypeUnit { return; }
        newOffset := res.value.cu.End();
      }
      return NoEntry, NoEntry;
    }
  }

  lemma {:induction false} ScanUnique(cus: seq<Cu>, p: nat, i: nat)
    requires Tiles(cus) && i < |cus| && Contains(cus[i], p)
    ensures Scan(cus, p) == Some(i)
  {
    TilesAscend(cus);
  }

  lemma ScanNothing(cus: seq<Cu>, p: nat)
    requires forall i :: 0 <= i < |cus| ==> !Contains(cus[i], p)
    ensures Scan(cus, p) == None
  {}

  lemma FirstMatchIs(cus: seq<Cu>, signature: nat, i: nat)
    requires i < |cus| && Matches(cus[i], signature)
    requires forall j :: 0 <= j < i ==> !Matches(cus[j], signature)
    ensures FirstMatch(cus, signature) == Some(i)
  {}

  lemma FirstMatchNone(cus: seq<Cu>, signature: nat)
    requires forall j :: 0 <= j < |cus| ==> !Matches(cus[j], signature)
    ensures FirstMatch(cus, signature) == None
  {}

  /** Making a context at the end of the list keeps the invariant, also when the
      finishing step fails after de_last_offset has been moved. */
  lemma CreateInv(sec: Section, r: Reading, p: nat)
    requires sec.Valid() && Inv(sec, r) && p == EndOf(r.cus)
    ensures var (r', res) := CreateAt(sec, r, p);
      && Inv(sec, r') && r'.cursor == r.cursor
      && (if res.Ok? then r'.cus == r.cus + [res.value] && EndOf(r'.cus) == res.value.End() > p
                          && res.value.End() <= sec.size
          else r'.cus == r.cus)
  {
    hide Tiles, EndOf;
    var (r', res) := CreateAt(sec, r, p);
    if res.Ok? { TilesSnoc(r.cus, res.value); }
    var made := MakeCu(sec, p);
    if made.Ok? { TilesSnoc(r.cus, made.value); }
  }

  lemma TilesSnoc(cus: seq<Cu>, cu: Cu)
    requires Tiles(cus) && cu.offset == EndOf(cus) < cu.End()
    ensures Tiles(cus + [cu]) && EndOf(cus + [cu]) == cu.End()
  {
    var all := cus + [cu];
    forall i | 0 <= i < |all| - 1 ensures all[i + 1].offset == all[i].End() {
      if i + 1 < |cus| { assert all[i + 1] == cus[i + 1] && all[i] == cus[i]; }
    }
  }

  lemma BeyondLast(sec: Section, r: Reading, p: nat)
    requires Inv(sec, r) && p >= r.lastOffset
    ensures Scan(r.cus, p) == None
  {
    TilesAscend(r.cus);
    ScanNothing(r.cus, p);
  }

  lemma ScanAtStart(sec: Section, r: Reading, i: nat)
    requires Inv(sec, r) && i < |r.cus|
    ensures Scan(r.cus, r.cus[i].offset) == Some(i)
  {
    ScanUnique(r.cus, r.cus[i].offset, i);
  }

  lemma MoveCursor(sec: Section, r: Reading, c: Option<nat>)
    requires Inv(sec, r) && (c.Some? ==> c.value < |r.cus|)
    ensures Inv(sec, r.(cursor := c))
  {}

  lemma AllBefore(sec: Section, r: Reading)
    requires Inv(sec, r)
    ensures forall i :: 0 <= i < |r.cus| ==> r.cus[i].offset < EndOf(r.cus)
  {
    TilesAscend(r.cus);
  }

  /** Where the cursor goes next is either listed or the end of the list. */
  lemma NextAtEnd(sec: Section, r: Reading)
    requires Inv(sec, r)
    ensures Position(r) <= |r.cus|
    ensures Scan(r.cus, Place(r)) == if Position(r) < |r.cus| then Some(Position(r)) else None
    ensures Position(r) == |r.cus| ==> Place(r) == EndOf(r.cus)
  {
    var p, i := Place(r), Position(r);
    if i < |r.cus| {
      assert r.cus[i].offset == p;
      ScanUnique(r.cus, p, i);
    } else {
      TilesAscend(r.cus);
      ScanNothing(r.cus, p);
    }
  }

  lemma Distinct(nodes: seq<CuContext>)
    requires Ordered(nodes)
    ensures forall i, j :: 0 <= i < j < |nodes| ==> nodes[i] != nodes[j]
  {}

  lemma NoneFits(icu: CuContext)
    ensures Fits([], 0, icu)
  {}

  lemma EndFits(nodes: seq<CuContext>, icu: CuContext)
    requires Ordered(nodes) && nodes != [] && nodes[|nodes| - 1].cu.offset < icu.cu.offset
    ensures Fits(nodes, |nodes|, icu)
  {}

  lemma HeadFits(nodes: seq<CuContext>, icu: CuContext)
    requires Ordered(nodes) && nodes != [] && icu.cu.offset < nodes[0].cu.offset
    ensures Fits(nodes, 0, icu)
  {}

  lemma MiddleFits(nodes: seq<CuContext>, k: nat, icu: CuContext)
    requires Ordered(nodes) && k < |nodes| && icu.cu.offset < nodes[k].cu.offset
    requires forall i :: 0 <= i < k ==> nodes[i].cu.offset < icu.cu.offset
    ensures Fits(nodes, k, icu)
  {}

  // ------------------------------------------------------- whole runs

  datatype Sections = Sections(info: Section, types: Section) {
    predicate Valid() { info.Valid() && types.Valid() }
    function Of(isInfo: bool): Section { if isInfo then info else types }
  }

  datatype Debug = Debug(info: Reading, types: Reading) {
    function Of(isInfo: bool): Reading { if isInfo then info else types }
    function With(isInfo: bool, r: Reading): Debug { if isInfo then this.(info := r) else this.(types := r) }
  }

  datatype Op = Next(isInfo: bool) | OffDieOp(isInfo: bool, offset: nat) | FindSigOp(signature: nat)

  predicate DebugInv(secs: Sections, d: Debug) { Inv(secs.info, d.info) && Inv(secs.types, d.types) }

  /** dwarf_find_die_given_sig8: look in both sections, then go to the type DIE. */
  function FindSig8(secs: Sections, d: Debug, signature: nat): (Debug, Res<Cu>)
    requires secs.Valid()
  {
    var (i, res) := FindSig(secs.info, d.info, signature);
    if res.Ok? then
      var (i', res') := OffDie(secs.info, i, res.value.offset + res.value.signatureOffset);
      (d.(info := i'), res')
    else if res.Error? then (d.(info := i), Error)
    else
      var (t, res2) := FindSig(secs.types, d.types, signature);
      if !res2.Ok? then (Debug(i, t), res2)
      else
        var (t', res') := OffDie(secs.types, t, res2.value.offset + res2.value.signatureOffset);
        (Debug(i, t'), res')
  }

  /** The loop over the two sections, unrolled. */
  method FindDieGivenSig8(info: InfoReading, types: InfoReading, signature: nat)
    returns (res: Res<CuContext>, ghost out: Res<Cu>)
    requires info.Valid() && types.Valid() && info != types && info.repr !! types.repr
    modifies info`list, info`listEnd, info`nodes, info`repr, info`lastOffset, info.repr
    modifies types`list, types`listEnd, types`nodes, types`repr, types`lastOffset, types.repr
    ensures info.Valid() && types.Valid() && info.repr !! types.repr
    ensures (Debug(info.Abs(), types.Abs()), out)
         == FindSig8(Sections(info.sec, types.sec), Debug(old(info.Abs()), old(types.Abs())), signature)
    ensures (out.Ok? <==> res.Ok?) && (out.NoEntry? <==> res.NoEntry?)
    ensures res.Ok? ==> res.value.cu == out.value
  {
    hide FindSig, OffDie, InfoReading.Linked, Inv, CusOf;
    res, out := info.FindGivenSig(signature);
    if res.Error? { return; }
    if res.Ok? {
      res, out := info.OffDieContext(res.value.cu.offset + res.value.cu.signatureOffset);
      return;
    }
    res, out := types.FindGivenSig(signature);
    if !res.Ok? { return; }
    res, out := types.OffDieContext(res.value.cu.offset + res.value.cu.signatureOffset);
  }

  function StepOp(secs: Sections, d: Debug, op: Op): (Debug, Res<Cu>)
    requires secs.Valid()
  {
    match op
    case Next(isInfo) =>
      var (r, res) := NextHeader(secs.Of(isInfo), d.Of(isInfo)); (d.With(isInfo, r), res)
    case OffDieOp(isInfo, offset) =>
      var (r, res) := OffDie(secs.Of(isInfo), d.Of(isInfo), offset); (d.With(isInfo, r), res)
    case FindSigOp(signature) => FindSig8(secs, d, signature)
  }

  lemma {:induction false} ExtendInv(sec: Section, r: Reading, q: nat, p: nat)
    requires sec.Valid() && Inv(sec, r) && q == EndOf(r.cus)
    ensures var r' := Extend(sec, r, q, p).0;
      Inv(sec, r') && r'.cursor == r.cursor && r.cus <= r'.cus
    decreases sec.size - q
  {
    hide CreateAt, Inv, EndOf;
    CreateInv(sec, r, q);
    var (r', res) := CreateAt(sec, r, q);
    if res.Ok? && p >= res.value.End() { ExtendInv(sec, r', res.value.End(), p); }
  }

  lemma {:induction false} ExtendSigInv(sec: Section, r: Reading, q: nat, signature: nat)
    requires sec.Valid() && Inv(sec, r) && q == EndOf(r.cus)
    ensures var r' := ExtendSig(sec, r, q, signature).0;
      Inv(sec, r') && r'.cursor == r.cursor && r.cus <= r'.cus
    decreases sec.size - q
  {
    hide CreateAt, Inv, EndOf;
    if q < sec.size {
      CreateInv(sec, r, q);
      var (r', res) := CreateAt(sec, r, q);
      if res.Ok? && !Matches(res.value, signature) { ExtendSigInv(sec, r', res.value.End(), signature); }
    }
  }

  lemma NextInv(sec: Section, r: Reading)
    requires sec.Valid() && Inv(sec, r)
    ensures Inv(sec, NextHeader(sec, r).0) && r.cus <= NextHeader(sec, r).0.cus
  {
    hide CreateAt, Inv, EndOf, Scan;
    NextAtEnd(sec, r);
    MoveCursor(sec, r, None);
    var p := Place(r);
    var at := Scan(r.cus, p);
    if at.Some? {
      MoveCursor(sec, r, at);
    } else {
      CreateInv(sec, r, p);
      var (r', res) := CreateAt(sec, r, p);
      if res.Ok? { MoveCursor(sec, r', Some(|r'.cus| - 1)); }
    }
  }

  lemma OffDieInv(sec: Section, r: Reading, p: nat)
    requires sec.Valid() && Inv(sec, r)
    ensures var r' := OffDie(sec, r, p).0;
      Inv(sec, r') && r'.cursor == r.cursor && r.cus <= r'.cus
  {
    hide CreateAt, Inv, EndOf, Scan;
    ExtendInv(sec, r, EndOf(r.cus), p);
  }

  lemma FindSigInv(sec: Section, r: Reading, signature: nat)
    requires sec.Valid() && Inv(sec, r)
    ensures var r' := FindSig(sec, r, signature).0;
      Inv(sec, r') && r'.cursor == r.cursor && r.cus <= r'.cus
  {
    hide CreateAt, Inv, EndOf, FirstMatch;
    ExtendSigInv(sec, r, EndOf(r.cus), signature);
  }

  /** One call of any of the three operations, successful or not. */
  lemma StepInv(secs: Sections, d: Debug, op: Op)
    requires secs.Valid() && DebugInv(secs, d)
    ensures DebugInv(secs, StepOp(secs, d, op).0)
    ensures !op.Next? ==> StepOp(secs, d, op).0.info.cursor == d.info.cursor
    ensures !op.Next? ==> StepOp(secs, d, op).0.types.cursor == d.types.cursor
    ensures d.info.cus <= StepOp(secs, d, op).0.info.cus && d.types.cus <= StepOp(secs, d, op).0.types.cus
  {
    hide NextHeader, OffDie, FindSig, Inv;
    match op {
      case Next(isInfo) => NextInv(secs.Of(isInfo), d.Of(isInfo));
      case OffDieOp(isInfo, offset) => OffDieInv(secs.Of(isInfo), d.Of(isInfo), offset);
      case FindSigOp(signature) =>
        FindSigInv(secs.info, d.info, signature);
        FindSigInv(secs.types, d.types, signature);
        var (i, res) := FindSig(secs.info, d.info, signature);
        var (t, res2) := FindSig(secs.types, d.types, signature);
        if res.Ok? { OffDieInv(secs.info, i, res.value.offset + res.value.signatureOffset); }
        if res2.Ok? { OffDieInv(secs.types, t, res2.value.offset + res2.value.signatureOffset); }
    }
  }

  function Run(secs: Sections, d: Debug, ops: seq<Op>): Debug
    requires secs.Valid()
    decreases |ops|
  {
    if ops == [] then d else Run(secs, StepOp(secs, d, ops[0]).0, ops[1..])
  }

  /** Over every interleaving of the three operations from a fresh start, failing
      calls included, both lists keep tiling the front of their sections, end at
      or below de_last_offset, and the cursors are null or in the list. */
  lemma {:induction false} RunInv(secs: Sections, d: Debug, ops: seq<Op>)
    requires secs.Valid() && DebugInv(secs, d)
    ensures DebugInv(secs, Run(secs, d, ops))
    decreases |ops|
  {
    hide StepOp, Inv;
    if ops != [] {
      StepInv(secs, d, ops[0]);
      RunInv(secs, StepOp(secs, d, ops[0]).0, ops[1..]);
    }
  }

  lemma RunFromStart(secs: Sections, ops: seq<Op>)
    requires secs.Valid()
    ensures DebugInv(secs, Debug(START, START))
    ensures var d := Run(secs, Debug(START, START), ops);
      Ascending(d.info.cus) && Ascending(d.types.cus) && DebugInv(secs, d)
  {
    RunInv(secs, Debug(START, START), ops);
    var d := Run(secs, Debug(START, START), ops);
    TilesAscend(d.info.cus);
    TilesAscend(d.types.cus);
  }

  // ------------------------------------------------------- the cursor march

  /** The section consists of the units all: each one can be made where it stands,
      and what follows the last one is too short for a header. */
  predicate WellFormed(sec: Section, all: seq<Cu>)
    requires sec.Valid()
  {
    && sec.load.Ok? && Tiles(all)
    && (forall i :: 0 <= i < |all| ==> Readable(sec, all[i]))
    && EndOf(all) + sec.simpleHeader >= sec.size
  }

  /** The header of a unit as it should be: it announces at least one byte and ends in
      the section, the rest of it is in order, a type DIE lies in the unit, and its
      unit DIE can be read. */
  predicate Readable(sec: Section, cu: Cu) {
    && cu.offset in sec.headers && sec.headers[cu.offset] == Header(cu, true, Ok(()))
    && 0 < cu.length && cu.offset + cu.length + cu.lengthSize + cu.extensionSize <= sec.size
    && (cu.isTypeUnit ==> cu.signatureOffset < cu.length)
    && cu.offset + 4 <= sec.size && cu.offset + sec.simpleHeader < sec.size
  }

  lemma ReadableMakes(sec: Section, cu: Cu)
    requires sec.Valid() && Readable(sec, cu)
    ensures MakeCu(sec, cu.offset) == Ok(cu) && sec.headers[cu.offset].finish.Ok?
  {}

  /** What the marching calls should return, pos units having been passed: the
      rest in order, then no entry once, then again from the first one. */
  function March(all: seq<Cu>, pos: nat, calls: nat): seq<Res<Cu>>
    decreases calls
  {
    if calls == 0 then []
    else if pos < |all| then [Ok(all[pos])] + March(all, pos + 1, calls - 1)
    else [NoEntry] + March(all, 0, calls - 1)
  }

  /** The results of the dwarf_next_cu_header_d calls on one section in a run. */
  function NextResults(secs: Sections, d: Debug, ops: seq<Op>, isInfo: bool): seq<Res<Cu>>
    requires secs.Valid()
    decreases |ops|
  {
    if ops == [] then [] else
      var (d', res) := StepOp(secs, d, ops[0]);
      (if ops[0] == Next(isInfo) then [res] else []) + NextResults(secs, d', ops[1..], isInfo)
  }

  /** On a well-formed section a listed prefix can only grow by the next unit. */
  lemma CreatePrefix(sec: Section, r: Reading, all: seq<Cu>)
    requires sec.Valid() && WellFormed(sec, all) && Inv(sec, r) && r.cus <= all
    ensures var (r', res) := CreateAt(sec, r, EndOf(r.cus));
      && Inv(sec, r') && r'.cus <= all && r'.cursor == r.cursor && (res.Ok? <==> |r.cus| < |all|)
      && (if |r.cus| < |all| then res == Ok(all[|r.cus|]) && r'.cus == r.cus + [all[|r.cus|]]
                                  && EndOf(r'.cus) == res.value.End() <= sec.size && res.value.End() > EndOf(r.cus)
          else r' == r && EndOf(r.cus) + sec.simpleHeader >= sec.size)
  {
    hide MakeCu;
    var n := |r.cus|;
    CreateInv(sec, r, EndOf(r.cus));
    if n < |all| {
      assert Readable(sec, all[n]);
      ReadableMakes(sec, all[n]);
      if n > 0 { assert all[n - 1 + 1].offset == all[n - 1].End() && r.cus[n - 1] == all[n - 1]; }
    } else {
      assert r.cus == all;
    }
  }

  lemma {:induction false} ExtendPrefix(sec: Section, r: Reading, p: nat, all: seq<Cu>)
    requires sec.Valid() && WellFormed(sec, all) && Inv(sec, r) && r.cus <= all
    ensures Extend(sec, r, EndOf(r.cus), p).0.cus <= all
    decreases sec.size - EndOf(r.cus)
  {
    hide CreateAt, Inv, EndOf, WellFormed;
    CreatePrefix(sec, r, all);
    var (r', res) := CreateAt(sec, r, EndOf(r.cus));
    if res.Ok? && p >= res.value.End() { ExtendPrefix(sec, r', p, all); }
  }

  lemma {:induction false} ExtendSigPrefix(sec: Section, r: Reading, signature: nat, all: seq<Cu>)
    requires sec.Valid() && WellFormed(sec, all) && Inv(sec, r) && r.cus <= all
    ensures ExtendSig(sec, r, EndOf(r.cus), signature).0.cus <= all
    decreases sec.size - EndOf(r.cus)
  {
    hide CreateAt, Inv, EndOf, WellFormed;
    CreatePrefix(sec, r, all);
    var (r', res) := CreateAt(sec, r, EndOf(r.cus));
    if EndOf(r.cus) < sec.size && res.Ok? && !Matches(res.value, signature) { ExtendSigPrefix(sec, r', signature, all); }
  }

  lemma LookupPrefix(sec: Section, r: Reading, p: nat, signature: nat, all: seq<Cu>)
    requires sec.Valid() && WellFormed(sec, all) && Inv(sec, r) && r.cus <= all
    ensures OffDie(sec, r, p).0.cus <= all && FindSig(sec, r, signature).0.cus <= all
  {
    hide Extend, ExtendSig, Inv, WellFormed, Scan, FirstMatch;
    ExtendPrefix(sec, r, p, all);
    ExtendSigPrefix(sec, r, signature, all);
  }

  /** One marching call: the unit at the position, or the wrap-around. */
  lemma NextMarches(sec: Section, r: Reading, all: seq<Cu>)
    requires sec.Valid() && WellFormed(sec, all) && Inv(sec, r) && r.cus <= all
    ensures var (r', res) := NextHeader(sec, r);
      && r'.cus <= all
      && (if Position(r) < |all| then res == Ok(all[Position(r)]) && Position(r') == Position(r) + 1
          else res == NoEntry && Position(r') == 0)
  {
    hide CreateAt, Scan, MakeCu, Inv, EndOf, Tiles;
    NextAtEnd(sec, r);
    CreatePrefix(sec, r, all);
    PlaceInAll(sec, r, all);
  }

  lemma PlaceInAll(sec: Section, r: Reading, all: seq<Cu>)
    requires sec.Valid() && WellFormed(sec, all) && Inv(sec, r) && r.cus <= all
    ensures Place(r) + sec.simpleHeader < sec.size <==> Position(r) < |all|
  {
    hide MakeCu;
    var i := Position(r);
    if i < |all| {
      assert Readable(sec, all[i]);
      if i > 0 { assert all[i - 1 + 1].offset == all[i - 1].End() && r.cus[i - 1] == all[i - 1]; }
    } else {
      assert r.cus == all;
    }
  }

  lemma StepMarches(secs: Sections, d: Debug, op: Op, isInfo: bool, all: seq<Cu>)
    requires secs.Valid() && DebugInv(secs, d)
    requires WellFormed(secs.Of(isInfo), all) && d.Of(isInfo).cus <= all
    ensures var (d', res) := StepOp(secs, d, op);
      && d'.Of(isInfo).cus <= all
      && (if op != Next(isInfo) then Position(d'.Of(isInfo)) == Position(d.Of(isInfo))
          else if Position(d.Of(isInfo)) < |all|
            then res == Ok(all[Position(d.Of(isInfo))]) && Position(d'.Of(isInfo)) == Position(d.Of(isInfo)) + 1
            else res == NoEntry && Position(d'.Of(isInfo)) == 0)
  {
    hide NextHeader, OffDie, FindSig, Inv, WellFormed;
    StepInv(secs, d, op);
    var sec, r := secs.Of(isInfo), d.Of(isInfo);
    match op {
      case Next(b) => if b == isInfo { NextMarches(sec, r, all); }
      case OffDieOp(b, offset) => LookupPrefix(sec, r, offset, 0, all);
      case FindSigOp(signature) =>
        LookupPrefix(sec, r, 0, signature, all);
        FindSigInv(sec, r, signature);
        var (r', res) := FindSig(sec, r, signature);
        if res.Ok? { LookupPrefix(sec, r', res.value.offset + res.value.signatureOffset, 0, all); }
    }
  }

  function NextCalls(ops: seq<Op>, isInfo: bool): nat {
    if ops == [] then 0 else (if ops[0] == Next(isInfo) then 1 else 0) + NextCalls(ops[1..], isInfo)
  }

  /** Whatever lookups are interleaved, the dwarf_next_cu_header_d calls on a
      well-formed section march through its units. */
  lemma {:induction false} CursorMarches(secs: Sections, d: Debug, ops: seq<Op>, isInfo: bool, all: seq<Cu>)
    requires secs.Valid() && DebugInv(secs, d)
    requires WellFormed(secs.Of(isInfo), all) && d.Of(isInfo).cus <= all
    ensures NextResults(secs, d, ops, isInfo) == March(all, Position(d.Of(isInfo)), NextCalls(ops, isInfo))
    decreases |ops|
  {
    hide StepOp, Inv, WellFormed;
    if ops != [] {
      StepInv(secs, d, ops[0]);
      StepMarches(secs, d, ops[0], isInfo, all);
      CursorMarches(secs, StepOp(secs, d, ops[0]).0, ops[1..], isInfo, all);
    }
  }

  /** From a fresh start, whatever lookups are interleaved, the marching calls return
      every unit once in order, then no entry, and then start again. */
  lemma MarchFromStart(secs: Sections, ops: seq<Op>, isInfo: bool, all: seq<Cu>)
    requires secs.Valid() && WellFormed(secs.Of(isInfo), all)
    ensures NextResults(secs, Debug(START, START), ops, isInfo) == March(all, 0, NextCalls(ops, isInfo))
  {
    hide NextResults, WellFormed;
    CursorMarches(secs, Debug(START, START), ops, isInfo, all);
  }

  /** A full turn of the march: every unit once, in order, then no entry. */
  lemma {:induction false} MarchTurns(all: seq<Cu>, pos: nat, more: nat)
    requires pos <= |all|
    ensures March(all, pos, |all| - pos + 1 + more)
         == seq(|all| - pos, i requires 0 <= i < |all| - pos => Ok(all[pos + i])) + [NoEntry] + March(all, 0, more)
    decreases |all| - pos
  {
    if pos < |all| {
      MarchTurns(all, pos + 1, more);
      var rest := seq(|all| - pos - 1, i requires 0 <= i < |all| - pos - 1 => Ok(all[pos + 1 + i]));
      assert seq(|all| - pos, i requires 0 <= i < |all| - pos => Ok(all[pos + i])) == [Ok(all[pos])] + rest;
    }
  }

  /** A signature hit is a listed unit with that signature, and the way from there
      to the type DIE stays in it and makes no further context. */
  lemma SigHitIsListed(sec: Section, r: Reading, signature: nat)
    requires sec.Valid() && Inv(sec, r)
    requires FindSig(sec, r, signature).1.Ok?
    ensures var (r', res) := FindSig(sec, r, signature);
      && res.value in r'.cus && res.value.isTypeUnit && res.value.signature == signature
      && OffDie(sec, r', res.value.offset + res.value.signatureOffset) == (r', res)
  {
    hide CreateAt, Scan;
    var (r', res) := FindSig(sec, r, signature);
    FindSigInv(sec, r, signature);
    if FirstMatch(r.cus, signature).None? { ExtendSigHit(sec, r, EndOf(r.cus), signature); }
    var i :| 0 <= i < |r'.cus| && r'.cus[i] == res.value;
    ScanUnique(r'.cus, res.value.offset + res.value.signatureOffset, i);
  }

  lemma {:induction false} ExtendSigHit(sec: Section, r: Reading, q: nat, signature: nat)
    requires sec.Valid() && ExtendSig(sec, r, q, signature).1.Ok?
    ensures var (r', res) := ExtendSig(sec, r, q, signature);
      Matches(res.value, signature) && res.value in r'.cus
    decreases sec.size - q
  {
    var (r', res) := CreateAt(sec, r, q);
    if res.Ok? && !Matches(res.value, signature) { ExtendSigHit(sec, r', res.value.End(), signature); }
  }

  // ------------------------------------------- which headers make a unit

  /** What can be said of the place p: is a header there that is no garbage, announces a
      length, keeps to the section, and so on. */
  predicate HeaderAt(sec: Section, p: nat) {
    p + 4 <= sec.size && p < sec.size && p in sec.headers && sec.headers[p].Header?
  }

  predicate InOrder(sec: Section, h: Header)
    requires h.Header?
  {
    && h.cu.offset + h.cu.length + h.cu.lengthSize + h.cu.extensionSize <= sec.size
    && h.restOk && (h.cu.isTypeUnit ==> h.cu.signatureOffset < h.cu.length)
  }

  /** Making a unit context: no entry at a zero length, the unit of the header if that is
      in order, an error at any other header and where there is none. */
  lemma MakeCuIs(sec: Section, p: nat)
    requires sec.Valid()
    ensures MakeCu(sec, p) == NoEntry <==> HeaderAt(sec, p) && sec.headers[p].cu.length == 0
    ensures MakeCu(sec, p).Ok? <==> HeaderAt(sec, p) && sec.headers[p].cu.length > 0 && InOrder(sec, sec.headers[p])
    ensures MakeCu(sec, p).Ok? ==> MakeCu(sec, p).value == sec.headers[p].cu
  {}

  /** Extending the list by one context, in every case. */
  lemma CreateIs(sec: Section, r: Reading, p: nat)
    requires sec.Valid()
    ensures var good := && p + sec.simpleHeader < sec.size && HeaderAt(sec, p)
                        && sec.headers[p].cu.length > 0 && InOrder(sec, sec.headers[p]);
      var (r', res) := CreateAt(sec, r, p);
      && (res.Ok? <==> good && sec.headers[p].finish.Ok?)
      && (res.NoEntry? <==> p + sec.simpleHeader < sec.size && HeaderAt(sec, p)
                            && (sec.headers[p].cu.length == 0 || (good && sec.headers[p].finish.NoEntry?)))
      && (res.Ok? ==> res.value == sec.headers[p].cu)
      && r' == (if !good then r
                else r.(lastOffset := p + sec.headers[p].cu.length + sec.headers[p].cu.lengthSize + sec.headers[p].cu.extensionSize,
                        cus := if res.Ok? then r.cus + [res.value] else r.cus))
  {
    hide MakeCu;
    MakeCuIs(sec, p);
  }

  /** A section that is not there, or that cannot be loaded, has no units. */
  lemma NotLoaded(sec: Section, r: Reading, p: nat, signature: nat)
    requires sec.Valid() && !sec.load.Ok?
    ensures var outcome: Res<Cu> := if sec.load.NoEntry? then NoEntry else Error;
      NextHeader(sec, r) == (r, outcome) && OffDie(sec, r, p) == (r, outcome) && FindSig(sec, r, signature) == (r, outcome)
  {}

  /** A section the single unit of which fills it exactly. */
  const EXACT := Section(Ok(()), 0x50, 11, map[0 := Header(Cu(0, 0x4c, 4, 0, 0, false, 0), true, Ok(()))])

  lemma ExactFit()
    ensures EXACT.Valid() && NextHeader(EXACT, START).1 == Ok(Cu(0, 0x4c, 4, 0, 0, false, 0))
  {
    assert Scan([], 0) == None;
  }

  // ------------------------------------------------- what the lookups find

  /** Units that tile the front cover it. */
  lemma {:induction false} TilesCover(cus: seq<Cu>, p: nat)
    requires Tiles(cus) && p < EndOf(cus)
    ensures Scan(cus, p).Some?
  {
    var n := |cus| - 1;
    if p < cus[n].offset {
      var front := cus[..n];
      assert forall i :: 0 <= i < n ==> front[i] == cus[i];
      assert n > 0 && cus[n - 1 + 1].offset == cus[n - 1].End() == EndOf(front);
      TilesCover(front, p);
    }
  }

  /** On any section: a unit found for an offset contains that offset. */
  lemma OffDieContains(sec: Section, r: Reading, p: nat)
    requires sec.Valid() && Inv(sec, r) && OffDie(sec, r, p).1.Ok?
    ensures var cu := OffDie(sec, r, p).1.value;
      cu.offset <= p < cu.offset + cu.length + cu.lengthSize + cu.extensionSize
  {
    hide CreateAt, Scan, Tiles;
    if Scan(r.cus, p).None? {
      if p < EndOf(r.cus) { TilesCover(r.cus, p); }
      ExtendContains(sec, r, EndOf(r.cus), p);
    }
  }

  lemma {:induction false} ExtendContains(sec: Section, r: Reading, q: nat, p: nat)
    requires sec.Valid() && q <= p && Extend(sec, r, q, p).1.Ok?
    ensures Contains(Extend(sec, r, q, p).1.value, p)
    decreases sec.size - q
  {
    hide MakeCu;
    var (r', res) := CreateAt(sec, r, q);
    if p >= res.value.End() { ExtendContains(sec, r', res.value.End(), p); }
  }

  /** What looking up an offset should give on a section of the units all. */
  function UnitAt(all: seq<Cu>, p: nat): (r: Res<Cu>)
    ensures !r.NoEntry?
    ensures r.Ok? ==>
      && r.value in all
      && r.value.offset <= p < r.value.offset + r.value.length + r.value.lengthSize + r.value.extensionSize
  {
    match Scan(all, p)
    case Some(i) => Ok(all[i])
    case None => Error
  }

  lemma AtTheEnd(sec: Section, r: Reading, all: seq<Cu>)
    requires sec.Valid() && WellFormed(sec, all) && r.cus == all
    ensures CreateAt(sec, r, EndOf(all)) == (r, Error)
  {}

  lemma {:induction false} ExtendFinds(sec: Section, r: Reading, p: nat, all: seq<Cu>)
    requires sec.Valid() && WellFormed(sec, all) && Inv(sec, r) && r.cus <= all && EndOf(r.cus) <= p
    ensures Extend(sec, r, EndOf(r.cus), p).1 == UnitAt(all, p)
    decreases sec.size - EndOf(r.cus)
  {
    hide CreateAt, Inv, Scan, MakeCu;
    CreatePrefix(sec, r, all);
    var n := |r.cus|;
    var (r', res) := CreateAt(sec, r, EndOf(r.cus));
    if n == |all| {
      assert r.cus == all;
      AtTheEnd(sec, r, all);
      TilesAscend(all);
      ScanNothing(all, p);
    } else if p < res.value.End() {
      assert Readable(sec, all[n]);
      StartsAtEnd(all, r.cus);
      ScanUnique(all, p, n);
    } else {
      ExtendFinds(sec, r', p, all);
    }
  }

  lemma StartsAtEnd(all: seq<Cu>, cus: seq<Cu>)
    requires Tiles(all) && cus <= all && |cus| < |all|
    ensures all[|cus|].offset == EndOf(cus)
  {
    var n := |cus|;
    if n > 0 { assert all[n - 1 + 1].offset == all[n - 1].End() && cus[n - 1] == all[n - 1]; }
  }

  /** On a well-formed section dwarf_offdie_b finds the unit that contains the offset,
      however much is listed so far; it is an error exactly if there is none. */
  lemma OffDieFinds(sec: Section, r: Reading, p: nat, all: seq<Cu>)
    requires sec.Valid() && WellFormed(sec, all) && Inv(sec, r) && r.cus <= all
    ensures OffDie(sec, r, p).1 == UnitAt(all, p)
    ensures UnitAt(all, p).Ok? <==> p < EndOf(all)
  {
    hide Extend, Scan, MakeCu;
    if p < EndOf(all) { TilesCover(all, p); } else { TilesAscend(all); ScanNothing(all, p); }
    var at := Scan(r.cus, p);
    if at.Some? {
      assert all[at.value] == r.cus[at.value];
      ScanUnique(all, p, at.value);
    } else {
      if p < EndOf(r.cus) { TilesCover(r.cus, p); }
      ExtendFinds(sec, r, p, all);
    }
  }

  /** What looking for a signature should give: without a match, no entry if the units
      fill the section and an error if a few bytes are left behind them. */
  function UnitWith(sec: Section, all: seq<Cu>, signature: nat): (r: Res<Cu>)
    ensures r.Ok? ==> exists i :: 0 <= i < |all| && r.value == all[i] && all[i].isTypeUnit && all[i].signature == signature
                                  && forall j :: 0 <= j < i ==> !(all[j].isTypeUnit && all[j].signature == signature)
    ensures !r.Ok? ==> forall j :: 0 <= j < |all| ==> !(all[j].isTypeUnit && all[j].signature == signature)
    ensures !r.Ok? ==> (r.NoEntry? <==> EndOf(all) >= sec.size)
  {
    match FirstMatch(all, signature)
    case Some(i) => Ok(all[i])
    case None => if EndOf(all) >= sec.size then NoEntry else Error
  }

  lemma {:induction false} ExtendSigFinds(sec: Section, r: Reading, signature: nat, all: seq<Cu>)
    requires sec.Valid() && WellFormed(sec, all) && Inv(sec, r) && r.cus <= all
    requires FirstMatch(r.cus, signature) == None
    ensures ExtendSig(sec, r, EndOf(r.cus), signature).1 == UnitWith(sec, all, signature)
    decreases sec.size - EndOf(r.cus)
  {
    hide CreateAt, Inv, FirstMatch, MakeCu;
    CreatePrefix(sec, r, all);
    var n := |r.cus|;
    var (r', res) := CreateAt(sec, r, EndOf(r.cus));
    if n == |all| {
      assert r.cus == all;
      AtTheEnd(sec, r, all);
    } else {
      assert Readable(sec, all[n]);
      StartsAtEnd(all, r.cus);
      assert forall j :: 0 <= j < n ==> all[j] == r.cus[j];
      if Matches(all[n], signature) {
        FirstMatchIs(all, signature, n);
      } else {
        FirstMatchNone(r'.cus, signature);
        ExtendSigFinds(sec, r', signature, all);
      }
    }
  }

  /** On a well-formed section the signature search finds the first unit that has the
      signature, however much is listed so far. */
  lemma SigFinds(sec: Section, r: Reading, signature: nat, all: seq<Cu>)
    requires sec.Valid() && WellFormed(sec, all) && Inv(sec, r) && r.cus <= all
    ensures FindSig(sec, r, signature).1 == UnitWith(sec, all, signature)
  {
    hide ExtendSig, FirstMatch, Inv;
    var at := FirstMatch(r.cus, signature);
    if at.Some? {
      assert forall j :: 0 <= j <= at.value ==> all[j] == r.cus[j];
      FirstMatchIs(all, signature, at.value);
    } else {
      ExtendSigFinds(sec, r, signature, all);
    }
  }

  lemma {:induction false} RunPrefix(secs: Sections, d: Debug, ops: seq<Op>, isInfo: bool, all: seq<Cu>)
    requires secs.Valid() && DebugInv(secs, d)
    requires WellFormed(secs.Of(isInfo), all) && d.Of(isInfo).cus <= all
    ensures Run(secs, d, ops).Of(isInfo).cus <= all
    decreases |ops|
  {
    hide StepOp, Inv, WellFormed;
    if ops != [] {
      StepInv(secs, d, ops[0]);
      StepMarches(secs, d, ops[0], isInfo, all);
      RunPrefix(secs, StepOp(secs, d, ops[0]).0, ops[1..], isInfo, all);
    }
  }

  /** From a fresh start and after any calls: lookups by offset and by signature on a
      well-formed section give what the section says. */
  lemma LookupsFromStart(secs: Sections, ops: seq<Op>, isInfo: bool, all: seq<Cu>, p: nat, signature: nat)
    requires secs.Valid() && WellFormed(secs.Of(isInfo), all)
    ensures var sec, r := secs.Of(isInfo), Run(secs, Debug(START, START), ops).Of(isInfo);
      && OffDie(sec, r, p).1 == UnitAt(all, p)
      && FindSig(sec, r, signature).1 == UnitWith(sec, all, signature)
  {
    hide WellFormed, OffDie, FindSig, UnitAt, UnitWith, Inv, Run;
    RunFromStart(secs, ops);
    RunPrefix(secs, Debug(START, START), ops, isInfo, all);
    var r := Run(secs, Debug(START, START), ops).Of(isInfo);
    OffDieFinds(secs.Of(isInfo), r, p, all);
    SigFinds(secs.Of(isInfo), r, signature, all);
  }

  /** dwarf_find_die_given_sig8 on two well-formed sections: the unit from .debug_info if
      that has one, an error if bytes are left there, otherwise whatever .debug_types
      says. Going on to the type DIE stays in that unit. */
  lemma Sig8Finds(secs: Sections, d: Debug, signature: nat, infos: seq<Cu>, types: seq<Cu>)
    requires secs.Valid() && DebugInv(secs, d)
    requires WellFormed(secs.info, infos) && d.info.cus <= infos
    requires WellFormed(secs.types, types) && d.types.cus <= types
    ensures FindSig8(secs, d, signature).1
         == match UnitWith(secs.info, infos, signature)
            case Ok(cu) => Ok(cu)
            case Error => Error
            case NoEntry => UnitWith(secs.types, types, signature)
  {
    hide FindSig, OffDie, UnitWith, Inv, WellFormed;
    SigFinds(secs.info, d.info, signature, infos);
    SigFinds(secs.types, d.types, signature, types);
    if FindSig(secs.info, d.info, signature).1.Ok? { SigHitIsListed(secs.info, d.info, signature); }
    if FindSig(secs.types, d.types, signature).1.Ok? { SigHitIsListed(secs.types, d.types, signature); }
  }

  /** Whatever it finds, the search has gone through .debug_info first, and through
      .debug_types only without a hit or an error there; going on to the type DIE
      changes neither list. */
  lemma Sig8Lists(secs: Sections, d: Debug, signature: nat)
    requires secs.Valid() && DebugInv(secs, d)
    ensures var (d', res) := FindSig8(secs, d, signature);
      var (i, first) := FindSig(secs.info, d.info, signature);
      var (t, second) := FindSig(secs.types, d.types, signature);
      if first.NoEntry? then d' == Debug(i, t) && res == second else d' == Debug(i, d.types) && res == first
  {
    hide FindSig, OffDie, Inv;
    if FindSig(secs.info, d.info, signature).1.Ok? { SigHitIsListed(secs.info, d.info, signature); }
    if FindSig(secs.types, d.types, signature).1.Ok? { SigHitIsListed(secs.types, d.types, signature); }
  }

  /** Where no unit can be made behind good ones, marching on and looking up an offset
      there fail, with the error or no entry found there. */
  lemma StopsAtBadUnit(sec: Section, r: Reading, p: nat)
    requires sec.Valid() && sec.load.Ok? && Inv(sec, r)
    requires !CreateAt(sec, r, EndOf(r.cus)).1.Ok? && EndOf(r.cus) <= p
    ensures OffDie(sec, r, p).1 == CreateAt(sec, r, EndOf(r.cus)).1 && OffDie(sec, r, p).0.cus == r.cus
    ensures Position(r) == |r.cus| && EndOf(r.cus) + sec.simpleHeader < sec.size ==>
      NextHeader(sec, r).1 == CreateAt(sec, r, EndOf(r.cus)).1 && NextHeader(sec, r).0.cus == r.cus
      && NextHeader(sec, r).0.cursor == r.cursor
  {
    hide MakeCu;
    TilesAscend(r.cus);
    ScanNothing(r.cus, p);
    ScanNothing(r.cus, EndOf(r.cus));
  }
}
