/** Walking the DIE tree of one unit, libdwarf/dwarf_die_deliv.c.

    The tree is flattened in preorder (section 2.3 of DWARF 5): a DIE whose
    abbreviation has the children flag is followed by its children and a zero
    byte. Positions are offsets into the section. What the abbreviation of a DIE
    and the forms of its attributes say is given by the table heads; the
    abbreviation code itself is read from the bytes. */
module DieWalk {
  import opened Common
  import opened Leb

  /** DW_AT_sibling as the attribute scan meets it: absent (or DW_FORM_ref_addr),
      an offset from the start of the unit, or unreadable. */
  datatype SibAttr = NoSibling | SiblingAt(offset: nat) | BadSibling

  /** An abbreviation applied at one position; size is None when scanning the
      attributes fails. */
  datatype Head = Head(hasChild: bool, sibling: SibAttr, size: Option<nat>)

  datatype Unit = Unit(data: seq<Byte>, start: nat, end: nat, heads: map<nat, Head>) {
    /** The attribute scan rejects a DIE that runs past the end of the unit, and
        the abbreviation code takes at least one byte. */
    predicate Valid() {
      start <= end <= |data| &&
      forall p :: p in heads && heads[p].size.Some? ==> 1 <= heads[p].size.value && p + heads[p].size.value <= end
    }

    predicate In(p: nat) { start <= p < end }
  }

  // -------------------------------------------------------- specification

  function Code(u: Unit, p: nat): (r: Decoded)
    requires u.Valid() && p <= u.end
    ensures r.Got? ==> p < p + r.len <= u.end
  {
    ReadU(u.data[p..u.end])
  }

  datatype Step = Bad | Next(at: nat, hasChild: bool)

  /** Where _dwarf_next_die_info_ptr goes from the DIE at p: past its attributes,
      or, when wanted and possible, to where DW_AT_sibling points. */
  function NextDie(u: Unit, p: nat, wantSibling: bool): (r: Step)
    requires u.Valid() && u.In(p)
    ensures r.Next? ==> p in u.heads
    ensures r.Next? && !(wantSibling && u.heads[p].sibling.SiblingAt?) ==> p < r.at <= u.end
    ensures r.Next? && r.hasChild ==> p < r.at <= u.end
  {
    if Code(u, p).Fail? || Code(u, p).value == 0 || p !in u.heads then Bad
    else match (if wantSibling then u.heads[p].sibling else NoSibling)
      case BadSibling => Bad
      case SiblingAt(offset) => if offset > u.end - u.start then Bad else Next(u.start + offset, false)
      case NoSibling =>
        match u.heads[p].size
        case None => Bad
        case Some(n) => Next(p + n, u.heads[p].hasChild)
  }

  /** DW_DLV_OK with a DIE, DW_DLV_NO_ENTRY, DW_DLV_ERROR; Loops stands for a call
      that never returns. */
  datatype Sib = Found(at: nat) | NoMore | Failed | Loops

  /** The DIE at p, if there is one. */
  function DieAt(u: Unit, p: nat): Sib
    requires u.Valid() && p <= u.end
  {
    if p == u.end || u.data[p] == 0 then NoMore
    else match Code(u, p)
      case Fail => Failed
      case Got(code, _) => if code == 0 then NoMore else if p !in u.heads then Failed else Found(p)
  }

  /** The search for the next DIE at depth zero, standing at a DIE at depth d. */
  function Walk(u: Unit, wantSibling: bool, p: nat, d: nat): Sib
    requires u.Valid() && u.In(p)
    decreases u.end - p, 0
  {
    match NextDie(u, p, wantSibling)
    case Bad => Failed
    case Next(q, hasChild) =>
      if q < p || q > u.end then Failed
      else if hasChild && q < u.end && u.data[q] == 0 then Beyond(u, wantSibling, q + 1, d)
      else if hasChild && q < u.end then Walk(u, wantSibling, q, d + 1)
      else if q == p && d == 0 then DieAt(u, p)
      else if q == p then Loops
      else Beyond(u, wantSibling, q, d)
  }

  /** The same search, having just left a complete subtree at depth d. */
  function Beyond(u: Unit, wantSibling: bool, p: nat, d: nat): Sib
    requires u.Valid() && u.start <= p <= u.end
    decreases u.end - p, 1
  {
    if d == 0 then DieAt(u, p)
    else if p == u.end then NoMore
    else if u.data[p] == 0 then Beyond(u, wantSibling, p + 1, d - 1)
    else Walk(u, wantSibling, p, d)
  }

  /** dwarf_siblingof_b for a DIE at p. */
  function Sibling(u: Unit, p: nat): Sib
    requires u.Valid() && u.In(p)
  {
    if u.data[p] == 0 then NoMore else Walk(u, true, p, 0)
  }

  function SkipZeros(u: Unit, p: nat): (q: nat)
    requires u.Valid() && p <= u.end
    ensures p <= q <= u.end && (q < u.end ==> u.data[q] != 0)
    ensures forall i :: p <= i < q ==> u.data[i] == 0
    decreases u.end - p
  {
    if p < u.end && u.data[p] == 0 then SkipZeros(u, p + 1) else p
  }

  /** dwarf_child for a DIE at p, and the value it leaves in de_last_di_ptr. */
  function Child(u: Unit, p: nat): (r: (Sib, nat))
    requires u.Valid() && u.In(p)
    ensures r.0.Found? ==> p < r.0.at < u.end
    ensures !r.0.Loops?
  {
    if u.data[p] == 0 then (NoMore, p)
    else match NextDie(u, p, false)
      case Bad => (Failed, p)
      case Next(q, hasChild) =>
        if !hasChild then (NoMore, SkipZeros(u, q))
        else match Code(u, q)
          case Fail => (Failed, q)
          case Got(code, n) =>
            if code == 0 then (NoMore, SkipZeros(u, q + n))
            else if q !in u.heads then (Failed, q + n)
            else (Found(q), q + n)
  }

  // --------------------------------------------------------------- the code

  /** The per-section reading state that DIE walking touches. */
  class DieReader {
    const u: Unit
    var lastDie: Option<nat>
    var lastDiPtr: nat

    constructor (u: Unit)
      ensures this.u == u && lastDie == None
    {
      this.u := u;
      lastDie, lastDiPtr := None, 0;
    }

    method NextDieInfoPtr(p: nat, wantSibling: bool) returns (r: Step)
      requires u.Valid() && u.In(p)
      ensures r == NextDie(u, p, wantSibling)
    {
      var code := DecodeLeb128(u.data[p..u.end]);
      if code.Fail? { return Bad; }
      if code.value == 0 { return Bad; }
      if p !in u.heads { return Bad; }
      var head := u.heads[p];
      if wantSibling && head.sibling != NoSibling {
        if head.sibling == BadSibling { return Bad; }
        var plen := u.end - u.start;
        if head.sibling.offset > plen { return Bad; }
        return Next(u.start + head.sibling.offset, false);
      }
      if head.size.None? { return Bad; }
      return Next(p + head.size.value, head.hasChild);
    }

    /** _dwarf_siblingof_internal for a non-null DIE. */
    method SiblingOf(die: nat) returns (r: Sib)
      requires u.Valid() && u.In(die)
      requires Sibling(u, die) != Loops
      ensures r == Sibling(u, die)
    {
      hide NextDie, DieAt;
      var ptr, depth := die, 0;
      if u.data[ptr] == 0 { return NoMore; }
      while true
        invariant u.In(ptr) && depth >= 0
        invariant Walk(u, true, ptr, depth) == Sibling(u, die)
        decreases u.end - ptr
      {
        var next := NextDieInfoPtr(ptr, true);
        if next.Bad? { return Failed; }
        if next.at < ptr { return Failed; }
        if next.at > u.end { return Failed; }
        ghost var from := ptr;
        var hasChild := next.hasChild;
        ptr := next.at;
        if ptr < u.end {
          if u.data[ptr] == 0 && hasChild {
            ptr := ptr + 1;
            hasChild := false;
          }
        }
        if ptr == u.end || u.data[ptr] == 0 {
          while true
            invariant from <= ptr <= u.end && depth >= 0
            invariant Beyond(u, true, ptr, depth) == Sibling(u, die)
            decreases u.end - ptr
          {
            if depth == 0 { break; }
            if ptr == u.end { return NoMore; }
            if u.data[ptr] != 0 { break; }
            depth := depth - 1;
            ptr := ptr + 1;
          }
        } else {
          depth := if hasChild then depth + 1 else depth;
        }
        if depth == 0 { break; }
      }
      r := Deliver(ptr);
    }

    /** The last part of _dwarf_siblingof_internal: the DIE reached, if any. */
    method Deliver(ptr: nat) returns (r: Sib)
      requires u.Valid() && ptr <= u.end
      ensures r == DieAt(u, ptr)
    {
      if ptr >= u.end { return NoMore; }
      if u.data[ptr] == 0 { return NoMore; }
      var code := DecodeLeb128(u.data[ptr..u.end]);
      if code.Fail? { return Failed; }
      if code.value == 0 { return NoMore; }
      if ptr !in u.heads { return Failed; }
      return Found(ptr);
    }

    /** The zero-skipping loop of dwarf_child. */
    method SkipToNonNull()
      requires u.Valid() && lastDiPtr <= u.end
      modifies this`lastDiPtr
      ensures lastDiPtr == SkipZeros(u, old(lastDiPtr))
    {
      while lastDiPtr < u.end
        invariant lastDiPtr <= u.end
        invariant SkipZeros(u, lastDiPtr) == SkipZeros(u, old(lastDiPtr))
        decreases u.end - lastDiPtr
      {
        if u.data[lastDiPtr] != 0 { break; }
        lastDiPtr := lastDiPtr + 1;
      }
    }

    /** dwarf_child. */
    method ChildOf(die: nat) returns (r: Sib)
      requires u.Valid() && u.In(die)
      modifies this
      ensures (r, lastDiPtr) == Child(u, die)
      ensures lastDie == Some(die)
    {
      lastDie, lastDiPtr := Some(die), die;
      if u.data[die] == 0 { return NoMore; }
      var next := NextDieInfoPtr(die, false);
      if next.Bad? { return Failed; }
      if die == u.end { return NoMore; }
      lastDiPtr := next.at;
      if !next.hasChild {
        SkipToNonNull();
        return NoMore;
      }
      var code := DecodeLeb128(u.data[next.at..u.end]);
      if code.Fail? { return Failed; }
      lastDiPtr := next.at + code.len;
      if code.value == 0 {
        SkipToNonNull();
        return NoMore;
      }
      if next.at !in u.heads { return Failed; }
      return Found(next.at);
    }

    /** dwarf_validate_die_sibling: was the sibling where the last dwarf_child
        stopped? Otherwise the place it did stop is returned. */
    method ValidateDieSibling(sibling: nat) returns (ok: bool, offset: nat)
      ensures ok == (lastDie.Some? && lastDiPtr == sibling)
      ensures offset == if ok then 0 else lastDiPtr
    {
      offset := 0;
      if lastDie.Some? {
        if sibling == lastDiPtr { return true, 0; }
      }
      return false, lastDiPtr;
    }
  }

  // ------------------------------------------------ damaged units, any bytes

  /** An abbreviation code at p that a DIE can begin with. */
  predicate Begins(u: Unit, p: nat)
    requires p <= u.end <= |u.data|
  {
    ReadU(u.data[p..u.end]).Got? && ReadU(u.data[p..u.end]).value != 0 && p in u.heads
  }

  /** What a search that arrives at q at depth zero comes back with. */
  predicate Arrives(u: Unit, q: nat, r: Sib)
    requires q <= u.end <= |u.data|
  {
    if q == u.end || u.data[q] == 0 then r == NoMore
    else if Begins(u, q) then r == Found(q)
    else if ReadU(u.data[q..u.end]).Got? && ReadU(u.data[q..u.end]).value == 0 then r == NoMore
    else r == Failed
  }

  /** dwarf_siblingof_b on any DIE that carries DW_AT_sibling or has no children: an
      error if it cannot be read or leads backwards or out of the unit, else what is
      where it leads. */
  lemma SiblingInOneStep(u: Unit, p: nat)
    requires u.Valid() && u.In(p) && u.data[p] != 0
    ensures !Begins(u, p) || u.heads[p].sibling.BadSibling? ==> Sibling(u, p) == Failed
    ensures Begins(u, p) && u.heads[p].sibling.SiblingAt? ==>
      var q := u.start + u.heads[p].sibling.offset;
      if p <= q <= u.end then Arrives(u, q, Sibling(u, p)) else Sibling(u, p) == Failed
    ensures Begins(u, p) && u.heads[p].sibling.NoSibling? && u.heads[p].size.None? ==> Sibling(u, p) == Failed
    ensures Begins(u, p) && u.heads[p].sibling.NoSibling? && u.heads[p].size.Some? && !u.heads[p].hasChild ==>
      Arrives(u, p + u.heads[p].size.value, Sibling(u, p))
  {
    hide ReadU;
    var next := NextDie(u, p, true);
    if next.Next? && p <= next.at <= u.end && !next.hasChild { BeyondDepthZero(u, next.at); }
  }

  lemma BeyondDepthZero(u: Unit, q: nat)
    requires u.Valid() && u.start <= q <= u.end
    ensures Beyond(u, true, q, 0) == DieAt(u, q) && Arrives(u, q, DieAt(u, q))
  {
    hide ReadU;
  }

  /** At the next byte from q on that is not zero, or at the end. */
  predicate BehindZeros(u: Unit, q: nat, ptr: nat)
    requires u.end <= |u.data|
  {
    q <= ptr <= u.end && (ptr == u.end || u.data[ptr] != 0) && forall i :: q <= i < ptr ==> u.data[i] == 0
  }

  /** dwarf_child on any DIE: exactly when it fails, what it finds otherwise, and where
      it leaves the last-DIE pointer. */
  lemma ChildIs(u: Unit, p: nat)
    requires u.Valid() && u.In(p)
    ensures u.data[p] == 0 ==> Child(u, p) == (NoMore, p)
    ensures u.data[p] != 0 && (!Begins(u, p) || u.heads[p].size.None?) ==> Child(u, p) == (Failed, p)
    ensures u.data[p] != 0 && Begins(u, p) && u.heads[p].size.Some? ==>
      var q, (r, ptr) := p + u.heads[p].size.value, Child(u, p);
      var code := ReadU(u.data[q..u.end]);
      if !u.heads[p].hasChild then r == NoMore && BehindZeros(u, q, ptr)
      else if code.Fail? then r == Failed && ptr == q
      else if code.value == 0 then r == NoMore && BehindZeros(u, q + code.len, ptr)
      else r == (if q in u.heads then Found(q) else Failed) && ptr == q + code.len
  {
    hide ReadU;
  }

  // --------------------------------------------------- trees and their layout

  /** A DIE with its subtree as a producer lays it out: the size of its own bytes,
      whether its abbreviation has the children flag, whether it carries
      DW_AT_sibling, and its children. */
  datatype Tree = Tree(size: nat, flagged: bool, pointsOn: bool, kids: seq<Tree>)

  function Width(t: Tree): nat
    decreases t, 0
  {
    t.size + if t.flagged then Widths(t.kids) + 1 else 0
  }

  function Widths(ts: seq<Tree>): nat
    decreases ts, 0
  {
    if ts == [] then 0 else Width(ts[0]) + Widths(ts[1..])
  }

  /** t is laid out at p: its DIE decodes to the right thing, DW_AT_sibling, where
      present, points just past the subtree, and a flagged DIE has its children
      and a closing zero byte behind it. */
  predicate Lays(u: Unit, t: Tree, p: nat)
    requires u.Valid()
    decreases t, 1
  {
    var q := p + Width(t);
    && u.start <= p && 1 <= t.size && q <= u.end
    && u.data[p] != 0 && Code(u, p).Got? && Code(u, p).value != 0
    && p in u.heads
    && u.heads[p] == Head(t.flagged, if t.pointsOn then SiblingAt(q - u.start) else NoSibling, Some(t.size))
    && (t.kids != [] ==> t.flagged)
    && (t.flagged ==> LaysAll(u, t.kids, p + t.size) && u.data[q - 1] == 0)
  }

  predicate LaysAll(u: Unit, ts: seq<Tree>, p: nat)
    requires u.Valid()
    decreases ts, 1
  {
    ts == [] || (Lays(u, ts[0], p) && LaysAll(u, ts[1..], p + Width(ts[0])))
  }

  /** Walking over a laid-out subtree comes out just past it, at the same depth,
      whether DW_AT_sibling is followed or not. */
  lemma {:induction false} OverSubtree(u: Unit, wantSibling: bool, t: Tree, p: nat, d: nat)
    requires u.Valid() && Lays(u, t, p)
    ensures Walk(u, wantSibling, p, d) == Beyond(u, wantSibling, p + Width(t), d)
    decreases t, 0
  {
    hide Code, DieAt;
    if !(wantSibling && t.pointsOn) && t.kids != [] {
      var c := p + t.size;
      assert Lays(u, t.kids[0], c);
      OverForest(u, wantSibling, t.kids, c, d + 1);
    }
  }

  lemma {:induction false} OverForest(u: Unit, wantSibling: bool, ts: seq<Tree>, p: nat, d: nat)
    requires u.Valid() && u.In(p) && ts != [] && LaysAll(u, ts, p) && d > 0
    requires p + Widths(ts) < u.end && u.data[p + Widths(ts)] == 0
    ensures Walk(u, wantSibling, p, d) == Beyond(u, wantSibling, p + Widths(ts), d)
    decreases ts, 0
  {
    hide Code, DieAt;
    OverSubtree(u, wantSibling, ts[0], p, d);
    if |ts| > 1 {
      var q := p + Width(ts[0]);
      assert Lays(u, ts[1..][0], q);
      OverForest(u, wantSibling, ts[1..], q, d);
    } else {
      assert Widths(ts[1..]) == 0;
    }
  }

  /** dwarf_siblingof_b on a laid-out DIE: the DIE just past its subtree if the
      list goes on there, no entry if the list ends there with a zero byte or
      with the unit. Ignoring DW_AT_sibling gives the same answer. */
  lemma SiblingIsNext(u: Unit, t: Tree, p: nat)
    requires u.Valid() && Lays(u, t, p)
    ensures Sibling(u, p) == Walk(u, false, p, 0) == DieAt(u, p + Width(t))
  {
    hide Code, DieAt;
    OverSubtree(u, true, t, p, 0);
    OverSubtree(u, false, t, p, 0);
  }

  /** dwarf_child on a laid-out DIE: exactly its first child, or no entry, also
      for a DIE that is flagged but has an empty child list. */
  lemma ChildIsFirst(u: Unit, t: Tree, p: nat)
    requires u.Valid() && Lays(u, t, p)
    ensures t.kids != [] ==> Child(u, p).0 == Found(p + t.size)
    ensures t.kids == [] ==> Child(u, p) == (NoMore, SkipZeros(u, p + Width(t)))
  {
    hide Code;
    var c := p + t.size;
    if t.kids != [] {
      assert Lays(u, t.kids[0], c);
    } else if t.flagged {
      assert Widths(t.kids) == 0;
      NullCode(u, c);
    }
  }

  lemma NullCode(u: Unit, c: nat)
    requires u.Valid() && c < u.end && u.data[c] == 0
    ensures Code(u, c) == Got(0, 1)
  {
    OneByte(u.data[c..u.end]);
  }

  /** The shape of a tree, without sizes and flags. */
  datatype Shape = Shape(kids: seq<Shape>)

  function ShapeOf(t: Tree): Shape
    decreases t, 0
  {
    Shape(ShapesOf(t.kids))
  }

  function ShapesOf(ts: seq<Tree>): seq<Shape>
    decreases ts, 0
  {
    if ts == [] then [] else [ShapeOf(ts[0])] + ShapesOf(ts[1..])
  }

  /** What a client rebuilds that calls dwarf_child on every DIE in preorder and
      dwarf_siblingof_b to move along each list, with the de_last_di_ptr the
      last dwarf_child call leaves behind. Written for any data: a list is cut
      short where a sibling does not lie ahead. */
  function Visit(u: Unit, p: nat): (Shape, nat)
    requires u.Valid() && u.In(p)
    decreases u.end - p, 0
  {
    var (c, last) := Child(u, p);
    match c
    case Found(q) => var (ss, last') := VisitList(u, q); (Shape(ss), last')
    case _ => (Shape([]), last)
  }

  function VisitList(u: Unit, p: nat): (seq<Shape>, nat)
    requires u.Valid() && u.In(p)
    decreases u.end - p, 1
  {
    var (s, last) := Visit(u, p);
    match Sibling(u, p)
    case Found(q) =>
      if p < q < u.end then var (ss, last') := VisitList(u, q); ([s] + ss, last') else ([s], last)
    case _ => ([s], last)
  }

  /** The round trip: child and sibling calls rebuild every laid-out tree, and
      leave the last-DIE pointer at the first non-null byte past the subtree. */
  lemma {:induction false} VisitRebuilds(u: Unit, t: Tree, p: nat)
    requires u.Valid() && Lays(u, t, p)
    ensures Visit(u, p) == (ShapeOf(t), SkipZeros(u, p + Width(t)))
    decreases t, 0
  {
    hide Child, Code, DieAt;
    ChildIsFirst(u, t, p);
    if t.kids != [] {
      var c := p + t.size;
      assert Lays(u, t.kids[0], c);
      VisitListRebuilds(u, t.kids, c);
    }
  }

  lemma {:induction false} VisitListRebuilds(u: Unit, ts: seq<Tree>, p: nat)
    requires u.Valid() && u.In(p) && ts != [] && LaysAll(u, ts, p)
    requires p + Widths(ts) <= u.end && (p + Widths(ts) < u.end ==> u.data[p + Widths(ts)] == 0)
    ensures VisitList(u, p) == (ShapesOf(ts), SkipZeros(u, p + Widths(ts)))
    decreases ts, 0
  {
    hide Child, Code, Walk;
    VisitRebuilds(u, ts[0], p);
    SiblingIsNext(u, ts[0], p);
    var q := p + Width(ts[0]);
    if |ts| > 1 {
      assert Lays(u, ts[1..][0], q);
      VisitListRebuilds(u, ts[1..], q);
    } else {
      assert Widths(ts[1..]) == 0 && ShapesOf(ts) == [ShapeOf(ts[0])];
    }
  }

  /** After a preorder traversal of a subtree that has a next sibling,
      dwarf_validate_die_sibling accepts that sibling. */
  lemma TraversalValidates(u: Unit, t: Tree, p: nat)
    requires u.Valid() && Lays(u, t, p)
    requires Sibling(u, p).Found?
    ensures Visit(u, p).1 == Sibling(u, p).at
  {
    hide Child, Code, Walk;
    VisitRebuilds(u, t, p);
    SiblingIsNext(u, t, p);
  }

  // ------------------------------------------------ when the search ends

  /** The DIE at p names itself as its sibling: the test for pointing backwards lets
      that pass. */
  predicate NamesItself(u: Unit, p: nat)
    requires u.Valid()
  {
    u.In(p) && NextDie(u, p, true) == Next(p, false)
  }

  /** The DIEs the search stands at, each with the depth it is met at. */
  function Trail(u: Unit, p: nat, d: nat): set<(nat, nat)>
    requires u.Valid() && u.In(p)
    decreases u.end - p, 0
  {
    {(p, d)} + match NextDie(u, p, true)
      case Bad => {}
      case Next(q, hasChild) =>
        if q <= p || q > u.end then {}
        else if hasChild && q < u.end && u.data[q] == 0 then TrailBeyond(u, q + 1, d)
        else if hasChild && q < u.end then Trail(u, q, d + 1)
        else TrailBeyond(u, q, d)
  }

  function TrailBeyond(u: Unit, p: nat, d: nat): set<(nat, nat)>
    requires u.Valid() && u.start <= p <= u.end
    decreases u.end - p, 1
  {
    if d == 0 || p == u.end then {}
    else if u.data[p] == 0 then TrailBeyond(u, p + 1, d - 1)
    else Trail(u, p, d)
  }

  predicate Sticks(u: Unit, trail: set<(nat, nat)>)
    requires u.Valid()
  {
    exists x :: x in trail && x.1 > 0 && NamesItself(u, x.0)
  }

  /** The search does not end exactly when it comes, below depth zero, to a DIE that
      names itself. */
  lemma {:induction false} LoopsIff(u: Unit, p: nat, d: nat)
    requires u.Valid() && u.In(p)
    ensures Walk(u, true, p, d) == Loops <==> Sticks(u, Trail(u, p, d))
    decreases u.end - p, 0
  {
    hide NextDie, DieAt, Code, Sticks;
    match NextDie(u, p, true) {
      case Bad => SticksFirst(u, p, d, {});
      case Next(q, hasChild) =>
        if q <= p || q > u.end {
          SticksFirst(u, p, d, {});
        } else if hasChild && q < u.end && u.data[q] == 0 {
          SticksFirst(u, p, d, TrailBeyond(u, q + 1, d));
          BeyondLoopsIff(u, q + 1, d);
        } else if hasChild && q < u.end {
          SticksFirst(u, p, d, Trail(u, q, d + 1));
          LoopsIff(u, q, d + 1);
        } else {
          SticksFirst(u, p, d, TrailBeyond(u, q, d));
          BeyondLoopsIff(u, q, d);
        }
    }
    NeverFromDieAt(u, p);
    assert !Sticks(u, {}) by { NothingSticks(u); }
  }

  lemma NothingSticks(u: Unit)
    requires u.Valid()
    ensures !Sticks(u, {})
  {}

  lemma {:induction false} BeyondLoopsIff(u: Unit, p: nat, d: nat)
    requires u.Valid() && u.start <= p <= u.end
    ensures Beyond(u, true, p, d) == Loops <==> Sticks(u, TrailBeyond(u, p, d))
    decreases u.end - p, 1
  {
    hide NextDie, DieAt, Code, Walk, Trail;
    NeverFromDieAt(u, p);
    if d > 0 && p < u.end {
      if u.data[p] == 0 { BeyondLoopsIff(u, p + 1, d - 1); } else { LoopsIff(u, p, d); }
    }
  }

  lemma NeverFromDieAt(u: Unit, p: nat)
    requires u.Valid() && p <= u.end
    ensures DieAt(u, p) != Loops
  {}

  lemma SticksFirst(u: Unit, p: nat, d: nat, rest: set<(nat, nat)>)
    requires u.Valid() && u.In(p)
    ensures Sticks(u, {(p, d)} + rest) <==> (d > 0 && NamesItself(u, p)) || Sticks(u, rest)
  {
    hide NextDie;
    var all := {(p, d)} + rest;
    if d > 0 && NamesItself(u, p) { assert (p, d) in all && (p, d).1 > 0; }
    if Sticks(u, rest) {
      var x :| x in rest && x.1 > 0 && NamesItself(u, x.0);
      assert x in all;
    }
  }

  /** Standing at such a DIE the search never leaves it below depth zero; at depth zero
      it is what dwarf_siblingof_b returns. */
  lemma SelfSibling(u: Unit, p: nat, d: nat)
    requires u.Valid() && NamesItself(u, p)
    ensures d > 0 ==> Walk(u, true, p, d) == Loops
    ensures d == 0 ==> Walk(u, true, p, 0) == DieAt(u, p)
  {}

  /** A call of dwarf_siblingof_b does not return exactly when its search comes to
      such a DIE; the DIE asked about may name itself, it is at depth zero. */
  lemma SiblingLoopsIff(u: Unit, p: nat)
    requires u.Valid() && u.In(p)
    ensures Sibling(u, p) == Loops <==> u.data[p] != 0 && Sticks(u, Trail(u, p, 0))
  {
    hide Walk, Trail, Sticks;
    LoopsIff(u, p, 0);
  }

  /** Every search in a unit ends, from every DIE and depth, exactly when no DIE of
      the unit names itself. */
  lemma AllEndIff(u: Unit)
    requires u.Valid()
    ensures (forall p: nat, d: nat :: u.In(p) ==> Walk(u, true, p, d) != Loops) <==> (forall q: nat :: !NamesItself(u, q))
  {
    hide Trail, NextDie, Walk;
    if forall q: nat :: !NamesItself(u, q) {
      forall p: nat, d: nat | u.In(p) ensures Walk(u, true, p, d) != Loops { LoopsIff(u, p, d); }
    }
    if exists q: nat :: NamesItself(u, q) {
      var q: nat :| NamesItself(u, q);
      OnTrail(u, q, 1);
      assert (q, 1) in Trail(u, q, 1) && (q, 1).1 > 0 && NamesItself(u, (q, 1).0);
      LoopsIff(u, q, 1);
      assert u.In(q) && Walk(u, true, q, 1) == Loops;
    }
  }

  lemma OnTrail(u: Unit, p: nat, d: nat)
    requires u.Valid() && u.In(p)
    ensures (p, d) in Trail(u, p, d)
  {}

  /** A DIE with one child that names itself, and the closing zero. */
  const SELF_SIBLING := Unit([1, 1, 0, 0], 0, 4,
                             map[0 := Head(true, NoSibling, Some(1)), 1 := Head(false, SiblingAt(1), Some(1))])

  /** There dwarf_siblingof_b on the first DIE does not return. */
  lemma SelfSiblingLoops()
    ensures SELF_SIBLING.Valid() && SELF_SIBLING.In(0)
    ensures NamesItself(SELF_SIBLING, 1) && (1, 1) in Trail(SELF_SIBLING, 0, 0)
    ensures Sibling(SELF_SIBLING, 0) == Loops
  {
    var u := SELF_SIBLING;
    FirstCode(u, 0);
    FirstCode(u, 1);
    assert NextDie(u, 1, true) == Next(1, false);
    OnTrail(u, 1, 1);
    assert Trail(u, 0, 0) == {(0, 0)} + Trail(u, 1, 1);
    SiblingLoopsIff(u, 0);
  }

  // ------------------------------------------------ every tree has a layout

  predicate Sized(t: Tree) { 1 <= t.size && (t.kids != [] ==> t.flagged) && AllSized(t.kids) }

  predicate AllSized(ts: seq<Tree>) { forall t :: t in ts ==> Sized(t) }

  /** A producer: abbreviation code 1, filler for the attributes, the children. */
  function Bytes(t: Tree): (s: seq<Byte>)
    requires Sized(t)
    ensures |s| == Width(t)
    decreases t, 0
  {
    [1] + seq(t.size - 1, _ => 0) + if t.flagged then AllBytes(t.kids) + [0] else []
  }

  function AllBytes(ts: seq<Tree>): (s: seq<Byte>)
    requires AllSized(ts)
    ensures |s| == Widths(ts)
    decreases ts, 0
  {
    if ts == [] then [] else Bytes(ts[0]) + AllBytes(ts[1..])
  }

  /** The DIEs of m start and end between lo and hi. */
  predicate Within(m: map<nat, Head>, lo: nat, hi: nat) {
    forall k :: k in m ==>
      lo <= k < hi && (m[k].size.Some? ==> 1 <= m[k].size.value && k + m[k].size.value <= hi)
  }

  /** The decoding of each DIE of t when t is laid out at p in a unit that starts at
      start; DW_AT_sibling counts from there. */
  function Heads(t: Tree, p: nat, start: nat): (m: map<nat, Head>)
    requires Sized(t) && start <= p
    ensures Within(m, p, p + Width(t))
    decreases t, 0
  {
    AllHeads(t.kids, p + t.size, start)
      [p := Head(t.flagged, if t.pointsOn then SiblingAt(p + Width(t) - start) else NoSibling, Some(t.size))]
  }

  function AllHeads(ts: seq<Tree>, p: nat, start: nat): (m: map<nat, Head>)
    requires AllSized(ts) && start <= p
    ensures Within(m, p, p + Widths(ts))
    decreases ts, 0
  {
    if ts == [] then map[] else Heads(ts[0], p, start) + AllHeads(ts[1..], p + Width(ts[0]), start)
  }

  lemma Pieces(t: Tree)
    requires Sized(t)
    ensures Bytes(t)[0] == 1
    ensures t.flagged ==> Width(t) == t.size + Widths(t.kids) + 1 && Bytes(t)[Width(t) - 1] == 0
    ensures t.flagged ==> Bytes(t)[t.size..Width(t) - 1] == AllBytes(t.kids)
  {
    if t.flagged {
      var own: seq<Byte> := [1] + seq(t.size - 1, _ => 0);
      assert Bytes(t) == own + (AllBytes(t.kids) + [0]);
      assert (own + (AllBytes(t.kids) + [0]))[|own|..] == AllBytes(t.kids) + [0];
    }
  }

  /** The decoding of u agrees with m. */
  predicate Decodes(u: Unit, m: map<nat, Head>) { forall k :: k in m ==> k in u.heads && u.heads[k] == m[k] }

  lemma Slice(data: seq<Byte>, p: nat, n: nat, i: nat, j: nat)
    requires i <= j <= n && p + n <= |data|
    ensures data[p + i..p + j] == data[p..p + n][i..j]
  {
    var a, b := data[p + i..p + j], data[p..p + n][i..j];
    assert forall k :: 0 <= k < |a| ==> a[k] == b[k];
  }

  /** Where the bytes and the decoding of t are, t is laid out. */
  lemma {:induction false} EmittedLays(u: Unit, t: Tree, p: nat)
    requires u.Valid() && u.start <= p && Sized(t)
    requires p + Width(t) <= u.end && u.data[p..p + Width(t)] == Bytes(t)
    requires Decodes(u, Heads(t, p, u.start))
    ensures Lays(u, t, p)
    decreases t, 0
  {
    hide Bytes, Heads, AllHeads, AllBytes, LaysAll, Code, Decodes, Sized;
    var q := p + Width(t);
    Pieces(t);
    SizedParts(t);
    OwnHead(u, t, p);
    KidHeads(u, t, p);
    assert u.data[p] == u.data[p..q][0];
    FirstCode(u, p);
    if t.flagged {
      var c := p + t.size;
      assert u.data[q - 1] == u.data[p..q][Width(t) - 1];
      Slice(u.data, p, Width(t), t.size, Width(t) - 1);
      EmittedAllLay(u, t.kids, c);
    }
  }

  lemma SizedParts(t: Tree)
    requires Sized(t)
    ensures t.size >= 1 && (t.kids != [] ==> t.flagged) && AllSized(t.kids)
  {}

  lemma OwnHead(u: Unit, t: Tree, p: nat)
    requires Sized(t) && u.start <= p && Decodes(u, Heads(t, p, u.start))
    ensures p in u.heads && u.heads[p]
      == Head(t.flagged, if t.pointsOn then SiblingAt(p + Width(t) - u.start) else NoSibling, Some(t.size))
  {
    hide AllHeads, Width, Sized, Within;
    assert p in Heads(t, p, u.start);
  }

  lemma KidHeads(u: Unit, t: Tree, p: nat)
    requires Sized(t) && t.size >= 1 && AllSized(t.kids) && u.start <= p && Decodes(u, Heads(t, p, u.start))
    ensures Decodes(u, AllHeads(t.kids, p + t.size, u.start))
  {
    hide AllHeads, Width, Sized;
    var m, all := AllHeads(t.kids, p + t.size, u.start), Heads(t, p, u.start);
    forall k | k in m ensures k in u.heads && u.heads[k] == m[k] {
      assert k in all && all[k] == m[k];
    }
  }

  lemma FirstCode(u: Unit, p: nat)
    requires u.Valid() && p < u.end && u.data[p] == 1
    ensures Code(u, p) == Got(1, 1)
  {
    OneByte(u.data[p..u.end]);
  }

  lemma ListSplit(u: Unit, ts: seq<Tree>, p: nat)
    requires ts != [] && AllSized(ts) && u.start <= p && Decodes(u, AllHeads(ts, p, u.start))
    ensures Decodes(u, Heads(ts[0], p, u.start)) && Decodes(u, AllHeads(ts[1..], p + Width(ts[0]), u.start))
    ensures AllBytes(ts)[0..Width(ts[0])] == Bytes(ts[0])
    ensures AllBytes(ts)[Width(ts[0])..Widths(ts)] == AllBytes(ts[1..])
  {
    hide Bytes, Heads, Width, Sized;
    var m, n, all := Heads(ts[0], p, u.start), AllHeads(ts[1..], p + Width(ts[0]), u.start), AllHeads(ts, p, u.start);
    assert all == m + n;
    assert forall k :: k in m ==> k in all && all[k] == m[k];
    assert forall k :: k in n ==> k in all && all[k] == n[k];
  }

  lemma {:induction false} EmittedAllLay(u: Unit, ts: seq<Tree>, p: nat)
    requires u.Valid() && u.start <= p && AllSized(ts)
    requires p + Widths(ts) <= u.end && u.data[p..p + Widths(ts)] == AllBytes(ts)
    requires Decodes(u, AllHeads(ts, p, u.start))
    ensures LaysAll(u, ts, p)
    decreases ts, 0
  {
    hide Lays, Bytes, AllBytes, Heads, AllHeads, Decodes, Sized;
    if ts != [] {
      var w, q := Width(ts[0]), p + Width(ts[0]);
      Slice(u.data, p, Widths(ts), 0, w);
      Slice(u.data, p, Widths(ts), w, Widths(ts));
      ListSplit(u, ts, p);
      EmittedLays(u, ts[0], p);
      EmittedAllLay(u, ts[1..], q);
    }
  }

  /** A section with a unit in it that starts at start and holds t behind whatever
      header it has. */
  function Emit(before: seq<Byte>, start: nat, t: Tree, after: seq<Byte>): Unit
    requires Sized(t) && start <= |before|
  {
    Unit(before + Bytes(t) + after, start, |before| + Width(t), Heads(t, |before|, start))
  }

  lemma EmitValid(before: seq<Byte>, start: nat, t: Tree, after: seq<Byte>)
    requires Sized(t) && start <= |before|
    ensures var u := Emit(before, start, t, after);
      u.Valid() && u.In(|before|) && u.data[|before|..|before| + Width(t)] == Bytes(t)
  {
    SizedParts(t);
  }

  /** Writing any finite tree anywhere in a section and reading it back with
      dwarf_child and dwarf_siblingof_b gives the same tree. */
  lemma EmitThenVisit(before: seq<Byte>, start: nat, t: Tree, after: seq<Byte>)
    requires Sized(t) && start <= |before|
    ensures var u, p := Emit(before, start, t, after), |before|;
      && u.Valid() && u.In(p)
      && Visit(u, p) == (ShapeOf(t), u.end) && Sibling(u, p) == NoMore
  {
    hide Visit, Sibling, Walk, Code, Bytes, Heads, Width, Lays, Sized, ShapeOf;
    var u, p := Emit(before, start, t, after), |before|;
    EmitValid(before, start, t, after);
    EmittedLays(u, t, p);
    VisitRebuilds(u, t, p);
    SiblingIsNext(u, t, p);
  }
}
