/** Looking up the rule of a register at a pc: the initial row kept with each CIE
    and the last row kept with each FDE (libdwarf/dwarf_frame.c). */
module FrameMemo {
  import opened Common
  import opened FrameVm
  import opened FrameExec
  import opened FrameRows
  import Leb

  /** A CIE as the list builder left it: what its instructions are executed with,
      and where they are. env.initial is supplied at each execution. */
  datatype Cie = Cie(env: Env, instrStart: nat, instrEnd: nat, cieEnd: nat)

  datatype Fde = Fde(cie: nat, initialLoc: nat, range: nat, instrStart: nat, instrEnd: nat, fdeEnd: nat)

  datatype Frames = Frames(code: seq<Byte>, cies: seq<Cie>, fdes: seq<Fde>) {
    predicate Valid() {
      && (forall c :: 0 <= c < |cies| ==> CieValid(code, cies[c]))
      && (forall f :: 0 <= f < |fdes| ==> fdes[f].fdeEnd <= |code| && fdes[f].cie < |cies|)
    }
    function CieOf(f: nat): Cie
      requires Valid() && f < |fdes|
    {
      cies[fdes[f].cie]
    }
  }

  predicate CieValid(code: seq<Byte>, c: Cie) {
    c.env.Valid() && c.env.initial.None? && !c.env.makeInstr && c.cieEnd <= |code|
  }

  predicate Whole(c: Cie, row: Row) { |row.regs| == c.env.regCount }

  function From(c: Cie, row: Row): (e: Env)
    requires c.env.Valid() && Whole(c, row)
    ensures e.Valid()
  {
    c.env.(initial := Some(row))
  }

  /** Executing from a given initial row; a stream ending before it starts is an error. */
  function ExecRange(c: Cie, row: Row, code: seq<Byte>, start: nat, final: nat, search: Option<nat>, loc: nat): (r: Outcome)
    requires c.env.Valid() && Whole(c, row) && final <= |code|
    ensures r.Reached? ==> Whole(c, r.st.row)
  {
    if start > final then Failure else Exec(From(c, row), code, start, final, search, State(loc, row, []))
  }

  // ------------------------------------------------------- the initial row

  /** What executing the instructions of a CIE comes to. */
  datatype Built = BadRange | Broken | Good(row: Row)

  function CieResult(code: seq<Byte>, c: Cie): (r: Built)
    requires CieValid(code, c)
    ensures r.Good? ==> Whole(c, r.row)
  {
    if c.instrEnd > c.cieEnd then BadRange
    else match ExecRange(c, c.env.DefaultRow(), code, c.instrStart, c.instrEnd, None, 0)
      case Failure => Broken
      case Reached(st, _, _) => Good(st.row)
  }

  // ------------------------------------------------------------ one lookup

  /** The end of the range of an FDE, as the 64-bit sum. */
  function EndPc(f: Fde): nat { Wrap64(f.initialLoc + f.range) }

  predicate InRange(f: Fde, pc: nat) { f.initialLoc <= pc < EndPc(f) }

  function FdeOutcome(code: seq<Byte>, c: Cie, f: Fde, initial: Row, pc: nat): (r: Outcome)
    requires CieValid(code, c) && f.fdeEnd <= |code| && Whole(c, initial)
    ensures r.Reached? ==> Whole(c, r.st.row)
  {
    if f.instrEnd > f.fdeEnd then Failure
    else ExecRange(c, initial, code, f.instrStart, f.instrEnd, Some(pc), f.initialLoc)
  }

  /** The answer without any memory: build the initial row, execute up to pc. */
  function Fresh(code: seq<Byte>, c: Cie, f: Fde, pc: nat): (r: Outcome)
    requires CieValid(code, c) && f.fdeEnd <= |code|
    ensures r.Reached? ==> Whole(c, r.st.row)
  {
    if !InRange(f, pc) || !CieResult(code, c).Good? then Failure
    else FdeOutcome(code, c, f, CieResult(code, c).row, pc)
  }

  /** _dwarf_get_fde_info_for_a_pc_row: the initial row afterwards, and the outcome.
      The initial table is there before the instructions of the CIE are executed;
      when they fail it stays, with the default rules in it. */
  function PcRow(code: seq<Byte>, c: Cie, f: Fde, initial: Option<Row>, pc: nat): (r: (Option<Row>, Outcome))
    requires CieValid(code, c) && f.fdeEnd <= |code| && (initial.Some? ==> Whole(c, initial.value))
    ensures r.0.Some? ==> Whole(c, r.0.value)
    ensures r.1.Reached? ==> Whole(c, r.1.st.row)
  {
    if !InRange(f, pc) then (initial, Failure)
    else if initial.Some? then (initial, FdeOutcome(code, c, f, initial.value, pc))
    else match CieResult(code, c)
      case BadRange => (None, Failure)
      case Broken => (Some(c.env.DefaultRow()), Failure)
      case Good(row) => (Some(row), FdeOutcome(code, c, f, row, pc))
  }

  datatype Memo = Nothing | Holds(pc: nat, loc: nat, row: Row)

  /** An error; a read beyond the table; or the rule, the location of its row and,
      on a miss only, whether rows follow and where the next one begins. */
  datatype Answer = Failed | OutOfTable | Answer(rule: Rule, rowPc: nat, next: Option<(bool, nat)>)

  datatype Queried = Queried(initial: Option<Row>, memo: Memo, answer: Answer)

  /** dwarf_get_fde_info_for_reg3_b. A hit does not look at the column. */
  function Query(code: seq<Byte>, c: Cie, f: Fde, initial: Option<Row>, memo: Memo, col: nat, pc: nat): (r: Queried)
    requires CieValid(code, c) && f.fdeEnd <= |code| && (initial.Some? ==> Whole(c, initial.value))
    requires memo.Holds? ==> Whole(c, memo.row)
    ensures r.initial.Some? ==> Whole(c, r.initial.value)
    ensures r.memo.Holds? ==> Whole(c, r.memo.row)
  {
    if memo.Holds? && memo.pc == pc then
      Queried(initial, memo, if col < c.env.regCount then Answer(memo.row.regs[col], memo.loc, None) else OutOfTable)
    else if col >= c.env.regCount then Queried(initial, Nothing, Failed)
    else
      var (now, out) := PcRow(code, c, f, initial, pc);
      match out
      case Failure => Queried(now, Nothing, Failed)
      case Reached(st, more, subsequent) =>
        Queried(now, Holds(pc, st.loc, st.row), Answer(st.row.regs[col], st.loc, Some((more, subsequent))))
  }

  // ----------------------------------------------------------------- runs

  /** The initial row of every CIE and the memo of every FDE. */
  datatype World = World(initials: seq<Option<Row>>, memos: seq<Memo>)

  datatype Op = Op(fde: nat, col: nat, pc: nat)

  predicate Shaped(fr: Frames, w: World)
    requires fr.Valid()
  {
    && |w.initials| == |fr.cies| && |w.memos| == |fr.fdes|
    && (forall c :: 0 <= c < |fr.cies| && w.initials[c].Some? ==> Whole(fr.cies[c], w.initials[c].value))
    && (forall f :: 0 <= f < |fr.fdes| && w.memos[f].Holds? ==> Whole(fr.CieOf(f), w.memos[f].row))
  }

  function Start(fr: Frames): (w: World)
    requires fr.Valid()
    ensures Shaped(fr, w)
  {
    World(seq(|fr.cies|, _ => None), seq(|fr.fdes|, _ => Nothing))
  }

  function Ask(fr: Frames, w: World, op: Op): (r: (World, Answer))
    requires fr.Valid() && Shaped(fr, w) && op.fde < |fr.fdes|
    ensures Shaped(fr, r.0)
  {
    var f := fr.fdes[op.fde];
    var q := Query(fr.code, fr.CieOf(op.fde), f, w.initials[f.cie], w.memos[op.fde], op.col, op.pc);
    (World(w.initials[f.cie := q.initial], w.memos[op.fde := q.memo]), q.answer)
  }

  predicate Asks(fr: Frames, ops: seq<Op>) { forall i :: 0 <= i < |ops| ==> ops[i].fde < |fr.fdes| }

  function Run(fr: Frames, w: World, ops: seq<Op>): (r: (World, seq<Answer>))
    requires fr.Valid() && Shaped(fr, w) && Asks(fr, ops)
    ensures Shaped(fr, r.0) && |r.1| == |ops|
    decreases |ops|
  {
    if ops == [] then (w, [])
    else
      var (w', a) := Ask(fr, w, ops[0]);
      var (w'', answers) := Run(fr, w', ops[1..]);
      (w'', [a] + answers)
  }

  /** A built initial row is the result of the CIE, or the default rules if its
      instructions fail; it is never built for a bad range. */
  predicate InitialSound(code: seq<Byte>, c: Cie, initial: Option<Row>)
    requires CieValid(code, c)
  {
    initial.Some? ==>
      match CieResult(code, c)
      case BadRange => false
      case Broken => initial.value == c.env.DefaultRow()
      case Good(row) => initial.value == row
  }

  /** A memo holds what the FDE's instructions give for its pc over the initial row. */
  predicate MemoSound(code: seq<Byte>, c: Cie, f: Fde, initial: Option<Row>, memo: Memo)
    requires CieValid(code, c) && f.fdeEnd <= |code| && (initial.Some? ==> Whole(c, initial.value))
  {
    memo.Holds? ==>
      && InRange(f, memo.pc) && initial.Some?
      && var out := FdeOutcome(code, c, f, initial.value, memo.pc);
         out.Reached? && out.st.loc == memo.loc && out.st.row == memo.row
  }

  predicate Inv(fr: Frames, w: World)
    requires fr.Valid() && Shaped(fr, w)
  {
    && (forall c :: 0 <= c < |fr.cies| ==> InitialSound(fr.code, fr.cies[c], w.initials[c]))
    && (forall f :: 0 <= f < |fr.fdes| ==>
         MemoSound(fr.code, fr.CieOf(f), fr.fdes[f], w.initials[fr.fdes[f].cie], w.memos[f]))
  }

  /** An initial row, once there, is never altered. */
  predicate Kept(before: World, after: World) {
    && |before.initials| == |after.initials|
    && forall c :: 0 <= c < |before.initials| && before.initials[c].Some? ==> after.initials[c] == before.initials[c]
  }

  lemma QueryKeeps(code: seq<Byte>, c: Cie, f: Fde, initial: Option<Row>, memo: Memo, col: nat, pc: nat)
    requires CieValid(code, c) && f.fdeEnd <= |code| && (initial.Some? ==> Whole(c, initial.value))
    requires memo.Holds? ==> Whole(c, memo.row)
    requires InitialSound(code, c, initial) && MemoSound(code, c, f, initial, memo)
    ensures var q := Query(code, c, f, initial, memo, col, pc);
      && InitialSound(code, c, q.initial) && MemoSound(code, c, f, q.initial, q.memo)
      && (initial.Some? ==> q.initial == initial)
  {
    hide CieResult, FdeOutcome;
  }

  lemma AskKeeps(fr: Frames, w: World, op: Op)
    requires fr.Valid() && Shaped(fr, w) && op.fde < |fr.fdes| && Inv(fr, w)
    ensures Inv(fr, Ask(fr, w, op).0) && Kept(w, Ask(fr, w, op).0)
  {
    hide InitialSound, MemoSound, Query;
    var f := fr.fdes[op.fde];
    QueryKeeps(fr.code, fr.CieOf(op.fde), f, w.initials[f.cie], w.memos[op.fde], op.col, op.pc);
    var q := Query(fr.code, fr.CieOf(op.fde), f, w.initials[f.cie], w.memos[op.fde], op.col, op.pc);
    forall g | 0 <= g < |fr.fdes| && g != op.fde
      ensures MemoSound(fr.code, fr.CieOf(g), fr.fdes[g], Ask(fr, w, op).0.initials[fr.fdes[g].cie], w.memos[g])
    {
      if fr.fdes[g].cie == f.cie { MemoStays(fr.code, fr.CieOf(g), fr.fdes[g], w.initials[f.cie], q.initial, w.memos[g]); }
    }
  }

  lemma MemoStays(code: seq<Byte>, c: Cie, f: Fde, initial: Option<Row>, later: Option<Row>, memo: Memo)
    requires CieValid(code, c) && f.fdeEnd <= |code| && (initial.Some? ==> Whole(c, initial.value) && later == initial)
    requires (later.Some? ==> Whole(c, later.value)) && MemoSound(code, c, f, initial, memo)
    ensures MemoSound(code, c, f, later, memo)
  {}

  /** Every run keeps the memos sound and the initial rows as built. */
  lemma {:induction false} RunKeeps(fr: Frames, w: World, ops: seq<Op>)
    requires fr.Valid() && Shaped(fr, w) && Asks(fr, ops) && Inv(fr, w)
    ensures Inv(fr, Run(fr, w, ops).0) && Kept(w, Run(fr, w, ops).0)
    decreases |ops|
  {
    hide Ask, Inv;
    if ops != [] {
      AskKeeps(fr, w, ops[0]);
      RunKeeps(fr, Ask(fr, w, ops[0]).0, ops[1..]);
    }
  }

  // -------------------------------------------------------------- answers

  /** The answer is what the outcome says about the column. */
  predicate Agrees(a: Answer, out: Outcome, col: nat, regCount: nat)
    requires out.Reached? ==> |out.st.row.regs| == regCount
  {
    match a
    case Failed => col >= regCount || out.Failure?
    case OutOfTable => col >= regCount
    case Answer(rule, rowPc, next) =>
      && col < regCount && out.Reached? && rule == out.st.row.regs[col] && rowPc == out.st.loc
      && (next.Some? ==> next.value == (out.more, out.subsequent))
  }

  /** In a reachable world a query answers as a fresh execution would, hit or miss,
      exactly unless the instructions of the CIE fail, an earlier query has found
      that out, and those of the FDE succeed over the default rules. The next row
      is reported exactly on a miss. */
  lemma AnswersFreshIff(fr: Frames, w: World, op: Op)
    requires fr.Valid() && Shaped(fr, w) && op.fde < |fr.fdes| && Inv(fr, w)
    requires op.col < fr.CieOf(op.fde).env.regCount
    ensures var c, f := fr.CieOf(op.fde), fr.fdes[op.fde];
      var a := Ask(fr, w, op).1;
      && (Agrees(a, Fresh(fr.code, c, f, op.pc), op.col, c.env.regCount) <==>
          !(&& CieResult(fr.code, c).Broken? && w.initials[f.cie].Some? && InRange(f, op.pc)
            && FdeOutcome(fr.code, c, f, c.env.DefaultRow(), op.pc).Reached?))
      && (a.Answer? ==> (a.next.None? <==> w.memos[op.fde].Holds? && w.memos[op.fde].pc == op.pc))
  {
    hide CieResult, FdeOutcome;
    var c, f := fr.CieOf(op.fde), fr.fdes[op.fde];
    assert InitialSound(fr.code, c, w.initials[f.cie]);
    assert MemoSound(fr.code, c, f, w.initials[f.cie], w.memos[op.fde]);
  }

  /** No CIE with failing instructions, every run of queries from the start: each
      answer is that of a fresh execution. */
  lemma {:induction false} RunAnswersFresh(fr: Frames, w: World, ops: seq<Op>, i: nat)
    requires fr.Valid() && Shaped(fr, w) && Asks(fr, ops) && Inv(fr, w) && i < |ops|
    requires forall c :: 0 <= c < |fr.cies| ==> !CieResult(fr.code, fr.cies[c]).Broken?
    requires ops[i].col < fr.CieOf(ops[i].fde).env.regCount
    ensures Agrees(Run(fr, w, ops).1[i], Fresh(fr.code, fr.CieOf(ops[i].fde), fr.fdes[ops[i].fde], ops[i].pc),
                   ops[i].col, fr.CieOf(ops[i].fde).env.regCount)
    decreases i
  {
    hide Ask, Inv, Agrees, Fresh, CieResult;
    if i == 0 {
      AnswersFreshIff(fr, w, ops[0]);
    } else {
      AskKeeps(fr, w, ops[0]);
      RunAnswersFresh(fr, Ask(fr, w, ops[0]).0, ops[1..], i - 1);
    }
  }

  /** The row table of an FDE over the initial row of its CIE. */
  function FdeTable(code: seq<Byte>, c: Cie, f: Fde): (r: Option<seq<TableRow>>)
    requires CieValid(code, c) && f.fdeEnd <= |code|
    ensures r.Some? ==> r.value != [] && r.value[0].loc == f.initialLoc
  {
    if !CieResult(code, c).Good? || f.instrStart > f.instrEnd || f.instrEnd > f.fdeEnd then None
    else
      var row := CieResult(code, c).row;
      var pp := Program(code, f.instrStart, f.instrEnd, c.env.addressSize);
      if pp.None? then None else Table(From(c, row), State(f.initialLoc, row, []), Instrs(pp.value))
  }

  /** End to end: in every reachable world a lookup answers from the row in force at
      its pc in the table of the FDE, if the FDE has one. */
  lemma AnswerIsTableRow(fr: Frames, w: World, op: Op)
    requires fr.Valid() && Shaped(fr, w) && op.fde < |fr.fdes| && Inv(fr, w)
    requires op.col < fr.CieOf(op.fde).env.regCount && InRange(fr.fdes[op.fde], op.pc)
    requires FdeTable(fr.code, fr.CieOf(op.fde), fr.fdes[op.fde]).Some?
    ensures var rows := FdeTable(fr.code, fr.CieOf(op.fde), fr.fdes[op.fde]).value;
      var k, a := Stop(rows, op.pc), Ask(fr, w, op).1;
      && a.Answer? && op.col < |rows[k].row.regs| && a.rule == rows[k].row.regs[op.col] && a.rowPc == rows[k].loc
      && (a.next.Some? ==> a.next.value == (k + 1 < |rows|, if k + 1 < |rows| then rows[k + 1].loc else 0))
  {
    hide Ask, Inv, CieResult, Exec, Table, Program, Stop, Instrs;
    var c, f := fr.CieOf(op.fde), fr.fdes[op.fde];
    AnswersFreshIff(fr, w, op);
    var row := CieResult(fr.code, c).row;
    SearchFinds(From(c, row), fr.code, f.instrStart, f.instrEnd, State(f.initialLoc, row, []), op.pc);
  }

  lemma StartInv(fr: Frames)
    requires fr.Valid()
    ensures Inv(fr, Start(fr))
  {}

  /** The world after some lookups. */
  function After(fr: Frames, ops: seq<Op>): (w: World)
    requires fr.Valid() && Asks(fr, ops)
    ensures Shaped(fr, w)
  {
    Run(fr, Start(fr), ops).0
  }

  /** A lookup that gets as far as needing the initial row of CIE c. */
  predicate Needs(fr: Frames, c: nat, op: Op)
    requires fr.Valid() && c < |fr.cies| && op.fde < |fr.fdes|
  {
    fr.fdes[op.fde].cie == c && op.col < fr.cies[c].env.regCount && InRange(fr.fdes[op.fde], op.pc)
  }

  predicate Needed(fr: Frames, c: nat, ops: seq<Op>)
    requires fr.Valid() && c < |fr.cies| && Asks(fr, ops)
  {
    exists i :: 0 <= i < |ops| && Needs(fr, c, ops[i])
  }

  lemma AskBuildsIff(fr: Frames, w: World, op: Op, c: nat)
    requires fr.Valid() && Shaped(fr, w) && op.fde < |fr.fdes| && Inv(fr, w) && c < |fr.cies|
    ensures Ask(fr, w, op).0.initials[c].Some? <==>
      w.initials[c].Some? || (!CieResult(fr.code, fr.cies[c]).BadRange? && Needs(fr, c, op))
  {
    hide CieResult, FdeOutcome;
    assert MemoSound(fr.code, fr.CieOf(op.fde), fr.fdes[op.fde], w.initials[fr.fdes[op.fde].cie], w.memos[op.fde]);
  }

  lemma NeededCons(fr: Frames, c: nat, ops: seq<Op>)
    requires fr.Valid() && c < |fr.cies| && Asks(fr, ops)
    ensures Needed(fr, c, ops) <==> ops != [] && (Needs(fr, c, ops[0]) || Needed(fr, c, ops[1..]))
  {
    hide Needs;
    if ops != [] && Needed(fr, c, ops[1..]) {
      var i :| 0 <= i < |ops[1..]| && Needs(fr, c, ops[1..][i]);
      assert Needs(fr, c, ops[i + 1]);
    }
    if Needed(fr, c, ops) {
      var i :| 0 <= i < |ops| && Needs(fr, c, ops[i]);
      if i > 0 { assert ops[1..][i - 1] == ops[i]; }
    }
  }

  /** What a caller can know of the initial row of a CIE: it is there exactly when its
      instructions lie in the section and some lookup so far has needed it. */
  lemma {:induction false} BuiltIff(fr: Frames, w: World, ops: seq<Op>, c: nat)
    requires fr.Valid() && Shaped(fr, w) && Asks(fr, ops) && Inv(fr, w) && c < |fr.cies|
    ensures Run(fr, w, ops).0.initials[c].Some? <==>
      w.initials[c].Some? || (!CieResult(fr.code, fr.cies[c]).BadRange? && Needed(fr, c, ops))
    decreases |ops|
  {
    hide Ask, Inv, CieResult, Needs, Needed;
    NeededCons(fr, c, ops);
    if ops != [] {
      AskBuildsIff(fr, w, ops[0], c);
      AskKeeps(fr, w, ops[0]);
      BuiltIff(fr, Ask(fr, w, ops[0]).0, ops[1..], c);
    }
  }

  /** After any lookups on any FDEs the next one answers as a fresh execution would,
      exactly unless the instructions of its CIE fail, some lookup before has needed
      their result, and those of the FDE succeed over the default rules. It answers
      from the table row in force if the FDE has a table. */
  lemma ReachableAnswers(fr: Frames, ops: seq<Op>, op: Op)
    requires fr.Valid() && Asks(fr, ops) && op.fde < |fr.fdes| && op.col < fr.CieOf(op.fde).env.regCount
    ensures var w, c, f := After(fr, ops), fr.CieOf(op.fde), fr.fdes[op.fde];
      var a := Ask(fr, w, op).1;
      && Inv(fr, w)
      && (Agrees(a, Fresh(fr.code, c, f, op.pc), op.col, c.env.regCount) <==>
          !(&& CieResult(fr.code, c).Broken? && Needed(fr, f.cie, ops) && InRange(f, op.pc)
            && FdeOutcome(fr.code, c, f, c.env.DefaultRow(), op.pc).Reached?))
      && (InRange(f, op.pc) && FdeTable(fr.code, c, f).Some? ==>
          var rows := FdeTable(fr.code, c, f).value;
          var k := Stop(rows, op.pc);
          a.Answer? && op.col < |rows[k].row.regs| && a.rule == rows[k].row.regs[op.col] && a.rowPc == rows[k].loc)
  {
    hide Run, Ask, Inv, Agrees, CieResult, FdeOutcome, Fresh, FdeTable, Stop, Needed;
    StartInv(fr);
    RunKeeps(fr, Start(fr), ops);
    var w := After(fr, ops);
    AnswersFreshIff(fr, w, op);
    BuiltIff(fr, Start(fr), ops, fr.fdes[op.fde].cie);
    if InRange(fr.fdes[op.fde], op.pc) && FdeTable(fr.code, fr.CieOf(op.fde), fr.fdes[op.fde]).Some? {
      AnswerIsTableRow(fr, w, op);
    }
  }

  // --------------------------------------- what the initial row is made of

  /** The machine of a CIE before its first instruction. */
  function Blank(c: Cie): (st: State)
    requires c.env.Valid()
    ensures Fits(c.env.(initial := Some(st.row)), st)
  {
    var rule := Rule(false, ExprOffset, c.env.initialValue, 0, Block(0, 0));
    State(0, Row(seq(c.env.regCount, _ => rule), rule), [])
  }

  /** The row the instructions of a CIE make, run in order from a blank machine; None if
      they do not decode or one of them is an error. */
  function MadeRow(code: seq<Byte>, c: Cie): (r: Option<Row>)
    requires CieValid(code, c) && c.instrEnd <= c.cieEnd
    ensures r.Some? ==> |r.value.regs| == c.env.regCount
  {
    var pp := if c.instrStart <= c.instrEnd then Program(code, c.instrStart, c.instrEnd, c.env.addressSize) else None;
    if pp.None? then None
    else
      var env := c.env.(initial := Some(Blank(c).row));
      match RunProg(env, Blank(c), Instrs(pp.value))
      case None => None
      case Some(st) => Some(st.row)
  }

  lemma BlankIsDefault(c: Cie)
    requires c.env.Valid()
    ensures Blank(c).row == c.env.DefaultRow()
  {}

  lemma CieResultIs(code: seq<Byte>, c: Cie)
    requires CieValid(code, c) && c.instrEnd <= c.cieEnd
    ensures CieResult(code, c) == match MadeRow(code, c) case None => Broken case Some(row) => Good(row)
  {
    hide Program, RunProg, Instrs, Exec, Blank;
    BlankIsDefault(c);
    var env, st := From(c, Blank(c).row), State(0, Blank(c).row, []);
    assert st == Blank(c) by { BlankState(c); }
    if c.instrStart > c.instrEnd { return; }
    var pp := Program(code, c.instrStart, c.instrEnd, c.env.addressSize);
    if pp.Some? {
      ExecIsRun(env, code, c.instrStart, c.instrEnd, st);
    } else if Exec(env, code, c.instrStart, c.instrEnd, None, st).Reached? {
      ExecDecodes(env, code, c.instrStart, c.instrEnd, st);
    }
  }

  lemma BlankState(c: Cie)
    requires c.env.Valid()
    ensures Blank(c).loc == 0 && Blank(c).stack == []
  {}

  /** After any lookups of which one needed it, the initial row of a CIE is the row its
      instructions make, or the blank one if they fail. */
  lemma InitialIsMade(fr: Frames, ops: seq<Op>, c: nat)
    requires fr.Valid() && Asks(fr, ops) && c < |fr.cies| && Needed(fr, c, ops)
    requires fr.cies[c].instrEnd <= fr.cies[c].cieEnd
    ensures After(fr, ops).initials[c] == match MadeRow(fr.code, fr.cies[c])
                                          case None => Some(Blank(fr.cies[c]).row)
                                          case Some(row) => Some(row)
  {
    hide Run, CieResult, MadeRow, Needed, MemoSound, Blank;
    StartInv(fr);
    RunKeeps(fr, Start(fr), ops);
    BuiltIff(fr, Start(fr), ops, c);
    CieResultIs(fr.code, fr.cies[c]);
    BlankIsDefault(fr.cies[c]);
    assert InitialSound(fr.code, fr.cies[c], After(fr, ops).initials[c]);
  }

  /** The rows of an FDE, from the row its CIE makes. */
  function MadeTable(code: seq<Byte>, c: Cie, f: Fde): (r: Option<seq<TableRow>>)
    requires CieValid(code, c) && f.fdeEnd <= |code|
    requires c.instrEnd <= c.cieEnd && f.instrStart <= f.instrEnd <= f.fdeEnd
    ensures r.Some? ==> r.value != [] && r.value[0].loc == f.initialLoc
  {
    var row, pp := MadeRow(code, c), Program(code, f.instrStart, f.instrEnd, c.env.addressSize);
    if row.None? || pp.None? then None
    else Table(c.env.(initial := row), State(f.initialLoc, row.value, []), Instrs(pp.value))
  }

  /** After any lookups, one at a pc from the initial location on and below the end of
      the range answers from the last row it may: the one in force there in the table
      made from the instructions of CIE and FDE. */
  lemma AnswersFromMade(fr: Frames, ops: seq<Op>, op: Op)
    requires fr.Valid() && Asks(fr, ops) && op.fde < |fr.fdes| && op.col < fr.CieOf(op.fde).env.regCount
    requires var c, f := fr.CieOf(op.fde), fr.fdes[op.fde];
      && c.instrEnd <= c.cieEnd && f.instrStart <= f.instrEnd <= f.fdeEnd
      && MadeTable(fr.code, c, f).Some?
      && f.initialLoc <= op.pc < (f.initialLoc + f.range) % 0x1_0000_0000_0000_0000
    ensures var rows := MadeTable(fr.code, fr.CieOf(op.fde), fr.fdes[op.fde]).value;
      var k, a := Stop(rows, op.pc), Ask(fr, After(fr, ops), op).1;
      && a.Answer? && op.col < |rows[k].row.regs| && a.rule == rows[k].row.regs[op.col] && a.rowPc == rows[k].loc
      && (a.next.Some? ==> a.next.value == (k + 1 < |rows|, if k + 1 < |rows| then rows[k + 1].loc else 0))
  {
    hide Run, Ask, Inv, CieResult, Table, Stop, MadeRow, Program, Instrs;
    var c, f := fr.CieOf(op.fde), fr.fdes[op.fde];
    StartInv(fr);
    RunKeeps(fr, Start(fr), ops);
    CieResultIs(fr.code, c);
    assert FdeTable(fr.code, c, f) == MadeTable(fr.code, c, f);
    AnswerIsTableRow(fr, After(fr, ops), op);
  }

  /** A pc outside of the range is an error whatever the state, unless the memo holds
      it, which it does not. */
  lemma OutsideFails(fr: Frames, ops: seq<Op>, op: Op)
    requires fr.Valid() && Asks(fr, ops) && op.fde < |fr.fdes|
    requires var f := fr.fdes[op.fde];
      op.pc < f.initialLoc || op.pc >= (f.initialLoc + f.range) % 0x1_0000_0000_0000_0000
    ensures Ask(fr, After(fr, ops), op).1 == Failed
  {
    hide Run, CieResult, FdeOutcome;
    StartInv(fr);
    RunKeeps(fr, Start(fr), ops);
    var w, f := After(fr, ops), fr.fdes[op.fde];
    assert MemoSound(fr.code, fr.CieOf(op.fde), f, w.initials[f.cie], w.memos[op.fde]);
  }

  /** A CIE that sets up a rule: DW_CFA_undefined 0. */
  const SETS_UP := Frames([0x07, 0x00], [Cie(SMALL, 0, 2, 2)], [Fde(0, 0x1000, 0x10, 2, 2, 2)])

  /** The row it makes. */
  const MADE_UP := Row([Rule(false, ExprOffset, 1034, 0, Block(0, 0))], Blank(SETS_UP.cies[0]).row.cfa)

  lemma SetsUpRow()
    ensures MadeRow(SETS_UP.code, SETS_UP.cies[0]) == Some(MADE_UP)
  {
    hide Program, RunProg;
    var c := SETS_UP.cies[0];
    var env := c.env.(initial := Some(Blank(c).row));
    UndefinedProgram();
    assert Instrs([Placed(0, 2, Undefined(0))]) == [Undefined(0)];
    UndefinedSteps(env, Blank(c), State(0, MADE_UP, []));
    RunOne(env, Blank(c), Undefined(0));
  }

  lemma SetsUpTable()
    ensures MadeTable(SETS_UP.code, SETS_UP.cies[0], SETS_UP.fdes[0]) == Some([TableRow(0x1000, MADE_UP)])
  {
    hide Program, MadeRow;
    SetsUpRow();
    NoProgram(SETS_UP.code, 2, 4);
    assert Instrs([]) == [];
  }

  /** Looking it up gives that rule, not the initial one. */
  lemma SetsUpRule()
    ensures SETS_UP.Valid()
    ensures Ask(SETS_UP, Start(SETS_UP), Op(0, 0, 0x1000)).1
         == Answer(Rule(false, ExprOffset, 1034, 0, Block(0, 0)), 0x1000, Some((false, 0)))
  {
    hide Stop, Ask, MadeRow, MadeTable;
    SetsUpTable();
    assert After(SETS_UP, []) == Start(SETS_UP);
    AnswersFromMade(SETS_UP, [], Op(0, 0, 0x1000));
    StartMisses(SETS_UP, Op(0, 0, 0x1000));
  }

  lemma UndefinedSteps(env: Env, before: State, after: State)
    requires env.Valid() && Fits(env, before) && env.regCount == 1 && env.undefinedValue == 1034
    requires before.row.regs[0].block == Block(0, 0)
    requires after == before.(row := before.row.(regs := [Rule(false, ExprOffset, 1034, 0, Block(0, 0))]))
    ensures Step(env, before, Undefined(0)) == Some(after)
  {
    assert before.row.regs[0 := after.row.regs[0]] == after.row.regs;
  }

  lemma UndefinedDecodes()
    ensures Decode(SETS_UP.code, 0, 2, 4) == Instruction(0x07, NOTHING, Undefined(0), 2)
  {
    hide Leb.ReadU;
    Leb.OneByte(Stream(SETS_UP.code, 1, 2));
  }

  lemma UndefinedProgram()
    ensures Program(SETS_UP.code, 0, 2, 4) == Some([Placed(0, 2, Undefined(0))])
  {
    hide Decode;
    UndefinedDecodes();
    assert Program(SETS_UP.code, 2, 2, 4) == Some([]);
    assert [Placed(0, 2, Undefined(0))] + [] == [Placed(0, 2, Undefined(0))];
  }

  lemma NoProgram(code: seq<Byte>, p: nat, addressSize: nat)
    requires p <= |code|
    ensures Program(code, p, p, addressSize) == Some([])
  {}

  lemma StartMisses(fr: Frames, op: Op)
    requires fr.Valid() && op.fde < |fr.fdes| && op.col < fr.CieOf(op.fde).env.regCount
    ensures Ask(fr, Start(fr), op).1.Answer? ==> Ask(fr, Start(fr), op).1.next.Some?
  {
    hide PcRow;
  }

  // ------------------------------------------------------ stepping by row

  /** A client's loop over one register of an FDE: look up a pc, go on at the reported
      next location. */
  function Browse(fr: Frames, w: World, fde: nat, col: nat, pc: nat): seq<(nat, Rule)>
    requires fr.Valid() && Shaped(fr, w) && fde < |fr.fdes|
    decreases TWO64 - pc
  {
    var (w', a) := Ask(fr, w, Op(fde, col, pc));
    if !a.Answer? then []
    else if a.next.Some? && a.next.value.0 && pc < a.next.value.1 < TWO64 then
      [(a.rowPc, a.rule)] + Browse(fr, w', fde, col, a.next.value.1)
    else [(a.rowPc, a.rule)]
  }

  function Column(rows: seq<TableRow>, col: nat): seq<(nat, Rule)>
    requires Wide(rows, col)
  {
    if rows == [] then [] else [(rows[0].loc, rows[0].row.regs[col])] + Column(rows[1..], col)
  }

  predicate Wide(rows: seq<TableRow>, col: nat) { forall i :: 0 <= i < |rows| ==> col < |rows[i].row.regs| }

  /** One answer of the loop: the row in force at a row's own location, and a miss
      leaves the pc in the memo. */
  lemma AskedMiss(fr: Frames, w: World, op: Op)
    requires fr.Valid() && Shaped(fr, w) && op.fde < |fr.fdes|
    requires op.col < fr.CieOf(op.fde).env.regCount
    requires !(w.memos[op.fde].Holds? && w.memos[op.fde].pc == op.pc)
    ensures var (w', a) := Ask(fr, w, op);
      && (a.Answer? ==> a.next.Some? && w'.memos[op.fde].Holds? && w'.memos[op.fde].pc == op.pc)
      && (!InRange(fr.fdes[op.fde], op.pc) ==> a == Failed)
  {
    hide CieResult, FdeOutcome;
  }

  /** One turn of the loop. */
  lemma BrowseStep(fr: Frames, w: World, fde: nat, col: nat, pc: nat)
    requires fr.Valid() && Shaped(fr, w) && fde < |fr.fdes| && Inv(fr, w)
    requires col < fr.CieOf(fde).env.regCount && InRange(fr.fdes[fde], pc)
    requires !(w.memos[fde].Holds? && w.memos[fde].pc == pc)
    requires FdeTable(fr.code, fr.CieOf(fde), fr.fdes[fde]).Some?
    ensures var rows := FdeTable(fr.code, fr.CieOf(fde), fr.fdes[fde]).value;
      var s, w' := Stop(rows, pc), Ask(fr, w, Op(fde, col, pc)).0;
      && Inv(fr, w') && w'.memos[fde].Holds? && w'.memos[fde].pc == pc
      && col < |rows[s].row.regs|
      && Browse(fr, w, fde, col, pc)
         == [(rows[s].loc, rows[s].row.regs[col])]
            + if s + 1 < |rows| && rows[s + 1].loc < TWO64 then Browse(fr, w', fde, col, rows[s + 1].loc) else []
  {
    hide Ask, Inv, FdeTable, Stop, Shaped;
    var op := Op(fde, col, pc);
    AnswerIsTableRow(fr, w, op);
    AskedMiss(fr, w, op);
    AskKeeps(fr, w, op);
  }

  lemma BrowseOutside(fr: Frames, w: World, fde: nat, col: nat, pc: nat)
    requires fr.Valid() && Shaped(fr, w) && fde < |fr.fdes| && col < fr.CieOf(fde).env.regCount
    requires !InRange(fr.fdes[fde], pc) && !(w.memos[fde].Holds? && w.memos[fde].pc == pc)
    ensures Browse(fr, w, fde, col, pc) == []
  {
    hide Ask, Shaped;
    AskedMiss(fr, w, Op(fde, col, pc));
  }

  lemma ColumnCons(row: TableRow, rows: seq<TableRow>, col: nat)
    requires col < |row.row.regs| && Wide(rows, col)
    ensures Wide([row] + rows, col) && Column([row] + rows, col) == [(row.loc, row.row.regs[col])] + Column(rows, col)
  {
    assert ([row] + rows)[1..] == rows;
  }

  lemma ColumnNone(row: TableRow, col: nat)
    requires col < |row.row.regs|
    ensures Wide([row], col) && Column([row], col) == [(row.loc, row.row.regs[col])]
  {}

  /** The loop lists, on every table and from every pc of the FDE, the rows below the
      end of the range that a search comes by, and stops there. */
  lemma {:induction false} BrowseLists(fr: Frames, w: World, fde: nat, col: nat, pc: nat)
    requires fr.Valid() && Shaped(fr, w) && fde < |fr.fdes| && Inv(fr, w)
    requires col < fr.CieOf(fde).env.regCount && InRange(fr.fdes[fde], pc)
    requires !(w.memos[fde].Holds? && w.memos[fde].pc == pc)
    requires FdeTable(fr.code, fr.CieOf(fde), fr.fdes[fde]).Some?
    ensures var rows := Listed(Below(FdeTable(fr.code, fr.CieOf(fde), fr.fdes[fde]).value, EndPc(fr.fdes[fde])), pc);
      Wide(rows, col) && Browse(fr, w, fde, col, pc) == Column(rows, col)
    decreases TWO64 - pc
  {
    hide Ask, Inv, FdeTable, Stop, Listed, Shaped, Browse, Below, Column, Wide;
    var f := fr.fdes[fde];
    var all := FdeTable(fr.code, fr.CieOf(fde), f).value;
    BrowseStep(fr, w, fde, col, pc);
    StopBelow(all, EndPc(f), pc);
    ListedTurn(Below(all, EndPc(f)), pc);
    var s := Stop(all, pc);
    var w' := Ask(fr, w, Op(fde, col, pc)).0;
    if s + 1 < |all| && all[s + 1].loc < EndPc(f) {
      BrowseLists(fr, w', fde, col, all[s + 1].loc);
      ColumnCons(all[s], Listed(Below(all, EndPc(f)), all[s + 1].loc), col);
    } else {
      if s + 1 < |all| && all[s + 1].loc < TWO64 { BrowseOutside(fr, w', fde, col, all[s + 1].loc); }
      assert Listed(Below(all, EndPc(f)), pc) == [all[s]];
      assert Browse(fr, w, fde, col, pc) == [(all[s].loc, all[s].row.regs[col])];
      ColumnNone(all[s], col);
    }
  }

  lemma {:induction false} TableWide(env: Env, st: State, prog: seq<Instr>, col: nat)
    requires env.Valid() && Fits(env, st) && Table(env, st, prog).Some? && col < env.regCount
    ensures Wide(Table(env, st, prog).value, col)
    decreases |prog|
  {
    hide Step;
    if prog != [] { TableWide(env, Step(env, st, prog[0]).value, prog[1..], col); }
  }

  lemma FdeTableWide(fr: Frames, fde: nat, col: nat)
    requires fr.Valid() && fde < |fr.fdes| && col < fr.CieOf(fde).env.regCount
    requires FdeTable(fr.code, fr.CieOf(fde), fr.fdes[fde]).Some?
    ensures Wide(FdeTable(fr.code, fr.CieOf(fde), fr.fdes[fde]).value, col)
  {
    hide CieResult, Program, Table, Instrs, Wide;
    var c, f := fr.CieOf(fde), fr.fdes[fde];
    var row := CieResult(fr.code, c).row;
    var prog := Instrs(Program(fr.code, f.instrStart, f.instrEnd, c.env.addressSize).value);
    TableWide(From(c, row), State(f.initialLoc, row, []), prog, col);
  }

  lemma {:induction false} LastAtEachWide(rows: seq<TableRow>, col: nat)
    requires Wide(rows, col)
    ensures Wide(LastAtEach(rows), col)
  {
    if |rows| > 1 { LastAtEachWide(rows[1..], col); }
  }

  lemma BelowWide(rows: seq<TableRow>, end: nat, col: nat)
    requires Wide(rows, col)
    ensures Wide(Below(rows, end), col)
  {
    hide Below;
  }

  lemma {:induction false} ColumnLength(rows: seq<TableRow>, col: nat)
    requires Wide(rows, col)
    ensures |Column(rows, col)| == |rows|
  {
    if rows != [] { ColumnLength(rows[1..], col); }
  }

  lemma BrowseHit(fr: Frames, w: World, fde: nat, col: nat, pc: nat)
    requires fr.Valid() && Shaped(fr, w) && fde < |fr.fdes| && Inv(fr, w)
    requires col < fr.CieOf(fde).env.regCount && InRange(fr.fdes[fde], pc)
    requires w.memos[fde].Holds? && w.memos[fde].pc == pc
    requires FdeTable(fr.code, fr.CieOf(fde), fr.fdes[fde]).Some?
    ensures var row := var rows := FdeTable(fr.code, fr.CieOf(fde), fr.fdes[fde]).value; rows[Stop(rows, pc)];
      Wide([row], col) && Browse(fr, w, fde, col, pc) == Column([row], col)
  {
    hide Ask, Inv, FdeTable, Stop, Shaped;
    var op := Op(fde, col, pc);
    AnswerIsTableRow(fr, w, op);
    AnswersFreshIff(fr, w, op);
    var rows := FdeTable(fr.code, fr.CieOf(fde), fr.fdes[fde]).value;
    ColumnNone(rows[Stop(rows, pc)], col);
  }

  /** Started at the first location of an FDE, after any lookups before, the loop lists
      that register's rule at every location of the table below the end of the range,
      in order, exactly when the table ascends that far. Only if the last lookup on the
      FDE was that very one it ends after the first row: a hit does not report the
      next one. */
  lemma BrowseAll(fr: Frames, ops: seq<Op>, fde: nat, col: nat)
    requires fr.Valid() && Asks(fr, ops) && fde < |fr.fdes| && col < fr.CieOf(fde).env.regCount
    requires fr.fdes[fde].initialLoc < EndPc(fr.fdes[fde])
    requires FdeTable(fr.code, fr.CieOf(fde), fr.fdes[fde]).Some?
    ensures var f, memo := fr.fdes[fde], After(fr, ops).memos[fde];
      var table := FdeTable(fr.code, fr.CieOf(fde), f).value;
      var rows, listed := Below(table, EndPc(f)), Browse(fr, After(fr, ops), fde, col, f.initialLoc);
      if memo.Holds? && memo.pc == f.initialLoc then
        var row := table[Stop(table, f.initialLoc)];
        Wide([row], col) && listed == Column([row], col)
      else
        && Wide(Listed(rows, f.initialLoc), col) && listed == Column(Listed(rows, f.initialLoc), col)
        && Wide(LastAtEach(rows), col) && (listed == Column(LastAtEach(rows), col) <==> Ascending(rows))
  {
    hide Run, Browse, Inv, FdeTable, LastAtEach, Start, Stop, Wide, Column, Listed, Ascending;
    StartInv(fr);
    RunKeeps(fr, Start(fr), ops);
    var w, f := After(fr, ops), fr.fdes[fde];
    if w.memos[fde].Holds? && w.memos[fde].pc == f.initialLoc {
      BrowseHit(fr, w, fde, col, f.initialLoc);
    } else {
      BrowseLists(fr, w, fde, col, f.initialLoc);
      var table := FdeTable(fr.code, fr.CieOf(fde), f).value;
      var rows := Below(table, EndPc(f));
      FdeTableWide(fr, fde, col);
      BelowWide(table, EndPc(f), col);
      LastAtEachWide(rows, col);
      ListedIsLastIff(rows);
      ColumnLength(Listed(rows, f.initialLoc), col);
      ColumnLength(LastAtEach(rows), col);
    }
  }

  /** What goes wrong otherwise: with a failing CIE and an FDE without instructions
      the same query fails once and then answers with a default rule. */
  lemma BrokenCieAnswersLater(fr: Frames, op: Op)
    requires fr.Valid() && op.fde < |fr.fdes| && op.col < fr.CieOf(op.fde).env.regCount
    requires CieResult(fr.code, fr.CieOf(op.fde)).Broken?
    requires var f := fr.fdes[op.fde]; InRange(f, op.pc) && f.instrStart == f.instrEnd <= f.fdeEnd
    ensures var c, f := fr.CieOf(op.fde), fr.fdes[op.fde];
      && Fresh(fr.code, c, f, op.pc) == Failure
      && Run(fr, Start(fr), [op, op]).1
         == [Failed, Answer(DefaultRule(c.env.initialValue), f.initialLoc, Some((false, 0)))]
  {
    hide CieResult;
    var w := Start(fr);
    var w' := Ask(fr, w, op).0;
    var a' := Ask(fr, w', op).1;
    assert [op, op][1..] == [op] && [op][1..] == [];
    assert Run(fr, w', [op]).1 == [a'] + Run(fr, Ask(fr, w', op).0, []).1;
  }

  /** A CIE whose only instruction has an unknown opcode, and an FDE without any. */
  const BROKEN := Frames([0x3f], [Cie(SMALL, 0, 1, 1)], [Fde(0, 0x1000, 0x10, 1, 1, 1)])

  /** There looking up register 0 at 0x1000 fails, and then answers. */
  lemma BrokenExample()
    ensures BROKEN.Valid()
    ensures Fresh(BROKEN.code, BROKEN.cies[0], BROKEN.fdes[0], 0x1000) == Failure
    ensures var op := Op(0, 0, 0x1000);
      Run(BROKEN, Start(BROKEN), [op, op]).1 == [Failed, Answer(DefaultRule(1035), 0x1000, Some((false, 0)))]
  {
    hide Run, Start, Fresh;
    var c := BROKEN.cies[0];
    assert ShapeOf(Opcode(0x3f), 4) == None;
    assert Decode(BROKEN.code, 0, 1, 4) == Undecodable;
    assert CieResult(BROKEN.code, c) == Broken;
    BrokenCieAnswersLater(BROKEN, Op(0, 0, 0x1000));
  }

  // ------------------------------------------------------ the code itself

  lemma FilledWhole(table: Frame, st: State, before: seq<Rule>)
    requires Filled(table, st, before) && table.regs.Length == |st.row.regs|
    ensures table.AsRow() == st.row && table.loc == st.loc
  {
    var n := table.regs.Length;
    assert st.row.regs[..n] == st.row.regs && before[n..] == [];
  }

  /** _dwarf_exec_frame_instr from a given initial row into a table of full size. */
  method ExecInto(c: Cie, row: Row, code: seq<Byte>, start: nat, final: nat, search: Option<nat>, loc: nat, table: Frame)
    returns (ok: bool, more: bool, subsequent: nat)
    requires c.env.Valid() && !c.env.makeInstr && Whole(c, row) && final <= |code|
    requires table.regs.Length == c.env.regCount
    modifies table, table.regs
    ensures var out := ExecRange(c, row, code, start, final, search, loc);
      && ok == out.Reached?
      && (ok ==> more == out.more && subsequent == out.subsequent && table.loc == out.st.loc && table.AsRow() == out.st.row)
    ensures !ok ==> table.AsRow() == old(table.AsRow())
  {
    hide Exec, Filled;
    if start > final { return false, false, 0; }
    var list;
    ok, more, subsequent, list := ExecFrameInstr(From(c, row), search, loc, code, start, final, table);
    if ok {
      FilledWhole(table, Exec(From(c, row), code, start, final, search, State(loc, row, [])).st, old(table.regs[..]));
    } else {
      assert table.regs[..] == old(table.regs[..]);
    }
  }

  class CieState {
    const cie: Cie
    var initialTable: Frame?

    ghost function Repr(): set<object>
      reads this
    {
      {this} + if initialTable == null then {} else {initialTable, initialTable.regs}
    }

    ghost predicate Valid()
      reads this
    {
      cie.env.Valid() && (initialTable != null ==> initialTable.regs.Length == cie.env.regCount)
    }

    ghost function Initial(): (r: Option<Row>)
      requires Valid()
      reads this, Repr()
      ensures r.Some? ==> Whole(cie, r.value)
    {
      if initialTable == null then None else Some(initialTable.AsRow())
    }

    constructor (cie: Cie)
      requires cie.env.Valid()
      ensures Valid() && this.cie == cie && Initial() == None
    {
      this.cie := cie;
      initialTable := null;
    }

    /** The initial table is allocated, set to the default rules, and then handed to
        the executor as the place to put its result. */
    method BuildInitial(code: seq<Byte>) returns (ok: bool)
      requires CieValid(code, cie) && Valid() && initialTable == null
      modifies this`initialTable
      ensures Valid() && fresh(Repr() - {this}) && ok == CieResult(code, cie).Good?
      ensures Initial() == match CieResult(code, cie)
                           case BadRange => None
                           case Broken => Some(cie.env.DefaultRow())
                           case Good(row) => Some(row)
    {
      hide ExecRange;
      if cie.instrEnd > cie.cieEnd { return false; }
      var table := new Frame(cie.env.regCount, DefaultRule(cie.env.initialValue));
      assert table.AsRow() == cie.env.DefaultRow();
      initialTable := table;
      var more, subsequent;
      var initial := Row(table.regs[..], table.cfa);
      ok, more, subsequent := ExecInto(cie, initial, code, cie.instrStart, cie.instrEnd, None, 0, table);
    }
  }

  class FdeState {
    const fde: Fde
    const cie: CieState
    var table: Frame?
    var haveTab: bool
    var pcRequested: nat

    ghost predicate Valid()
      reads this, cie
    {
      && cie.Valid() && (haveTab ==> table != null)
      && (table != null ==> table.regs.Length == cie.cie.env.regCount)
    }

    ghost function Memo(): (m: Memo)
      requires Valid()
      reads this, cie, if table == null then {} else {table, table.regs}
      ensures m.Holds? ==> Whole(cie.cie, m.row)
    {
      if haveTab then Holds(pcRequested, table.loc, table.AsRow()) else Nothing
    }

    constructor (fde: Fde, cie: CieState)
      requires cie.Valid()
      ensures Valid() && this.fde == fde && this.cie == cie && Memo() == Nothing
    {
      this.fde, this.cie, table, haveTab, pcRequested := fde, cie, null, false, 0;
    }

    method RowAt(code: seq<Byte>, pc: nat, into: Frame) returns (ok: bool, more: bool, subsequent: nat)
      requires CieValid(code, cie.cie) && fde.fdeEnd <= |code| && Valid()
      requires into.regs.Length == cie.cie.env.regCount && into !in cie.Repr() && into.regs !in cie.Repr()
      modifies cie`initialTable, into, into.regs
      ensures cie.Valid() && fresh(cie.Repr() - old(cie.Repr()))
      ensures var r := PcRow(code, cie.cie, fde, old(cie.Initial()), pc);
        && cie.Initial() == r.0 && ok == r.1.Reached?
        && (ok ==> more == r.1.more && subsequent == r.1.subsequent
                   && into.loc == r.1.st.loc && into.AsRow() == r.1.st.row)
    {
      hide ExecRange, CieResult;
      if !(fde.initialLoc <= pc < EndPc(fde)) { return false, false, 0; }
      if cie.initialTable == null {
        var built := cie.BuildInitial(code);
        if !built { return false, false, 0; }
      }
      if fde.instrEnd > fde.fdeEnd { return false, false, 0; }
      var initial := Row(cie.initialTable.regs[..], cie.initialTable.cfa);
      ok, more, subsequent :=
        ExecInto(cie.cie, initial, code, fde.instrStart, fde.instrEnd, Some(pc), fde.initialLoc, into);
    }

    /** A hit on an overlarge column is a read outside the table: the C code does not
        look. */
    method RegisterAt(code: seq<Byte>, col: nat, pc: nat) returns (r: Answer)
      requires CieValid(code, cie.cie) && fde.fdeEnd <= |code| && Valid()
      modifies this, cie`initialTable
      ensures Valid() && fresh(cie.Repr() - old(cie.Repr()))
      ensures Queried(cie.Initial(), Memo(), r)
           == Query(code, cie.cie, fde, old(cie.Initial()), old(Memo()), col, pc)
    {
      hide PcRow;
      var next: Option<(bool, nat)> := None;
      if !haveTab || pcRequested != pc {
        haveTab := false;
        var newTable := new Frame(cie.cie.env.regCount, DefaultRule(cie.cie.env.initialValue));
        table := newTable;
        if col >= cie.cie.env.regCount { return Failed; }
        var ok, more, subsequent := RowAt(code, pc, newTable);
        if !ok { return Failed; }
        next := Some((more, subsequent));
      }
      if col >= table.regs.Length { return OutOfTable; }
      haveTab, pcRequested := true, pc;
      return Answer(table.regs[col], table.loc, next);
    }
  }
}
