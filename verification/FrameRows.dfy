/** The row table an instruction stream denotes (section 6.4.1 of DWARF 5), and
    what searching it by pc, stepping through it and bracketing parts of it with
    DW_CFA_remember_state and DW_CFA_restore_state mean. */
module FrameRows {
  import opened Common
  import opened FrameVm
  import opened Words
  import Leb

  /** A finished row: in force from loc up to the location of the next row. */
  datatype TableRow = TableRow(loc: nat, row: Row)

  function RowOf(st: State): TableRow { TableRow(st.loc, st.row) }

  /** The full table: every move of the location ends a row and begins another. */
  function Table(env: Env, st: State, prog: seq<Instr>): (r: Option<seq<TableRow>>)
    requires env.Valid() && Fits(env, st)
    ensures r.Some? ==> r.value != [] && r.value[0].loc == st.loc
    decreases |prog|
  {
    if prog == [] then Some([RowOf(st)])
    else match Step(env, st, prog[0])
      case None => None
      case Some(st') =>
        match Table(env, st', prog[1..])
        case None => None
        case Some(rows) => if IsMove(prog[0]) then Some([RowOf(st)] + rows) else Some(rows)
  }

  lemma {:induction false} TableIffRuns(env: Env, st: State, prog: seq<Instr>)
    requires env.Valid() && Fits(env, st)
    ensures Table(env, st, prog).Some? <==> RunProg(env, st, prog).Some?
    ensures Table(env, st, prog).Some? ==>
      var rows := Table(env, st, prog).value; rows[|rows| - 1] == RowOf(RunProg(env, st, prog).value)
    decreases |prog|
  {
    hide Step;
    if prog != [] {
      var st' := Step(env, st, prog[0]);
      if st'.Some? { TableIffRuns(env, st'.value, prog[1..]); }
    }
  }

  /** The index of the row in force at pc when rows are tried in order and the
      first one beyond pc ends the search. */
  function Stop(rows: seq<TableRow>, pc: nat): (k: nat)
    requires rows != [] && rows[0].loc <= pc
    ensures k < |rows| && forall i :: 0 <= i <= k ==> rows[i].loc <= pc
    ensures k + 1 < |rows| ==> pc < rows[k + 1].loc
  {
    if |rows| > 1 && rows[1].loc <= pc then 1 + Stop(rows[1..], pc) else 0
  }

  lemma StaysUnlessMove(env: Env, st: State, i: Instr)
    requires env.Valid() && Fits(env, st) && !IsMove(i)
    ensures Step(env, st, i).Some? ==> Step(env, st, i).value.loc == st.loc
  {}

  /** Searching refines the table: when the whole stream runs without error, an
      execution with a search pc at or beyond the initial location delivers the
      row at Stop, says whether another row follows, and where that one begins. */
  lemma {:induction false} SearchFinds(env: Env, code: seq<Byte>, p: nat, final: nat, st: State, pc: nat)
    requires env.Valid() && Fits(env, st) && p <= final <= |code| && st.loc <= pc
    requires Program(code, p, final, env.addressSize).Some?
    requires Table(env, st, Instrs(Program(code, p, final, env.addressSize).value)).Some?
    ensures var rows := Table(env, st, Instrs(Program(code, p, final, env.addressSize).value)).value;
      var k := Stop(rows, pc);
      var out := Exec(env, code, p, final, Some(pc), st);
      && out.Reached? && RowOf(out.st) == rows[k]
      && out.more == (k + 1 < |rows|)
      && out.subsequent == (if out.more then rows[k + 1].loc else 0)
    decreases final - p
  {
    hide Decode, Step, Instrs, Table, Program, Exec;
    if p < final {
      var d := Decode(code, p, final, env.addressSize);
      ExecCons(env, code, p, final, Some(pc), st);
      ProgramCons(code, p, final, env.addressSize);
      var prog := Instrs(Program(code, p, final, env.addressSize).value);
      TableCons(env, st, prog);
      var st' := Step(env, st, d.instr).value;
      var rows := Table(env, st', prog[1..]).value;
      if IsMove(d.instr) {
        StopCons(RowOf(st), rows, pc);
        if st'.loc <= pc { SearchFinds(env, code, d.next, final, st', pc); }
      } else {
        StaysUnlessMove(env, st, d.instr);
        SearchFinds(env, code, d.next, final, st', pc);
      }
    } else {
      ProgramEnd(env, code, p, st);
    }
  }

  lemma ProgramCons(code: seq<Byte>, p: nat, final: nat, addressSize: nat)
    requires p < final <= |code| && Program(code, p, final, addressSize).Some?
    ensures var d := Decode(code, p, final, addressSize);
      && d.Instruction? && Program(code, d.next, final, addressSize).Some?
      && var prog := Instrs(Program(code, p, final, addressSize).value);
         prog != [] && prog[0] == d.instr
         && prog[1..] == Instrs(Program(code, d.next, final, addressSize).value)
  {
    hide Decode;
  }

  lemma ProgramEnd(env: Env, code: seq<Byte>, p: nat, st: State)
    requires env.Valid() && Fits(env, st) && p <= |code|
    ensures Program(code, p, p, env.addressSize) == Some([])
    ensures Table(env, st, Instrs([])) == Some([RowOf(st)])
    ensures forall search :: Exec(env, code, p, p, search, st) == Reached(st, false, 0)
  {}

  lemma TableCons(env: Env, st: State, prog: seq<Instr>)
    requires env.Valid() && Fits(env, st) && prog != [] && Table(env, st, prog).Some?
    ensures var st' := Step(env, st, prog[0]);
      && st'.Some? && Table(env, st'.value, prog[1..]).Some?
      && var rows := Table(env, st'.value, prog[1..]).value;
         Table(env, st, prog).value == if IsMove(prog[0]) then [RowOf(st)] + rows else rows
  {
    hide Step;
  }

  lemma StopCons(first: TableRow, rows: seq<TableRow>, pc: nat)
    requires rows != [] && first.loc <= pc
    ensures Stop([first] + rows, pc) == if rows[0].loc <= pc then 1 + Stop(rows, pc) else 0
  {
    assert ([first] + rows)[1..] == rows;
  }

  // ------------------------------------------------------ ascending tables

  predicate Ascending(rows: seq<TableRow>) {
    forall i, j :: 0 <= i < j < |rows| ==> rows[i].loc <= rows[j].loc
  }

  /** What keeps locations ascending, instruction by instruction: no advance takes
      the location around 64 bits, and no DW_CFA_set_loc goes back to address 0,
      for which the test for going backwards is switched off. */
  predicate NeverWraps(env: Env, st: State, prog: seq<Instr>)
    requires env.Valid() && Fits(env, st)
    decreases |prog|
  {
    prog == [] ||
    ( && (prog[0].Advance? ==> st.loc + Wrap64(prog[0].delta * env.CodeFactor()) < TWO64)
      && (prog[0].SetLoc? ==> prog[0].addr != 0 || st.loc == 0)
      && match Step(env, st, prog[0])
         case None => true
         case Some(st') => NeverWraps(env, st', prog[1..]))
  }

  lemma MovesForwardIff(env: Env, st: State, i: Instr)
    requires env.Valid() && Fits(env, st) && Step(env, st, i).Some?
    requires st.loc < TWO64 && (i.SetLoc? ==> i.addr < TWO64)
    ensures Step(env, st, i).value.loc < TWO64
    ensures st.loc <= Step(env, st, i).value.loc <==>
      (i.Advance? ==> st.loc + Wrap64(i.delta * env.CodeFactor()) < TWO64) && (i.SetLoc? ==> i.addr != 0 || st.loc == 0)
  {
    if i.Advance? { SumWraps(st.loc, Wrap64(i.delta * env.CodeFactor())); }
  }

  lemma SumWraps(a: nat, b: nat)
    requires a < TWO64 && b < TWO64
    ensures a <= Wrap64(a + b) <==> a + b < TWO64
  {
    assert a + b >= TWO64 ==> Wrap64(a + b) == a + b - TWO64;
  }

  lemma AscendingCons(first: TableRow, rows: seq<TableRow>)
    requires rows != []
    ensures Ascending([first] + rows) <==> first.loc <= rows[0].loc && Ascending(rows)
  {
    var all := [first] + rows;
    if Ascending(all) {
      assert all[0] == first && all[1] == rows[0];
      forall i, j | 0 <= i < j < |rows| ensures rows[i].loc <= rows[j].loc {
        assert rows[i] == all[i + 1] && rows[j] == all[j + 1];
      }
    }
    if first.loc <= rows[0].loc && Ascending(rows) {
      forall i, j | 0 <= i < j < |all| ensures all[i].loc <= all[j].loc {
        assert all[j] == rows[j - 1] && (i > 0 ==> all[i] == rows[i - 1]);
        assert j == 1 || rows[0].loc <= rows[j - 1].loc;
      }
    }
  }

  /** The table of a program is in ascending order exactly when no move wraps around
      or goes back to 0. */
  lemma {:induction false} TableAscendsIff(env: Env, st: State, prog: seq<Instr>)
    requires env.Valid() && Fits(env, st)
    requires Table(env, st, prog).Some? && st.loc < TWO64 && AddressesFit(prog)
    ensures Ascending(Table(env, st, prog).value) <==> NeverWraps(env, st, prog)
    decreases |prog|
  {
    hide Step, Ascending;
    if prog != [] {
      var st' := Step(env, st, prog[0]).value;
      MovesForwardIff(env, st, prog[0]);
      TableAscendsIff(env, st', prog[1..]);
      AscendingCons(RowOf(st), Table(env, st', prog[1..]).value);
      if !IsMove(prog[0]) { StaysUnlessMove(env, st, prog[0]); }
    } else {
      OneRow(st);
    }
  }

  /** One register, addresses of four bytes, factors 1. */
  const SMALL := Env(1, 1035, 1034, 1035, 1436, 4, false, true, 1, 1, None)

  /** DW_CFA_advance_loc 1, DW_CFA_set_loc 0. */
  const GOING_BACK: seq<Byte> := [0x41, 0x01, 0, 0, 0, 0]

  /** From location 16 it runs, and its rows begin at 16, 17 and 0. The row in force
      at 16 is then the first one, not the last one at or below 16. */
  lemma RowsCanGoBack()
    ensures SMALL.Valid()
    ensures var st := State(16, SMALL.DefaultRow(), []);
      var prog := [Advance(1), SetLoc(0)];
      && Program(GOING_BACK, 0, 6, 4).Some? && Instrs(Program(GOING_BACK, 0, 6, 4).value) == prog
      && Table(SMALL, st, prog).Some? && !NeverWraps(SMALL, st, prog)
      && var rows := Table(SMALL, st, prog).value;
         |rows| == 3 && rows[0].loc == 16 && rows[1].loc == 17 && rows[2].loc == 0
         && !Ascending(rows) && Stop(rows, 16) == 0 && !FoundLast(rows, 16)
  {
    hide Decode, Step;
    var st := State(16, SMALL.DefaultRow(), []);
    var prog := [Advance(1), SetLoc(0)];
    GoingBackDecodes();
    assert Program(GOING_BACK, 6, 6, 4) == Some([]);
    assert Program(GOING_BACK, 1, 6, 4) == Some([Placed(1, 6, SetLoc(0))] + []);
    assert Program(GOING_BACK, 0, 6, 4) == Some([Placed(0, 1, Advance(1))] + ([Placed(1, 6, SetLoc(0))] + []));
    assert Instrs(Program(GOING_BACK, 0, 6, 4).value) == prog;
    var st1, st2 := st.(loc := 17), st.(loc := 0);
    assert Step(SMALL, st, Advance(1)) == Some(st1) && Step(SMALL, st1, SetLoc(0)) == Some(st2) by { GoingBackSteps(st); }
    assert prog[1..] == [SetLoc(0)] && prog[1..][1..] == [];
    assert Table(SMALL, st2, []) == Some([RowOf(st2)]);
    assert Table(SMALL, st1, prog[1..]) == Some([RowOf(st1)] + [RowOf(st2)]);
    assert Table(SMALL, st, prog) == Some([RowOf(st)] + ([RowOf(st1)] + [RowOf(st2)]));
    assert !NeverWraps(SMALL, st1, prog[1..]);
  }

  lemma GoingBackDecodes()
    ensures Decode(GOING_BACK, 0, 6, 4) == Instruction(0x40, NOTHING, Advance(1), 1)
    ensures Decode(GOING_BACK, 1, 6, 4) == Instruction(0x01, NOTHING, SetLoc(0), 6)
  {
    assert GOING_BACK[2..6] == EncFixed(0, 4);
    FixedRoundTrip(0, 4);
  }

  lemma GoingBackSteps(st: State)
    requires Fits(SMALL, st) && st.loc == 16
    ensures Step(SMALL, st, Advance(1)) == Some(st.(loc := 17))
    ensures Step(SMALL, st.(loc := 17), SetLoc(0)) == Some(st.(loc := 0))
  {}

  lemma OneRow(st: State)
    ensures Ascending([RowOf(st)])
  {}

  // ------------------------------------------------ what a search delivers

  /** Is the row found at pc the last one at or below pc? */
  predicate FoundLast(rows: seq<TableRow>, pc: nat)
    requires rows != [] && rows[0].loc <= pc
  {
    forall i :: Stop(rows, pc) < i < |rows| ==> pc < rows[i].loc
  }

  /** Is the next location reported at pc the least one beyond pc? */
  predicate NextLeast(rows: seq<TableRow>, pc: nat)
    requires rows != [] && rows[0].loc <= pc
  {
    Stop(rows, pc) + 1 < |rows| ==>
      forall i :: 0 <= i < |rows| && pc < rows[i].loc ==> rows[Stop(rows, pc) + 1].loc <= rows[i].loc
  }

  /** Beyond lo the table never goes back; what happens at or below lo is free. */
  predicate AscendingFrom(rows: seq<TableRow>, lo: nat) {
    forall i, j :: 0 <= i < j < |rows| ==> rows[i].loc <= lo || rows[i].loc <= rows[j].loc
  }

  /** Searches are for pcs from the first location on. They all find the last row at or
      below their pc exactly when the table never goes back from beyond that
      location. */
  lemma FoundLastIff(rows: seq<TableRow>)
    requires rows != []
    ensures (forall pc: nat :: rows[0].loc <= pc ==> FoundLast(rows, pc)) <==> AscendingFrom(rows, rows[0].loc)
  {
    hide Stop;
    var lo := rows[0].loc;
    if AscendingFrom(rows, lo) {
      forall pc: nat | lo <= pc ensures FoundLast(rows, pc) {
        var s := Stop(rows, pc);
        if s + 1 < |rows| { assert pc < rows[s + 1].loc; }
      }
    }
    if forall pc: nat :: lo <= pc ==> FoundLast(rows, pc) {
      forall i, j | 0 <= i < j < |rows| ensures rows[i].loc <= lo || rows[i].loc <= rows[j].loc {
        var pc := if lo < rows[j].loc then rows[j].loc else lo;
        assert FoundLast(rows, pc);
      }
    }
  }

  /** Does no row before i lie beyond it? */
  predicate Record(rows: seq<TableRow>, i: nat)
    requires i < |rows|
  {
    forall h :: 0 <= h < i ==> rows[h].loc <= rows[i].loc
  }

  predicate MetFromBelow(rows: seq<TableRow>, j: nat)
    requires j < |rows|
  {
    exists i :: 0 <= i <= j && rows[i].loc == rows[j].loc && Record(rows, i)
  }

  predicate AllMet(rows: seq<TableRow>)
    requires rows != []
  {
    forall j :: 0 <= j < |rows| && rows[0].loc < rows[j].loc ==> MetFromBelow(rows, j)
  }

  ghost predicate AllLeast(rows: seq<TableRow>)
    requires rows != []
  {
    forall pc: nat :: rows[0].loc <= pc ==> NextLeast(rows, pc)
  }

  lemma MetIsLeast(rows: seq<TableRow>, pc: nat, j: nat)
    requires rows != [] && rows[0].loc <= pc && Stop(rows, pc) + 1 < |rows|
    requires j < |rows| && pc < rows[j].loc && MetFromBelow(rows, j)
    ensures rows[Stop(rows, pc) + 1].loc <= rows[j].loc
  {
    hide Stop;
    var s := Stop(rows, pc);
    var i :| 0 <= i <= j && rows[i].loc == rows[j].loc && Record(rows, i);
    assert s < i;
    assert s + 1 == i || rows[s + 1].loc <= rows[i].loc;
  }

  lemma LeastIsMet(rows: seq<TableRow>, j: nat)
    requires j < |rows| && rows[0].loc < rows[j].loc && NextLeast(rows, rows[j].loc - 1)
    ensures MetFromBelow(rows, j)
  {
    hide Stop;
    var i := Stop(rows, rows[j].loc - 1) + 1;
    assert i <= j && rows[i].loc == rows[j].loc;
    assert Record(rows, i);
  }

  /** The next location is the least one beyond pc, for every pc, exactly when every
      location beyond the first one is met for the first time from below. */
  lemma NextLeastIff(rows: seq<TableRow>)
    requires rows != []
    ensures AllLeast(rows) <==> AllMet(rows)
  {
    hide Stop, MetFromBelow;
    if AllMet(rows) {
      forall pc: nat | rows[0].loc <= pc ensures NextLeast(rows, pc) {
        forall j: nat | Stop(rows, pc) + 1 < |rows| && j < |rows| && pc < rows[j].loc
          ensures rows[Stop(rows, pc) + 1].loc <= rows[j].loc
        {
          MetIsLeast(rows, pc, j);
        }
      }
    }
    if AllLeast(rows) {
      forall j: nat | j < |rows| && rows[0].loc < rows[j].loc ensures MetFromBelow(rows, j) {
        assert NextLeast(rows, rows[j].loc - 1);
        LeastIsMet(rows, j);
      }
    }
  }

  /** A following row is reported iff some row lies beyond pc, on every table. On one
      that never goes back from beyond its first location, the rows up to the one
      found are those at or below pc, and the next location is the least beyond. */
  lemma StopIsLast(rows: seq<TableRow>, pc: nat)
    requires rows != [] && rows[0].loc <= pc
    ensures Stop(rows, pc) + 1 < |rows| <==> exists i :: 0 <= i < |rows| && pc < rows[i].loc
    ensures AscendingFrom(rows, rows[0].loc) ==>
      (forall i :: 0 <= i < |rows| ==> (rows[i].loc <= pc <==> i <= Stop(rows, pc))) && NextLeast(rows, pc)
  {
    hide Stop;
    var k := Stop(rows, pc);
    if k + 1 < |rows| { assert pc < rows[k + 1].loc; }
  }

  /** NeverWraps with every move from lo or below excused. */
  predicate NeverBack(env: Env, st: State, prog: seq<Instr>, lo: nat)
    requires env.Valid() && Fits(env, st)
    decreases |prog|
  {
    prog == [] ||
    ( && (prog[0].Advance? ==> st.loc <= lo || st.loc + Wrap64(prog[0].delta * env.CodeFactor()) < TWO64)
      && (prog[0].SetLoc? ==> st.loc <= lo || prog[0].addr != 0 || st.loc == 0)
      && match Step(env, st, prog[0])
         case None => true
         case Some(st') => NeverBack(env, st', prog[1..], lo))
  }

  lemma AscendingFromCons(first: TableRow, rows: seq<TableRow>, lo: nat)
    requires rows != []
    ensures AscendingFrom([first] + rows, lo) <==>
      (first.loc <= lo || first.loc <= rows[0].loc) && AscendingFrom(rows, lo)
  {
    var all := [first] + rows;
    if AscendingFrom(all, lo) {
      assert all[0] == first && all[1] == rows[0];
      forall i, j | 0 <= i < j < |rows| ensures rows[i].loc <= lo || rows[i].loc <= rows[j].loc {
        assert rows[i] == all[i + 1] && rows[j] == all[j + 1];
      }
    }
    if (first.loc <= lo || first.loc <= rows[0].loc) && AscendingFrom(rows, lo) {
      forall i, j | 0 <= i < j < |all| ensures all[i].loc <= lo || all[i].loc <= all[j].loc {
        assert all[j] == rows[j - 1] && (i > 0 ==> all[i] == rows[i - 1]);
        assert j == 1 || rows[0].loc <= lo || rows[0].loc <= rows[j - 1].loc;
      }
    }
  }

  lemma {:induction false} TableAscendsFromIff(env: Env, st: State, prog: seq<Instr>, lo: nat)
    requires env.Valid() && Fits(env, st)
    requires Table(env, st, prog).Some? && st.loc < TWO64 && AddressesFit(prog)
    ensures AscendingFrom(Table(env, st, prog).value, lo) <==> NeverBack(env, st, prog, lo)
    decreases |prog|
  {
    hide Step, AscendingFrom;
    if prog != [] {
      var st' := Step(env, st, prog[0]).value;
      MovesForwardIff(env, st, prog[0]);
      TableAscendsFromIff(env, st', prog[1..], lo);
      AscendingFromCons(RowOf(st), Table(env, st', prog[1..]).value, lo);
      if !IsMove(prog[0]) { StaysUnlessMove(env, st, prog[0]); }
    } else {
      OneRowFrom(st, lo);
    }
  }

  lemma OneRowFrom(st: State, lo: nat)
    ensures AscendingFrom([RowOf(st)], lo)
  {}

  /** For a program: every search from its initial location on finds the last row at
      or below its pc exactly when no move from beyond that location wraps around
      or goes back to 0. */
  lemma SearchIsLastIff(env: Env, st: State, prog: seq<Instr>)
    requires env.Valid() && Fits(env, st)
    requires Table(env, st, prog).Some? && st.loc < TWO64 && AddressesFit(prog)
    ensures (forall pc: nat :: st.loc <= pc ==> FoundLast(Table(env, st, prog).value, pc)) <==>
      NeverBack(env, st, prog, st.loc)
  {
    hide Table, FoundLast, NeverBack;
    FoundLastIff(Table(env, st, prog).value);
    TableAscendsFromIff(env, st, prog, st.loc);
  }

  lemma StopUnique(rows: seq<TableRow>, pc: nat, k: nat)
    requires rows != [] && rows[0].loc <= pc && k < |rows|
    requires (forall i :: 0 <= i <= k ==> rows[i].loc <= pc) && (k + 1 < |rows| ==> pc < rows[k + 1].loc)
    ensures Stop(rows, pc) == k
  {
    hide Stop;
    var s := Stop(rows, pc);
  }

  /** Every pc up to the next location gives the same row, and none beyond, on every
      table. */
  lemma SameRowUpToNext(rows: seq<TableRow>, pc: nat, pc': nat)
    requires rows != [] && rows[0].loc <= pc <= pc'
    ensures Stop(rows, pc) == Stop(rows, pc')
      <==> (Stop(rows, pc) + 1 == |rows| || pc' < rows[Stop(rows, pc) + 1].loc)
  {
    hide Stop;
    var s := Stop(rows, pc);
    if s + 1 == |rows| || pc' < rows[s + 1].loc { StopUnique(rows, pc', s); }
  }

  // ------------------------------------------------------- stepping by row

  /** A client's loop: look up a pc, continue at the reported next location. */
  function StepThrough(env: Env, code: seq<Byte>, p: nat, final: nat, st: State, pc: nat): seq<TableRow>
    requires env.Valid() && Fits(env, st) && p <= final <= |code|
    decreases TWO64 - pc
  {
    var out := Exec(env, code, p, final, Some(pc), st);
    if out.Failure? then []
    else if out.more && out.subsequent < TWO64 then
      [RowOf(out.st)] + StepThrough(env, code, p, final, st, out.subsequent)
    else [RowOf(out.st)]
  }

  /** What such a loop comes by when no row so far lies beyond top: each row whose
      successor lies beyond everything so far, and the last one. */
  function Listed(rows: seq<TableRow>, top: nat): seq<TableRow> {
    if |rows| <= 1 then rows
    else if top < rows[1].loc then [rows[0]] + Listed(rows[1..], rows[1].loc)
    else Listed(rows[1..], top)
  }

  lemma {:induction false} ListedFrom(rows: seq<TableRow>, top: nat, k: nat)
    requires k < |rows| && forall i :: 0 <= i <= k ==> rows[i].loc <= top
    ensures Listed(rows, top) == Listed(rows[k..], top)
  {
    if k > 0 {
      assert rows[1].loc <= top;
      ListedFrom(rows[1..], top, k - 1);
      assert rows[1..][k - 1..] == rows[k..];
    }
  }

  /** One turn of the loop, on every table. */
  lemma ListedTurn(rows: seq<TableRow>, pc: nat)
    requires rows != [] && rows[0].loc <= pc
    ensures var s := Stop(rows, pc);
      Listed(rows, pc) == [rows[s]] + if s + 1 < |rows| then Listed(rows, rows[s + 1].loc) else []
  {
    hide Stop;
    var s := Stop(rows, pc);
    ListedFrom(rows, pc, s);
    if s + 1 < |rows| {
      assert rows[s..][1..] == rows[s + 1..];
      ListedFrom(rows, rows[s + 1].loc, s + 1);
    } else {
      assert rows[s..] == [rows[s]];
    }
  }

  /** The rows up to the first one at or beyond end. */
  function Below(rows: seq<TableRow>, end: nat): (r: seq<TableRow>)
    ensures |r| <= |rows| && r == rows[..|r|]
    ensures forall i :: 0 <= i < |r| ==> r[i].loc < end
    ensures |r| < |rows| ==> end <= rows[|r|].loc
  {
    if rows == [] || rows[0].loc >= end then [] else [rows[0]] + Below(rows[1..], end)
  }

  /** Below end nothing changes for the search. */
  lemma StopBelow(rows: seq<TableRow>, end: nat, pc: nat)
    requires rows != [] && rows[0].loc <= pc < end
    ensures var below, s := Below(rows, end), Stop(rows, pc);
      && s < |below| && Stop(below, pc) == s
      && (s + 1 < |below| <==> s + 1 < |rows| && rows[s + 1].loc < end)
  {
    hide Stop, Below;
    StopUnique(Below(rows, end), pc, Stop(rows, pc));
  }

  /** The loop ends, and lists exactly those rows, on every table and from every pc. */
  lemma {:induction false} StepThroughLists(env: Env, code: seq<Byte>, p: nat, final: nat, st: State, pc: nat)
    requires env.Valid() && Fits(env, st) && p <= final <= |code| && st.loc <= pc < TWO64
    requires Program(code, p, final, env.addressSize).Some?
    requires Table(env, st, Instrs(Program(code, p, final, env.addressSize).value)).Some?
    ensures var rows := Table(env, st, Instrs(Program(code, p, final, env.addressSize).value)).value;
      StepThrough(env, code, p, final, st, pc) == Listed(Below(rows, TWO64), pc)
    decreases TWO64 - pc
  {
    hide Exec, Table, Program, Stop, Listed, Below;
    var rows := Table(env, st, Instrs(Program(code, p, final, env.addressSize).value)).value;
    SearchFinds(env, code, p, final, st, pc);
    StopBelow(rows, TWO64, pc);
    ListedTurn(Below(rows, TWO64), pc);
    var s := Stop(rows, pc);
    if s + 1 < |rows| && rows[s + 1].loc < TWO64 { StepThroughLists(env, code, p, final, st, rows[s + 1].loc); }
  }

  /** The last row at each location, in order. */
  function LastAtEach(rows: seq<TableRow>): seq<TableRow> {
    if |rows| <= 1 then rows
    else if rows[0].loc == rows[1].loc then LastAtEach(rows[1..])
    else [rows[0]] + LastAtEach(rows[1..])
  }

  predicate AllU64(rows: seq<TableRow>) { forall i :: 0 <= i < |rows| ==> rows[i].loc < TWO64 }

  function Falls(rows: seq<TableRow>): nat {
    if |rows| <= 1 then 0 else (if rows[1].loc < rows[0].loc then 1 else 0) + Falls(rows[1..])
  }

  lemma {:induction false} NoFalls(rows: seq<TableRow>)
    ensures Falls(rows) == 0 <==> Ascending(rows)
  {
    hide Ascending;
    if |rows| > 1 {
      NoFalls(rows[1..]);
      AscendingCons(rows[0], rows[1..]);
      assert [rows[0]] + rows[1..] == rows;
    } else {
      assert Ascending(rows) by { AtMostOneAscends(rows); }
    }
  }

  lemma AtMostOneAscends(rows: seq<TableRow>)
    requires |rows| <= 1
    ensures Ascending(rows)
  {}

  /** At most one row is listed for each change of location that is not a fall. */
  lemma {:induction false} ListedCount(rows: seq<TableRow>, top: nat)
    requires rows != [] && rows[0].loc <= top
    ensures |Listed(rows, top)| + Falls(rows) <= |LastAtEach(rows)|
  {
    if |rows| > 1 {
      if top < rows[1].loc { ListedCount(rows[1..], rows[1].loc); }
      else { ListedCount(rows[1..], top); }
    }
  }

  lemma {:induction false} ListedAscending(rows: seq<TableRow>)
    requires rows != [] && Ascending(rows)
    ensures Listed(rows, rows[0].loc) == LastAtEach(rows)
  {
    if |rows| > 1 { ListedAscending(rows[1..]); }
  }

  /** From its first row on, the last row at each location is listed exactly when the
      table ascends; otherwise some are missing. */
  lemma ListedIsLastIff(rows: seq<TableRow>)
    requires rows != []
    ensures Listed(rows, rows[0].loc) == LastAtEach(rows) <==> Ascending(rows)
    ensures |Listed(rows, rows[0].loc)| == |LastAtEach(rows)| <==> Ascending(rows)
  {
    hide Listed, LastAtEach, Ascending, Falls;
    ListedCount(rows, rows[0].loc);
    NoFalls(rows);
    if Ascending(rows) { ListedAscending(rows); }
  }

  /** From the initial location on, stepping lists the row of every location, in order,
      exactly when no move wraps around or goes back to 0. */
  lemma StepThroughAll(env: Env, code: seq<Byte>, p: nat, final: nat, st: State)
    requires env.Valid() && Fits(env, st) && p <= final <= |code| && st.loc < TWO64
    requires Program(code, p, final, env.addressSize).Some?
    requires Table(env, st, Instrs(Program(code, p, final, env.addressSize).value)).Some?
    ensures var prog := Instrs(Program(code, p, final, env.addressSize).value);
      StepThrough(env, code, p, final, st, st.loc) == LastAtEach(Table(env, st, prog).value) <==> NeverWraps(env, st, prog)
  {
    hide Table, Listed, LastAtEach, Ascending, NeverWraps, StepThrough, Program, Below, AllU64;
    var prog := Instrs(Program(code, p, final, env.addressSize).value);
    var rows := Table(env, st, prog).value;
    ProgramAddresses(code, p, final, env.addressSize);
    TableAscendsIff(env, st, prog);
    TableFits(env, st, prog);
    StepThroughLists(env, code, p, final, st, st.loc);
    BelowAll(rows);
    ListedIsLastIff(rows);
  }

  lemma BelowAll(rows: seq<TableRow>)
    requires AllU64(rows)
    ensures Below(rows, TWO64) == rows
  {
    hide Below;
    assert |Below(rows, TWO64)| == |rows|;
  }

  predicate AddressesFit(prog: seq<Instr>) { forall i :: 0 <= i < |prog| && prog[i].SetLoc? ==> prog[i].addr < TWO64 }

  /** An address operand has at most eight bytes. */
  lemma {:induction false} ProgramAddresses(code: seq<Byte>, p: nat, final: nat, addressSize: nat)
    requires p <= final <= |code| && addressSize <= 8 && Program(code, p, final, addressSize).Some?
    ensures AddressesFit(Instrs(Program(code, p, final, addressSize).value))
    decreases final - p
  {
    hide Decode;
    if p < final {
      ProgramCons(code, p, final, addressSize);
      AddressOperand(code, p, final, addressSize);
      ProgramAddresses(code, Decode(code, p, final, addressSize).next, final, addressSize);
    }
  }

  lemma AddressOperand(code: seq<Byte>, p: nat, final: nat, addressSize: nat)
    requires p < final <= |code| && addressSize <= 8
    ensures var d := Decode(code, p, final, addressSize);
      d.Instruction? && d.instr.SetLoc? ==> d.instr.addr < TWO64
  {
    hide Leb.ReadU, Leb.ReadS, FixedValue;
    if p + 1 + addressSize <= final { FixedValueFits(code[p + 1..p + 1 + addressSize]); }
  }

  lemma {:induction false} TableFits(env: Env, st: State, prog: seq<Instr>)
    requires env.Valid() && Fits(env, st) && st.loc < TWO64 && AddressesFit(prog)
    requires Table(env, st, prog).Some?
    ensures AllU64(Table(env, st, prog).value)
    decreases |prog|
  {
    if prog != [] {
      var st' := Step(env, st, prog[0]).value;
      if !IsMove(prog[0]) { StaysUnlessMove(env, st, prog[0]); }
      TableFits(env, st', prog[1..]);
    }
  }

  // ------------------------------------------------ remember and restore

  function Remembers(prog: seq<Instr>): nat {
    if prog == [] then 0 else (if prog[0].RememberState? then 1 else 0) + Remembers(prog[1..])
  }

  function Restores(prog: seq<Instr>): nat {
    if prog == [] then 0 else (if prog[0].RestoreState? then 1 else 0) + Restores(prog[1..])
  }

  /** The depth of the stack is what was remembered minus what was restored. */
  lemma {:induction false} StackDepth(env: Env, st: State, prog: seq<Instr>)
    requires env.Valid() && Fits(env, st) && RunProg(env, st, prog).Some?
    ensures |RunProg(env, st, prog).value.stack| == |st.stack| + Remembers(prog) - Restores(prog)
    decreases |prog|
  {
    if prog != [] { StackDepth(env, Step(env, st, prog[0]).value, prog[1..]); }
  }

  /** Starting d rows above its own base, the program never goes below the base. */
  predicate KeepsBase(prog: seq<Instr>, d: nat)
    decreases |prog|
  {
    prog == [] ||
    if prog[0].RememberState? then KeepsBase(prog[1..], d + 1)
    else if prog[0].RestoreState? then d > 0 && KeepsBase(prog[1..], d - 1)
    else KeepsBase(prog[1..], d)
  }

  /** Such a program leaves the rows below its base alone. */
  lemma {:induction false} BaseUntouched(env: Env, st: State, base: seq<Row>, own: seq<Row>, prog: seq<Instr>)
    requires env.Valid() && Fits(env, st) && st.stack == own + base && KeepsBase(prog, |own|)
    requires RunProg(env, st, prog).Some?
    ensures var f := RunProg(env, st, prog).value;
      |f.stack| >= |base| && f.stack[|f.stack| - |base|..] == base
    decreases |prog|
  {
    if prog != [] {
      var i := prog[0];
      var st' := Step(env, st, i).value;
      if i.RememberState? {
        assert st'.stack == ([st.row] + own) + base;
        BaseUntouched(env, st', base, [st.row] + own, prog[1..]);
      } else if i.RestoreState? {
        assert st'.stack == own[1..] + base;
        BaseUntouched(env, st', base, own[1..], prog[1..]);
      } else {
        BaseUntouched(env, st', base, own, prog[1..]);
      }
    } else {
      assert (own + base)[|own|..] == base;
    }
  }

  lemma {:induction false} RunAppend(env: Env, st: State, a: seq<Instr>, b: seq<Instr>)
    requires env.Valid() && Fits(env, st)
    ensures RunProg(env, st, a + b)
      == match RunProg(env, st, a) case None => None case Some(m) => RunProg(env, m, b)
    decreases |a|
  {
    hide Step;
    if a == [] {
      assert a + b == b;
    } else {
      assert (a + b)[0] == a[0] && (a + b)[1..] == a[1..] + b;
      var m := Step(env, st, a[0]);
      if m.Some? { RunAppend(env, m.value, a[1..], b); }
    }
  }

  /** Remembering, running a block that never restores more than it remembered and
      ends even, and restoring gives back all register rules, the CFA rule and the
      stack. Only the location advances, as the block advances it. */
  lemma Bracket(env: Env, st: State, block: seq<Instr>)
    requires env.Valid() && Fits(env, st)
    requires KeepsBase(block, 0) && Remembers(block) == Restores(block)
    ensures RunProg(env, st, [RememberState] + block + [RestoreState])
      == match RunProg(env, st.(stack := [st.row] + st.stack), block)
         case None => None
         case Some(m) => Some(State(m.loc, st.row, st.stack))
  {
    hide KeepsBase, Remembers, Restores, Step, RunProg;
    var inner := st.(stack := [st.row] + st.stack);
    assert [RememberState] + block + [RestoreState] == [RememberState] + (block + [RestoreState]);
    RunAppend(env, st, [RememberState], block + [RestoreState]);
    RunOne(env, st, RememberState);
    RunAppend(env, inner, block, [RestoreState]);
    StepRemembers(env, st);
    var m := RunProg(env, inner, block);
    if m.Some? {
      assert inner.stack == [] + inner.stack;
      BaseUntouched(env, inner, inner.stack, [], block);
      StackDepth(env, inner, block);
      assert m.value.stack == inner.stack && inner.stack[1..] == st.stack;
      RunOne(env, m.value, RestoreState);
      StepRestores(env, m.value);
    }
  }

  lemma RunOne(env: Env, st: State, i: Instr)
    requires env.Valid() && Fits(env, st)
    ensures RunProg(env, st, [i]) == Step(env, st, i)
  {
    hide Step;
    var st' := Step(env, st, i);
    if st'.Some? { assert RunProg(env, st'.value, [i][1..]) == st'; }
  }

  lemma StepRemembers(env: Env, st: State)
    requires env.Valid() && Fits(env, st)
    ensures Step(env, st, RememberState) == Some(st.(stack := [st.row] + st.stack))
  {}

  lemma StepRestores(env: Env, st: State)
    requires env.Valid() && Fits(env, st)
    ensures Step(env, st, RestoreState)
      == if st.stack == [] then None else Some(st.(row := st.stack[0], stack := st.stack[1..]))
  {}
}
