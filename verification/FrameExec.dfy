/** _dwarf_exec_frame_instr as it runs: a register table edited in place, a linked
    stack of saved rows, one pass over the bytes (libdwarf/dwarf_frame.c). */
module FrameExec {
  import opened Common
  import opened Leb
  import opened FrameVm
  import opened FrameExpand
  import opened Words

  // ------------------------------------------------------------- decoding

  method ReadBlock(code: seq<Byte>, p: nat, final: nat) returns (r: Read)
    requires p <= final <= |code|
    ensures r == ReadOperands(code, p, final, B)
  {
    hide ReadU;
    var len := DecodeLeb128(Stream(code, p, final));
    if len.Fail? { return NotRead; }
    var q := p + len.len;
    if q + len.value > final { return NotRead; }
    return Operand(NOTHING.(block := Block(len.value, q)), q + len.value);
  }

  method ReadOperandsOf(code: seq<Byte>, p: nat, final: nat, shape: Shape) returns (r: Read)
    requires p <= final <= |code|
    ensures r == ReadOperands(code, p, final, shape)
  {
    hide ReadU, ReadS;
    match shape {
      case Bare => return Operand(NOTHING, p);
      case Fixed(n) =>
        if p + n > final { return NotRead; }
        var v := ReadFixed(code, p, n);
        return Operand(NOTHING.(u0 := v), p + n);
      case S =>
        var s := DecodeSignedLeb128(Stream(code, p, final));
        if s.Fail? { return NotRead; }
        return Operand(NOTHING.(s := s.value), p + s.len);
      case B => r := ReadBlock(code, p, final); return;
      case _ =>
    }
    var u := DecodeLeb128(Stream(code, p, final));
    if u.Fail? { return NotRead; }
    var q := p + u.len;
    match shape {
      case U => return Operand(NOTHING.(u0 := u.value), q);
      case UU =>
        var v := DecodeLeb128(Stream(code, q, final));
        if v.Fail? { return NotRead; }
        return Operand(NOTHING.(u0 := u.value, u1 := v.value), q + v.len);
      case US =>
        var s := DecodeSignedLeb128(Stream(code, q, final));
        if s.Fail? { return NotRead; }
        return Operand(NOTHING.(u0 := u.value, s := s.value), q + s.len);
      case UB =>
        var len := DecodeLeb128(Stream(code, q, final));
        if len.Fail? { return NotRead; }
        q := q + len.len;
        if q + len.value > final { return NotRead; }
        return Operand(NOTHING.(u0 := u.value, block := Block(len.value, q)), q + len.value);
    }
  }

  method DecodeInstr(code: seq<Byte>, p: nat, final: nat, addressSize: nat) returns (d: Dec)
    requires p < final <= |code|
    ensures d == Decode(code, p, final, addressSize)
  {
    hide ReadOperands, Build, ShapeOf;
    var instr := code[p];
    var opcode := Opcode(instr);
    var shape := ShapeOf(opcode, addressSize);
    if shape.None? { return Undecodable; }
    var r := ReadOperandsOf(code, p + 1, final, shape.value);
    if r.NotRead? { return Undecodable; }
    return Instruction(opcode, r.o, Build(instr, r.o), r.next);
  }

  // ------------------------------------------------------------ the machine

  /** Dwarf_Frame_s: a row with its own register array. */
  class Frame {
    var loc: nat
    var cfa: Rule
    const regs: array<Rule>
    var next: Frame?

    constructor (count: nat, rule: Rule)
      ensures fresh(regs) && regs.Length == count && loc == 0 && cfa == rule && next == null
      ensures regs[..] == seq(count, _ => rule)
    {
      regs := new Rule[count](_ => rule);
      loc, cfa, next := 0, rule, null;
    }

    ghost function AsRow(): Row
      reads this, regs
    {
      Row(regs[..], cfa)
    }
  }

  /** "for (i = 0; i < n; i++) to[i] = from[i]" between different tables. */
  method CopyRules(from: array<Rule>, to: array<Rule>, n: nat)
    requires from != to && n <= from.Length && n <= to.Length
    modifies to
    ensures to[..n] == from[..n] && to[n..] == old(to[n..])
  {
    var i := 0;
    while i < n
      invariant 0 <= i <= n
      invariant to[..i] == from[..i]
      invariant forall j :: n <= j < to.Length ==> to[j] == old(to[j])
    {
      to[i] := from[i];
      i := i + 1;
    }
  }

  /** The frames are linked in order and hold the saved rows; the objects they are
      made of are those of repr. */
  ghost predicate Stacked(frames: seq<Frame>, saved: seq<Row>, repr: set<object>, count: nat)
    reads repr
  {
    && |frames| == |saved|
    && forall i {:trigger frames[i]} :: 0 <= i < |frames| ==>
         && frames[i] in repr && frames[i].regs in repr && frames[i].regs.Length == count
         && frames[i].next == (if i + 1 < |frames| then frames[i + 1] else null)
         && saved[i] == frames[i].AsRow()
  }

  ghost function Top(frames: seq<Frame>): Frame? { if frames == [] then null else frames[0] }

  lemma StackedCons(f: Frame, frames: seq<Frame>, saved: seq<Row>, repr: set<object>, count: nat)
    requires Stacked(frames, saved, repr, count) && f.regs.Length == count && f.next == Top(frames)
    ensures Stacked([f] + frames, [f.AsRow()] + saved, repr + {f, f.regs}, count)
  {
    hide Frame.AsRow;
    var fs, rows := [f] + frames, [f.AsRow()] + saved;
    forall i | 0 <= i < |fs|
      ensures fs[i] in repr + {f, f.regs} && fs[i].regs in repr + {f, f.regs} && fs[i].regs.Length == count
      ensures fs[i].next == (if i + 1 < |fs| then fs[i + 1] else null) && rows[i] == fs[i].AsRow()
    {
      if i > 0 { assert fs[i] == frames[i - 1] && rows[i] == saved[i - 1]; }
    }
  }

  lemma StackedTail(frames: seq<Frame>, saved: seq<Row>, repr: set<object>, count: nat)
    requires Stacked(frames, saved, repr, count) && frames != []
    ensures frames[0] in repr && frames[0].regs in repr && frames[0].regs.Length == count
    ensures frames[0].next == Top(frames[1..]) && frames[0].AsRow() == saved[0]
    ensures Stacked(frames[1..], saved[1..], repr, count)
  {}

  class Machine {
    const env: Env
    const localregtab: array<Rule>
    var cfaReg: Rule
    var currentLoc: nat
    var topStack: Frame?
    ghost var frames: seq<Frame>
    ghost var saved: seq<Row>
    ghost var stackRepr: set<object>

    /** The saved rows lie apart from the register table that is being edited. */
    ghost predicate Valid()
      reads this, stackRepr
    {
      && env.Valid() && localregtab.Length == env.regCount
      && this !in stackRepr && localregtab !in stackRepr
      && topStack == Top(frames) && Stacked(frames, saved, stackRepr, env.regCount)
    }

    ghost function Abs(): State
      reads this, localregtab
    {
      State(currentLoc, Row(localregtab[..], cfaReg), saved)
    }

    /** The first row: that of the CIE, or every rule initialized. */
    constructor (env: Env, initialLoc: nat)
      requires env.Valid()
      ensures Valid() && fresh(localregtab) && fresh(stackRepr) && this.env == env
      ensures Abs() == State(initialLoc, env.FirstRow(), [])
    {
      this.env := env;
      var table := FirstTable(env);
      localregtab := table;
      cfaReg := if env.initial.Some? then env.initial.value.cfa else DefaultRule(env.initialValue);
      currentLoc, topStack := initialLoc, null;
      frames, saved, stackRepr := [], [], {};
    }

    method SetReg(reg: nat, rule: Rule)
      requires Valid() && reg < env.regCount
      modifies localregtab
      ensures Valid() && Abs() == old(Abs()).(row := old(Abs()).row.(regs := old(localregtab[..])[reg := rule]))
    {
      localregtab[reg] := rule;
    }

    method SetCfa(rule: Rule)
      requires Valid()
      modifies this`cfaReg
      ensures Valid() && Abs() == old(Abs()).(row := old(Abs()).row.(cfa := rule))
    {
      cfaReg := rule;
    }

    /** DW_CFA_remember_state: a fresh copy of the row on top of the stack. */
    method Remember()
      requires Valid()
      modifies this`topStack, this`frames, this`saved, this`stackRepr
      ensures Valid() && fresh(stackRepr - old(stackRepr))
      ensures Abs() == old(Abs()).(stack := [old(Abs()).row] + old(Abs()).stack)
    {
      hide Stacked;
      var stackTable := CopyRow(localregtab, cfaReg, DefaultRule(env.initialValue));
      stackTable.next := topStack;
      StackedCons(stackTable, frames, saved, stackRepr, env.regCount);
      topStack := stackTable;
      frames := [stackTable] + frames;
      saved := [stackTable.AsRow()] + saved;
      stackRepr := stackRepr + {stackTable, stackTable.regs};
    }

    /** The top frame leaves the stack; its CFA rule becomes the current one. */
    method Pop(cfa: Rule)
      requires Valid() && topStack != null
      modifies this`topStack, this`frames, this`saved, this`cfaReg
      ensures Valid() && old(saved) != [] && saved == old(saved)[1..] && cfaReg == cfa
    {
      hide Stacked, Frame.AsRow;
      SameLength(frames, saved, stackRepr, env.regCount);
      ghost var all, rows := frames, saved;
      topStack, cfaReg, frames, saved := topStack.next, cfa, frames[1..], saved[1..];
      assert Stacked(all, rows, stackRepr, env.regCount);
      StackedTail(all, rows, stackRepr, env.regCount);
    }

    /** DW_CFA_restore_state: the top row is copied back and dropped. */
    method RestoreTop() returns (ok: bool)
      requires Valid()
      modifies this`topStack, this`frames, this`saved, this`cfaReg, localregtab
      ensures Valid() && ok == (old(saved) != [])
      ensures ok ==> Abs() == State(old(currentLoc), old(saved)[0], old(saved)[1..])
      ensures !ok ==> Abs() == old(Abs())
    {
      hide Stacked, Frame.AsRow;
      SameLength(frames, saved, stackRepr, env.regCount);
      if topStack == null { return false; }
      StackedTail(frames, saved, stackRepr, env.regCount);
      var cfa := CopyBack(topStack, localregtab);
      Pop(cfa);
      return true;
    }

    /** Register rules: the instruction is refused before anything is written. */
    method ApplyRegister(i: Instr) returns (ok: bool)
      requires Valid() && Fits(env, Abs()) && Target(i).Some?
      modifies localregtab
      ensures Valid() && ok == Step(env, old(Abs()), i).Some?
      ensures Abs() == if ok then Step(env, old(Abs()), i).value else old(Abs())
    {
      hide Stacked, Scaled;
      if (env.NeedAugmentation() && UsesFactor(i)) || !RegsFit(env, i) { return false; }
      var reg := Target(i).value;
      NoCfaChange(env, i, cfaReg);
      SetReg(reg, NewRule(env, i, localregtab[reg]));
      return true;
    }

    /** DW_CFA_restore and DW_CFA_restore_extended. */
    method ApplyRestore(i: Instr) returns (ok: bool)
      requires Valid() && Fits(env, Abs()) && i.Restore?
      modifies localregtab
      ensures Valid() && ok == Step(env, old(Abs()), i).Some?
      ensures Abs() == if ok then Step(env, old(Abs()), i).value else old(Abs())
    {
      hide Stacked;
      if !RegsFit(env, i) { return false; }
      if env.initial.Some? {
        SetReg(i.reg, env.initial.value.regs[i.reg]);
      } else if !env.makeInstr {
        return false;
      }
      return true;
    }

    /** The CFA rule, and the instructions that change nothing. */
    method ApplyCfa(i: Instr) returns (ok: bool)
      requires Valid() && Fits(env, Abs())
      requires !IsMove(i) && Target(i).None? && !i.Restore? && !i.RememberState? && !i.RestoreState?
      modifies this`cfaReg
      ensures Valid() && ok == Step(env, old(Abs()), i).Some?
      ensures Abs() == if ok then Step(env, old(Abs()), i).value else old(Abs())
    {
      hide Stacked, Scaled;
      if (env.NeedAugmentation() && UsesFactor(i)) || !RegsFit(env, i) { return false; }
      SetCfa(NewCfa(env, i, cfaReg));
      return true;
    }

    /** Everything except the moves of the location. */
    method Apply(i: Instr) returns (ok: bool)
      requires Valid() && Fits(env, Abs()) && !IsMove(i)
      modifies this`cfaReg, this`topStack, this`frames, this`saved, this`stackRepr, localregtab
      ensures Valid() && fresh(stackRepr - old(stackRepr)) && ok == Step(env, old(Abs()), i).Some?
      ensures Abs() == if ok then Step(env, old(Abs()), i).value else old(Abs())
    {
      hide Stacked, NewRule, NewCfa;
      if i.RememberState? {
        Remember();
        ok := true;
      } else if i.RestoreState? {
        ok := RestoreTop();
      } else if i.Restore? {
        ok := ApplyRestore(i);
      } else if Target(i).Some? {
        ok := ApplyRegister(i);
      } else {
        ok := ApplyCfa(i);
      }
    }

    /** A move of the location. One that would pass the pc searched for is not made:
        the search is over, and next is where it would have gone. */
    method Move(i: Instr, search: Option<nat>) returns (ok: bool, searchOver: bool, next: nat)
      requires Valid() && Fits(env, Abs()) && IsMove(i)
      modifies this`currentLoc
      ensures Valid() && ok == Step(env, old(Abs()), i).Some?
      ensures ok ==> next == Step(env, old(Abs()), i).value.loc
      ensures searchOver == (ok && search.Some? && next > search.value)
      ensures Abs() == if ok && !searchOver then Step(env, old(Abs()), i).value else old(Abs())
    {
      hide Stacked;
      if env.NeedAugmentation() && UsesFactor(i) { return false, false, 0; }
      if i.SetLoc? && i.addr != 0 && currentLoc != 0 && i.addr <= currentLoc { return false, false, 0; }
      next := MovedTo(env, currentLoc, i);
      searchOver := search.Some? && next > search.value;
      if !searchOver { currentLoc := next; }
      ok := true;
    }
  }

  lemma NoCfaChange(env: Env, i: Instr, cfa: Rule)
    requires Target(i).Some?
    ensures NewCfa(env, i, cfa) == cfa
  {}

  method CopyBack(f: Frame, to: array<Rule>) returns (cfa: Rule)
    requires f.regs != to && f.regs.Length == to.Length
    modifies to
    ensures Row(to[..], cfa) == old(f.AsRow())
  {
    CopyRules(f.regs, to, to.Length);
    WholeTable(f.regs, to);
    cfa := f.cfa;
  }

  lemma SameLength(frames: seq<Frame>, saved: seq<Row>, repr: set<object>, count: nat)
    requires Stacked(frames, saved, repr, count)
    ensures |frames| == |saved|
  {}

  lemma WholeTable(a: array<Rule>, b: array<Rule>)
    requires a.Length == b.Length && a[..a.Length] == b[..a.Length]
    ensures a[..] == b[..]
  {
    assert a[..a.Length] == a[..] && b[..b.Length] == b[..];
  }

  method FirstTable(env: Env) returns (table: array<Rule>)
    requires env.Valid()
    ensures fresh(table) && table[..] == env.FirstRow().regs
  {
    table := new Rule[env.regCount](_ => DefaultRule(env.initialValue));
    if env.initial.Some? {
      var i := 0;
      while i < env.regCount
        invariant 0 <= i <= env.regCount
        invariant table[..i] == env.initial.value.regs[..i]
      {
        table[i] := env.initial.value.regs[i];
        i := i + 1;
      }
    }
  }

  method CopyRow(regs: array<Rule>, cfa: Rule, initialRule: Rule) returns (f: Frame)
    ensures fresh(f) && fresh(f.regs) && f.regs.Length == regs.Length
    ensures f.AsRow() == Row(regs[..], cfa)
  {
    f := new Frame(regs.Length, initialRule);
    CopyRules(regs, f.regs, regs.Length);
    WholeTable(regs, f.regs);
    f.cfa := cfa;
  }

  // --------------------------------------------------------- the executor

  lemma MachineFits(m: Machine)
    requires m.Valid()
    ensures Fits(m.env, m.Abs())
  {
    forall r | r in m.saved ensures |r.regs| == m.env.regCount {
      var i :| 0 <= i < |m.saved| && m.saved[i] == r;
      assert m.frames[i].regs.Length == m.env.regCount;
    }
  }

  /** The records made so far, in front of those still to come. */
  function Prefixed(list: seq<FrameInstr>, rest: Option<seq<FrameInstr>>): Option<seq<FrameInstr>> {
    if rest.None? then None else Some(list + rest.value)
  }

  lemma NoPrefix(rest: Option<seq<FrameInstr>>)
    ensures Prefixed([], rest) == rest
  {
    if rest.Some? { assert [] + rest.value == rest.value; }
  }

  lemma ExpandCons(env: Env, code: seq<Byte>, start: nat, p: nat, final: nat, st: State, stale: int, list: seq<FrameInstr>)
    requires env.Valid() && Fits(env, st) && start <= p < final <= |code|
    requires Decode(code, p, final, env.addressSize).Instruction?
    requires Step(env, st, Decode(code, p, final, env.addressSize).instr).Some?
    ensures var d := Decode(code, p, final, env.addressSize);
      Prefixed(list, Expand(env, code, start, p, final, st, stale))
      == Prefixed(list + [Record(env, code[p], d, p - start, stale)],
                  Expand(env, code, start, d.next, final, Step(env, st, d.instr).value, SignedAfter(d, stale)))
  {
    hide Decode, Step, Record;
    var d := Decode(code, p, final, env.addressSize);
    var rest := Expand(env, code, start, d.next, final, Step(env, st, d.instr).value, SignedAfter(d, stale));
    if rest.Some? {
      var r := Record(env, code[p], d, p - start, stale);
      assert list + ([r] + rest.value) == (list + [r]) + rest.value;
    }
  }

  lemma AtEnd(env: Env, code: seq<Byte>, start: nat, final: nat, search: Option<nat>, st: State, stale: int,
              list: seq<FrameInstr>)
    requires env.Valid() && Fits(env, st) && start <= final <= |code|
    ensures Exec(env, code, final, final, search, st) == Reached(st, false, 0)
    ensures Prefixed(list, Expand(env, code, start, final, final, st, stale)) == Some(list)
  {
    assert list + [] == list;
  }

  /** A table filled with a row: columns the row does not have keep what they had. */
  ghost predicate Filled(table: Frame, st: State, before: seq<Rule>)
    reads table, table.regs
  {
    var n := if table.regs.Length <= |st.row.regs| then table.regs.Length else |st.row.regs|;
    && |before| == table.regs.Length && table.loc == st.loc && table.cfa == st.row.cfa
    && table.regs[..] == st.row.regs[..n] + before[n..]
  }

  method FillTable(m: Machine, table: Frame)
    requires table.regs != m.localregtab
    modifies table`loc, table`cfa, table.regs
    ensures Filled(table, old(m.Abs()), old(table.regs[..]))
  {
    var n := if table.regs.Length <= m.localregtab.Length then table.regs.Length else m.localregtab.Length;
    ghost var rows, before := m.localregtab[..], table.regs[..];
    CopyRules(m.localregtab, table.regs, n);
    assert rows[..n] == m.localregtab[..n] && before[n..] == table.regs[n..];
    assert table.regs[..] == table.regs[..n] + table.regs[n..];
    table.loc, table.cfa := m.currentLoc, m.cfaReg;
  }

  /** _dwarf_exec_frame_instr. The row goes into the table only on success, and with
      it as many register columns as both have. */
  method ExecFrameInstr(env: Env, search: Option<nat>, initialLoc: nat, code: seq<Byte>, start: nat, final: nat,
                        table: Frame?)
    returns (ok: bool, more: bool, subsequent: nat, list: seq<FrameInstr>)
    requires env.Valid() && start <= final <= |code|
    modifies if table == null then {} else {table, table.regs}
    ensures var out := Exec(env, code, start, final, search, State(initialLoc, env.FirstRow(), []));
      && ok == out.Reached?
      && (ok ==> more == out.more && subsequent == out.subsequent)
      && (ok && table != null ==> Filled(table, out.st, old(table.regs[..])))
    ensures table != null ==> table.next == old(table.next)
    ensures !ok && table != null ==> unchanged(table) && unchanged(table.regs)
    ensures ok && env.makeInstr && search.None? ==>
      Expand(env, code, start, start, final, State(initialLoc, env.FirstRow(), []), 0) == Some(list)
  {
    hide Exec, Expand, Decode, Step, Record, Machine.Abs, Machine.Valid, Fits, Filled, SignedAfter;
    var m := new Machine(env, initialLoc);
    var instrPtr, searchOver, stale := start, false, 0;
    ok, more, subsequent, list := false, false, 0, [];
    MachineFits(m);
    ghost var st0 := m.Abs();
    NoPrefix(Expand(env, code, start, start, final, st0, 0));
    while instrPtr < final && !searchOver
      invariant start <= instrPtr <= final
      invariant fresh(m) && fresh(m.localregtab) && fresh(m.stackRepr) && m.Valid() && m.env == env
      invariant Fits(env, m.Abs())
      invariant Exec(env, code, start, final, search, st0)
             == if searchOver then Reached(m.Abs(), true, subsequent) else Exec(env, code, instrPtr, final, search, m.Abs())
      invariant searchOver ==> search.Some?
      invariant table != null ==> unchanged(table) && unchanged(table.regs)
      invariant env.makeInstr && search.None? ==>
        Expand(env, code, start, start, final, st0, 0)
        == Prefixed(list, Expand(env, code, start, instrPtr, final, m.Abs(), stale))
      decreases final - instrPtr
    {
      ghost var st := m.Abs();
      ExecCons(env, code, instrPtr, final, search, st);
      var d := DecodeInstr(code, instrPtr, final, env.addressSize);
      if d.Undecodable? { return; }
      var stepped;
      if IsMove(d.instr) {
        stepped, searchOver, subsequent := m.Move(d.instr, search);
      } else {
        stepped := m.Apply(d.instr);
      }
      if !stepped { return; }
      if env.makeInstr { ExpandCons(env, code, start, instrPtr, final, st, stale, list); }
      if env.makeInstr { list := list + [Record(env, code[instrPtr], d, instrPtr - start, stale)]; }
      stale := SignedAfter(d, stale);
      instrPtr := d.next;
    }
    AtEnd(env, code, start, final, search, m.Abs(), stale, list);
    ok, more := true, searchOver;
    if !searchOver { subsequent := 0; }
    if table != null {
      assert table.regs[..] == old(table.regs[..]);
      FillTable(m, table);
    }
  }
}
