/** dwarf_expand_frame_instructions: the executor run with make_instr, which lists
    one record per instruction (libdwarf/dwarf_frame.c). */
module FrameExpand {
  import opened Common
  import opened FrameVm
  import Leb

  /** Dwarf_Frame_Instr_s without the letters describing which fields are in use. */
  datatype FrameInstr = FrameInstr(op: Byte, offset: nat, u0: nat, u1: nat, s0: int, s1: int,
                                   codeFactor: nat, dataFactor: int, expr: Block)

  predicate ReadsSigned(op: Byte) { op == 0x11 || op == 0x12 || op == 0x13 || op == 0x15 }

  /** signed_factored_N_value lives across instructions: it keeps the last signed
      operand read. */
  function SignedAfter(d: Dec, stale: int): int
    requires d.Instruction?
  {
    if ReadsSigned(d.op) then d.operands.s else stale
  }

  /** The record filled in for one instruction. DW_CFA_val_offset reports the
      variable for signed operands, although it has read an unsigned one. */
  function Record(env: Env, b: Byte, d: Dec, offset: nat, stale: int): FrameInstr
    requires d.Instruction?
  {
    var o := d.operands;
    var r := FrameInstr(d.op, offset, 0, 0, 0, 0, 0, 0, Block(0, 0));
    match d.op
    case 0x40 => r.(u0 := LowBits(b), codeFactor := env.CodeFactor())
    case 0x80 => r.(u0 := LowBits(b), u1 := o.u0, dataFactor := env.DataFactor())
    case 0xc0 => r.(u0 := LowBits(b))
    case 0x01 | 0x06 | 0x07 | 0x08 | 0x0d | 0x0e | 0x2e | 0x34 => r.(u0 := o.u0)
    case 0x02 | 0x03 | 0x04 | 0x1d => r.(u0 := o.u0, codeFactor := env.CodeFactor())
    case 0x05 => r.(u0 := o.u0, u1 := o.u1, dataFactor := env.DataFactor())
    case 0x09 => r.(u0 := RegNo(o.u0), u1 := RegNo(o.u1))
    case 0x0c => r.(u0 := o.u0, u1 := o.u1)
    case 0x0f => r.(expr := o.block)
    case 0x10 | 0x16 => r.(u0 := o.u0, expr := o.block)
    case 0x11 | 0x12 | 0x15 => r.(u0 := o.u0, s1 := o.s, dataFactor := env.DataFactor())
    case 0x13 => r.(s0 := o.s, dataFactor := env.DataFactor())
    case 0x14 => r.(u0 := o.u0, s1 := stale, dataFactor := env.DataFactor())
    case _ => r
  }

  /** The records of a stream from p on, the whole stream starting at start. */
  function Expand(env: Env, code: seq<Byte>, start: nat, p: nat, final: nat, st: State, stale: int)
    : Option<seq<FrameInstr>>
    requires env.Valid() && Fits(env, st) && start <= p <= final <= |code|
    decreases final - p
  {
    if p == final then Some([])
    else
      var d := Decode(code, p, final, env.addressSize);
      if d.Undecodable? then None
      else match Step(env, st, d.instr)
        case None => None
        case Some(st') =>
          match Expand(env, code, start, d.next, final, st', SignedAfter(d, stale))
          case None => None
          case Some(rs) => Some([Record(env, code[p], d, p - start, stale)] + rs)
  }

  /** Expanding succeeds exactly when executing in the same setting and from the same
      state does. */
  lemma {:induction false} ExpandIffExec(env: Env, code: seq<Byte>, start: nat, p: nat, final: nat, st: State, stale: int)
    requires env.Valid() && Fits(env, st) && start <= p <= final <= |code|
    ensures Expand(env, code, start, p, final, st, stale).Some? <==> Exec(env, code, p, final, None, st).Reached?
    decreases final - p
  {
    hide Decode, Step, Record;
    if p < final {
      var d := Decode(code, p, final, env.addressSize);
      if d.Instruction? {
        var st' := Step(env, st, d.instr);
        if st'.Some? { ExpandIffExec(env, code, start, d.next, final, st'.value, SignedAfter(d, stale)); }
      }
    }
  }

  /** What a single instruction needs in order not to be an error: registers in the
      table, a factor that is known (or not wanted, when listing), a location beyond
      the one before unless one of them is 0, an initial row to restore from (or a
      listing), a row to pop. Nothing but the location and the depth of the stack
      matters of the state. */
  predicate Allowed(env: Env, loc: nat, depth: nat, i: Instr) {
    var n, factors := env.regCount, env.augmented || env.makeInstr;
    match i
    case Advance(_) => factors
    case SetLoc(addr) => addr == 0 || loc == 0 || loc < addr
    case OffsetAt(reg, _) => reg < n && factors
    case OffsetAtSf(reg, _) => reg < n && factors
    case Restore(reg) => reg < n && (env.initial.Some? || env.makeInstr)
    case Undefined(reg) => reg < n
    case SameValue(reg) => reg < n
    case InRegister(reg, from) => reg < n && from <= n
    case RememberState => true
    case RestoreState => depth > 0
    case DefCfa(reg, _) => reg < n && factors
    case DefCfaSf(reg, _) => reg < n && factors
    case DefCfaRegister(reg) => reg < n
    case DefCfaOffset(_) => factors
    case DefCfaOffsetSf(_) => factors
    case DefCfaExpression(_) => true
    case Expression(reg, _) => reg < n
    case ValExpression(reg, _) => reg < n
    case ValOffset(reg, _) => reg < n && factors
    case ValOffsetSf(_, _) => n > 0 && factors
    case MetawareInfo(_) => true
    case ArgsSize(_) => true
    case NoEffect => true
  }

  function DepthAfter(depth: nat, i: Instr): nat {
    if i.RememberState? then depth + 1 else if i.RestoreState? && depth > 0 then depth - 1 else depth
  }

  predicate Runs(env: Env, loc: nat, depth: nat, prog: seq<Instr>)
    decreases |prog|
  {
    prog == [] ||
    ( && Allowed(env, loc, depth, prog[0])
      && Runs(env, if IsMove(prog[0]) then MovedTo(env, loc, prog[0]) else loc, DepthAfter(depth, prog[0]), prog[1..]))
  }

  lemma StepIff(env: Env, st: State, i: Instr)
    requires env.Valid() && Fits(env, st)
    ensures Step(env, st, i).Some? <==> Allowed(env, st.loc, |st.stack|, i)
    ensures Step(env, st, i).Some? ==>
      && Step(env, st, i).value.loc == (if IsMove(i) then MovedTo(env, st.loc, i) else st.loc)
      && |Step(env, st, i).value.stack| == DepthAfter(|st.stack|, i)
  {}

  lemma {:induction false} RunsIff(env: Env, st: State, prog: seq<Instr>)
    requires env.Valid() && Fits(env, st)
    ensures RunProg(env, st, prog).Some? <==> Runs(env, st.loc, |st.stack|, prog)
    decreases |prog|
  {
    hide Step, Allowed, MovedTo, DepthAfter;
    if prog != [] {
      StepIff(env, st, prog[0]);
      var st' := Step(env, st, prog[0]);
      if st'.Some? { RunsIff(env, st'.value, prog[1..]); }
    }
  }

  /** Listing and executing succeed exactly on decodable streams whose instructions are
      allowed, each in its own setting and from its own state. */
  lemma SucceedIff(env: Env, code: seq<Byte>, start: nat, final: nat, st: State)
    requires env.Valid() && Fits(env, st) && start <= final <= |code|
    ensures Exec(env, code, start, final, None, st).Reached? <==>
      var pp := Program(code, start, final, env.addressSize);
      pp.Some? && Runs(env, st.loc, |st.stack|, Instrs(pp.value))
    ensures Expand(env, code, start, start, final, st, 0).Some? <==> Exec(env, code, start, final, None, st).Reached?
  {
    hide Exec, Expand, Program, Runs, RunProg, Instrs;
    ExpandIffExec(env, code, start, start, final, st, 0);
    var pp := Program(code, start, final, env.addressSize);
    if pp.Some? {
      ExecIsRun(env, code, start, final, st);
      RunsIff(env, st, Instrs(pp.value));
    } else if Exec(env, code, start, final, None, st).Reached? {
      ExecDecodes(env, code, start, final, st);
    }
  }

  /** What executing needs beyond what listing does: factors only with an augmentation,
      DW_CFA_restore only with an initial row, DW_CFA_set_loc in order from the
      location executed from. */
  predicate RunsToo(env: Env, loc: nat, prog: seq<Instr>)
    decreases |prog|
  {
    prog == [] ||
    ( && NoMoreNeeded(env, loc, prog[0])
      && RunsToo(env, if IsMove(prog[0]) then MovedTo(env, loc, prog[0]) else loc, prog[1..]))
  }

  predicate NoMoreNeeded(env: Env, loc: nat, i: Instr) {
    match i
    case SetLoc(addr) => addr == 0 || loc == 0 || loc < addr
    case Restore(_) => env.initial.Some?
    case Advance(_) => env.augmented
    case OffsetAt(_, _) => env.augmented
    case OffsetAtSf(_, _) => env.augmented
    case DefCfa(_, _) => env.augmented
    case DefCfaSf(_, _) => env.augmented
    case DefCfaOffset(_) => env.augmented
    case DefCfaOffsetSf(_) => env.augmented
    case ValOffset(_, _) => env.augmented
    case ValOffsetSf(_, _) => env.augmented
    case _ => true
  }

  lemma {:induction false} RunsTooIff(env: Env, loc: nat, env2: Env, loc2: nat, depth: nat, prog: seq<Instr>)
    requires env.regCount == env2.regCount && !env2.makeInstr && Runs(env, loc, depth, prog)
    ensures Runs(env2, loc2, depth, prog) <==> RunsToo(env2, loc2, prog)
    decreases |prog|
  {
    hide MovedTo;
    if prog != [] {
      var i := prog[0];
      RunsTooIff(env, if IsMove(i) then MovedTo(env, loc, i) else loc,
                 env2, if IsMove(i) then MovedTo(env2, loc2, i) else loc2, DepthAfter(depth, i), prog[1..]);
    }
  }

  /** A stream that can be listed, from whatever location, executes elsewhere exactly
      when it meets those further needs there. */
  lemma ListedExecutesIff(env: Env, code: seq<Byte>, start: nat, final: nat, st: State, env2: Env, st2: State)
    requires env.Valid() && Fits(env, st) && start <= final <= |code|
    requires env2.Valid() && Fits(env2, st2) && !env2.makeInstr && |st2.stack| == |st.stack|
    requires env2.addressSize == env.addressSize && env2.regCount == env.regCount
    requires Expand(env, code, start, start, final, st, 0).Some?
    ensures Program(code, start, final, env.addressSize).Some?
    ensures Exec(env2, code, start, final, None, st2).Reached? <==>
      RunsToo(env2, st2.loc, Instrs(Program(code, start, final, env.addressSize).value))
  {
    hide Exec, Expand, Program, Runs, RunsToo, Instrs;
    SucceedIff(env, code, start, final, st);
    SucceedIff(env2, code, start, final, st2);
    RunsTooIff(env, st.loc, env2, st2.loc, |st.stack|, Instrs(Program(code, start, final, env.addressSize).value));
  }

  /** The instruction a reader of a record takes it for. */
  function Meant(r: FrameInstr): Instr {
    match r.op
    case 0x40 => Advance(r.u0)
    case 0x80 => OffsetAt(r.u0, r.u1)
    case 0xc0 => Restore(r.u0)
    case 0x01 => SetLoc(r.u0)
    case 0x02 | 0x03 | 0x04 | 0x1d => Advance(r.u0)
    case 0x05 => OffsetAt(RegNo(r.u0), r.u1)
    case 0x06 => Restore(RegNo(r.u0))
    case 0x07 => Undefined(RegNo(r.u0))
    case 0x08 => SameValue(RegNo(r.u0))
    case 0x09 => InRegister(r.u0, r.u1)
    case 0x0a => RememberState
    case 0x0b => RestoreState
    case 0x0c => DefCfa(RegNo(r.u0), r.u1)
    case 0x0d => DefCfaRegister(RegNo(r.u0))
    case 0x0e => DefCfaOffset(r.u0)
    case 0x0f => DefCfaExpression(r.expr)
    case 0x10 => Expression(r.u0, r.expr)
    case 0x11 => OffsetAtSf(RegNo(r.u0), r.s1)
    case 0x12 => DefCfaSf(RegNo(r.u0), r.s1)
    case 0x13 => DefCfaOffsetSf(r.s0)
    case 0x14 => ValOffset(RegNo(r.u0), Wrap64(r.s1))
    case 0x15 => ValOffsetSf(RegNo(r.u0), r.s1)
    case 0x16 => ValExpression(r.u0, r.expr)
    case 0x2e => ArgsSize(r.u0)
    case 0x34 => MetawareInfo(r.u0)
    case _ => NoEffect
  }

  /** A record means the instruction it was made from, unless that one is
      DW_CFA_val_offset; then it does so exactly when the signed operand left
      over from before happens to be the same number. */
  lemma RecordMeans(env: Env, code: seq<Byte>, p: nat, final: nat, offset: nat, stale: int)
    requires p < final <= |code| && Decode(code, p, final, env.addressSize).Instruction?
    ensures var d := Decode(code, p, final, env.addressSize);
      (Meant(Record(env, code[p], d, offset, stale)) == d.instr) ==
      (d.instr.ValOffset? ==> Wrap64(stale) == d.instr.n)
  {
    hide ReadOperands, ShapeOf;
    var d := Decode(code, p, final, env.addressSize);
    assert d.instr == Build(code[p], d.operands);
  }

  /** The variable for signed operands afterwards: the signed operand of the instruction
      if it has one, else what it was. */
  lemma LeftOver(code: seq<Byte>, p: nat, final: nat, addressSize: nat, stale: int)
    requires p < final <= |code| && Decode(code, p, final, addressSize).Instruction?
    ensures var d := Decode(code, p, final, addressSize);
      SignedAfter(d, stale) == match d.instr
                               case OffsetAtSf(_, n) => n
                               case DefCfaSf(_, n) => n
                               case DefCfaOffsetSf(n) => n
                               case ValOffsetSf(_, n) => n
                               case _ => stale
  {
    hide ReadOperands, ShapeOf;
    var d := Decode(code, p, final, addressSize);
    assert d.instr == Build(code[p], d.operands) && d.op == Opcode(code[p]);
  }

  /** The fields an instruction has no use for are zero. */
  lemma UnusedFields(env: Env, code: seq<Byte>, p: nat, final: nat, offset: nat, stale: int)
    requires p < final <= |code| && Decode(code, p, final, env.addressSize).Instruction?
    ensures var d := Decode(code, p, final, env.addressSize);
      var i, r := d.instr, Record(env, code[p], d, offset, stale);
      && (i.RememberState? || i.RestoreState? || i.NoEffect? || i.DefCfaOffsetSf? || i.DefCfaExpression? ==> r.u0 == 0)
      && (!(i.OffsetAt? || i.InRegister? || i.DefCfa?) ==> r.u1 == 0)
      && (!i.DefCfaOffsetSf? ==> r.s0 == 0)
      && (!(i.OffsetAtSf? || i.DefCfaSf? || i.ValOffset? || i.ValOffsetSf?) ==> r.s1 == 0)
      && (!(i.DefCfaExpression? || i.Expression? || i.ValExpression?) ==> r.expr == Block(0, 0))
  {
    hide ReadOperands, ShapeOf;
    var d := Decode(code, p, final, env.addressSize);
    assert d.instr == Build(code[p], d.operands) && d.op == Opcode(code[p]);
  }

  /** The two factor fields: set, to what the CIE says, exactly in the records of the
      instructions whose operands are factored; DW_CFA_def_cfa and its like are
      not. */
  lemma RecordFactors(env: Env, code: seq<Byte>, p: nat, final: nat, offset: nat, stale: int)
    requires p < final <= |code| && Decode(code, p, final, env.addressSize).Instruction?
    ensures var d := Decode(code, p, final, env.addressSize);
      var r := Record(env, code[p], d, offset, stale);
      && r.codeFactor == (if d.instr.Advance? then (if env.augmented then env.codeAlign else 1) else 0)
      && r.dataFactor == (match d.instr
                          case OffsetAt(_, _) => if env.augmented then env.dataAlign else 1
                          case OffsetAtSf(_, _) => if env.augmented then env.dataAlign else 1
                          case DefCfaSf(_, _) => if env.augmented then env.dataAlign else 1
                          case DefCfaOffsetSf(_) => if env.augmented then env.dataAlign else 1
                          case ValOffset(_, _) => if env.augmented then env.dataAlign else 1
                          case ValOffsetSf(_, _) => if env.augmented then env.dataAlign else 1
                          case _ => 0)
  {
    hide ReadOperands, ShapeOf;
    assert Decode(code, p, final, env.addressSize).instr == Build(code[p], Decode(code, p, final, env.addressSize).operands);
  }

  /** Record by record, the list describes the instructions. */
  predicate Describes(rs: seq<FrameInstr>, pp: seq<Placed>, start: nat) {
    && |rs| == |pp|
    && (forall i :: 0 <= i < |rs| ==> start + rs[i].offset == pp[i].at)
    && (forall i :: 0 <= i < |rs| && !pp[i].instr.ValOffset? ==> Meant(rs[i]) == pp[i].instr)
  }

  /** An expanded list describes the decoded stream, DW_CFA_val_offset apart. */
  lemma {:induction false} ExpandDescribes(env: Env, code: seq<Byte>, start: nat, p: nat, final: nat, st: State, stale: int)
    requires env.Valid() && Fits(env, st) && start <= p <= final <= |code|
    requires Expand(env, code, start, p, final, st, stale).Some?
    ensures Program(code, p, final, env.addressSize).Some?
    ensures Describes(Expand(env, code, start, p, final, st, stale).value,
                      Program(code, p, final, env.addressSize).value, start)
    decreases final - p
  {
    hide Decode, Step, Record, Meant;
    if p < final {
      var d := Decode(code, p, final, env.addressSize);
      var st' := Step(env, st, d.instr).value;
      ExpandDescribes(env, code, start, d.next, final, st', SignedAfter(d, stale));
      RecordMeans(env, code, p, final, p - start, stale);
      RecordOffset(env, code[p], d, p - start, stale);
    }
  }

  lemma RecordOffset(env: Env, b: Byte, d: Dec, offset: nat, stale: int)
    requires d.Instruction?
    ensures Record(env, b, d, offset, stale).offset == offset
  {}

  /** The records begin at offset 0 and lie one behind the other, each where the
      instruction before it ends, up to the end of the stream. */
  predicate Covers(rs: seq<FrameInstr>, pp: seq<Placed>, start: nat, final: nat)
    requires |rs| == |pp|
  {
    && (rs == [] <==> start == final)
    && (rs != [] ==> rs[0].offset == 0 && pp[|pp| - 1].next == final)
    && (forall i :: 0 < i < |rs| ==> rs[i - 1].offset < rs[i].offset && start + rs[i].offset == pp[i - 1].next)
  }

  lemma OffsetsCover(env: Env, code: seq<Byte>, start: nat, final: nat, st: State, rs: seq<FrameInstr>, pp: seq<Placed>)
    requires env.Valid() && Fits(env, st) && start <= final <= |code|
    requires Expand(env, code, start, start, final, st, 0) == Some(rs)
    requires Program(code, start, final, env.addressSize) == Some(pp)
    ensures |rs| == |pp| && Covers(rs, pp, start, final)
  {
    hide Expand, Program, Meant;
    ExpandDescribes(env, code, start, start, final, st, 0);
    ProgramTiles(code, start, final, env.addressSize);
    assert forall i :: 0 <= i < |rs| ==> start + rs[i].offset == pp[i].at;
  }

  // --------------------------------------------------------------- replay

  /** A plain machine for section 6.4.2 of DWARF 5: it differs from the code only
      in letting DW_CFA_val_offset_sf act on the register it names. */
  function PlainStep(env: Env, st: State, i: Instr): (r: Option<State>)
    requires env.Valid() && Fits(env, st)
    ensures r.Some? ==> Fits(env, r.value)
  {
    if i.ValOffsetSf? then
      if env.NeedAugmentation() || i.reg >= env.regCount then None
      else
        var rule := st.row.regs[i.reg].(isOffset := true, register := env.cfaColumn, valueType := ExprValOffset,
                                        offset := Scaled(env, i.sn));
        Some(st.(row := st.row.(regs := st.row.regs[i.reg := rule])))
    else Step(env, st, i)
  }

  function Replay(env: Env, st: State, rs: seq<FrameInstr>): Option<State>
    requires env.Valid() && Fits(env, st)
    decreases |rs|
  {
    if rs == [] then Some(st)
    else match PlainStep(env, st, Meant(rs[0]))
      case None => None
      case Some(st') => Replay(env, st', rs[1..])
  }

  lemma {:induction false} ReplayIsRun(env: Env, st: State, rs: seq<FrameInstr>, prog: seq<Instr>)
    requires env.Valid() && Fits(env, st) && |rs| == |prog|
    requires forall i :: 0 <= i < |rs| ==> Meant(rs[i]) == prog[i] && !prog[i].ValOffsetSf?
    ensures Replay(env, st, rs) == RunProg(env, st, prog)
    decreases |rs|
  {
    hide Step, Meant;
    if rs != [] {
      var st' := Step(env, st, prog[0]);
      if st'.Some? { ReplayIsRun(env, st'.value, rs[1..], prog[1..]); }
    }
  }

  /** Whether each DW_CFA_val_offset of the stream finds its own operand in the signed
      variable, given what is left over there at the beginning. */
  predicate ReportedRight(code: seq<Byte>, p: nat, final: nat, addressSize: nat, stale: int)
    requires p <= final <= |code|
    decreases final - p
  {
    p == final ||
    var d := Decode(code, p, final, addressSize);
    && d.Instruction?
    && (d.instr.ValOffset? ==> Wrap64(stale) == d.instr.n)
    && ReportedRight(code, d.next, final, addressSize, SignedAfter(d, stale))
  }

  predicate AllMeant(rs: seq<FrameInstr>, pp: seq<Placed>)
    requires |rs| == |pp|
  {
    forall i :: 0 <= i < |rs| ==> Meant(rs[i]) == pp[i].instr
  }

  /** A list means the stream it was made from, record by record, exactly when every
      DW_CFA_val_offset finds its own operand left over. */
  lemma {:induction false} ListMeansIff(env: Env, code: seq<Byte>, start: nat, p: nat, final: nat, st: State, stale: int)
    requires env.Valid() && Fits(env, st) && start <= p <= final <= |code|
    requires Expand(env, code, start, p, final, st, stale).Some?
    ensures Program(code, p, final, env.addressSize).Some?
    ensures var rs, pp := Expand(env, code, start, p, final, st, stale).value,
        Program(code, p, final, env.addressSize).value;
      |rs| == |pp| && (AllMeant(rs, pp) <==> ReportedRight(code, p, final, env.addressSize, stale))
    decreases final - p
  {
    hide Decode, Step, Record, Meant, SignedAfter, AllMeant;
    if p < final {
      var d := Decode(code, p, final, env.addressSize);
      var st' := Step(env, st, d.instr).value;
      ListMeansIff(env, code, start, d.next, final, st', SignedAfter(d, stale));
      RecordMeans(env, code, p, final, p - start, stale);
      var r := Record(env, code[p], d, p - start, stale);
      AllMeantCons(r, Placed(p, d.next, d.instr),
                   Expand(env, code, start, d.next, final, st', SignedAfter(d, stale)).value,
                   Program(code, d.next, final, env.addressSize).value);
    } else {
      assert AllMeant([], []) by { NoneMeant(); }
    }
  }

  lemma NoneMeant()
    ensures AllMeant([], [])
  {}

  lemma AllMeantCons(r: FrameInstr, pl: Placed, rs: seq<FrameInstr>, pp: seq<Placed>)
    requires |rs| == |pp|
    ensures AllMeant([r] + rs, [pl] + pp) <==> Meant(r) == pl.instr && AllMeant(rs, pp)
  {
    hide Meant;
    var rs', pp' := [r] + rs, [pl] + pp;
    if AllMeant(rs', pp') {
      assert rs'[0] == r && pp'[0] == pl;
      forall i | 0 <= i < |rs| ensures Meant(rs[i]) == pp[i].instr {
        assert rs'[i + 1] == rs[i] && pp'[i + 1] == pp[i];
      }
    }
  }

  /** Listing once and replaying the list, in whatever setting and from whatever
      state, gives what executing the bytes gives there, if every DW_CFA_val_offset
      is reported right and DW_CFA_val_offset_sf does not occur. */
  lemma ReplayIsExecution(env: Env, code: seq<Byte>, start: nat, final: nat, st: State, env2: Env, st2: State)
    requires env.Valid() && Fits(env, st) && start <= final <= |code|
    requires Expand(env, code, start, start, final, st, 0).Some?
    requires env2.Valid() && Fits(env2, st2) && env2.addressSize == env.addressSize
    requires ReportedRight(code, start, final, env.addressSize, 0)
    requires Program(code, start, final, env.addressSize).Some? ==>
      forall x :: x in Program(code, start, final, env.addressSize).value ==> !x.instr.ValOffsetSf?
    ensures Exec(env2, code, start, final, None, st2)
      == match Replay(env2, st2, Expand(env, code, start, start, final, st, 0).value)
         case None => Failure
         case Some(st') => Reached(st', false, 0)
  {
    hide Expand, Program, Exec, Replay, RunProg, Meant, Instrs, ReportedRight;
    ListMeansIff(env, code, start, start, final, st, 0);
    var rs := Expand(env, code, start, start, final, st, 0).value;
    var pp := Program(code, start, final, env.addressSize).value;
    ExecIsRun(env2, code, start, final, st2);
    ReplayIsRun(env2, st2, rs, Instrs(pp));
  }

  /** The two exceptions are real. A DW_CFA_val_offset as first instruction is
      listed with operand 0, and DW_CFA_val_offset_sf changes the rule of register
      0 instead of that of the register it names. */
  lemma ValOffsetMisreported(env: Env, st: State)
    requires env.Valid() && Fits(env, st) && env.regCount > 3 && !env.NeedAugmentation()
    ensures Program(VAL_OFFSET, 0, 3, env.addressSize) == Some([Placed(0, 3, ValOffset(3, 5))])
    ensures Expand(env, VAL_OFFSET, 0, 0, 3, st, 0).Some?
    ensures Meant(Expand(env, VAL_OFFSET, 0, 0, 3, st, 0).value[0]) == ValOffset(3, 0)
  {
    hide Decode, Step, Record, Meant;
    var d := Instruction(0x14, Operands(3, 5, 0, Block(0, 0)), ValOffset(3, 5), 3);
    ValOffsetDecoded(env.addressSize);
    assert Step(env, st, d.instr).Some? by { ValOffsetSteps(env, st); }
    ValOffsetRecord(env, d);
    assert Program(VAL_OFFSET, 3, 3, env.addressSize) == Some([]);
    assert Program(VAL_OFFSET, 0, 3, env.addressSize) == Some([Placed(0, 3, d.instr)] + []);
    assert [Placed(0, 3, d.instr)] + [] == [Placed(0, 3, d.instr)];
    assert Expand(env, VAL_OFFSET, 0, 0, 3, st, 0) == Some([Record(env, 0x14, d, 0, 0)] + []);
  }

  const VAL_OFFSET: seq<Byte> := [0x14, 3, 5]

  lemma ValOffsetDecoded(addressSize: nat)
    ensures Decode(VAL_OFFSET, 0, 3, addressSize)
         == Instruction(0x14, Operands(3, 5, 0, Block(0, 0)), ValOffset(3, 5), 3)
  {
    hide Leb.ReadU;
    Leb.OneByte(Stream(VAL_OFFSET, 1, 3));
    Leb.OneByte(Stream(VAL_OFFSET, 2, 3));
  }

  lemma ValOffsetSteps(env: Env, st: State)
    requires env.Valid() && Fits(env, st) && env.regCount > 3 && !env.NeedAugmentation()
    ensures Step(env, st, ValOffset(3, 5)).Some?
  {}

  lemma ValOffsetRecord(env: Env, d: Dec)
    requires d == Instruction(0x14, Operands(3, 5, 0, Block(0, 0)), ValOffset(3, 5), 3)
    ensures Meant(Record(env, 0x14, d, 0, 0)) == ValOffset(3, 0)
  {}

  lemma ValOffsetSfMisdirected(env: Env, st: State, reg: nat, sn: int)
    requires env.Valid() && Fits(env, st) && 0 < reg < env.regCount && !env.NeedAugmentation()
    ensures var i := ValOffsetSf(reg, sn);
      && Step(env, st, i).Some? && PlainStep(env, st, i).Some?
      && Step(env, st, i).value.row.regs[reg] == st.row.regs[reg]
      && Step(env, st, i).value.row.regs[0].valueType == ExprValOffset
      && PlainStep(env, st, i).value.row.regs[0] == st.row.regs[0]
      && PlainStep(env, st, i).value.row.regs[reg].valueType == ExprValOffset
  {}
}
