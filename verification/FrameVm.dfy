/** The call-frame instructions and what each of them does to the current row
    (libdwarf/dwarf_frame.c, section 6.4.2 of DWARF 5).

    code is the section, positions are offsets into it; an instruction stream is
    the part from some position up to "final". */
module FrameVm {
  import opened Common
  import opened Leb
  import opened Words

  // ------------------------------------------------------------------ rows

  datatype ValueType = ExprOffset | ExprValOffset | ExprExpression | ExprValExpression

  /** A DWARF expression block: its length and where its bytes are. */
  datatype Block = Block(len: nat, data: nat)

  /** Dwarf_Reg_Rule_s. */
  datatype Rule = Rule(isOffset: bool, valueType: ValueType, register: nat, offset: nat, block: Block)

  function DefaultRule(register: nat): Rule { Rule(false, ExprOffset, register, 0, Block(0, 0)) }

  datatype Row = Row(regs: seq<Rule>, cfa: Rule)

  /** The machine: the location, the row being built, the rows remembered. */
  datatype State = State(loc: nat, row: Row, stack: seq<Row>)

  /** What an execution depends on. Without an augmentation the factors are 1 and
      may only be used to list instructions. initial is the row of the CIE. */
  datatype Env = Env(regCount: nat, initialValue: nat, undefinedValue: nat, sameValue: nat, cfaColumn: nat,
                     addressSize: nat, makeInstr: bool, augmented: bool, codeAlign: nat, dataAlign: int,
                     initial: Option<Row>)
  {
    predicate Valid() { 1 <= addressSize <= 8 && (initial.Some? ==> |initial.value.regs| == regCount) }
    predicate NeedAugmentation() { !augmented && !makeInstr }
    function CodeFactor(): nat { if augmented then codeAlign else 1 }
    function DataFactor(): int { if augmented then dataAlign else 1 }

    /** The row an execution starts from. */
    function FirstRow(): (r: Row)
      requires Valid()
      ensures |r.regs| == regCount
    {
      if initial.Some? then initial.value else DefaultRow()
    }

    function DefaultRow(): (r: Row)
      ensures |r.regs| == regCount
    {
      Row(seq(regCount, _ => DefaultRule(initialValue)), DefaultRule(initialValue))
    }
  }

  // ---------------------------------------------------------- instructions

  datatype Instr =
    | Advance(delta: nat)
    | SetLoc(addr: nat)
    | OffsetAt(reg: nat, n: nat)
    | OffsetAtSf(reg: nat, sn: int)
    | Restore(reg: nat)
    | Undefined(reg: nat)
    | SameValue(reg: nat)
    | InRegister(reg: nat, from: nat)
    | RememberState
    | RestoreState
    | DefCfa(reg: nat, n: nat)
    | DefCfaSf(reg: nat, sn: int)
    | DefCfaRegister(reg: nat)
    | DefCfaOffset(n: nat)
    | DefCfaOffsetSf(sn: int)
    | DefCfaExpression(block: Block)
    | Expression(reg: nat, block: Block)
    | ValExpression(reg: nat, block: Block)
    | ValOffset(reg: nat, n: nat)
    | ValOffsetSf(reg: nat, sn: int)
    | MetawareInfo(n: nat)
    | ArgsSize(n: nat)
    | NoEffect

  /** How the operands of an opcode are laid out. */
  datatype Shape = Bare | Fixed(size: nat) | U | S | UU | US | B | UB

  datatype Operands = Operands(u0: nat, u1: nat, s: int, block: Block)

  const NOTHING := Operands(0, 0, 0, Block(0, 0))

  /** The high two bits select a base opcode, otherwise the byte is the opcode. */
  function Opcode(b: Byte): Byte {
    if b < 0x40 then b else if b < 0x80 then 0x40 else if b < 0xc0 then 0x80 else 0xc0
  }

  function LowBits(b: Byte): nat { b % 64 }

  function ShapeOf(opcode: Byte, addressSize: nat): Option<Shape> {
    match opcode
    case 0x40 | 0xc0 => Some(Bare)                              // advance_loc, restore
    case 0x80 => Some(U)                                        // offset
    case 0x00 | 0x0a | 0x0b | 0x1c | 0x2d => Some(Bare)         // nop, remember, restore_state, lo_user, window_save
    case 0x01 => Some(Fixed(addressSize))                       // set_loc
    case 0x02 => Some(Fixed(1))                                 // advance_loc1
    case 0x03 => Some(Fixed(2))                                 // advance_loc2
    case 0x04 => Some(Fixed(4))                                 // advance_loc4
    case 0x1d => Some(Fixed(8))                                 // MIPS_advance_loc8
    case 0x05 | 0x09 | 0x0c | 0x14 => Some(UU)                  // offset_extended, register, def_cfa, val_offset
    case 0x06 | 0x07 | 0x08 | 0x0d | 0x0e | 0x2e | 0x34 => Some(U)
      // restore_extended, undefined, same_value, def_cfa_register, def_cfa_offset, args_size, METAWARE_info
    case 0x0f => Some(B)                                        // def_cfa_expression
    case 0x10 | 0x16 => Some(UB)                                // expression, val_expression
    case 0x11 | 0x12 | 0x15 => Some(US)                         // offset_extended_sf, def_cfa_sf, val_offset_sf
    case 0x13 => Some(S)                                        // def_cfa_offset_sf
    case _ => None
  }

  /** reg_num_type is a 32-bit unsigned. */
  function RegNo(v: nat): (r: nat)
    ensures r < 4294967296 && exists k: nat {:trigger 4294967296 * k} :: v == 4294967296 * k + r
  {
    assert v == 4294967296 * (v / 4294967296) + v % 0x1_0000_0000;
    v % 0x1_0000_0000
  }

  function Build(b: Byte, o: Operands): Instr {
    match Opcode(b)
    case 0x40 => Advance(LowBits(b))
    case 0x80 => OffsetAt(LowBits(b), o.u0)
    case 0xc0 => Restore(LowBits(b))
    case 0x01 => SetLoc(o.u0)
    case 0x02 | 0x03 | 0x04 | 0x1d => Advance(o.u0)
    case 0x05 => OffsetAt(RegNo(o.u0), o.u1)
    case 0x06 => Restore(RegNo(o.u0))
    case 0x07 => Undefined(RegNo(o.u0))
    case 0x08 => SameValue(RegNo(o.u0))
    case 0x09 => InRegister(RegNo(o.u0), RegNo(o.u1))
    case 0x0a => RememberState
    case 0x0b => RestoreState
    case 0x0c => DefCfa(RegNo(o.u0), o.u1)
    case 0x0d => DefCfaRegister(RegNo(o.u0))
    case 0x0e => DefCfaOffset(o.u0)
    case 0x0f => DefCfaExpression(o.block)
    case 0x10 => Expression(o.u0, o.block)
    case 0x11 => OffsetAtSf(RegNo(o.u0), o.s)
    case 0x12 => DefCfaSf(RegNo(o.u0), o.s)
    case 0x13 => DefCfaOffsetSf(o.s)
    case 0x14 => ValOffset(RegNo(o.u0), o.u1)
    case 0x15 => ValOffsetSf(RegNo(o.u0), o.s)
    case 0x16 => ValExpression(o.u0, o.block)
    case 0x2e => ArgsSize(o.u0)
    case 0x34 => MetawareInfo(o.u0)
    case _ => NoEffect
  }

  datatype Read = NotRead | Operand(o: Operands, next: nat)

  function Stream(code: seq<Byte>, p: nat, final: nat): seq<Byte>
    requires p <= final <= |code|
  {
    code[p..final]
  }

  /** The operands behind an opcode; every one of them must end by "final". */
  function ReadOperands(code: seq<Byte>, p: nat, final: nat, shape: Shape): (r: Read)
    requires p <= final <= |code|
    ensures r.Operand? ==> p <= r.next <= final
  {
    match shape
    case Bare => Operand(NOTHING, p)
    case Fixed(n) => if p + n > final then NotRead else Operand(NOTHING.(u0 := FixedValue(code[p..p + n])), p + n)
    case U =>
      (match ReadU(Stream(code, p, final))
       case Fail => NotRead
       case Got(v, n) => Operand(NOTHING.(u0 := v), p + n))
    case S =>
      (match ReadS(Stream(code, p, final))
       case Fail => NotRead
       case Got(v, n) => Operand(NOTHING.(s := v), p + n))
    case UU =>
      (match ReadU(Stream(code, p, final))
       case Fail => NotRead
       case Got(v, n) =>
         match ReadU(Stream(code, p + n, final))
         case Fail => NotRead
         case Got(w, m) => Operand(NOTHING.(u0 := v, u1 := w), p + n + m))
    case US =>
      (match ReadU(Stream(code, p, final))
       case Fail => NotRead
       case Got(v, n) =>
         match ReadS(Stream(code, p + n, final))
         case Fail => NotRead
         case Got(w, m) => Operand(NOTHING.(u0 := v, s := w), p + n + m))
    case B =>
      (match ReadU(Stream(code, p, final))
       case Fail => NotRead
       case Got(len, n) =>
         if p + n + len > final then NotRead else Operand(NOTHING.(block := Block(len, p + n)), p + n + len))
    case UB =>
      (match ReadU(Stream(code, p, final))
       case Fail => NotRead
       case Got(v, n) =>
         match ReadU(Stream(code, p + n, final))
         case Fail => NotRead
         case Got(len, m) =>
           var q := p + n + m;
           if q + len > final then NotRead else Operand(NOTHING.(u0 := v, block := Block(len, q)), q + len))
  }

  datatype Dec = Undecodable | Instruction(op: Byte, operands: Operands, instr: Instr, next: nat)

  /** One instruction of a stream, or an unknown opcode or overlong operand. */
  function Decode(code: seq<Byte>, p: nat, final: nat, addressSize: nat): (r: Dec)
    requires p < final <= |code|
    ensures r.Instruction? ==> p < r.next <= final
    ensures r.Instruction? ==> r.instr == Build(code[p], r.operands) && r.op == Opcode(code[p])
  {
    match ShapeOf(Opcode(code[p]), addressSize)
    case None => Undecodable
    case Some(shape) =>
      match ReadOperands(code, p + 1, final, shape)
      case NotRead => Undecodable
      case Operand(o, next) => Instruction(Opcode(code[p]), o, Build(code[p], o), next)
  }

  // --------------------------------------------------------------- effects

  predicate IsMove(i: Instr) { i.Advance? || i.SetLoc? }

  predicate UsesFactor(i: Instr) {
    i.Advance? || i.OffsetAt? || i.OffsetAtSf? || i.DefCfa? || i.DefCfaSf? || i.DefCfaOffset?
    || i.DefCfaOffsetSf? || i.ValOffset? || i.ValOffsetSf?
  }

  /** Are the registers of the instruction in the table? The source register of
      DW_CFA_register may be one past it, and DW_CFA_val_offset_sf tests the
      register number 0 it works on. */
  predicate RegsFit(env: Env, i: Instr) {
    match i
    case InRegister(reg, from) => reg < env.regCount && from <= env.regCount
    case ValOffsetSf(_, _) => 0 < env.regCount
    case OffsetAt(reg, _) => reg < env.regCount
    case OffsetAtSf(reg, _) => reg < env.regCount
    case Restore(reg) => reg < env.regCount
    case Undefined(reg) => reg < env.regCount
    case SameValue(reg) => reg < env.regCount
    case DefCfa(reg, _) => reg < env.regCount
    case DefCfaSf(reg, _) => reg < env.regCount
    case DefCfaRegister(reg) => reg < env.regCount
    case Expression(reg, _) => reg < env.regCount
    case ValExpression(reg, _) => reg < env.regCount
    case ValOffset(reg, _) => reg < env.regCount
    case _ => true
  }

  function Scaled(env: Env, n: int): nat { Wrap64(n * env.DataFactor()) }

  function MovedTo(env: Env, loc: nat, i: Instr): nat
    requires IsMove(i)
  {
    match i
    case Advance(delta) => Wrap64(loc + Wrap64(delta * env.CodeFactor()))
    case SetLoc(addr) => addr
  }

  /** The new rule of the register the instruction writes, given its old rule. */
  function NewRule(env: Env, i: Instr, prior: Rule): Rule {
    match i
    case OffsetAt(_, n) =>
      prior.(isOffset := true, valueType := ExprOffset, register := env.cfaColumn, offset := Scaled(env, n))
    case OffsetAtSf(_, n) =>
      prior.(isOffset := true, valueType := ExprOffset, register := env.cfaColumn, offset := Scaled(env, n))
    case Undefined(_) => prior.(isOffset := false, valueType := ExprOffset, register := env.undefinedValue, offset := 0)
    case SameValue(_) => prior.(isOffset := false, valueType := ExprOffset, register := env.sameValue, offset := 0)
    case InRegister(_, from) => prior.(isOffset := false, valueType := ExprOffset, register := from, offset := 0)
    case Expression(_, block) => prior.(isOffset := false, valueType := ExprExpression, block := block)
    case ValExpression(_, block) => prior.(isOffset := false, valueType := ExprValExpression, offset := 0, block := block)
    case ValOffset(_, n) =>
      prior.(isOffset := true, register := env.cfaColumn, valueType := ExprValOffset, offset := Scaled(env, n))
    case ValOffsetSf(_, n) =>
      prior.(isOffset := true, valueType := ExprValOffset, offset := Scaled(env, n))
    case _ => prior
  }

  /** The register whose rule the instruction rewrites by NewRule, if any: for
      DW_CFA_val_offset_sf the code never looks at the operand. */
  function Target(i: Instr): Option<nat> {
    match i
    case OffsetAt(reg, _) => Some(reg)
    case OffsetAtSf(reg, _) => Some(reg)
    case Undefined(reg) => Some(reg)
    case SameValue(reg) => Some(reg)
    case InRegister(reg, _) => Some(reg)
    case Expression(reg, _) => Some(reg)
    case ValExpression(reg, _) => Some(reg)
    case ValOffset(reg, _) => Some(reg)
    case ValOffsetSf(_, _) => Some(0)
    case _ => None
  }

  function NewCfa(env: Env, i: Instr, cfa: Rule): Rule {
    match i
    case DefCfa(reg, n) => cfa.(isOffset := true, valueType := ExprOffset, register := reg, offset := n)
    case DefCfaSf(reg, n) => cfa.(isOffset := true, valueType := ExprOffset, register := reg, offset := Scaled(env, n))
    case DefCfaRegister(reg) => cfa.(register := reg)
    case DefCfaOffset(n) => cfa.(isOffset := true, valueType := ExprOffset, offset := n)
    case DefCfaOffsetSf(n) => cfa.(isOffset := true, valueType := ExprOffset, offset := Scaled(env, n))
    case MetawareInfo(n) => cfa.(isOffset := true, valueType := ExprOffset, offset := n)
    case DefCfaExpression(block) => cfa.(isOffset := false, valueType := ExprExpression, block := block)
    case _ => cfa
  }

  predicate Fits(env: Env, st: State) {
    |st.row.regs| == env.regCount && forall r :: r in st.stack ==> |r.regs| == env.regCount
  }

  /** One instruction; None is an error. */
  function Step(env: Env, st: State, i: Instr): (r: Option<State>)
    requires env.Valid() && Fits(env, st)
    ensures r.Some? ==> Fits(env, r.value)
  {
    if env.NeedAugmentation() && UsesFactor(i) then None
    else if !RegsFit(env, i) then None
    else if IsMove(i) then
      if i.SetLoc? && i.addr != 0 && st.loc != 0 && i.addr <= st.loc then None
      else Some(st.(loc := MovedTo(env, st.loc, i)))
    else if i.Restore? then
      if env.initial.Some? then
        Some(st.(row := st.row.(regs := st.row.regs[i.reg := env.initial.value.regs[i.reg]])))
      else if !env.makeInstr then None else Some(st)
    else if i.RememberState? then Some(st.(stack := [st.row] + st.stack))
    else if i.RestoreState? then
      if st.stack == [] then None else Some(st.(row := st.stack[0], stack := st.stack[1..]))
    else
      var regs := if Target(i).Some? then
          st.row.regs[Target(i).value := NewRule(env, i, st.row.regs[Target(i).value])]
        else st.row.regs;
      Some(st.(row := Row(regs, NewCfa(env, i, st.row.cfa))))
  }

  /** Running decoded instructions to the end. */
  function RunProg(env: Env, st: State, prog: seq<Instr>): (r: Option<State>)
    requires env.Valid() && Fits(env, st)
    ensures r.Some? ==> Fits(env, r.value)
    decreases |prog|
  {
    if prog == [] then Some(st)
    else match Step(env, st, prog[0])
      case None => None
      case Some(st') => RunProg(env, st', prog[1..])
  }

  /** How an execution ends: with an error, or with the state reached, whether
      rows remain beyond it, and the location of the next one. */
  datatype Outcome = Failure | Reached(st: State, more: bool, subsequent: nat)

  /** _dwarf_exec_frame_instr on a stream: with a search pc it stops before the
      first move beyond that pc. */
  function Exec(env: Env, code: seq<Byte>, p: nat, final: nat, search: Option<nat>, st: State): (r: Outcome)
    requires env.Valid() && Fits(env, st) && p <= final <= |code|
    ensures r.Reached? ==> Fits(env, r.st)
    ensures r.Reached? && r.more ==> search.Some? && search.value < r.subsequent
    decreases final - p
  {
    if p == final then Reached(st, false, 0)
    else match Decode(code, p, final, env.addressSize)
      case Undecodable => Failure
      case Instruction(_, _, i, next) =>
        match Step(env, st, i)
        case None => Failure
        case Some(st') =>
          if search.Some? && IsMove(i) && st'.loc > search.value then Reached(st, true, st'.loc)
          else Exec(env, code, next, final, search, st')
  }

  lemma ExecCons(env: Env, code: seq<Byte>, p: nat, final: nat, search: Option<nat>, st: State)
    requires env.Valid() && Fits(env, st) && p < final <= |code|
    ensures var d := Decode(code, p, final, env.addressSize);
      Exec(env, code, p, final, search, st) ==
      if d.Undecodable? || Step(env, st, d.instr).None? then Failure
      else
        var st' := Step(env, st, d.instr).value;
        if search.Some? && IsMove(d.instr) && st'.loc > search.value then Reached(st, true, st'.loc)
        else Exec(env, code, d.next, final, search, st')
  {
    hide Decode, Step;
  }

  // ------------------------------------------------- streams as instruction lists

  datatype Placed = Placed(at: nat, next: nat, instr: Instr)

  /** The whole stream decoded, if that is possible. */
  function Program(code: seq<Byte>, p: nat, final: nat, addressSize: nat): Option<seq<Placed>>
    requires p <= final <= |code|
    decreases final - p
  {
    if p == final then Some([])
    else match Decode(code, p, final, addressSize)
      case Undecodable => None
      case Instruction(_, _, i, next) =>
        match Program(code, next, final, addressSize)
        case None => None
        case Some(pp) => Some([Placed(p, next, i)] + pp)
  }

  function Instrs(pp: seq<Placed>): (s: seq<Instr>)
    ensures |s| == |pp| && forall i :: 0 <= i < |pp| ==> s[i] == pp[i].instr
  {
    seq(|pp|, i requires 0 <= i < |pp| => pp[i].instr)
  }

  /** The decoded instructions cover the stream byte for byte. */
  lemma {:induction false} ProgramTiles(code: seq<Byte>, p: nat, final: nat, addressSize: nat)
    requires p <= final <= |code| && Program(code, p, final, addressSize).Some?
    ensures var pp := Program(code, p, final, addressSize).value;
      && (pp == [] <==> p == final)
      && (pp != [] ==> pp[0].at == p && pp[|pp| - 1].next == final)
      && (forall i :: 0 <= i < |pp| ==> pp[i].at < pp[i].next)
      && (forall i :: 0 < i < |pp| ==> pp[i].at == pp[i - 1].next)
    decreases final - p
  {
    hide Decode;
    if p < final {
      var next := Decode(code, p, final, addressSize).next;
      ProgramTiles(code, next, final, addressSize);
    }
  }

  /** Executing a decodable stream to its end is running its instructions. */
  lemma {:induction false} ExecIsRun(env: Env, code: seq<Byte>, p: nat, final: nat, st: State)
    requires env.Valid() && Fits(env, st) && p <= final <= |code|
    requires Program(code, p, final, env.addressSize).Some?
    ensures Exec(env, code, p, final, None, st)
      == match RunProg(env, st, Instrs(Program(code, p, final, env.addressSize).value))
         case None => Failure
         case Some(st') => Reached(st', false, 0)
    decreases final - p
  {
    hide Decode, Step;
    if p < final {
      var d := Decode(code, p, final, env.addressSize);
      var pp := Program(code, d.next, final, env.addressSize).value;
      assert Instrs([Placed(p, d.next, d.instr)] + pp)[1..] == Instrs(pp);
      var st' := Step(env, st, d.instr);
      if st'.Some? { ExecIsRun(env, code, d.next, final, st'.value); }
    }
  }

  /** An execution to the end succeeds only on a decodable stream. */
  lemma {:induction false} ExecDecodes(env: Env, code: seq<Byte>, p: nat, final: nat, st: State)
    requires env.Valid() && Fits(env, st) && p <= final <= |code|
    requires Exec(env, code, p, final, None, st).Reached?
    ensures Program(code, p, final, env.addressSize).Some?
    decreases final - p
  {
    hide Decode, Step;
    if p < final {
      var d := Decode(code, p, final, env.addressSize);
      ExecDecodes(env, code, d.next, final, Step(env, st, d.instr).value);
    }
  }

  lemma OperandsOn(code: seq<Byte>, p: nat, mid: nat, final: nat, shape: Shape)
    requires p <= mid <= final <= |code| && ReadOperands(code, p, mid, shape).Operand?
    ensures ReadOperands(code, p, final, shape) == ReadOperands(code, p, mid, shape)
  {
    hide ReadU, ReadS, Stream, FixedValue;
    StreamOn(code, p, mid, final);
    if shape.UU? || shape.US? || shape.UB? { StreamOn(code, p + ReadU(Stream(code, p, mid)).len, mid, final); }
  }

  lemma StreamOn(code: seq<Byte>, p: nat, mid: nat, final: nat)
    requires p <= mid <= final <= |code|
    ensures ReadU(Stream(code, p, mid)).Got? ==>
      ReadU(Stream(code, p, final)) == ReadU(Stream(code, p, mid)) && p + ReadU(Stream(code, p, mid)).len <= mid
    ensures ReadS(Stream(code, p, mid)).Got? ==> ReadS(Stream(code, p, final)) == ReadS(Stream(code, p, mid))
  {
    hide ReadU, ReadS;
    assert code[p..mid] + code[mid..final] == code[p..final];
    ReadsOn(code[p..mid], code[mid..final]);
  }

  /** What lies behind the move that a search stops at does not matter: even
      instructions that cannot be decoded. */
  lemma {:induction false} StopHidesTheRest(env: Env, code: seq<Byte>, p: nat, mid: nat, final: nat, pc: nat, st: State)
    requires env.Valid() && Fits(env, st) && p <= mid <= final <= |code|
    requires var r := Exec(env, code, p, mid, Some(pc), st); r.Reached? && r.more
    ensures Exec(env, code, p, final, Some(pc), st) == Exec(env, code, p, mid, Some(pc), st)
    decreases mid - p
  {
    hide ReadOperands, Step, ShapeOf, Build;
    var d := Decode(code, p, mid, env.addressSize);
    OperandsOn(code, p + 1, mid, final, ShapeOf(Opcode(code[p]), env.addressSize).value);
    var st' := Step(env, st, d.instr).value;
    if !IsMove(d.instr) || st'.loc <= pc { StopHidesTheRest(env, code, d.next, mid, final, pc, st'); }
  }
}
