/** What the rules in a row mean to a reader of them, and whether each instruction
    makes the rule it should (libdwarf/libdwarf.h, section 6.4.2 of DWARF 5). */
module FrameRules {
  import opened Common
  import opened FrameVm

  /** Register rules, section 6.4.1 of DWARF 5. */
  datatype Meaning =
    | NoValue
    | SameAsCaller
    | SavedAt(offset: int)
    | SumWith(offset: int)
    | InReg(reg: nat)
    | SavedAtExpr(expr: Block)
    | ValueOfExpr(expr: Block)

  predicate Placeholder(env: Env, register: nat) {
    register == env.undefinedValue || register == env.sameValue
  }

  /** The two placeholders can be told from each other and from the CFA column. */
  predicate Distinguished(env: Env) {
    env.undefinedValue != env.sameValue && !Placeholder(env, env.cfaColumn)
  }

  /** How a rule is documented to be read: the register number first, then the kind. */
  function MeaningOf(env: Env, r: Rule): Meaning {
    if r.register == env.undefinedValue then NoValue
    else if r.register == env.sameValue then SameAsCaller
    else match r.valueType
      case ExprOffset => if r.isOffset then SavedAt(AsSigned(Wrap64(r.offset))) else InReg(r.register)
      case ExprValOffset => SumWith(AsSigned(Wrap64(r.offset)))
      case ExprExpression => SavedAtExpr(r.block)
      case ExprValExpression => ValueOfExpr(r.block)
  }

  /** A factored operand: times the data alignment factor of the CIE, which counts only
      with an augmentation; as a signed 64-bit number. */
  function OffsetOf(env: Env, n: int): int {
    var u := (n * (if env.augmented then env.dataAlign else 1)) % 0x1_0000_0000_0000_0000;
    if u < 0x8000_0000_0000_0000 then u else u - 0x1_0000_0000_0000_0000
  }

  /** The register an instruction names and the rule it is to get, section 6.4.2.3
      of DWARF 5. */
  function Promised(env: Env, i: Instr): Option<(nat, Meaning)> {
    match i
    case Undefined(reg) => Some((reg, NoValue))
    case SameValue(reg) => Some((reg, SameAsCaller))
    case OffsetAt(reg, n) => Some((reg, SavedAt(OffsetOf(env, n))))
    case OffsetAtSf(reg, n) => Some((reg, SavedAt(OffsetOf(env, n))))
    case ValOffset(reg, n) => Some((reg, SumWith(OffsetOf(env, n))))
    case ValOffsetSf(reg, n) => Some((reg, SumWith(OffsetOf(env, n))))
    case InRegister(reg, from) => Some((reg, InReg(from)))
    case Expression(reg, b) => Some((reg, SavedAtExpr(b)))
    case ValExpression(reg, b) => Some((reg, ValueOfExpr(b)))
    case Restore(reg) =>
      if env.initial.Some? && reg < |env.initial.value.regs| then Some((reg, MeaningOf(env, env.initial.value.regs[reg])))
      else None
    case _ => None
  }

  /** When the promise is kept. The expression rules and DW_CFA_val_offset_sf leave
      the register number of the rule before, which may be a placeholder, and the
      latter works on register 0 whatever register is named. */
  predicate Kept(env: Env, st: State, i: Instr)
    requires env.Valid() && Fits(env, st)
    requires Promised(env, i).Some? ==> Promised(env, i).value.0 < env.regCount
  {
    match i
    case InRegister(_, from) => !Placeholder(env, from)
    case Expression(reg, _) => !Placeholder(env, st.row.regs[reg].register)
    case ValExpression(reg, _) => !Placeholder(env, st.row.regs[reg].register)
    case ValOffsetSf(reg, n) =>
      if reg == 0 then !Placeholder(env, st.row.regs[0].register)
      else MeaningOf(env, st.row.regs[reg]) == SumWith(OffsetOf(env, n))
    case _ => true
  }

  /** An instruction about a register gives that register the promised rule exactly
      when Kept says so, and changes nothing else (DW_CFA_val_offset_sf: nothing but
      register 0). */
  lemma MakesTheRule(env: Env, st: State, i: Instr)
    requires env.Valid() && Fits(env, st) && Distinguished(env)
    requires Step(env, st, i).Some? && Promised(env, i).Some? && Promised(env, i).value.0 < env.regCount
    ensures var (reg, m) := Promised(env, i).value;
      var st' := Step(env, st, i).value;
      && (MeaningOf(env, st'.row.regs[reg]) == m <==> Kept(env, st, i))
      && st' == st.(row := st.row.(regs := st'.row.regs))
      && forall r :: 0 <= r < env.regCount && r != (if i.ValOffsetSf? then 0 else reg) ==> st'.row.regs[r] == st.row.regs[r]
  {
    hide Wrap64, AsSigned, Scaled, OffsetOf;
    match i {
      case OffsetAt(_, n) => OffsetFits(env, n);
      case ValOffset(_, n) => OffsetFits(env, n);
      case OffsetAtSf(_, n) => OffsetFits(env, n);
      case ValOffsetSf(_, n) => OffsetFits(env, n);
      case _ =>
    }
  }

  /** What is stored for a factored operand reads as it should. */
  lemma OffsetFits(env: Env, n: int)
    ensures AsSigned(Wrap64(Scaled(env, n))) == OffsetOf(env, n)
  {}

  /** The stored rule field by field, with n the factored operand; "was" is the rule
      before, of which the instruction leaves what it does not set. */
  function StoredRule(env: Env, i: Instr, was: Rule, n: nat): Rule
    requires Promised(env, i).Some?
  {
    match i
    case OffsetAt(_, _) => Rule(true, ExprOffset, env.cfaColumn, n, was.block)
    case OffsetAtSf(_, _) => Rule(true, ExprOffset, env.cfaColumn, n, was.block)
    case ValOffset(_, _) => Rule(true, ExprValOffset, env.cfaColumn, n, was.block)
    case ValOffsetSf(_, _) => Rule(true, ExprValOffset, was.register, n, was.block)
    case Undefined(_) => Rule(false, ExprOffset, env.undefinedValue, 0, was.block)
    case SameValue(_) => Rule(false, ExprOffset, env.sameValue, 0, was.block)
    case InRegister(_, from) => Rule(false, ExprOffset, from, 0, was.block)
    case Expression(_, b) => Rule(false, ExprExpression, was.register, was.offset, b)
    case ValExpression(_, b) => Rule(false, ExprValExpression, was.register, 0, b)
    case Restore(reg) => env.initial.value.regs[reg]
  }

  function Operand(i: Instr): int {
    match i
    case OffsetAt(_, n) => n
    case OffsetAtSf(_, n) => n
    case ValOffset(_, n) => n
    case ValOffsetSf(_, n) => n
    case _ => 0
  }

  lemma StoresTheRule(env: Env, st: State, i: Instr)
    requires env.Valid() && Fits(env, st)
    requires Step(env, st, i).Some? && Promised(env, i).Some? && Promised(env, i).value.0 < env.regCount
    ensures var reg := if i.ValOffsetSf? then 0 else Promised(env, i).value.0;
      Step(env, st, i).value.row.regs[reg] == StoredRule(env, i, st.row.regs[reg],
        (Operand(i) * (if env.augmented then env.dataAlign else 1)) % 0x1_0000_0000_0000_0000)
  {}

  // ------------------------------------------------------- moves and errors

  /** Section 6.4.2.1 of DWARF 5: an advance adds its operand times the code alignment
      factor of the CIE, modulo 2^64; DW_CFA_set_loc gives the location outright.
      Nothing else changes. */
  lemma MovesTheLocation(env: Env, st: State, i: Instr)
    requires env.Valid() && Fits(env, st) && Step(env, st, i).Some? && (i.Advance? || i.SetLoc?)
    ensures var to := if i.Advance? then (st.loc + i.delta * (if env.augmented then env.codeAlign else 1)) % 0x1_0000_0000_0000_0000
                      else i.addr;
      Step(env, st, i).value == st.(loc := to)
  {
    if i.Advance? { SumModulo(st.loc, i.delta * (if env.augmented then env.codeAlign else 1)); }
  }

  lemma SumModulo(a: int, b: int)
    ensures (a + b % 0x1_0000_0000_0000_0000) % 0x1_0000_0000_0000_0000 == (a + b) % 0x1_0000_0000_0000_0000
  {}

  /** Instructions that only carry information. */
  lemma IdleSteps(env: Env, st: State, i: Instr)
    requires env.Valid() && Fits(env, st) && (i.NoEffect? || i.ArgsSize?)
    ensures Step(env, st, i) == Some(st)
  {}

  /** The row an execution starts from without an initial row: every register and the
      CFA have the initial rule. */
  lemma StartsDefault(env: Env, reg: nat)
    requires env.Valid() && reg < env.regCount && env.undefinedValue != env.sameValue
    ensures env.initial.None? ==> env.FirstRow() == env.DefaultRow()
    ensures env.initial.Some? ==> env.FirstRow() == env.initial.value
    ensures |env.DefaultRow().regs| == env.regCount
    ensures MeaningOf(env, env.DefaultRow().regs[reg])
         == if env.initialValue == env.undefinedValue then NoValue
            else if env.initialValue == env.sameValue then SameAsCaller
            else InReg(env.initialValue)
    ensures env.DefaultRow().cfa.register == env.initialValue && CfaOf(env.DefaultRow().cfa) == OtherCfa
  {}

  // ------------------------------------------------------------- the CFA

  datatype CfaMeaning = RegPlus(reg: nat, offset: int) | CfaExpr(expr: Block) | OtherCfa

  function CfaOf(r: Rule): CfaMeaning {
    if r.isOffset && r.valueType == ExprOffset then RegPlus(r.register, AsSigned(Wrap64(r.offset)))
    else if !r.isOffset && r.valueType == ExprExpression then CfaExpr(r.block)
    else OtherCfa
  }

  /** The CFA rule an instruction should leave, section 6.4.2.2 of DWARF 5; None
      where that section says nothing. */
  function PromisedCfa(env: Env, i: Instr, cfa: CfaMeaning): Option<CfaMeaning> {
    match i
    case DefCfa(reg, n) => Some(RegPlus(reg, AsSigned(Wrap64(n))))
    case DefCfaSf(reg, n) => Some(RegPlus(reg, OffsetOf(env, n)))
    case DefCfaRegister(reg) => if cfa.RegPlus? then Some(RegPlus(reg, cfa.offset)) else None
    case DefCfaOffset(n) => if cfa.RegPlus? then Some(RegPlus(cfa.reg, AsSigned(Wrap64(n)))) else None
    case DefCfaOffsetSf(n) => if cfa.RegPlus? then Some(RegPlus(cfa.reg, OffsetOf(env, n))) else None
    case DefCfaExpression(b) => Some(CfaExpr(b))
    case MetawareInfo(n) => if cfa.RegPlus? then Some(RegPlus(cfa.reg, AsSigned(Wrap64(n)))) else None
    case _ => None
  }

  /** The CFA instructions leave the promised rule and touch nothing else. */
  lemma MakesTheCfa(env: Env, st: State, i: Instr)
    requires env.Valid() && Fits(env, st) && Step(env, st, i).Some?
    requires PromisedCfa(env, i, CfaOf(st.row.cfa)).Some?
    ensures var st' := Step(env, st, i).value;
      && CfaOf(st'.row.cfa) == PromisedCfa(env, i, CfaOf(st.row.cfa)).value
      && st' == st.(row := st.row.(cfa := st'.row.cfa))
  {
    hide Wrap64, AsSigned, Scaled, OffsetOf;
    match i {
      case DefCfaSf(_, n) => OffsetFits(env, n);
      case DefCfaOffsetSf(n) => OffsetFits(env, n);
      case _ =>
    }
  }

  /** The stored CFA rule field by field, whatever it was before. */
  function StoredCfa(i: Instr, was: Rule, factor: int): Rule {
    match i
    case DefCfa(reg, n) => Rule(true, ExprOffset, reg, n, was.block)
    case DefCfaSf(reg, n) => Rule(true, ExprOffset, reg, (n * factor) % 0x1_0000_0000_0000_0000, was.block)
    case DefCfaRegister(reg) => Rule(was.isOffset, was.valueType, reg, was.offset, was.block)
    case DefCfaOffset(n) => Rule(true, ExprOffset, was.register, n, was.block)
    case DefCfaOffsetSf(n) => Rule(true, ExprOffset, was.register, (n * factor) % 0x1_0000_0000_0000_0000, was.block)
    case MetawareInfo(n) => Rule(true, ExprOffset, was.register, n, was.block)
    case DefCfaExpression(b) => Rule(false, ExprExpression, was.register, was.offset, b)
    case _ => was
  }

  /** Instructions other than the pop leave this CFA rule. */
  lemma StoresTheCfa(env: Env, st: State, i: Instr)
    requires env.Valid() && Fits(env, st) && Step(env, st, i).Some? && !i.RestoreState?
    ensures Step(env, st, i).value.row.cfa == StoredCfa(i, st.row.cfa, if env.augmented then env.dataAlign else 1)
  {}

  /** The broken promise in the default setting: a register still at its initial rule
      that gets an expression rule is still read as at its initial rule. */
  lemma ExpressionUnread(env: Env, reg: nat, b: Block)
    requires env.Valid() && Distinguished(env) && env.initial.None? && reg < env.regCount
    requires Placeholder(env, env.initialValue)
    ensures var st := State(0, env.DefaultRow(), []);
      var r := Step(env, st, Expression(reg, b));
      && r.Some? && MeaningOf(env, r.value.row.regs[reg]) == MeaningOf(env, st.row.regs[reg])
      && MeaningOf(env, r.value.row.regs[reg]) != SavedAtExpr(b)
  {}
}
