/** Call-frame instructions as a producer encodes them (section 7.24 of DWARF 5),
    read back by the decoder of libdwarf/dwarf_frame.c. */
module FrameCode {
  import opened Common
  import opened Leb
  import opened Words
  import opened FrameVm

  /** An instruction, and the bytes of its expression if it has one. */
  datatype Source = Source(instr: Instr, data: seq<Byte>)

  predicate RegFits(reg: nat) { reg < 0x1_0000_0000 }

  /** Operands are 64-bit numbers, registers 32-bit, addresses as wide as they are. */
  predicate Fits64(i: Instr, addressSize: nat) {
    match i
    case Advance(d) => IsU64(d)
    case SetLoc(addr) => addressSize <= 8 && addr < Bound(addressSize)
    case OffsetAt(reg, n) => RegFits(reg) && IsU64(n)
    case OffsetAtSf(reg, sn) => RegFits(reg) && IsS64(sn)
    case Restore(reg) => RegFits(reg)
    case Undefined(reg) => RegFits(reg)
    case SameValue(reg) => RegFits(reg)
    case InRegister(reg, from) => RegFits(reg) && RegFits(from)
    case DefCfa(reg, n) => RegFits(reg) && IsU64(n)
    case DefCfaSf(reg, sn) => RegFits(reg) && IsS64(sn)
    case DefCfaRegister(reg) => RegFits(reg)
    case DefCfaOffset(n) => IsU64(n)
    case DefCfaOffsetSf(sn) => IsS64(sn)
    case Expression(reg, _) => IsU64(reg)
    case ValExpression(reg, _) => IsU64(reg)
    case ValOffset(reg, n) => RegFits(reg) && IsU64(n)
    case ValOffsetSf(reg, sn) => RegFits(reg) && IsS64(sn)
    case MetawareInfo(n) => IsU64(n)
    case ArgsSize(n) => IsU64(n)
    case _ => true
  }

  /** The opcode byte and the operands of an instruction, in its shortest form; the
      bytes of an expression follow its length. */
  function Header(i: Instr, addressSize: nat): (s: seq<Byte>)
    requires Fits64(i, addressSize)
    ensures s != []
  {
    match i
    case Advance(d) =>
      if d < 64 then [0x40 + d]
      else if d < 0x100 then [0x02] + EncFixed(d, 1)
      else if d < 0x1_0000 then [0x03] + EncFixed(d, 2)
      else if d < 0x1_0000_0000 then [0x04] + EncFixed(d, 4)
      else [0x1d] + EncFixed(d, 8)
    case SetLoc(addr) => [0x01] + EncFixed(addr, addressSize)
    case OffsetAt(reg, n) => if reg < 64 then [0x80 + reg] + EncU(n) else [0x05] + (EncU(reg) + EncU(n))
    case OffsetAtSf(reg, sn) => [0x11] + (EncU(reg) + EncS(sn))
    case Restore(reg) => if reg < 64 then [0xc0 + reg] else [0x06] + EncU(reg)
    case Undefined(reg) => [0x07] + EncU(reg)
    case SameValue(reg) => [0x08] + EncU(reg)
    case InRegister(reg, from) => [0x09] + (EncU(reg) + EncU(from))
    case RememberState => [0x0a]
    case RestoreState => [0x0b]
    case DefCfa(reg, n) => [0x0c] + (EncU(reg) + EncU(n))
    case DefCfaSf(reg, sn) => [0x12] + (EncU(reg) + EncS(sn))
    case DefCfaRegister(reg) => [0x0d] + EncU(reg)
    case DefCfaOffset(n) => [0x0e] + EncU(n)
    case DefCfaOffsetSf(sn) => [0x13] + EncS(sn)
    case DefCfaExpression(b) => [0x0f] + EncU(b.len)
    case Expression(reg, b) => [0x10] + (EncU(reg) + EncU(b.len))
    case ValExpression(reg, b) => [0x16] + (EncU(reg) + EncU(b.len))
    case ValOffset(reg, n) => [0x14] + (EncU(reg) + EncU(n))
    case ValOffsetSf(reg, sn) => [0x15] + (EncU(reg) + EncS(sn))
    case MetawareInfo(n) => [0x34] + EncU(n)
    case ArgsSize(n) => [0x2e] + EncU(n)
    case NoEffect => [0x00]
  }

  function BlockOf(i: Instr): Block {
    match i
    case DefCfaExpression(b) => b
    case Expression(_, b) => b
    case ValExpression(_, b) => b
    case _ => Block(0, 0)
  }

  /** The instruction with its expression bytes at position q. */
  function Located(i: Instr, q: nat): Instr {
    match i
    case DefCfaExpression(b) => DefCfaExpression(b.(data := q))
    case Expression(reg, b) => Expression(reg, b.(data := q))
    case ValExpression(reg, b) => ValExpression(reg, b.(data := q))
    case _ => i
  }

  predicate Encodable(s: Source, addressSize: nat) {
    Fits64(s.instr, addressSize) && BlockOf(s.instr).len == |s.data| < TWO64
  }

  predicate AllEncodable(ss: seq<Source>, addressSize: nat) { forall i :: 0 <= i < |ss| ==> Encodable(ss[i], addressSize) }

  /** Do the operands fit their layout, with nothing in the fields it does not have? */
  predicate OperandsFit(shape: Shape, o: Operands) {
    match shape
    case Bare => o == NOTHING
    case Fixed(n) => n <= 8 && o.u0 < Bound(n) && o == NOTHING.(u0 := o.u0)
    case U => IsU64(o.u0) && o == NOTHING.(u0 := o.u0)
    case S => IsS64(o.s) && o == NOTHING.(s := o.s)
    case UU => IsU64(o.u0) && IsU64(o.u1) && o == NOTHING.(u0 := o.u0, u1 := o.u1)
    case US => IsU64(o.u0) && IsS64(o.s) && o == NOTHING.(u0 := o.u0, s := o.s)
    case B => IsU64(o.block.len) && o == NOTHING.(block := o.block)
    case UB => IsU64(o.u0) && IsU64(o.block.len) && o == NOTHING.(u0 := o.u0, block := o.block)
  }

  function EncOperands(shape: Shape, o: Operands): seq<Byte>
    requires OperandsFit(shape, o)
  {
    match shape
    case Bare => []
    case Fixed(n) => EncFixed(o.u0, n)
    case U => EncU(o.u0)
    case S => EncS(o.s)
    case UU => EncU(o.u0) + EncU(o.u1)
    case US => EncU(o.u0) + EncS(o.s)
    case B => EncU(o.block.len)
    case UB => EncU(o.u0) + EncU(o.block.len)
  }

  predicate HasBlock(shape: Shape) { shape.B? || shape.UB? }

  lemma ReadsUnsigned(code: seq<Byte>, p: nat, final: nat, v: nat)
    requires IsU64(v) && At(code, p, EncU(v)) && p + |EncU(v)| <= final <= |code|
    ensures ReadU(Stream(code, p, final)) == Got(v, |EncU(v)|)
  {
    hide EncU, ReadU;
    var e := EncU(v);
    RoundTripU(v, code[p + |e|..final]);
    assert code[p..final] == e + code[p + |e|..final];
  }

  lemma ReadsSigned(code: seq<Byte>, p: nat, final: nat, v: int)
    requires IsS64(v) && At(code, p, EncS(v)) && p + |EncS(v)| <= final <= |code|
    ensures ReadS(Stream(code, p, final)) == Got(v, |EncS(v)|)
  {
    hide EncS, ReadS;
    var e := EncS(v);
    RoundTripS(v, code[p + |e|..final]);
    assert code[p..final] == e + code[p + |e|..final];
  }

  lemma OperandsReadBack(code: seq<Byte>, p: nat, final: nat, shape: Shape, o: Operands, dataLen: nat)
    requires OperandsFit(shape, o) && At(code, p, EncOperands(shape, o))
    requires dataLen == if HasBlock(shape) then o.block.len else 0
    requires p + |EncOperands(shape, o)| + dataLen <= final <= |code|
    ensures var q := p + |EncOperands(shape, o)|;
      ReadOperands(code, p, final, shape)
      == Operand(if HasBlock(shape) then o.(block := Block(o.block.len, q)) else o, q + dataLen)
  {
    hide ReadU, ReadS, EncU, EncS, FixedValue, EncFixed, Stream;
    match shape {
      case Bare =>
      case Fixed(n) => FixedRoundTrip(o.u0, n);
      case U => ReadsUnsigned(code, p, final, o.u0);
      case S => ReadsSigned(code, p, final, o.s);
      case UU =>
        AtSplit(code, p, EncU(o.u0), EncU(o.u1));
        ReadsUnsigned(code, p, final, o.u0);
        ReadsUnsigned(code, p + |EncU(o.u0)|, final, o.u1);
      case US =>
        AtSplit(code, p, EncU(o.u0), EncS(o.s));
        ReadsUnsigned(code, p, final, o.u0);
        ReadsSigned(code, p + |EncU(o.u0)|, final, o.s);
      case B => ReadsUnsigned(code, p, final, o.block.len);
      case UB =>
        AtSplit(code, p, EncU(o.u0), EncU(o.block.len));
        ReadsUnsigned(code, p, final, o.u0);
        ReadsUnsigned(code, p + |EncU(o.u0)|, final, o.block.len);
    }
  }

  /** The opcode byte and the operands it comes with, as the decoder sees them. */
  function Chosen(i: Instr): (Byte, Operands) {
    match i
    case Advance(d) =>
      if d < 64 then (0x40 + d, NOTHING)
      else
        var o := NOTHING.(u0 := d);
        if d < 0x100 then (0x02, o)
        else if d < 0x1_0000 then (0x03, o)
        else if d < 0x1_0000_0000 then (0x04, o)
        else (0x1d, o)
    case SetLoc(addr) => (0x01, NOTHING.(u0 := addr))
    case OffsetAt(reg, n) =>
      if reg < 64 then (0x80 + reg, NOTHING.(u0 := n)) else (0x05, NOTHING.(u0 := reg, u1 := n))
    case OffsetAtSf(reg, sn) => (0x11, NOTHING.(u0 := reg, s := sn))
    case Restore(reg) => if reg < 64 then (0xc0 + reg, NOTHING) else (0x06, NOTHING.(u0 := reg))
    case Undefined(reg) => (0x07, NOTHING.(u0 := reg))
    case SameValue(reg) => (0x08, NOTHING.(u0 := reg))
    case InRegister(reg, from) => (0x09, NOTHING.(u0 := reg, u1 := from))
    case RememberState => (0x0a, NOTHING)
    case RestoreState => (0x0b, NOTHING)
    case DefCfa(reg, n) => (0x0c, NOTHING.(u0 := reg, u1 := n))
    case DefCfaSf(reg, sn) => (0x12, NOTHING.(u0 := reg, s := sn))
    case DefCfaRegister(reg) => (0x0d, NOTHING.(u0 := reg))
    case DefCfaOffset(n) => (0x0e, NOTHING.(u0 := n))
    case DefCfaOffsetSf(sn) => (0x13, NOTHING.(s := sn))
    case DefCfaExpression(b) => (0x0f, NOTHING.(block := b))
    case Expression(reg, b) => (0x10, NOTHING.(u0 := reg, block := b))
    case ValExpression(reg, b) => (0x16, NOTHING.(u0 := reg, block := b))
    case ValOffset(reg, n) => (0x14, NOTHING.(u0 := reg, u1 := n))
    case ValOffsetSf(reg, sn) => (0x15, NOTHING.(u0 := reg, s := sn))
    case MetawareInfo(n) => (0x34, NOTHING.(u0 := n))
    case ArgsSize(n) => (0x2e, NOTHING.(u0 := n))
    case NoEffect => (0x00, NOTHING)
  }

  /** The opcode has a layout for the operands, they are what was written, and are
      built into the instruction again. */
  predicate ChosenOk(i: Instr, addressSize: nat, dataLen: nat, q: nat)
    requires Fits64(i, addressSize)
  {
    var (b, o) := Chosen(i);
    var shape := ShapeOf(Opcode(b), addressSize);
    && shape.Some? && OperandsFit(shape.value, o)
    && (HasBlock(shape.value) ==> o.block == BlockOf(i)) && (!HasBlock(shape.value) ==> dataLen == 0)
    && Header(i, addressSize) == [b] + EncOperands(shape.value, o)
    && Build(b, if HasBlock(shape.value) then o.(block := Block(dataLen, q)) else o) == Located(i, q)
  }

  lemma ChosenMoves(i: Instr, addressSize: nat, dataLen: nat, q: nat)
    requires Fits64(i, addressSize) && BlockOf(i).len == dataLen < TWO64
    requires i.Advance? || i.SetLoc?
    ensures ChosenOk(i, addressSize, dataLen, q)
  {
    hide EncU, EncS, EncFixed;
  }

  lemma ChosenShort(i: Instr, addressSize: nat, dataLen: nat, q: nat)
    requires Fits64(i, addressSize) && BlockOf(i).len == dataLen < TWO64
    requires i.OffsetAt? || i.Restore?
    ensures ChosenOk(i, addressSize, dataLen, q)
  {
    hide EncU, EncS, EncFixed;
  }

  lemma ChosenRules(i: Instr, addressSize: nat, dataLen: nat, q: nat)
    requires Fits64(i, addressSize) && BlockOf(i).len == dataLen < TWO64
    requires i.Undefined? || i.SameValue? || i.InRegister?
    ensures ChosenOk(i, addressSize, dataLen, q)
  {
    hide EncU, EncS, EncFixed;
  }

  lemma ChosenOffsets(i: Instr, addressSize: nat, dataLen: nat, q: nat)
    requires Fits64(i, addressSize) && BlockOf(i).len == dataLen < TWO64
    requires i.OffsetAtSf? || i.ValOffset? || i.ValOffsetSf?
    ensures ChosenOk(i, addressSize, dataLen, q)
  {
    hide EncU, EncS, EncFixed;
  }

  lemma ChosenCfa(i: Instr, addressSize: nat, dataLen: nat, q: nat)
    requires Fits64(i, addressSize) && BlockOf(i).len == dataLen < TWO64
    requires i.DefCfa? || i.DefCfaSf? || i.DefCfaRegister? || i.DefCfaOffset? || i.DefCfaOffsetSf?
    ensures ChosenOk(i, addressSize, dataLen, q)
  {
    hide EncU, EncS, EncFixed;
  }

  lemma ChosenBlocks(i: Instr, addressSize: nat, dataLen: nat, q: nat)
    requires Fits64(i, addressSize) && BlockOf(i).len == dataLen < TWO64
    requires i.DefCfaExpression? || i.Expression? || i.ValExpression?
    ensures ChosenOk(i, addressSize, dataLen, q)
  {
    hide EncU, EncS, EncFixed;
  }

  lemma ChosenOthers(i: Instr, addressSize: nat, dataLen: nat, q: nat)
    requires Fits64(i, addressSize) && BlockOf(i).len == dataLen < TWO64
    requires i.RememberState? || i.RestoreState? || i.MetawareInfo? || i.ArgsSize? || i.NoEffect?
    ensures ChosenOk(i, addressSize, dataLen, q)
  {
    hide EncU, EncS, EncFixed;
  }

  lemma ChosenBuilds(i: Instr, addressSize: nat, dataLen: nat, q: nat)
    requires Fits64(i, addressSize) && BlockOf(i).len == dataLen < TWO64
    ensures ChosenOk(i, addressSize, dataLen, q)
  {
    hide ChosenOk, Fits64, BlockOf, Header;
    match i {
      case Advance(_) => ChosenMoves(i, addressSize, dataLen, q);
      case SetLoc(_) => ChosenMoves(i, addressSize, dataLen, q);
      case OffsetAt(_, _) => ChosenShort(i, addressSize, dataLen, q);
      case Restore(_) => ChosenShort(i, addressSize, dataLen, q);
      case OffsetAtSf(_, _) => ChosenOffsets(i, addressSize, dataLen, q);
      case Undefined(_) => ChosenRules(i, addressSize, dataLen, q);
      case SameValue(_) => ChosenRules(i, addressSize, dataLen, q);
      case InRegister(_, _) => ChosenRules(i, addressSize, dataLen, q);
      case ValOffset(_, _) => ChosenOffsets(i, addressSize, dataLen, q);
      case ValOffsetSf(_, _) => ChosenOffsets(i, addressSize, dataLen, q);
      case DefCfaExpression(_) => ChosenBlocks(i, addressSize, dataLen, q);
      case Expression(_, _) => ChosenBlocks(i, addressSize, dataLen, q);
      case ValExpression(_, _) => ChosenBlocks(i, addressSize, dataLen, q);
      case DefCfa(_, _) => ChosenCfa(i, addressSize, dataLen, q);
      case DefCfaSf(_, _) => ChosenCfa(i, addressSize, dataLen, q);
      case DefCfaRegister(_) => ChosenCfa(i, addressSize, dataLen, q);
      case DefCfaOffset(_) => ChosenCfa(i, addressSize, dataLen, q);
      case DefCfaOffsetSf(_) => ChosenCfa(i, addressSize, dataLen, q);
      case _ => ChosenOthers(i, addressSize, dataLen, q);
    }
  }

  function Enc(s: Source, addressSize: nat): (e: seq<Byte>)
    requires Encodable(s, addressSize)
    ensures e != []
  {
    Header(s.instr, addressSize) + s.data
  }

  /** Decoding an encoded instruction gives it back, and ends where it ends. */
  lemma DecodesBack(code: seq<Byte>, p: nat, final: nat, s: Source, addressSize: nat)
    requires Encodable(s, addressSize) && At(code, p, Enc(s, addressSize))
    requires p + |Enc(s, addressSize)| <= final <= |code|
    ensures var d := Decode(code, p, final, addressSize);
      && d.Instruction? && d.next == p + |Enc(s, addressSize)|
      && d.instr == Located(s.instr, p + |Header(s.instr, addressSize)|)
  {
    hide Build, ShapeOf, ReadOperands, EncOperands, OperandsFit, Fits64, Chosen, Located, BlockOf, HasBlock, Header;
    var h := Header(s.instr, addressSize);
    var q := p + |h|;
    ChosenBuilds(s.instr, addressSize, |s.data|, q);
    var (b, o) := Chosen(s.instr);
    var shape := ShapeOf(Opcode(b), addressSize).value;
    AtSplit(code, p, h, s.data);
    AtSplit(code, p, [b], EncOperands(shape, o));
    assert code[p] == code[p..p + 1][0] == b;
    OperandsReadBack(code, p + 1, final, shape, o, |s.data|);
  }

  /** The opcodes that nothing is done for, and the bytes that are no opcode. */
  lemma OtherOpcodes(code: seq<Byte>, p: nat, final: nat, addressSize: nat)
    requires p < final <= |code| && code[p] < 0x40
    ensures code[p] == 0x00 || code[p] == 0x1c || code[p] == 0x2d ==>
      Decode(code, p, final, addressSize) == Instruction(code[p], NOTHING, NoEffect, p + 1)
    ensures 0x17 <= code[p] <= 0x1b || 0x1e <= code[p] <= 0x2c || 0x2f <= code[p] <= 0x33 || code[p] >= 0x35 ==>
      Decode(code, p, final, addressSize) == Undecodable
  {
    hide ReadU, ReadS;
  }

  function EncAll(ss: seq<Source>, addressSize: nat): seq<Byte>
    requires AllEncodable(ss, addressSize)
  {
    if ss == [] then [] else Enc(ss[0], addressSize) + EncAll(ss[1..], addressSize)
  }

  /** Where the instructions are when they are encoded from p on. */
  function Places(ss: seq<Source>, p: nat, addressSize: nat): seq<Placed>
    requires AllEncodable(ss, addressSize)
  {
    if ss == [] then []
    else
      var next := p + |Enc(ss[0], addressSize)|;
      [Placed(p, next, Located(ss[0].instr, p + |Header(ss[0].instr, addressSize)|))] + Places(ss[1..], next, addressSize)
  }

  /** Every list of instructions, encoded anywhere in a section, is decoded to that
      list. */
  lemma {:induction false} ProgramRoundTrip(code: seq<Byte>, p: nat, ss: seq<Source>, addressSize: nat)
    requires AllEncodable(ss, addressSize) && At(code, p, EncAll(ss, addressSize))
    ensures Program(code, p, p + |EncAll(ss, addressSize)|, addressSize) == Some(Places(ss, p, addressSize))
    decreases |ss|
  {
    hide Enc, Header, Encodable, Located, Decode;
    if ss != [] {
      var e, rest := Enc(ss[0], addressSize), EncAll(ss[1..], addressSize);
      AtSplit(code, p, e, rest);
      DecodesBack(code, p, p + |e + rest|, ss[0], addressSize);
      ProgramRoundTrip(code, p + |e|, ss[1..], addressSize);
    }
  }
}
