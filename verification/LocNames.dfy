/** The operations of section 7.7.1 of DWARF 5 by name, with an encoding of their own,
    and what the reader makes of that (libdwarf/dwarf_locationop_read.c). */
module LocNames {
  import opened Common
  import opened Leb
  import opened Words
  import opened LocExpr

  /** The operations without operands, apart from the register and literal families. */
  datatype Stackop =
    | Deref | Dup | Drop | Over | Swap | Rot | Xderef | Abs | And | Div | Minus | Mod | Mul | Neg | Not | Or
    | Plus | Shl | Shr | Shra | Xor | Eq | Ge | Gt | Le | Lt | Ne | Nop | PushObjectAddress | FormTlsAddress
    | CallFrameCfa | StackValue | GnuPushTlsAddress | GnuUninit

  /** All operations but the two the reader mistakes. gnu selects the opcode used before
      DWARF 5. */
  datatype Named =
    | Stack(op: Stackop)
    | Lit(n: nat)
    | Addr(a: nat)
    | Const1u(v: nat)
    | Const1s(s: int)
    | Const2u(v: nat)
    | Const2s(s: int)
    | Const4u(v: nat)
    | Const4s(s: int)
    | Const8u(v: nat)
    | Const8s(s: int)
    | Constu(v: nat)
    | Consts(s: int)
    | Pick(i: nat)
    | PlusUconst(v: nat)
    | Bra(d: int)
    | Skip(d: int)
    | Reg(n: nat)
    | Breg(n: nat, offset: int)
    | Regx(reg: nat)
    | Fbreg(offset: int)
    | Bregx(reg: nat, offset: int)
    | Piece(n: nat)
    | DerefSize(n: nat)
    | XderefSize(n: nat)
    | Call2(die: nat)
    | Call4(die: nat)
    | CallRef(die: nat)
    | BitPiece(size: nat, from: nat)
    | ImplicitValue(data: seq<Byte>)
    | ImplicitPointer(die: nat, offset: int, gnu: bool)
    | Addrx(i: nat, gnu: bool)
    | Constx(i: nat, gnu: bool)
    | EntryValue(data: seq<Byte>, gnu: bool)
    | ConstType(die: nat, data: seq<Byte>, gnu: bool)
    | RegvalType(reg: nat, die: nat, gnu: bool)
    | DerefType(size: nat, die: nat, gnu: bool)
    | XderefType(size: nat, die: nat)
    | Convert(die: nat, gnu: bool)
    | Reinterpret(die: nat, gnu: bool)
    | ParameterRef(die: nat)

  /** A reference to a DIE in another unit: as wide as an address in DWARF 2. */
  function DieRefSize(cfg: Config): nat { if cfg.version == 2 then cfg.addressSize else cfg.offsetSize }

  function StackCode(op: Stackop): Byte {
    match op
    case Deref => 0x06 case Dup => 0x12 case Drop => 0x13 case Over => 0x14 case Swap => 0x16
    case Rot => 0x17 case Xderef => 0x18 case Abs => 0x19 case And => 0x1a case Div => 0x1b
    case Minus => 0x1c case Mod => 0x1d case Mul => 0x1e case Neg => 0x1f case Not => 0x20 case Or => 0x21
    case Plus => 0x22 case Shl => 0x24 case Shr => 0x25 case Shra => 0x26 case Xor => 0x27 case Eq => 0x29
    case Ge => 0x2a case Gt => 0x2b case Le => 0x2c case Lt => 0x2d case Ne => 0x2e case Nop => 0x96
    case PushObjectAddress => 0x97 case FormTlsAddress => 0x9b case CallFrameCfa => 0x9c
    case StackValue => 0x9f case GnuPushTlsAddress => 0xe0 case GnuUninit => 0xf0
  }

  predicate NamedFits(cfg: Config, o: Named) {
    match o
    case Stack(_) => true
    case Lit(n) => n < 32
    case Addr(a) => cfg.addressSize <= 8 && a < Bound(cfg.addressSize)
    case Const1u(v) => v < Bound(1)
    case Const1s(v) => FitsSigned(v, 1)
    case Const2u(v) => v < Bound(2)
    case Const2s(v) => FitsSigned(v, 2)
    case Const4u(v) => v < Bound(4)
    case Const4s(v) => FitsSigned(v, 4)
    case Const8u(v) => v < Bound(8)
    case Const8s(v) => FitsSigned(v, 8)
    case Constu(v) => IsU64(v)
    case Consts(v) => IsS64(v)
    case Pick(i) => i < 0x100
    case PlusUconst(v) => IsU64(v)
    case Bra(d) => FitsSigned(d, 2)
    case Skip(d) => FitsSigned(d, 2)
    case Reg(n) => n < 32
    case Breg(n, offset) => n < 32 && IsS64(offset)
    case Regx(reg) => IsU64(reg)
    case Fbreg(offset) => IsS64(offset)
    case Bregx(reg, offset) => IsU64(reg) && IsS64(offset)
    case Piece(n) => IsU64(n)
    case DerefSize(n) => n < 0x100
    case XderefSize(n) => n < 0x100
    case Call2(die) => die < Bound(2)
    case Call4(die) => die < Bound(4)
    case CallRef(die) => cfg.offsetSize <= 8 && die < Bound(cfg.offsetSize)
    case BitPiece(size, offset) => IsU64(size) && IsU64(offset)
    case ImplicitValue(data) => IsU64(|data|)
    case ImplicitPointer(die, offset, gnu) => DieRefSize(cfg) <= 8 && die < Bound(DieRefSize(cfg)) && IsS64(offset)
    case Addrx(i, gnu) => IsU64(i)
    case Constx(i, gnu) => IsU64(i)
    case EntryValue(data, gnu) => IsU64(|data|)
    case ConstType(die, data, gnu) => IsU64(die) && |data| < 0x100
    case RegvalType(reg, die, gnu) => IsU64(reg) && IsU64(die)
    case DerefType(size, die, gnu) => size < 0x100 && IsU64(die)
    case XderefType(size, die) => size < 0x100 && IsU64(die)
    case Convert(die, gnu) => IsU64(die)
    case Reinterpret(die, gnu) => IsU64(die)
    case ParameterRef(die) => die < Bound(4)
  }

  /** The bytes of an operation. */
  function Encode(cfg: Config, o: Named): (s: seq<Byte>)
    requires NamedFits(cfg, o)
  {
    match o
    case Stack(op) => [StackCode(op)]
    case Lit(n) => [0x30 + n]
    case Addr(a) => [0x03] + EncFixed(a, cfg.addressSize)
    case Const1u(v) => [0x08] + EncFixed(v, 1)
    case Const1s(v) => [0x09] + EncFixedSigned(v, 1)
    case Const2u(v) => [0x0a] + EncFixed(v, 2)
    case Const2s(v) => [0x0b] + EncFixedSigned(v, 2)
    case Const4u(v) => [0x0c] + EncFixed(v, 4)
    case Const4s(v) => [0x0d] + EncFixedSigned(v, 4)
    case Const8u(v) => [0x0e] + EncFixed(v, 8)
    case Const8s(v) => [0x0f] + EncFixedSigned(v, 8)
    case Constu(v) => [0x10] + EncU(v)
    case Consts(v) => [0x11] + EncS(v)
    case Pick(i) => [0x15] + EncFixed(i, 1)
    case PlusUconst(v) => [0x23] + EncU(v)
    case Bra(d) => [0x28] + EncFixedSigned(d, 2)
    case Skip(d) => [0x2f] + EncFixedSigned(d, 2)
    case Reg(n) => [if n < 32 then 0x50 + n else 0x50]
    case Breg(n, offset) => [if n < 32 then 0x70 + n else 0x70] + EncS(offset)
    case Regx(reg) => [0x90] + EncU(reg)
    case Fbreg(offset) => [0x91] + EncS(offset)
    case Bregx(reg, offset) => [0x92] + EncU(reg) + EncS(offset)
    case Piece(n) => [0x93] + EncU(n)
    case DerefSize(n) => [0x94] + EncFixed(n, 1)
    case XderefSize(n) => [0x95] + EncFixed(n, 1)
    case Call2(die) => [0x98] + EncFixed(die, 2)
    case Call4(die) => [0x99] + EncFixed(die, 4)
    case CallRef(die) => [0x9a] + EncFixed(die, cfg.offsetSize)
    case BitPiece(size, offset) => [0x9d] + EncU(size) + EncU(offset)
    case ImplicitValue(data) => [0x9e] + EncU(|data|) + data
    case ImplicitPointer(die, offset, gnu) =>
      [if gnu then 0xf2 else 0xa0] + EncFixed(die, DieRefSize(cfg)) + EncS(offset)
    case Addrx(i, gnu) => [if gnu then 0xfb else 0xa1] + EncU(i)
    case Constx(i, gnu) => [if gnu then 0xfc else 0xa2] + EncU(i)
    case EntryValue(data, gnu) => [if gnu then 0xf3 else 0xa3] + EncU(|data|) + data
    case ConstType(die, data, gnu) => [if gnu then 0xf4 else 0xa4] + EncU(die) + EncFixed(|data|, 1) + data
    case RegvalType(reg, die, gnu) => [if gnu then 0xf5 else 0xa5] + EncU(reg) + EncU(die)
    case DerefType(size, die, gnu) => [if gnu then 0xf6 else 0xa6] + EncFixed(size, 1) + EncU(die)
    case XderefType(size, die) => [0xa7] + EncFixed(size, 1) + EncU(die)
    case Convert(die, gnu) => [if gnu then 0xf7 else 0xa8] + EncU(die)
    case Reinterpret(die, gnu) => [if gnu then 0xf9 else 0xa9] + EncU(die)
    case ParameterRef(die) => [0xfa] + EncFixed(die, 4)
  }

  /** What a reader should be told: the opcode and the operands as 64-bit patterns, or
      where their bytes are; nothing in the fields that are left. */
  predicate Means(bytes: seq<Byte>, r: LocOp, o: Named) {
    match o
    case Stack(op) => r.atom == StackCode(op) && r.n1 == 0 && r.n2 == 0 && r.n3 == 0
    case Lit(n) => r.atom == 0x30 + n && r.n1 == n && r.n2 == 0 && r.n3 == 0
    case Addr(a) =>
      r.atom == 0x03 && r.n1 == Wrap64(a) && r.n2 == 0 && r.n3 == 0
    case Const1u(v) =>
      r.atom == 0x08 && r.n1 == Wrap64(v) && r.n2 == 0 && r.n3 == 0
    case Const1s(v) =>
      r.atom == 0x09 && r.n1 == Wrap64(v) && r.n2 == 0 && r.n3 == 0
    case Const2u(v) =>
      r.atom == 0x0a && r.n1 == Wrap64(v) && r.n2 == 0 && r.n3 == 0
    case Const2s(v) =>
      r.atom == 0x0b && r.n1 == Wrap64(v) && r.n2 == 0 && r.n3 == 0
    case Const4u(v) =>
      r.atom == 0x0c && r.n1 == Wrap64(v) && r.n2 == 0 && r.n3 == 0
    case Const4s(v) =>
      r.atom == 0x0d && r.n1 == Wrap64(v) && r.n2 == 0 && r.n3 == 0
    case Const8u(v) =>
      r.atom == 0x0e && r.n1 == Wrap64(v) && r.n2 == 0 && r.n3 == 0
    case Const8s(v) =>
      r.atom == 0x0f && r.n1 == Wrap64(v) && r.n2 == 0 && r.n3 == 0
    case Constu(v) =>
      r.atom == 0x10 && r.n1 == Wrap64(v) && r.n2 == 0 && r.n3 == 0
    case Consts(v) =>
      r.atom == 0x11 && r.n1 == Wrap64(v) && r.n2 == 0 && r.n3 == 0
    case Pick(i) =>
      r.atom == 0x15 && r.n1 == Wrap64(i) && r.n2 == 0 && r.n3 == 0
    case PlusUconst(v) =>
      r.atom == 0x23 && r.n1 == Wrap64(v) && r.n2 == 0 && r.n3 == 0
    case Bra(d) =>
      r.atom == 0x28 && r.n1 == Wrap64(d) && r.n2 == 0 && r.n3 == 0
    case Skip(d) =>
      r.atom == 0x2f && r.n1 == Wrap64(d) && r.n2 == 0 && r.n3 == 0
    case Reg(n) =>
      r.atom == (if n < 32 then 0x50 + n else 0x50) && r.n1 == 0 && r.n2 == 0 && r.n3 == 0
    case Breg(n, offset) =>
      r.atom == (if n < 32 then 0x70 + n else 0x70) && r.n1 == Wrap64(offset) && r.n2 == 0 && r.n3 == 0
    case Regx(reg) =>
      r.atom == 0x90 && r.n1 == Wrap64(reg) && r.n2 == 0 && r.n3 == 0
    case Fbreg(offset) =>
      r.atom == 0x91 && r.n1 == Wrap64(offset) && r.n2 == 0 && r.n3 == 0
    case Bregx(reg, offset) =>
      r.atom == 0x92 && r.n1 == Wrap64(reg) && r.n2 == Wrap64(offset) && r.n3 == 0
    case Piece(n) =>
      r.atom == 0x93 && r.n1 == Wrap64(n) && r.n2 == 0 && r.n3 == 0
    case DerefSize(n) =>
      r.atom == 0x94 && r.n1 == Wrap64(n) && r.n2 == 0 && r.n3 == 0
    case XderefSize(n) =>
      r.atom == 0x95 && r.n1 == Wrap64(n) && r.n2 == 0 && r.n3 == 0
    case Call2(die) =>
      r.atom == 0x98 && r.n1 == Wrap64(die) && r.n2 == 0 && r.n3 == 0
    case Call4(die) =>
      r.atom == 0x99 && r.n1 == Wrap64(die) && r.n2 == 0 && r.n3 == 0
    case CallRef(die) =>
      r.atom == 0x9a && r.n1 == Wrap64(die) && r.n2 == 0 && r.n3 == 0
    case BitPiece(size, offset) =>
      r.atom == 0x9d && r.n1 == Wrap64(size) && r.n2 == Wrap64(offset) && r.n3 == 0
    case ImplicitValue(data) =>
      r.atom == 0x9e && r.n1 == Wrap64(|data|) && At(bytes, r.n2, data) && r.n3 == 0
    case ImplicitPointer(die, offset, gnu) =>
      r.atom == (if gnu then 0xf2 else 0xa0) && r.n1 == Wrap64(die) && r.n2 == Wrap64(offset) && r.n3 == 0
    case Addrx(i, gnu) =>
      r.atom == (if gnu then 0xfb else 0xa1) && r.n1 == Wrap64(i) && r.n2 == 0 && r.n3 == 0
    case Constx(i, gnu) =>
      r.atom == (if gnu then 0xfc else 0xa2) && r.n1 == Wrap64(i) && r.n2 == 0 && r.n3 == 0
    case EntryValue(data, gnu) =>
      r.atom == (if gnu then 0xf3 else 0xa3) && r.n1 == Wrap64(|data|) && At(bytes, r.n2, data) && r.n3 == 0
    case ConstType(die, data, gnu) =>
      r.atom == (if gnu then 0xf4 else 0xa4) && r.n1 == Wrap64(die) && r.n2 == Wrap64(|data|) && At(bytes, r.n3, data)
    case RegvalType(reg, die, gnu) =>
      r.atom == (if gnu then 0xf5 else 0xa5) && r.n1 == Wrap64(reg) && r.n2 == Wrap64(die) && r.n3 == 0
    case DerefType(size, die, gnu) =>
      r.atom == (if gnu then 0xf6 else 0xa6) && r.n1 == Wrap64(size) && r.n2 == Wrap64(die) && r.n3 == 0
    case XderefType(size, die) =>
      r.atom == 0xa7 && r.n1 == Wrap64(size) && r.n2 == Wrap64(die) && r.n3 == 0
    case Convert(die, gnu) =>
      r.atom == (if gnu then 0xf7 else 0xa8) && r.n1 == Wrap64(die) && r.n2 == 0 && r.n3 == 0
    case Reinterpret(die, gnu) =>
      r.atom == (if gnu then 0xf9 else 0xa9) && r.n1 == Wrap64(die) && r.n2 == 0 && r.n3 == 0
    case ParameterRef(die) =>
      r.atom == 0xfa && r.n1 == Wrap64(die) && r.n2 == 0 && r.n3 == 0
  }

  // ------------------------------------------- through the table of layouts

  function OpcodeOf(o: Named): Byte {
    match o
    case Stack(op) => StackCode(op)
    case Lit(n) => if n < 32 then 0x30 + n else 0x30
    case Addr(a) => 0x03
    case Const1u(v) => 0x08
    case Const1s(v) => 0x09
    case Const2u(v) => 0x0a
    case Const2s(v) => 0x0b
    case Const4u(v) => 0x0c
    case Const4s(v) => 0x0d
    case Const8u(v) => 0x0e
    case Const8s(v) => 0x0f
    case Constu(v) => 0x10
    case Consts(v) => 0x11
    case Pick(i) => 0x15
    case PlusUconst(v) => 0x23
    case Bra(d) => 0x28
    case Skip(d) => 0x2f
    case Reg(n) => if n < 32 then 0x50 + n else 0x50
    case Breg(n, offset) => if n < 32 then 0x70 + n else 0x70
    case Regx(reg) => 0x90
    case Fbreg(offset) => 0x91
    case Bregx(reg, offset) => 0x92
    case Piece(n) => 0x93
    case DerefSize(n) => 0x94
    case XderefSize(n) => 0x95
    case Call2(die) => 0x98
    case Call4(die) => 0x99
    case CallRef(die) => 0x9a
    case BitPiece(size, offset) => 0x9d
    case ImplicitValue(data) => 0x9e
    case ImplicitPointer(die, offset, gnu) => if gnu then 0xf2 else 0xa0
    case Addrx(i, gnu) => if gnu then 0xfb else 0xa1
    case Constx(i, gnu) => if gnu then 0xfc else 0xa2
    case EntryValue(data, gnu) => if gnu then 0xf3 else 0xa3
    case ConstType(die, data, gnu) => if gnu then 0xf4 else 0xa4
    case RegvalType(reg, die, gnu) => if gnu then 0xf5 else 0xa5
    case DerefType(size, die, gnu) => if gnu then 0xf6 else 0xa6
    case XderefType(size, die) => 0xa7
    case Convert(die, gnu) => if gnu then 0xf7 else 0xa8
    case Reinterpret(die, gnu) => if gnu then 0xf9 else 0xa9
    case ParameterRef(die) => 0xfa
  }

  function ArgsOf(o: Named): seq<Arg> {
    match o
    case Stack(_) => []
    case Lit(_) => []
    case Addr(a) => [Num(a)]
    case Const1u(v) => [Num(v)]
    case Const1s(v) => [Num(v)]
    case Const2u(v) => [Num(v)]
    case Const2s(v) => [Num(v)]
    case Const4u(v) => [Num(v)]
    case Const4s(v) => [Num(v)]
    case Const8u(v) => [Num(v)]
    case Const8s(v) => [Num(v)]
    case Constu(v) => [Num(v)]
    case Consts(v) => [Num(v)]
    case Pick(i) => [Num(i)]
    case PlusUconst(v) => [Num(v)]
    case Bra(d) => [Num(d)]
    case Skip(d) => [Num(d)]
    case Reg(n) => []
    case Breg(n, offset) => [Num(offset)]
    case Regx(reg) => [Num(reg)]
    case Fbreg(offset) => [Num(offset)]
    case Bregx(reg, offset) => [Num(reg), Num(offset)]
    case Piece(n) => [Num(n)]
    case DerefSize(n) => [Num(n)]
    case XderefSize(n) => [Num(n)]
    case Call2(die) => [Num(die)]
    case Call4(die) => [Num(die)]
    case CallRef(die) => [Num(die)]
    case BitPiece(size, offset) => [Num(size), Num(offset)]
    case ImplicitValue(data) => [Num(|data|), Data(data)]
    case ImplicitPointer(die, offset, gnu) => [Num(die), Num(offset)]
    case Addrx(i, gnu) => [Num(i)]
    case Constx(i, gnu) => [Num(i)]
    case EntryValue(data, gnu) => [Num(|data|), Data(data)]
    case ConstType(die, data, gnu) => [Num(die), Num(|data|), Data(data)]
    case RegvalType(reg, die, gnu) => [Num(reg), Num(die)]
    case DerefType(size, die, gnu) => [Num(size), Num(die)]
    case XderefType(size, die) => [Num(size), Num(die)]
    case Convert(die, gnu) => [Num(die)]
    case Reinterpret(die, gnu) => [Num(die)]
    case ParameterRef(die) => [Num(die)]
  }

  function KindsOf(cfg: Config, o: Named): seq<Kind> {
    match o
    case Stack(_) => []
    case Lit(_) => []
    case Addr(a) => [Fix(cfg.addressSize)]
    case Const1u(v) => [Fix(1)]
    case Const1s(v) => [FixS(1)]
    case Const2u(v) => [Fix(2)]
    case Const2s(v) => [FixS(2)]
    case Const4u(v) => [Fix(4)]
    case Const4s(v) => [FixS(4)]
    case Const8u(v) => [Fix(8)]
    case Const8s(v) => [FixS(8)]
    case Constu(v) => [ULeb]
    case Consts(v) => [SLeb]
    case Pick(i) => [Fix(1)]
    case PlusUconst(v) => [ULeb]
    case Bra(d) => [FixS(2)]
    case Skip(d) => [FixS(2)]
    case Reg(n) => []
    case Breg(n, offset) => [SLeb]
    case Regx(reg) => [ULeb]
    case Fbreg(offset) => [SLeb]
    case Bregx(reg, offset) => [ULeb, SLeb]
    case Piece(n) => [ULeb]
    case DerefSize(n) => [Fix(1)]
    case XderefSize(n) => [Fix(1)]
    case Call2(die) => [Fix(2)]
    case Call4(die) => [Fix(4)]
    case CallRef(die) => [Fix(cfg.offsetSize)]
    case BitPiece(size, offset) => [ULeb, ULeb]
    case ImplicitValue(data) => [ULeb, Bytes]
    case ImplicitPointer(die, offset, gnu) => [Fix(DieRefSize(cfg)), SLeb]
    case Addrx(i, gnu) => [ULeb]
    case Constx(i, gnu) => [ULeb]
    case EntryValue(data, gnu) => [ULeb, Bytes]
    case ConstType(die, data, gnu) => [ULeb, Fix(1), Bytes]
    case RegvalType(reg, die, gnu) => [ULeb, ULeb]
    case DerefType(size, die, gnu) => [Fix(1), ULeb]
    case XderefType(size, die) => [Fix(1), ULeb]
    case Convert(die, gnu) => [ULeb]
    case Reinterpret(die, gnu) => [ULeb]
    case ParameterRef(die) => [Fix(4)]
  }

  function AsOperation(o: Named): Operation { Operation(OpcodeOf(o), ArgsOf(o)) }

  lemma StackLayout(cfg: Config, op: Stackop)
    ensures LayoutOf(cfg, StackCode(op)) == Operands([])
  {}

  lemma ConstLayout(cfg: Config, o: Named)
    requires NamedFits(cfg, o)
    requires o.Addr? || o.Const1u? || o.Const1s? || o.Const2u? || o.Const2s? || o.Const4u? || o.Const4s? ||
      o.Const8u? || o.Const8s? || o.Constu? || o.Consts?
    ensures LayoutOf(cfg, OpcodeOf(o)) == Operands(KindsOf(cfg, o))
  {}

  lemma RegLayout(cfg: Config, o: Named)
    requires NamedFits(cfg, o)
    requires o.Reg? || o.Breg? || o.Regx? || o.Fbreg? || o.Bregx? || o.Pick? || o.PlusUconst? || o.Bra? ||
      o.Skip?
    ensures LayoutOf(cfg, OpcodeOf(o)) == Operands(KindsOf(cfg, o))
  {}

  lemma PieceLayout(cfg: Config, o: Named)
    requires NamedFits(cfg, o)
    requires o.Piece? || o.BitPiece? || o.DerefSize? || o.XderefSize?
    ensures LayoutOf(cfg, OpcodeOf(o)) == Operands(KindsOf(cfg, o))
  {}

  lemma CallLayout(cfg: Config, o: Named)
    requires NamedFits(cfg, o)
    requires o.Call2? || o.Call4? || o.CallRef? || o.ImplicitValue? || o.ImplicitPointer?
    ensures LayoutOf(cfg, OpcodeOf(o)) == Operands(KindsOf(cfg, o))
  {}

  lemma TypedLayout(cfg: Config, o: Named)
    requires NamedFits(cfg, o)
    requires o.Addrx? || o.Constx? || o.EntryValue?
    ensures LayoutOf(cfg, OpcodeOf(o)) == Operands(KindsOf(cfg, o))
  {}

  lemma RegTypeLayout(cfg: Config, o: Named)
    requires NamedFits(cfg, o)
    requires o.ConstType? || o.RegvalType?
    ensures LayoutOf(cfg, OpcodeOf(o)) == Operands(KindsOf(cfg, o))
  {}

  lemma MoreLayout(cfg: Config, o: Named)
    requires NamedFits(cfg, o)
    requires o.DerefType? || o.XderefType? || o.Convert? || o.Reinterpret? || o.ParameterRef?
    ensures LayoutOf(cfg, OpcodeOf(o)) == Operands(KindsOf(cfg, o))
  {}

  lemma NoArgsFit(count: nat)
    ensures ArgsFit([], [], count) && EncArgs([], [], count) == []
  {}

  lemma OneMoreFits(k: Kind, ks: seq<Kind>, a: Arg, args: seq<Arg>, count: nat)
    requires ArgFits(k, a, count) && ArgsFit(ks, args, CountOf(a)) && (k.Bytes? ==> ks == [])
    ensures ArgsFit([k] + ks, [a] + args, count)
    ensures EncArgs([k] + ks, [a] + args, count) == EncArg(k, a, count) + EncArgs(ks, args, CountOf(a))
  {
    hide ArgFits, EncArg, CountOf;
    assert ([k] + ks)[1..] == ks && ([a] + args)[1..] == args;
  }

  lemma Encodes0(cfg: Config, op: Operation)
    requires LayoutOf(cfg, op.atom) == Operands([]) && op.args == []
    ensures OpFits(cfg, op) && Enc(cfg, op) == [op.atom]
  {
    hide LayoutOf;
  }

  lemma Encodes1(cfg: Config, op: Operation, k: Kind)
    requires LayoutOf(cfg, op.atom) == Operands([k]) && |op.args| == 1 && ArgFits(k, op.args[0], 0)
    ensures OpFits(cfg, op) && Enc(cfg, op) == [op.atom] + EncArg(k, op.args[0], 0)
  {
    hide LayoutOf, EncArg, CountOf, ArgFits, ArgsFit, EncArgs;
    var a := op.args;
    NoArgsFit(CountOf(a[0]));
    OneMoreFits(k, [], a[0], [], 0);
    assert [k] + [] == [k] && [a[0]] + [] == a;
  }

  lemma Encodes2(cfg: Config, op: Operation, k: Kind, l: Kind)
    requires LayoutOf(cfg, op.atom) == Operands([k, l]) && |op.args| == 2 && !k.Bytes?
    requires ArgFits(k, op.args[0], 0) && ArgFits(l, op.args[1], CountOf(op.args[0]))
    ensures OpFits(cfg, op)
    ensures Enc(cfg, op) == [op.atom] + EncArg(k, op.args[0], 0) + EncArg(l, op.args[1], CountOf(op.args[0]))
  {
    hide LayoutOf, EncArg, CountOf, ArgFits, ArgsFit, EncArgs;
    var a := op.args;
    NoArgsFit(CountOf(a[1]));
    OneMoreFits(l, [], a[1], [], CountOf(a[0]));
    assert [l] + [] == [l] && [a[1]] + [] == [a[1]];
    OneMoreFits(k, [l], a[0], [a[1]], 0);
    assert [k] + [l] == [k, l] && [a[0]] + [a[1]] == a;
  }

  lemma Encodes3(cfg: Config, op: Operation, k: Kind, l: Kind, m: Kind)
    requires LayoutOf(cfg, op.atom) == Operands([k, l, m]) && |op.args| == 3 && !k.Bytes? && !l.Bytes?
    requires ArgFits(k, op.args[0], 0) && ArgFits(l, op.args[1], CountOf(op.args[0]))
    requires ArgFits(m, op.args[2], CountOf(op.args[1]))
    ensures OpFits(cfg, op)
    ensures Enc(cfg, op) == [op.atom] + EncArg(k, op.args[0], 0) + EncArg(l, op.args[1], CountOf(op.args[0]))
                            + EncArg(m, op.args[2], CountOf(op.args[1]))
  {
    hide LayoutOf, EncArg, CountOf, ArgFits, ArgsFit, EncArgs;
    var a := op.args;
    NoArgsFit(CountOf(a[2]));
    OneMoreFits(m, [], a[2], [], CountOf(a[1]));
    assert [m] + [] == [m] && [a[2]] + [] == [a[2]];
    OneMoreFits(l, [m], a[1], [a[2]], CountOf(a[0]));
    assert [l] + [m] == [l, m] && [a[1]] + [a[2]] == [a[1], a[2]];
    OneMoreFits(k, [l, m], a[0], [a[1], a[2]], 0);
    assert [k] + [l, m] == [k, l, m] && [a[0]] + [a[1], a[2]] == a;
  }

  lemma ConstEncodes(cfg: Config, o: Named)
    requires NamedFits(cfg, o)
    requires o.Addr? || o.Const1u? || o.Const1s? || o.Const2u? || o.Const2s? || o.Const4u? || o.Const4s? ||
      o.Const8u? || o.Const8s? || o.Constu? || o.Consts?
    ensures OpFits(cfg, AsOperation(o)) && Enc(cfg, AsOperation(o)) == Encode(cfg, o)
  {
    hide LayoutOf, EncU, EncS, EncFixed, EncFixedSigned, StackCode, Enc, OpFits;
    var op := AsOperation(o);
    ConstLayout(cfg, o);
    match o {
      case Addr(a) => Encodes1(cfg, op, Fix(cfg.addressSize));
      case Const1u(v) => Encodes1(cfg, op, Fix(1));
      case Const1s(v) => Encodes1(cfg, op, FixS(1));
      case Const2u(v) => Encodes1(cfg, op, Fix(2));
      case Const2s(v) => Encodes1(cfg, op, FixS(2));
      case Const4u(v) => Encodes1(cfg, op, Fix(4));
      case Const4s(v) => Encodes1(cfg, op, FixS(4));
      case Const8u(v) => Encodes1(cfg, op, Fix(8));
      case Const8s(v) => Encodes1(cfg, op, FixS(8));
      case Constu(v) => Encodes1(cfg, op, ULeb);
      case Consts(v) => Encodes1(cfg, op, SLeb);
    }
  }

  lemma RegEncodes(cfg: Config, o: Named)
    requires NamedFits(cfg, o)
    requires o.Reg? || o.Breg? || o.Regx? || o.Fbreg? || o.Bregx? || o.Pick? || o.PlusUconst? || o.Bra? ||
      o.Skip?
    ensures OpFits(cfg, AsOperation(o)) && Enc(cfg, AsOperation(o)) == Encode(cfg, o)
  {
    hide LayoutOf, EncU, EncS, EncFixed, EncFixedSigned, StackCode, Enc, OpFits;
    var op := AsOperation(o);
    RegLayout(cfg, o);
    match o {
      case Reg(n) => Encodes0(cfg, op);
      case Breg(n, offset) => Encodes1(cfg, op, SLeb);
      case Regx(reg) => Encodes1(cfg, op, ULeb);
      case Fbreg(offset) => Encodes1(cfg, op, SLeb);
      case Bregx(reg, offset) => Encodes2(cfg, op, ULeb, SLeb);
      case Pick(i) => Encodes1(cfg, op, Fix(1));
      case PlusUconst(v) => Encodes1(cfg, op, ULeb);
      case Bra(d) => Encodes1(cfg, op, FixS(2));
      case Skip(d) => Encodes1(cfg, op, FixS(2));
    }
  }

  lemma PieceEncodes(cfg: Config, o: Named)
    requires NamedFits(cfg, o)
    requires o.Piece? || o.BitPiece? || o.DerefSize? || o.XderefSize?
    ensures OpFits(cfg, AsOperation(o)) && Enc(cfg, AsOperation(o)) == Encode(cfg, o)
  {
    hide LayoutOf, EncU, EncS, EncFixed, EncFixedSigned, StackCode, Enc, OpFits;
    var op := AsOperation(o);
    PieceLayout(cfg, o);
    match o {
      case Piece(n) => Encodes1(cfg, op, ULeb);
      case BitPiece(size, offset) => Encodes2(cfg, op, ULeb, ULeb);
      case DerefSize(n) => Encodes1(cfg, op, Fix(1));
      case XderefSize(n) => Encodes1(cfg, op, Fix(1));
    }
  }

  lemma CallEncodes(cfg: Config, o: Named)
    requires NamedFits(cfg, o)
    requires o.Call2? || o.Call4? || o.CallRef? || o.ImplicitValue? || o.ImplicitPointer?
    ensures OpFits(cfg, AsOperation(o)) && Enc(cfg, AsOperation(o)) == Encode(cfg, o)
  {
    hide LayoutOf, EncU, EncS, EncFixed, EncFixedSigned, StackCode, Enc, OpFits;
    var op := AsOperation(o);
    CallLayout(cfg, o);
    match o {
      case Call2(die) => Encodes1(cfg, op, Fix(2));
      case Call4(die) => Encodes1(cfg, op, Fix(4));
      case CallRef(die) => Encodes1(cfg, op, Fix(cfg.offsetSize));
      case ImplicitValue(data) => Encodes2(cfg, op, ULeb, Bytes);
      case ImplicitPointer(die, offset, gnu) => Encodes2(cfg, op, Fix(DieRefSize(cfg)), SLeb);
    }
  }

  lemma TypedEncodes(cfg: Config, o: Named)
    requires NamedFits(cfg, o)
    requires o.Addrx? || o.Constx? || o.EntryValue?
    ensures OpFits(cfg, AsOperation(o)) && Enc(cfg, AsOperation(o)) == Encode(cfg, o)
  {
    hide LayoutOf, EncU, EncS, EncFixed, EncFixedSigned, StackCode, Enc, OpFits;
    var op := AsOperation(o);
    TypedLayout(cfg, o);
    match o {
      case Addrx(i, gnu) => Encodes1(cfg, op, ULeb);
      case Constx(i, gnu) => Encodes1(cfg, op, ULeb);
      case EntryValue(data, gnu) => Encodes2(cfg, op, ULeb, Bytes);
    }
  }

  lemma RegTypeEncodes(cfg: Config, o: Named)
    requires NamedFits(cfg, o)
    requires o.ConstType? || o.RegvalType?
    ensures OpFits(cfg, AsOperation(o)) && Enc(cfg, AsOperation(o)) == Encode(cfg, o)
  {
    hide LayoutOf, EncU, EncS, EncFixed, EncFixedSigned, StackCode, Enc, OpFits;
    var op := AsOperation(o);
    RegTypeLayout(cfg, o);
    match o {
      case ConstType(die, data, gnu) => Encodes3(cfg, op, ULeb, Fix(1), Bytes);
      case RegvalType(reg, die, gnu) => Encodes2(cfg, op, ULeb, ULeb);
    }
  }

  lemma MoreEncodes(cfg: Config, o: Named)
    requires NamedFits(cfg, o)
    requires o.DerefType? || o.XderefType? || o.Convert? || o.Reinterpret? || o.ParameterRef?
    ensures OpFits(cfg, AsOperation(o)) && Enc(cfg, AsOperation(o)) == Encode(cfg, o)
  {
    hide LayoutOf, EncU, EncS, EncFixed, EncFixedSigned, StackCode, Enc, OpFits;
    var op := AsOperation(o);
    MoreLayout(cfg, o);
    match o {
      case DerefType(size, die, gnu) => Encodes2(cfg, op, Fix(1), ULeb);
      case XderefType(size, die) => Encodes2(cfg, op, Fix(1), ULeb);
      case Convert(die, gnu) => Encodes1(cfg, op, ULeb);
      case Reinterpret(die, gnu) => Encodes1(cfg, op, ULeb);
      case ParameterRef(die) => Encodes1(cfg, op, Fix(4));
    }
  }

  /** The two encodings are the same. */
  lemma NamedEncodes(cfg: Config, o: Named)
    requires NamedFits(cfg, o)
    ensures OpFits(cfg, AsOperation(o)) && Enc(cfg, AsOperation(o)) == Encode(cfg, o)
  {
    hide LayoutOf, Enc, OpFits;
    if o.Stack? {
      StackLayout(cfg, o.op);
      Encodes0(cfg, AsOperation(o));
    } else if o.Lit? {
      EncodesLiteral(cfg, AsOperation(o));
    } else if o.Addr? || o.Const1u? || o.Const1s? || o.Const2u? || o.Const2s? || o.Const4u? || o.Const4s? ||
      o.Const8u? || o.Const8s? || o.Constu? || o.Consts? {
      hide NamedFits, Encode, AsOperation;
      ConstEncodes(cfg, o);
    } else if o.Reg? || o.Breg? || o.Regx? || o.Fbreg? || o.Bregx? || o.Pick? || o.PlusUconst? || o.Bra? ||
      o.Skip? {
      hide NamedFits, Encode, AsOperation;
      RegEncodes(cfg, o);
    } else if o.Piece? || o.BitPiece? || o.DerefSize? || o.XderefSize? {
      hide NamedFits, Encode, AsOperation;
      PieceEncodes(cfg, o);
    } else if o.Call2? || o.Call4? || o.CallRef? || o.ImplicitValue? || o.ImplicitPointer? {
      hide NamedFits, Encode, AsOperation;
      CallEncodes(cfg, o);
    } else if o.Addrx? || o.Constx? || o.EntryValue? {
      hide NamedFits, Encode, AsOperation;
      TypedEncodes(cfg, o);
    } else if o.ConstType? || o.RegvalType? {
      hide NamedFits, Encode, AsOperation;
      RegTypeEncodes(cfg, o);
    } else {
      hide NamedFits, Encode, AsOperation;
      MoreEncodes(cfg, o);
    }
  }

  lemma EncodesLiteral(cfg: Config, op: Operation)
    requires 0x30 <= op.atom <= 0x4f && op.args == []
    ensures OpFits(cfg, op) && Enc(cfg, op) == [op.atom]
  {}

  lemma DenotesMeans(cfg: Config, bytes: seq<Byte>, r: LocOp, o: Named)
    requires NamedFits(cfg, o) && Denotes(bytes, r, AsOperation(o))
    ensures Means(bytes, r, o)
  {
    StackCodes();
  }

  lemma StackCodes()
    ensures forall op: Stackop :: !(0x30 <= StackCode(op) <= 0x4f)
  {}

  /** Every named operation, encoded anywhere in an expression, is read back as what it
      is, and the next operation begins right behind it. */
  lemma NamedRoundTrip(cfg: Config, bytes: seq<Byte>, blockLen: nat, number: nat, start: nat, o: Named)
    requires NamedFits(cfg, o) && At(bytes, start, Encode(cfg, o)) && start + |Encode(cfg, o)| <= blockLen
    ensures var r := ReadOp(cfg, bytes, blockLen, number, start);
      && r.Ok? && r.value.next == start + |Encode(cfg, o)|
      && r.value.op.number == number && r.value.op.offset == start && Means(bytes, r.value.op, o)
  {
    hide ReadOp, Encode, Means, AsOperation, Denotes, NamedFits;
    NamedEncodes(cfg, o);
    OpRoundTrip(cfg, bytes, blockLen, number, start, AsOperation(o));
    DenotesMeans(cfg, bytes, ReadOp(cfg, bytes, blockLen, number, start).value.op, o);
  }

  predicate AllNamedFit(cfg: Config, os: seq<Named>) { forall i :: 0 <= i < |os| ==> NamedFits(cfg, os[i]) }

  function EncodeAll(cfg: Config, os: seq<Named>): seq<Byte>
    requires AllNamedFit(cfg, os)
  {
    if os == [] then [] else Encode(cfg, os[0]) + EncodeAll(cfg, os[1..])
  }

  predicate MeansAll(cfg: Config, bytes: seq<Byte>, rs: seq<LocOp>, os: seq<Named>, number: nat, start: nat)
    requires AllNamedFit(cfg, os)
    decreases |os|
  {
    && |rs| == |os|
    && (os != [] ==>
         && Means(bytes, rs[0], os[0]) && rs[0].number == number && rs[0].offset == start
         && MeansAll(cfg, bytes, rs[1..], os[1..], number + 1, start + |Encode(cfg, os[0])|))
  }

  lemma {:induction false} NamesFrom(cfg: Config, bytes: seq<Byte>, number: nat, start: nat, os: seq<Named>)
    requires AllNamedFit(cfg, os) && At(bytes, start, EncodeAll(cfg, os))
    ensures var r := ReadExpression(cfg, bytes, start + |EncodeAll(cfg, os)|, number, start);
      r.Ok? && MeansAll(cfg, bytes, r.value, os, number, start)
    decreases |os|
  {
    hide NamedFits, Encode, ReadOp, Means;
    if os != [] {
      var e, rest := Encode(cfg, os[0]), EncodeAll(cfg, os[1..]);
      NotEmpty(cfg, os[0]);
      AtSplit(bytes, start, e, rest);
      NamedRoundTrip(cfg, bytes, start + |e + rest|, number, start, os[0]);
      NamesFrom(cfg, bytes, number + 1, start + |e|, os[1..]);
    }
  }

  lemma NotEmpty(cfg: Config, o: Named)
    requires NamedFits(cfg, o)
    ensures Encode(cfg, o) != []
  {
    hide Encode, NamedFits;
    NamedEncodes(cfg, o);
  }

  /** Every list of named operations, encoded and followed by anything, is read back
      operation by operation up to the no-entry at its end. */
  lemma NamedExpression(cfg: Config, os: seq<Named>, rest: seq<Byte>)
    requires AllNamedFit(cfg, os)
    ensures var e := EncodeAll(cfg, os);
      var r := ReadExpression(cfg, e + rest, |e|, 0, 0);
      r.Ok? && MeansAll(cfg, e + rest, r.value, os, 0, 0)
  {
    hide EncodeAll, MeansAll, ReadExpression, AllNamedFit;
    var e := EncodeAll(cfg, os);
    assert (e + rest)[0..|e|] == e;
    NamesFrom(cfg, e + rest, 0, 0, os);
  }

  /** The opcodes that are an error: all that are neither named here nor one of the two
      the reader mistakes. */
  lemma UnknownOpcode(cfg: Config, bytes: seq<Byte>, blockLen: nat, number: nat, start: nat)
    requires start < blockLen && start < |bytes|
    requires var b := bytes[start];
      b < 3 || b in {0x04, 0x05, 0x07, 0xe1, 0xf8, 0xfe, 0xff} || 0xaa <= b < 0xe0 || 0xe2 <= b < 0xf0
    ensures ReadOp(cfg, bytes, blockLen, number, start) == Error
  {
    hide ReadAllArgs, ReadEncodedAddr;
  }
}
