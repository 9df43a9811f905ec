/** Reading the operations of a location expression one by one
    (libdwarf/dwarf_locationop_read.c, section 7.7.1 of DWARF 5). bytes runs from
    the start of the expression to the end of its section; positions are offsets
    from there. */
module LocExpr {
  import opened Common
  import opened Leb
  import opened Words

  datatype Config = Config(version: nat, offsetSize: nat, addressSize: nat)

  /** One operand: a fixed-width number, unsigned or signed, a LEB128 number, or as
      many bytes as the operand before it says. */
  datatype Kind = Fix(size: nat) | FixS(size: nat) | ULeb | SLeb | Bytes

  datatype Layout = Unknown | Literal | Operands(kinds: seq<Kind>) | EncodedAddr | VariableValue

  const BARE := Operands([])

  function LayoutOf(cfg: Config, atom: Byte): (l: Layout)
    ensures l.Operands? ==> |l.kinds| <= 3
    ensures l.Literal? ==> 0x30 <= atom
  {
    if 0x50 <= atom <= 0x6f then BARE                             // reg0 .. reg31
    else if 0x30 <= atom <= 0x4f then Literal                     // lit0 .. lit31
    else if 0x70 <= atom <= 0x8f then Operands([SLeb])            // breg0 .. breg31
    else if 0x19 <= atom <= 0x22 || 0x24 <= atom <= 0x27 || 0x29 <= atom <= 0x2e then BARE
      // abs .. plus, shl .. xor, eq .. ne
    else match atom
      case 0x03 => Operands([Fix(cfg.addressSize)])               // addr
      case 0x06 | 0x12 | 0x13 | 0x14 | 0x16 | 0x17 | 0x18 => BARE // deref, dup, drop, over, swap, rot, xderef
      case 0x96 | 0x97 | 0x9b | 0x9c | 0x9f | 0xe0 | 0xf0 => BARE // nop .. GNU_uninit
      case 0x08 => Operands([Fix(1)])                             // const1u
      case 0x09 => Operands([FixS(1)])
      case 0x0a => Operands([Fix(2)])
      case 0x0b => Operands([FixS(2)])
      case 0x0c => Operands([Fix(4)])
      case 0x0d => Operands([FixS(4)])
      case 0x0e => Operands([Fix(8)])
      case 0x0f => Operands([FixS(8)])                            // const8s
      case 0x10 | 0x23 | 0x90 | 0x93 => Operands([ULeb])          // constu, plus_uconst, regx, piece
      case 0x11 | 0x91 => Operands([SLeb])                        // consts, fbreg
      case 0x15 | 0x94 | 0x95 => Operands([Fix(1)])               // pick, deref_size, xderef_size
      case 0x28 | 0x2f => Operands([FixS(2)])                     // bra, skip
      case 0x92 => Operands([ULeb, SLeb])                         // bregx
      case 0x98 => Operands([Fix(2)])                             // call2
      case 0x99 | 0xfa => Operands([Fix(4)])                      // call4, GNU_parameter_ref
      case 0x9a => Operands([Fix(cfg.offsetSize)])                // call_ref
      case 0x9d | 0xa5 | 0xf5 => Operands([ULeb, ULeb])           // bit_piece, regval_type
      case 0x9e | 0xa3 | 0xf3 => Operands([ULeb, Bytes])          // implicit_value, entry_value
      case 0xa0 | 0xf2 =>                                         // implicit_pointer
        Operands([Fix(if cfg.version == 2 then cfg.addressSize else cfg.offsetSize), SLeb])
      case 0xa1 | 0xa2 | 0xa8 | 0xa9 | 0xf7 | 0xf9 | 0xfb | 0xfc => Operands([ULeb])
        // addrx, constx, convert, reinterpret
      case 0xa4 | 0xf4 => Operands([ULeb, Fix(1), Bytes])         // const_type
      case 0xa6 | 0xa7 | 0xf6 => Operands([Fix(1), ULeb])         // deref_type, xderef_type
      case 0xf1 => EncodedAddr
      case 0xfd => VariableValue
      case _ => Unknown
  }

  // -------------------------------------------------------------- reading

  datatype ReadArg = Cut | Value(v: nat, next: nat)

  /** One operand. Bytes gives the position of the bytes. */
  function ReadOne(bytes: seq<Byte>, p: nat, kind: Kind, count: nat): (r: ReadArg)
    requires p <= |bytes|
    ensures r.Value? ==> p <= r.next <= |bytes|
  {
    match kind
    case Fix(n) => if p + n > |bytes| then Cut else Value(FixedValue(bytes[p..p + n]), p + n)
    case FixS(n) =>
      if p + n > |bytes| || n > 8 then Cut else Value(SignExtend(FixedValue(bytes[p..p + n]), n), p + n)
    case ULeb =>
      (match ReadU(bytes[p..])
       case Fail => Cut
       case Got(v, n) => Value(v, p + n))
    case SLeb =>
      (match ReadS(bytes[p..])
       case Fail => Cut
       case Got(v, n) => Value(Wrap64(v), p + n))
    case Bytes => if p + count > |bytes| then Cut else Value(p, p + count)
  }

  datatype ReadArgs = NoArgs | Values(vs: seq<nat>, next: nat)

  function ReadAllArgs(bytes: seq<Byte>, p: nat, kinds: seq<Kind>, count: nat): (r: ReadArgs)
    requires p <= |bytes|
    ensures r.Values? ==> p <= r.next <= |bytes| && |r.vs| == |kinds|
    decreases |kinds|
  {
    if kinds == [] then Values([], p)
    else match ReadOne(bytes, p, kinds[0], count)
      case Cut => NoArgs
      case Value(v, next) =>
        match ReadAllArgs(bytes, next, kinds[1..], v)
        case NoArgs => NoArgs
        case Values(vs, end) => Values([v] + vs, end)
  }

  /** read_encoded_addr: a length byte, where 0 stands for the size of an address.
      The address is read at the length byte, not behind it. */
  function ReadEncodedAddr(cfg: Config, bytes: seq<Byte>, p: nat): (r: ReadArg)
    ensures r.Value? ==> p < r.next <= |bytes|
  {
    if p >= |bytes| then Cut
    else
      var op := if bytes[p] == 0 then cfg.addressSize else bytes[p];
      if op == 1 then (if p + 2 > |bytes| then Cut else Value(bytes[p], p + 2))
      else if op == 2 || op == 4 || op == 8 then
        if p + 1 + op > |bytes| then Cut else Value(FixedValue(bytes[p..p + op]), p + 1 + op)
      else Cut
  }

  /** Dwarf_Loc_Expr_Op_s. */
  datatype LocOp = LocOp(atom: Byte, number: nat, offset: nat, n1: nat, n2: nat, n3: nat)

  function MakeLocOp(atom: Byte, number: nat, offset: nat, vs: seq<nat>): LocOp {
    LocOp(atom, number, offset, if |vs| > 0 then vs[0] else 0, if |vs| > 1 then vs[1] else 0, if |vs| > 2 then vs[2] else 0)
  }

  datatype Next = Next(op: LocOp, next: nat)

  /** _dwarf_read_loc_expr_op at an offset of an expression of blockLen bytes. */
  function ReadOp(cfg: Config, bytes: seq<Byte>, blockLen: nat, number: nat, start: nat): (r: Res<Next>)
    ensures r.NoEntry? <==> start == blockLen
    ensures r.Ok? ==> start < r.value.next <= blockLen && r.value.op.offset == start
  {
    if start > blockLen then Error
    else if start == blockLen then NoEntry
    else if start + 1 > |bytes| then Error
    else
      var atom, p := bytes[start], start + 1;
      var r := match LayoutOf(cfg, atom)
        case Unknown => Error
        case Literal => Ok(Next(MakeLocOp(atom, number, start, [atom - 0x30]), p))
        case Operands(kinds) =>
          (match ReadAllArgs(bytes, p, kinds, 0)
           case NoArgs => Error
           case Values(vs, next) => Ok(Next(MakeLocOp(atom, number, start, vs), next)))
        case EncodedAddr =>
          (match ReadEncodedAddr(cfg, bytes, p)
           case Cut => Error
           case Value(v, next) => Ok(Next(MakeLocOp(atom, number, start, [v]), next)))
        case VariableValue =>
          (match ReadOne(bytes, p, Fix(cfg.offsetSize), 0)
           case Cut => Error
           case Value(v, _) => Ok(Next(MakeLocOp(atom, number, start, [v]), p)));
      if r.Ok? && r.value.next > blockLen then Error else r
  }

  /** A caller's loop, until no-entry. */
  function ReadExpression(cfg: Config, bytes: seq<Byte>, blockLen: nat, number: nat, start: nat): Res<seq<LocOp>>
    decreases blockLen - start
  {
    match ReadOp(cfg, bytes, blockLen, number, start)
    case Error => Error
    case NoEntry => Ok([])
    case Ok(n) =>
      match ReadExpression(cfg, bytes, blockLen, number + 1, n.next)
      case Ok(ops) => Ok([n.op] + ops)
      case _ => Error
  }

  // ------------------------------------------------------- the code itself

  method ReadOperand(bytes: seq<Byte>, locPtr: nat, kind: Kind, count: nat) returns (r: ReadArg)
    requires locPtr <= |bytes|
    ensures r == ReadOne(bytes, locPtr, kind, count)
  {
    hide ReadU, ReadS, FixedValue;
    match kind {
      case Fix(n) =>
        if locPtr + n > |bytes| { return Cut; }
        var v := ReadFixed(bytes, locPtr, n);
        return Value(v, locPtr + n);
      case FixS(n) =>
        if locPtr + n > |bytes| || n > 8 { return Cut; }
        var v := ReadFixed(bytes, locPtr, n);
        return Value(SignExtend(v, n), locPtr + n);
      case ULeb =>
        var d := DecodeLeb128(bytes[locPtr..]);
        if d.Fail? { return Cut; }
        return Value(d.value, locPtr + d.len);
      case SLeb =>
        var d := DecodeSignedLeb128(bytes[locPtr..]);
        if d.Fail? { return Cut; }
        return Value(Wrap64(d.value), locPtr + d.len);
      case Bytes =>
        if locPtr + count > |bytes| { return Cut; }
        return Value(locPtr, locPtr + count);
    }
  }

  /** read_encoded_addr. */
  method ReadEncodedAddress(cfg: Config, bytes: seq<Byte>, locPtr: nat) returns (r: ReadArg)
    ensures r == ReadEncodedAddr(cfg, bytes, locPtr)
  {
    hide FixedValue;
    if locPtr >= |bytes| { return Cut; }
    var op: nat := bytes[locPtr];
    var len, value := 1, 0;
    if op == 0 { op := cfg.addressSize; }
    match op {
      case 1 =>
        value := bytes[locPtr];
        len := len + 1;
      case 2 =>
        if locPtr + 2 > |bytes| { return Cut; }
        value := ReadFixed(bytes, locPtr, 2);
        len := len + 2;
      case 4 =>
        if locPtr + 4 > |bytes| { return Cut; }
        value := ReadFixed(bytes, locPtr, 4);
        len := len + 4;
      case 8 =>
        if locPtr + 8 > |bytes| { return Cut; }
        value := ReadFixed(bytes, locPtr, 8);
        len := len + 8;
      case _ => return Cut;
    }
    if locPtr + len > |bytes| { return Cut; }
    return Value(value, locPtr + len);
  }

  lemma ArgsUnfold(bytes: seq<Byte>, p: nat, kinds: seq<Kind>, count: nat)
    requires p <= |bytes|
    ensures ReadAllArgs(bytes, p, kinds, count) ==
      if kinds == [] then Values([], p)
      else match ReadOne(bytes, p, kinds[0], count)
        case Cut => NoArgs
        case Value(v, next) =>
          match ReadAllArgs(bytes, next, kinds[1..], v)
          case NoArgs => NoArgs
          case Values(vs, end) => Values([v] + vs, end)
  {}

  /** Up to three operands, each right behind the one before. */
  method ReadOperands(bytes: seq<Byte>, locPtr: nat, kinds: seq<Kind>) returns (r: ReadArgs)
    requires locPtr <= |bytes| && |kinds| <= 3
    ensures r == ReadAllArgs(bytes, locPtr, kinds, 0)
  {
    hide ReadOne, ReadAllArgs;
    ArgsUnfold(bytes, locPtr, kinds, 0);
    if |kinds| == 0 { return Values([], locPtr); }
    var operand1 := ReadOperand(bytes, locPtr, kinds[0], 0);
    if operand1.Cut? { return NoArgs; }
    ArgsUnfold(bytes, operand1.next, kinds[1..], operand1.v);
    if |kinds| == 1 { return Values([operand1.v], operand1.next); }
    var operand2 := ReadOperand(bytes, operand1.next, kinds[1], operand1.v);
    if operand2.Cut? { return NoArgs; }
    ArgsUnfold(bytes, operand2.next, kinds[1..][1..], operand2.v);
    if |kinds| == 2 { return Values([operand1.v, operand2.v], operand2.next); }
    var operand3 := ReadOperand(bytes, operand2.next, kinds[2], operand2.v);
    if operand3.Cut? { return NoArgs; }
    ArgsUnfold(bytes, operand3.next, kinds[1..][1..][1..], operand3.v);
    return Values([operand1.v, operand2.v, operand3.v], operand3.next);
  }

  method ReadLocExprOp(cfg: Config, bytes: seq<Byte>, blockLen: nat, number: nat, start: nat) returns (r: Res<Next>)
    ensures r == ReadOp(cfg, bytes, blockLen, number, start)
  {
    hide LayoutOf, ReadOne, ReadAllArgs, ReadEncodedAddr;
    var offset := start;
    if offset > blockLen { return Error; }
    if offset == blockLen { return NoEntry; }
    if offset + 1 > |bytes| { return Error; }
    var atom := bytes[offset];
    offset := offset + 1;
    var vs: seq<nat> := [];
    var layout := LayoutOf(cfg, atom);
    match layout {
      case Unknown => return Error;
      case Literal => vs := [atom - 0x30];
      case Operands(kinds) =>
        var args := ReadOperands(bytes, offset, kinds);
        if args.NoArgs? { return Error; }
        vs, offset := args.vs, args.next;
      case EncodedAddr =>
        var a := ReadEncodedAddress(cfg, bytes, offset);
        if a.Cut? { return Error; }
        vs, offset := [a.v], a.next;
      case VariableValue =>
        var v := ReadOperand(bytes, offset, Fix(cfg.offsetSize), 0);
        if v.Cut? { return Error; }
        vs := [v.v];
    }
    if offset > blockLen { return Error; }
    return Ok(Next(MakeLocOp(atom, number, start, vs), offset));
  }

  // ------------------------------------------------------------- encoding

  /** An operation as a producer has it in mind. */
  datatype Arg = Num(v: int) | Data(data: seq<Byte>)
  datatype Operation = Operation(atom: Byte, args: seq<Arg>)

  predicate ArgFits(kind: Kind, arg: Arg, count: nat) {
    match kind
    case Fix(n) => arg.Num? && n <= 8 && 0 <= arg.v < Bound(n)
    case FixS(n) => arg.Num? && 1 <= n <= 8 && FitsSigned(arg.v, n)
    case ULeb => arg.Num? && IsU64(arg.v)
    case SLeb => arg.Num? && IsS64(arg.v)
    case Bytes => arg.Data? && |arg.data| == count
  }

  function CountOf(arg: Arg): nat { if arg.Num? then Wrap64(arg.v) else 0 }

  predicate ArgsFit(kinds: seq<Kind>, args: seq<Arg>, count: nat)
    decreases |kinds|
  {
    && |kinds| == |args|
    && (kinds != [] ==> ArgFits(kinds[0], args[0], count) && ArgsFit(kinds[1..], args[1..], CountOf(args[0])))
    && (kinds != [] && kinds[0].Bytes? ==> |kinds| == 1)
  }

  /** The operations the reader can read back: all but the two exceptions. */
  predicate OpFits(cfg: Config, op: Operation) {
    match LayoutOf(cfg, op.atom)
    case Literal => op.args == []
    case Operands(kinds) => ArgsFit(kinds, op.args, 0)
    case _ => false
  }

  function EncArg(kind: Kind, arg: Arg, count: nat): seq<Byte>
    requires ArgFits(kind, arg, count)
  {
    match kind
    case Fix(n) => EncFixed(arg.v, n)
    case FixS(n) => EncFixedSigned(arg.v, n)
    case ULeb => EncU(arg.v)
    case SLeb => EncS(arg.v)
    case Bytes => arg.data
  }

  function EncArgs(kinds: seq<Kind>, args: seq<Arg>, count: nat): seq<Byte>
    requires ArgsFit(kinds, args, count)
    decreases |kinds|
  {
    if kinds == [] then []
    else EncArg(kinds[0], args[0], count) + EncArgs(kinds[1..], args[1..], CountOf(args[0]))
  }

  function Enc(cfg: Config, op: Operation): (s: seq<Byte>)
    requires OpFits(cfg, op)
    ensures s != [] && s[0] == op.atom
  {
    [op.atom] + match LayoutOf(cfg, op.atom)
                case Operands(kinds) => EncArgs(kinds, op.args, 0)
                case _ => []
  }

  predicate AllFit(cfg: Config, ops: seq<Operation>) { forall i :: 0 <= i < |ops| ==> OpFits(cfg, ops[i]) }

  function EncAll(cfg: Config, ops: seq<Operation>): seq<Byte>
    requires AllFit(cfg, ops)
  {
    if ops == [] then [] else Enc(cfg, ops[0]) + EncAll(cfg, ops[1..])
  }

  // ----------------------------------------------------------- round trip

  /** The value delivered for an operand: its 64-bit pattern, or where its bytes are. */
  predicate Delivers(bytes: seq<Byte>, arg: Arg, v: nat) {
    match arg
    case Num(n) => v == Wrap64(n)
    case Data(data) => v + |data| <= |bytes| && bytes[v..v + |data|] == data
  }

  predicate DeliversAll(bytes: seq<Byte>, args: seq<Arg>, vs: seq<nat>) {
    |args| == |vs| && forall i :: 0 <= i < |args| ==> Delivers(bytes, args[i], vs[i])
  }

  lemma OneRoundTrip(bytes: seq<Byte>, p: nat, kind: Kind, arg: Arg, count: nat)
    requires ArgFits(kind, arg, count) && At(bytes, p, EncArg(kind, arg, count))
    ensures var r := ReadOne(bytes, p, kind, count);
      r.Value? && r.next == p + |EncArg(kind, arg, count)| && Delivers(bytes, arg, r.v)
  {
    hide ReadU, ReadS, EncU, EncS, FixedValue, EncFixed;
    var e := EncArg(kind, arg, count);
    assert bytes[p..] == e + bytes[p + |e|..];
    match kind {
      case Fix(n) => FixedRoundTrip(arg.v, n); BoundFits(n);
      case FixS(n) => FixedSignedRoundTrip(arg.v, n);
      case ULeb => RoundTripU(arg.v, bytes[p + |e|..]);
      case SLeb => RoundTripS(arg.v, bytes[p + |e|..]);
      case Bytes =>
    }
  }

  lemma BoundFits(n: nat)
    requires n <= 8
    ensures Bound(n) <= TWO64
  {}

  lemma {:induction false} ArgsRoundTrip(bytes: seq<Byte>, p: nat, kinds: seq<Kind>, args: seq<Arg>, count: nat)
    requires ArgsFit(kinds, args, count) && At(bytes, p, EncArgs(kinds, args, count))
    ensures var r := ReadAllArgs(bytes, p, kinds, count);
      r.Values? && r.next == p + |EncArgs(kinds, args, count)| && DeliversAll(bytes, args, r.vs)
    decreases |kinds|
  {
    hide ArgFits, EncArg, ReadOne, Delivers;
    if kinds != [] {
      var e := EncArg(kinds[0], args[0], count);
      AtSplit(bytes, p, e, EncArgs(kinds[1..], args[1..], CountOf(args[0])));
      OneRoundTrip(bytes, p, kinds[0], args[0], count);
      var v := ReadOne(bytes, p, kinds[0], count).v;
      FitsNum(kinds[0], args[0], count);
      DeliversNum(bytes, args[0], v);
      ArgsRoundTrip(bytes, p + |e|, kinds[1..], args[1..], CountOf(args[0]));
      if args[0].Data? { assert kinds[1..] == []; }
    }
  }

  lemma FitsNum(kind: Kind, arg: Arg, count: nat)
    requires ArgFits(kind, arg, count)
    ensures arg.Data? <==> kind.Bytes?
  {}

  lemma DeliversNum(bytes: seq<Byte>, arg: Arg, v: nat)
    requires Delivers(bytes, arg, v)
    ensures arg.Num? ==> v == CountOf(arg)
  {}

  /** What has been read is the operation meant. */
  predicate Denotes(bytes: seq<Byte>, r: LocOp, op: Operation) {
    && r.atom == op.atom
    && (0x30 <= op.atom <= 0x4f ==> r.n1 == op.atom - 0x30)
    && (op.args == [] && !(0x30 <= op.atom <= 0x4f) ==> r.n1 == 0)
    && (|op.args| <= 1 ==> r.n2 == 0) && (|op.args| <= 2 ==> r.n3 == 0)
    && (|op.args| > 0 ==> Delivers(bytes, op.args[0], r.n1))
    && (|op.args| > 1 ==> Delivers(bytes, op.args[1], r.n2))
    && (|op.args| > 2 ==> Delivers(bytes, op.args[2], r.n3))
  }

  lemma OpRoundTrip(cfg: Config, bytes: seq<Byte>, blockLen: nat, number: nat, start: nat, op: Operation)
    requires OpFits(cfg, op) && At(bytes, start, Enc(cfg, op)) && start + |Enc(cfg, op)| <= blockLen
    ensures var r := ReadOp(cfg, bytes, blockLen, number, start);
      && r.Ok? && r.value.next == start + |Enc(cfg, op)|
      && r.value.op.number == number && r.value.op.offset == start && Denotes(bytes, r.value.op, op)
  {
    hide LayoutOf, ReadAllArgs, ArgsFit, EncArgs, Delivers;
    LiteralAtoms(cfg, op.atom);
    var l := LayoutOf(cfg, op.atom);
    assert bytes[start] == bytes[start..start + |Enc(cfg, op)|][0];
    if l.Operands? {
      var e := EncArgs(l.kinds, op.args, 0);
      AtSplit(bytes, start, [op.atom], e);
      ArgsRoundTrip(bytes, start + 1, l.kinds, op.args, 0);
    }
  }

  lemma LiteralAtoms(cfg: Config, atom: Byte)
    ensures LayoutOf(cfg, atom).Literal? <==> 0x30 <= atom <= 0x4f
  {}

  predicate DenotesAll(cfg: Config, bytes: seq<Byte>, rs: seq<LocOp>, ops: seq<Operation>, number: nat, start: nat)
    requires AllFit(cfg, ops)
    decreases |ops|
  {
    && |rs| == |ops|
    && (ops != [] ==>
         && Denotes(bytes, rs[0], ops[0]) && rs[0].number == number && rs[0].offset == start
         && DenotesAll(cfg, bytes, rs[1..], ops[1..], number + 1, start + |Enc(cfg, ops[0])|))
  }

  lemma {:induction false} ReadsFrom(cfg: Config, bytes: seq<Byte>, number: nat, start: nat, ops: seq<Operation>)
    requires AllFit(cfg, ops) && At(bytes, start, EncAll(cfg, ops))
    ensures var r := ReadExpression(cfg, bytes, start + |EncAll(cfg, ops)|, number, start);
      r.Ok? && DenotesAll(cfg, bytes, r.value, ops, number, start)
    decreases |ops|
  {
    hide OpFits, Enc, ReadOp, Denotes;
    if ops != [] {
      var e, rest := Enc(cfg, ops[0]), EncAll(cfg, ops[1..]);
      AtSplit(bytes, start, e, rest);
      OpRoundTrip(cfg, bytes, start + |e + rest|, number, start, ops[0]);
      assert forall i :: 0 <= i < |ops[1..]| ==> ops[1..][i] == ops[i + 1];
      ReadsFrom(cfg, bytes, number + 1, start + |e|, ops[1..]);
    }
  }

  /** Every list of operations, encoded and followed by anything, is read back
      operation by operation up to the no-entry at its end. */
  lemma ExpressionRoundTrip(cfg: Config, ops: seq<Operation>, rest: seq<Byte>)
    requires AllFit(cfg, ops)
    ensures var e := EncAll(cfg, ops);
      var r := ReadExpression(cfg, e + rest, |e|, 0, 0);
      r.Ok? && DenotesAll(cfg, e + rest, r.value, ops, 0, 0)
  {
    hide EncAll, DenotesAll, ReadExpression, AllFit;
    var e := EncAll(cfg, ops);
    assert (e + rest)[0..|e|] == e;
    ReadsFrom(cfg, e + rest, 0, 0, ops);
  }

  // ----------------------------------------------------- the two exceptions

  /** DW_OP_GNU_variable_value is read, but the next operation is taken to begin at
      its operand. */
  lemma VariableValueStays(cfg: Config, bytes: seq<Byte>, blockLen: nat, number: nat, start: nat)
    requires start < blockLen && start + 1 + cfg.offsetSize <= |bytes| && bytes[start] == 0xfd
    ensures ReadOp(cfg, bytes, blockLen, number, start)
         == Ok(Next(LocOp(0xfd, number, start, FixedValue(bytes[start + 1..start + 1 + cfg.offsetSize]), 0, 0), start + 1))
  {
    hide FixedValue;
  }

  /** The length byte b announces an address of w bytes: one of the lengths the
      reader knows, or 0 for the size of an address. */
  predicate Announces(cfg: Config, b: Byte, w: nat) {
    (w == 1 || w == 2 || w == 4 || w == 8) && (b == w || (b == 0 && cfg.addressSize == w))
  }

  /** DW_OP_GNU_encoded_addr: the next operation is found, but the value delivered has
      the length byte in front and lacks the last byte of the address. It is the
      address exactly when every byte of that equals the length byte. */
  lemma EncodedAddrShifted(cfg: Config, b: Byte, w: nat, addr: seq<Byte>, rest: seq<Byte>, number: nat)
    requires Announces(cfg, b, w) && |addr| == w
    ensures var bytes := [0xf1, b] + addr + rest;
      var r := ReadOp(cfg, bytes, w + 2, number, 0);
      && r.Ok? && r.value.next == w + 2 && r.value.op.n1 == FixedValue([b] + addr[..w - 1])
      && (r.value.op.n1 == FixedValue(addr) <==> forall i :: 0 <= i < w ==> addr[i] == b)
  {
    hide FixedValue, ReadOp;
    var bytes: seq<Byte> := [0xf1, b] + addr + rest;
    assert bytes[0] == 0xf1 && bytes[1] == b && bytes[1..1 + w] == [b] + addr[..w - 1];
    EncodedAddrRead(cfg, bytes, b, w, number);
    ShiftIff(b, addr);
  }

  /** No other length byte is accepted. */
  lemma EncodedAddrAccepted(cfg: Config, bytes: seq<Byte>, p: nat)
    requires p < |bytes|
    ensures ReadEncodedAddr(cfg, bytes, p).Value? <==> exists w: nat :: Announces(cfg, bytes[p], w) && p + 1 + w <= |bytes|
  {
    hide FixedValue;
    var w := if bytes[p] == 0 then cfg.addressSize else bytes[p];
    if ReadEncodedAddr(cfg, bytes, p).Value? { assert Announces(cfg, bytes[p], w); }
  }

  lemma EncodedAddrRead(cfg: Config, bytes: seq<Byte>, b: Byte, w: nat, number: nat)
    requires Announces(cfg, b, w) && |bytes| >= w + 2 && bytes[0] == 0xf1 && bytes[1] == b
    ensures ReadOp(cfg, bytes, w + 2, number, 0)
         == Ok(Next(LocOp(0xf1, number, 0, FixedValue(bytes[1..1 + w]), 0, 0), w + 2))
  {
    hide FixedValue, LayoutOf;
    assert LayoutOf(cfg, 0xf1) == EncodedAddr by { EncodedAddrLayout(cfg); }
    if w == 1 { OneByteValue(bytes[1..2]); }
  }

  lemma OneByteValue(s: seq<Byte>)
    requires |s| == 1
    ensures FixedValue(s) == s[0]
  {
    assert FixedValue(s[1..]) == 0;
  }

  lemma EncodedAddrLayout(cfg: Config)
    ensures LayoutOf(cfg, 0xf1) == EncodedAddr
  {}

  lemma ShiftIff(n: Byte, addr: seq<Byte>)
    requires addr != []
    ensures FixedValue([n] + addr[..|addr| - 1]) == FixedValue(addr) <==> forall i :: 0 <= i < |addr| ==> addr[i] == n
  {
    hide FixedValue;
    var shifted := [n] + addr[..|addr| - 1];
    FixedInjective(shifted, addr);
    if shifted == addr { ShiftedSame(n, addr, |addr| - 1); }
    if forall i :: 0 <= i < |addr| ==> addr[i] == n { assert shifted == addr; }
  }

  lemma {:induction false} FixedInjective(a: seq<Byte>, b: seq<Byte>)
    requires |a| == |b|
    ensures FixedValue(a) == FixedValue(b) ==> a == b
  {
    if a != [] {
      FixedInjective(a[1..], b[1..]);
      assert a == [a[0]] + a[1..] && b == [b[0]] + b[1..];
    }
  }

  lemma {:induction false} ShiftedSame(n: Byte, addr: seq<Byte>, k: nat)
    requires k < |addr| && [n] + addr[..|addr| - 1] == addr
    ensures forall i :: 0 <= i <= k ==> addr[i] == n
  {
    if k > 0 {
      ShiftedSame(n, addr, k - 1);
      assert ([n] + addr[..|addr| - 1])[k] == addr[k - 1];
    }
  }
}
