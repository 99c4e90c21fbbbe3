/** IA-32 instructions as the processor reads them in a 32-bit code segment, after the opcode maps of the Intel SDM,
    volume 2 (tables A-2, A-3 and A-6): the opcodes as86 has a use for and their neighbours. */
module X86 {
  import opened Words
  import opened ModRmDecode

  datatype Operation =
    | NOP | RET | LEAVE | CBW | CWDE | CWD | CDQ | PUSHA | POPA | IRET | INT
    | PUSH | POP | CALL | JMP | JCC(cond: int) | SETCC(cond: int)
    | INC | DEC | NOT | NEG | MUL | IMUL | DIV | IDIV
    | MOV | LEA | MOVSX | MOVZX | TEST
    | ADD | OR | ADC | SBB | AND | SUB | XOR | CMP
    | ROL | ROR | RCL | RCR | SHL | SHR | SAR

  /** An operand with its width; a constant is kept modulo that width.  A bare address has width 0. */
  datatype Arg = Loc(place: Place, bits: int) | Const(value: int, bits: int)

  /** Operands, the destination first. */
  datatype Args = Args0 | Args1(a: Arg) | Args2(a: Arg, b: Arg) | Args3(a: Arg, b: Arg, c: Arg)

  datatype Instruction = Undecoded | Instruction(op: Operation, args: Args, size: nat)

  /** How an opcode's operands are stored: nothing, a register in the opcode, that and an immediate, register or
      memory (E) and register (G) in either order, E alone, E with an immediate or CL, an immediate, a branch.
      Immediates give their bytes and the width they are extended to. */
  datatype Form =
    | Plain | Plus | PlusImm(n: nat) | ER | GE(from: int) | E | EImm(n: nat, to: int) | ECl | GEImm(n: nat)
    | Value(n: nat, to: int) | Branch

  datatype Entry = NoEntry | Entry(op: Operation, bits: int, layout: Form)

  /** `v` modulo 2^bits. */
  function Cut(v: int, bits: int): int {
    if bits == 8 then v % 0x100 else if bits == 16 then v % 0x1_0000 else v % 0x1_0000_0000
  }

  function Arithmetic(n: int): Operation {
    match n
    case 0 => ADD case 1 => OR case 2 => ADC case 3 => SBB
    case 4 => AND case 5 => SUB case 6 => XOR case _ => CMP
  }

  function Group2(n: int, bits: int, layout: Form): Entry {
    match n
    case 0 => Entry(ROL, bits, layout)
    case 1 => Entry(ROR, bits, layout)
    case 2 => Entry(RCL, bits, layout)
    case 3 => Entry(RCR, bits, layout)
    case 4 => Entry(SHL, bits, layout)
    case 5 => Entry(SHR, bits, layout)
    case 7 => Entry(SAR, bits, layout)
    case _ => NoEntry
  }

  function Group3(n: int, bits: nat): Entry {
    match n
    case 0 => Entry(TEST, bits, EImm(bits / 8, bits))
    case 2 => Entry(NOT, bits, E)
    case 3 => Entry(NEG, bits, E)
    case 4 => Entry(MUL, bits, E)
    case 5 => Entry(IMUL, bits, E)
    case 6 => Entry(DIV, bits, E)
    case 7 => Entry(IDIV, bits, E)
    case _ => NoEntry
  }

  function Group5(n: int, bits: int): Entry {
    match n
    case 0 => Entry(INC, bits, E)
    case 1 => Entry(DEC, bits, E)
    case 2 => Entry(CALL, bits, E)
    case 4 => Entry(JMP, bits, E)
    case 6 => Entry(PUSH, bits, E)
    case _ => NoEntry
  }

  /** The one-byte opcodes; `reg` is the reg field of the byte that follows, `v` the operand size. */
  function OneByte(b: Byte, reg: int, v: nat): Entry {
    var w := if b % 2 == 0 then 8 else v;
    if b < 0x40 then
      if b % 8 < 2 then Entry(Arithmetic(b / 8), w, ER)
      else if b % 8 < 4 then Entry(Arithmetic(b / 8), w, GE(w))
      else NoEntry
    else if 0x50 <= b < 0x58 then Entry(PUSH, v, Plus)
    else if 0x58 <= b < 0x60 then Entry(POP, v, Plus)
    else if 0xB0 <= b < 0xB8 then Entry(MOV, 8, PlusImm(1))
    else if 0xB8 <= b < 0xC0 then Entry(MOV, v, PlusImm(v / 8))
    else if b < 0x90 then LowOpcode(b, reg, v, w)
    else HighOpcode(b, reg, v, w)
  }

  function LowOpcode(b: Byte, reg: int, v: nat, w: nat): Entry {
    match b
    case 0x60 => Entry(PUSHA, v, Plain)
    case 0x61 => Entry(POPA, v, Plain)
    case 0x68 => Entry(PUSH, v, Value(v / 8, v))
    case 0x69 => Entry(IMUL, v, GEImm(v / 8))
    case 0x6A => Entry(PUSH, v, Value(1, v))
    case 0x6B => Entry(IMUL, v, GEImm(1))
    case 0x80 => Entry(Arithmetic(reg), w, EImm(1, w))
    case 0x81 => Entry(Arithmetic(reg), w, EImm(v / 8, w))
    case 0x83 => Entry(Arithmetic(reg), w, EImm(1, w))
    case 0x84 => Entry(TEST, w, ER)
    case 0x85 => Entry(TEST, w, ER)
    case 0x88 => Entry(MOV, w, ER)
    case 0x89 => Entry(MOV, w, ER)
    case 0x8A => Entry(MOV, w, GE(w))
    case 0x8B => Entry(MOV, w, GE(w))
    case 0x8D => Entry(LEA, v, GE(0))
    case 0x8F => if reg == 0 then Entry(POP, v, E) else NoEntry
    case _ => NoEntry
  }

  function HighOpcode(b: Byte, reg: int, v: nat, w: nat): Entry {
    match b
    case 0x90 => Entry(NOP, v, Plain)
    case 0x98 => Entry(if v == 16 then CBW else CWDE, v, Plain)
    case 0x99 => Entry(if v == 16 then CWD else CDQ, v, Plain)
    case 0xC0 => Group2(reg, w, EImm(1, 8))
    case 0xC1 => Group2(reg, w, EImm(1, 8))
    case 0xC3 => Entry(RET, v, Plain)
    case 0xC6 => if reg == 0 then Entry(MOV, w, EImm(1, w)) else NoEntry
    case 0xC7 => if reg == 0 then Entry(MOV, w, EImm(v / 8, w)) else NoEntry
    case 0xC9 => Entry(LEAVE, v, Plain)
    case 0xCD => Entry(INT, v, Value(1, 8))
    case 0xCF => Entry(IRET, v, Plain)
    case 0xD2 => Group2(reg, w, ECl)
    case 0xD3 => Group2(reg, w, ECl)
    case 0xE8 => if v == 32 then Entry(CALL, v, Branch) else NoEntry
    case 0xE9 => if v == 32 then Entry(JMP, v, Branch) else NoEntry
    case 0xF6 => Group3(reg, w)
    case 0xF7 => Group3(reg, w)
    case 0xFE => if reg < 2 then Group5(reg, w) else NoEntry
    case 0xFF => Group5(reg, v)
    case _ => NoEntry
  }

  /** The opcodes behind 0F. */
  function TwoByte(b: Byte, v: nat): Entry {
    if 0x80 <= b < 0x90 then if v == 32 then Entry(JCC(b - 0x80), v, Branch) else NoEntry
    else if 0x90 <= b < 0xA0 then Entry(SETCC(b - 0x90), 8, E)
    else
      match b
      case 0xAF => Entry(IMUL, v, GE(v))
      case 0xB6 => Entry(MOVZX, v, GE(8))
      case 0xB7 => Entry(MOVZX, v, GE(16))
      case 0xBE => Entry(MOVSX, v, GE(8))
      case 0xBF => Entry(MOVSX, v, GE(16))
      case _ => NoEntry
  }

  /** The immediate of `n` bytes at `at`, signed. */
  function ImmAt(s: seq<Byte>, at: nat, n: nat): int
    requires at + n <= |s|
  {
    if n == 1 then SignExtend8(s[at])
    else if n == 2 then var lo: int, hi: int := s[at], s[at + 1]; lo + 0x100 * hi
    else if n == 4 then S32(Rd32(s, at))
    else 0
  }

  /** The operands in `s`, the bytes behind the opcode `b`, which ends `n` bytes after the instruction's start `pc`. */
  function Operands(e: Entry, b: Byte, s: seq<Byte>, n: nat, pc: int): Instruction {
    if e.NoEntry? then Undecoded
    else
      match e.layout
      case Plain => Instruction(e.op, Args0, n)
      case Plus => Instruction(e.op, Args1(Loc(Register(b % 8), e.bits)), n)
      case PlusImm(k) =>
        if |s| < k then Undecoded
        else Instruction(e.op, Args2(Loc(Register(b % 8), e.bits), Const(Cut(ImmAt(s, 0, k), e.bits), e.bits)), n + k)
      case Value(k, to) =>
        if |s| < k then Undecoded else Instruction(e.op, Args1(Const(Cut(ImmAt(s, 0, k), to), to)), n + k)
      case Branch =>
        if |s| < 4 then Undecoded
        else Instruction(e.op, Args1(Const(Cut(pc + n + 4 + ImmAt(s, 0, 4), 32), 32)), n + 4)
      case _ => RmOperands(e, Decode(s), s, n)
  }

  /** The same for the layouts with a ModR/M byte. */
  function RmOperands(e: Entry, d: Decoded, s: seq<Byte>, n: nat): Instruction
    requires e.Entry?
  {
    if d.Truncated? then Undecoded
    else
      var rm, g := Loc(d.place, e.bits), Loc(Register(d.reg), e.bits);
      match e.layout
      case ER => Instruction(e.op, Args2(rm, g), n + d.size)
      case GE(from) => Instruction(e.op, Args2(g, Loc(d.place, from)), n + d.size)
      case E => Instruction(e.op, Args1(rm), n + d.size)
      case ECl => Instruction(e.op, Args2(rm, Loc(Register(1), 8)), n + d.size)
      case EImm(k, to) =>
        if |s| < d.size + k then Undecoded
        else Instruction(e.op, Args2(rm, Const(Cut(ImmAt(s, d.size, k), to), to)), n + d.size + k)
      case GEImm(k) =>
        if |s| < d.size + k then Undecoded
        else Instruction(e.op, Args3(g, rm, Const(Cut(ImmAt(s, d.size, k), e.bits), e.bits)), n + d.size + k)
      case _ => Undecoded
  }

  function RegField(s: seq<Byte>): int { if s == [] then 0 else s[0] / 8 % 8 }

  /** An instruction without prefix, the operand size being `v`. */
  function Unprefixed(s: seq<Byte>, v: nat, pc: int): Instruction {
    if s == [] then Undecoded
    else if s[0] != 0x0F then Operands(OneByte(s[0], RegField(s[1..]), v), s[0], s[1..], 1, pc)
    else if |s| < 2 then Undecoded
    else Operands(TwoByte(s[1], v), s[1], s[2..], 2, pc)
  }

  function Longer(i: Instruction): Instruction {
    if i.Undecoded? then i else i.(size := i.size + 1)
  }

  /** The instruction at the start of `s`, which stands at address `pc`. */
  function Fetch(s: seq<Byte>, pc: int): Instruction {
    if s != [] && s[0] == 0x66 then Longer(Unprefixed(s[1..], 16, pc + 1)) else Unprefixed(s, 32, pc)
  }
}

/** What as86 emits for an instruction is, to the processor, the instruction that was written. */
module AsMeaning {
  import opened Words
  import opened Options
  import opened AsSyntax
  import opened AsEncode
  import opened ModRmDecode
  import opened X86

  // ---- the instruction as written ----------------------------------------------------------------------

  function OperationOf(mn: Mnemonic): Option<Operation> {
    match mn
    case Nop => Some(NOP) case Ret => Some(RET) case Leave => Some(LEAVE) case Cdq => Some(CDQ)
    case Cbw => Some(CBW) case Pushad => Some(PUSHA) case Popad => Some(POPA) case Iret => Some(IRET)
    case Int => Some(INT) case Push => Some(PUSH) case Pop => Some(POP) case Call => Some(CALL)
    case Jmp => Some(JMP) case Jcc(cc) => Some(JCC(cc)) case Setcc(cc) => Some(SETCC(cc))
    case Inc => Some(INC) case Dec => Some(DEC) case Not => Some(NOT) case Neg => Some(NEG)
    case Mul => Some(MUL) case Imul => Some(IMUL) case Idiv => Some(IDIV)
    case Mov => Some(MOV) case Lea => Some(LEA) case Movsx => Some(MOVSX) case Movzx => Some(MOVZX)
    case Test => Some(TEST) case Alu(n) => Some(Arithmetic(n))
    case Shift(n) =>
      Some(if n == 0 then ROL else if n == 1 then ROR else if n == 4 then SHL else if n == 5 then SHR else SAR)
    case Unknown => None
  }

  /** The operand has a value or a place: its labels are known. */
  predicate Known(env: Env, op: Operand)
    requires env.Ok()
  {
    if IsImm(op) then ResolveImm(env, op).Some?
    else IsRm(op) && (op.Mem? && op.dispLabel.Some? ==> Resolve(env, op.dispLabel.value).Some?)
  }

  /** An operand as written, `width` being the one its instruction gives an operand that does not say. */
  function Written(env: Env, op: Operand, width: int): Arg
    requires env.Ok() && Known(env, op)
  {
    match op
    case Reg(_, bits) => Loc(Meaning(env, op), bits)
    case Mem(_, _, _, hint) => Loc(Meaning(env, op), if hint != 0 then hint else width)
    case _ => Const(Cut(ResolveImm(env, op).value, width), width)
  }

  function Written1(env: Env, mn: Mnemonic, a: Operand): Args
    requires env.Ok() && Known(env, a)
  {
    Args1(Written(env, a, if mn.Int? || mn.Setcc? then 8 else 32))
  }

  function Written2(env: Env, mn: Mnemonic, a: Operand, b: Operand): Args
    requires env.Ok() && Known(env, a) && Known(env, b)
  {
    match mn
    case Lea => Args2(Written(env, a, 32), if IsRm(b) then Loc(Meaning(env, b), 0) else Written(env, b, 32))
    case Movsx => Args2(Written(env, a, 32), Written(env, b, 8))
    case Movzx => Args2(Written(env, a, 32), Written(env, b, 8))
    case Imul => Args2(Written(env, a, 32), Written(env, b, 32))
    case Shift(_) => Args2(Written(env, a, 32), Written(env, b, 8))
    case _ =>
      var width := InferBits(a, InferBits(b, 32));
      Args2(Written(env, a, width), Written(env, b, width))
  }

  predicate AllKnown(env: Env, ops: seq<Operand>)
    requires env.Ok()
  {
    forall i :: 0 <= i < |ops| ==> Known(env, ops[i])
  }

  function WrittenArgs(env: Env, mn: Mnemonic, ops: seq<Operand>): Args
    requires env.Ok() && AllKnown(env, ops) && |ops| <= 3
  {
    match |ops|
    case 0 => Args0
    case 1 => Written1(env, mn, ops[0])
    case 2 => Written2(env, mn, ops[0], ops[1])
    case _ => Args3(Written(env, ops[0], 32), Written(env, ops[1], 32), Written(env, ops[2], 32))
  }

  // ---- widths --------------------------------------------------------------------------------------------

  predicate Fits(op: Operand, width: int) { InferBits(op, width) == width }

  /** The widths written are the widths encoded. */
  predicate KeepsWidths(mn: Mnemonic, ops: seq<Operand>) {
    match |ops|
    case 0 => !mn.Cbw?
    case 1 => mn.Int? || mn.Jcc? || mn.Setcc? || Fits(ops[0], 32)
    case 2 => KeepsBoth(mn, ops[0], ops[1])
    case _ => Fits(ops[0], 32) && (|ops| > 1 ==> Fits(ops[1], 32))
  }

  predicate KeepsBoth(mn: Mnemonic, a: Operand, b: Operand) {
    match mn
    case Lea => Fits(a, 32)
    case Movsx => Fits(a, 32) && InferBits(b, 8) != 32
    case Movzx => Fits(a, 32) && InferBits(b, 8) != 32
    case Imul => Fits(a, 32) && Fits(b, 32)
    case Shift(_) => true
    case Mov => if a.Reg? && IsImm(b) then a.bits != 8 else Fits(b, InferBits(a, InferBits(b, 32)))
    case _ => Fits(b, InferBits(a, InferBits(b, 32)))
  }

  // ---- reading back what was emitted ---------------------------------------------------------------------

  /** `imm` holds `v`, extended to `to` bits. */
  predicate Holds(imm: seq<Byte>, v: int, to: int) { Cut(ImmAt(imm, 0, |imm|), to) == Cut(v, to) }

  lemma HoldsByte(v: int, to: int)
    requires to == 8 || Small(v)
    ensures Holds([v % 256], v, to)
  {
  }

  lemma HoldsWord(v: int)
    ensures ImmAt(Le32(v), 0, 4) == S32(v)
  {
    Le32OfS32(v);
    assert [] + Le32(S32(v)) + [] == Le32(v);
    LeRoundTrip([], S32(v), []);
  }

  lemma HoldsField(bits: int, v: int)
    requires bits == 16 || bits == 32
    ensures |ImmField(bits, v).bytes| == bits / 8 && Holds(ImmField(bits, v).bytes, v, bits)
  {
    if bits == 32 {
      HoldsWord(v);
      assert U32(S32(v)) == U32(v);
    }
  }

  lemma ImmInside(pre: seq<Byte>, imm: seq<Byte>, rest: seq<Byte>)
    ensures ImmAt(pre + (imm + rest), |pre|, |imm|) == ImmAt(imm, 0, |imm|)
  {
    var s := pre + (imm + rest);
    assert forall i :: 0 <= i < |imm| ==> s[|pre| + i] == imm[i];
  }

  function OperandSize(bits: int): (v: nat)
    ensures v == 16 || v == 32
  {
    if bits == 16 then 16 else 32
  }

  /** A one-byte opcode behind the prefix its width needs. */
  lemma FetchOne(bits: int, opc: Byte, s: seq<Byte>, pc: int)
    requires opc != 0x0F && opc != 0x66
    ensures var i := Operands(OneByte(opc, RegField(s), OperandSize(bits)), opc, s, 1,
                              pc + if bits == 16 then 1 else 0);
            Fetch(Prefix16(bits).bytes + ([opc] + s), pc) == if bits == 16 then Longer(i) else i
  {
    var t := [opc] + s;
    assert t[1..] == s;
    if bits == 16 {
      assert ([0x66] + t)[1..] == t;
    } else {
      assert [] + t == t;
    }
  }

  lemma FetchTwo(opc: Byte, s: seq<Byte>, pc: int)
    ensures Fetch([0x0F, opc] + s, pc) == Operands(TwoByte(opc, 32), opc, s, 2, pc)
  {
    assert ([0x0F, opc] + s)[2..] == s;
  }

  /** The label-free part of what an environment leaves to the linker. */
  predicate Local(env: Env, op: Operand) {
    env.obj ==> !op.Lab? && (op.Mem? ==> op.dispLabel.None?)
  }

  /** The operand bytes of an instruction with a ModR/M byte. */
  lemma RmPart(env: Env, reg: RegCode, op: Operand, tail: seq<Byte>)
    requires env.Ok() && Local(env, op) && EncodeRm(env, reg, op) != Rejected
    ensures IsRm(op) && Known(env, op) && EncodeRm(env, reg, op).fixups == []
    ensures var s := EncodeRm(env, reg, op).bytes + tail;
            Decode(s) == Decoded(reg, Meaning(env, op), |EncodeRm(env, reg, op).bytes|) && RegField(s) == reg
  {
    RmRoundTrip(env, reg, op, tail);
  }

  predicate HasRm(l: Form) { l.ER? || l.GE? || l.E? || l.EImm? || l.ECl? || l.GEImm? }

  /** Bytes `imm` are what the layout wants behind the operand, and hold `v`. */
  predicate Follows(e: Entry, imm: seq<Byte>, v: int)
    requires e.Entry?
  {
    match e.layout
    case EImm(k, to) => |imm| == k && Holds(imm, v, to)
    case GEImm(k) => |imm| == k && Holds(imm, v, e.bits)
    case _ => imm == []
  }

  /** The operands of an entry with a ModR/M byte. */
  function RmArgs(e: Entry, reg: int, place: Place, v: int): Args
    requires e.Entry?
  {
    var rm, g := Loc(place, e.bits), Loc(Register(reg), e.bits);
    match e.layout
    case ER => Args2(rm, g)
    case GE(from) => Args2(g, Loc(place, from))
    case ECl => Args2(rm, Loc(Register(1), 8))
    case EImm(_, to) => Args2(rm, Const(Cut(v, to), to))
    case GEImm(_) => Args3(g, rm, Const(Cut(v, e.bits), e.bits))
    case _ => Args1(rm)
  }

  lemma RmRead(e: Entry, d: Decoded, rm: seq<Byte>, imm: seq<Byte>, rest: seq<Byte>, n: nat, v: int)
    requires e.Entry? && HasRm(e.layout) && Follows(e, imm, v) && d.Decoded? && d.size == |rm|
    ensures RmOperands(e, d, rm + (imm + rest), n) == Instruction(e.op, RmArgs(e, d.reg, d.place, v), n + |rm| + |imm|)
  {
    ImmInside(rm, imm, rest);
  }

  /** `bytes`, at the start of a stream, are the instruction. */
  ghost predicate Means(pc: int, bytes: seq<Byte>, op: Operation, args: Args) {
    forall rest: seq<Byte> :: Fetch(bytes + rest, pc) == Instruction(op, args, |bytes|)
  }

  /** A one-byte opcode with a ModR/M operand. */
  lemma RmMeans(env: Env, bits: int, opc: Byte, reg: RegCode, op: Operand, imm: seq<Byte>, v: int, e: Entry,
                bytes: seq<Byte>)
    requires env.Ok() && Local(env, op) && EncodeRm(env, reg, op) != Rejected && opc != 0x0F && opc != 0x66
    requires e == OneByte(opc, reg, OperandSize(bits)) && e.Entry? && HasRm(e.layout) && Follows(e, imm, v)
    requires bytes == Prefix16(bits).bytes + ([opc] + (EncodeRm(env, reg, op).bytes + imm))
    ensures IsRm(op) && Known(env, op) && Means(env.pc, bytes, e.op, RmArgs(e, reg, Meaning(env, op), v))
  {
    RmPart(env, reg, op, []);
    forall rest: seq<Byte>
      ensures Fetch(bytes + rest, env.pc) == Instruction(e.op, RmArgs(e, reg, Meaning(env, op), v), |bytes|)
    {
      var rm := EncodeRm(env, reg, op).bytes;
      RmPart(env, reg, op, imm + rest);
      RmRead(e, Decode(rm + (imm + rest)), rm, imm, rest, 1, v);
      FetchOne(bits, opc, rm + (imm + rest), env.pc);
      Regroup(Prefix16(bits).bytes, [opc], rm, imm, rest);
    }
  }

  lemma NoBytes(s: seq<Byte>)
    ensures [] + s == s && s + [] == s
  {
  }

  lemma Regroup(a: seq<Byte>, b: seq<Byte>, c: seq<Byte>, d: seq<Byte>, rest: seq<Byte>)
    ensures (a + (b + (c + d))) + rest == a + (b + (c + (d + rest)))
  {
  }

  /** One behind 0F. */
  lemma RmMeans2(env: Env, opc: Byte, reg: RegCode, op: Operand, e: Entry, bytes: seq<Byte>)
    requires env.Ok() && Local(env, op) && EncodeRm(env, reg, op) != Rejected
    requires e == TwoByte(opc, 32) && e.Entry? && HasRm(e.layout) && Follows(e, [], 0)
    requires bytes == [0x0F, opc] + EncodeRm(env, reg, op).bytes
    ensures IsRm(op) && Known(env, op) && Means(env.pc, bytes, e.op, RmArgs(e, reg, Meaning(env, op), 0))
  {
    RmPart(env, reg, op, []);
    forall rest: seq<Byte>
      ensures Fetch(bytes + rest, env.pc) == Instruction(e.op, RmArgs(e, reg, Meaning(env, op), 0), |bytes|)
    {
      var rm := EncodeRm(env, reg, op).bytes;
      RmPart(env, reg, op, [] + rest);
      RmRead(e, Decode(rm + ([] + rest)), rm, [], rest, 2, 0);
      FetchTwo(opc, rm + ([] + rest), env.pc);
      Regroup([], [0x0F, opc], rm, [], rest);
      NoBytes([0x0F, opc] + (rm + ([] + rest)));
      NoBytes(rm);
      NoBytes([0x0F, opc] + rm);
    }
  }

  /** Bytes `imm` are what a layout without ModR/M byte wants, and hold `v`; a branch holds the distance from its end,
      `next`, to `v`. */
  predicate Trails(e: Entry, imm: seq<Byte>, v: int, next: int)
    requires e.Entry?
  {
    match e.layout
    case PlusImm(k) => |imm| == k && Holds(imm, v, e.bits)
    case Value(k, to) => |imm| == k && Holds(imm, v, to)
    case Branch => |imm| == 4 && Cut(next + ImmAt(imm, 0, 4), 32) == Cut(v, 32)
    case _ => imm == []
  }

  function PlainArgs(e: Entry, b: Byte, v: int): Args
    requires e.Entry?
  {
    match e.layout
    case Plus => Args1(Loc(Register(b % 8), e.bits))
    case PlusImm(_) => Args2(Loc(Register(b % 8), e.bits), Const(Cut(v, e.bits), e.bits))
    case Value(_, to) => Args1(Const(Cut(v, to), to))
    case Branch => Args1(Const(Cut(v, 32), 32))
    case _ => Args0
  }

  lemma PlainRead(e: Entry, b: Byte, imm: seq<Byte>, rest: seq<Byte>, n: nat, pc: int, v: int)
    requires e.Entry? && !HasRm(e.layout) && Trails(e, imm, v, pc + n + 4)
    ensures Operands(e, b, imm + rest, n, pc) == Instruction(e.op, PlainArgs(e, b, v), n + |imm|)
  {
    assert [] + (imm + rest) == imm + rest;
    ImmInside([], imm, rest);
  }

  /** A one-byte opcode without a ModR/M byte. */
  lemma PlainMeans(pc: int, bits: int, opc: Byte, imm: seq<Byte>, v: int, e: Entry, bytes: seq<Byte>)
    requires opc != 0x0F && opc != 0x66 && bytes == Prefix16(bits).bytes + ([opc] + imm)
    requires e.Entry? && !HasRm(e.layout) && Trails(e, imm, v, pc + |bytes|)
    requires forall r: int :: OneByte(opc, r, OperandSize(bits)) == e
    ensures Means(pc, bytes, e.op, PlainArgs(e, opc, v))
  {
    var p := pc + if bits == 16 then 1 else 0;
    forall rest: seq<Byte>
      ensures Fetch(bytes + rest, pc) == Instruction(e.op, PlainArgs(e, opc, v), |bytes|)
    {
      FetchOne(bits, opc, imm + rest, pc);
      assert OneByte(opc, RegField(imm + rest), OperandSize(bits)) == e;
      PlainRead(e, opc, imm, rest, 1, p, v);
      Regroup(Prefix16(bits).bytes, [opc], imm, [], rest);
      assert imm + [] == imm && [] + rest == rest;
    }
  }

  /** A branch behind 0F. */
  lemma PlainMeans2(pc: int, opc: Byte, imm: seq<Byte>, v: int, e: Entry, bytes: seq<Byte>)
    requires bytes == [0x0F, opc] + imm && e == TwoByte(opc, 32)
    requires e.Entry? && !HasRm(e.layout) && Trails(e, imm, v, pc + |bytes|)
    ensures Means(pc, bytes, e.op, PlainArgs(e, opc, v))
  {
    forall rest: seq<Byte>
      ensures Fetch(bytes + rest, pc) == Instruction(e.op, PlainArgs(e, opc, v), |bytes|)
    {
      FetchTwo(opc, imm + rest, pc);
      PlainRead(e, opc, imm, rest, 2, pc, v);
      assert bytes + rest == [0x0F, opc] + (imm + rest);
    }
  }

  // ---- the encoding routines -----------------------------------------------------------------------------

  /** `code` means `op` with `args`, and that is what is written exactly when `keeps`. */
  ghost predicate Says(pc: int, code: Code, op: Operation, args: Args, wop: Option<Operation>, wargs: Args,
                       keeps: bool) {
    && code.Code? && Means(pc, code.bytes, op, args)
    && (wop == Some(op) && wargs == args <==> keeps)
  }

  /** Prefix, opcode, operand and immediate. */
  lemma CodeRm(env: Env, bits: int, opc: Byte, reg: RegCode, op: Operand, imm: seq<Byte>, v: int, e: Entry)
    requires env.Ok() && Local(env, op) && EncodeRm(env, reg, op) != Rejected && opc != 0x0F && opc != 0x66
    requires e == OneByte(opc, reg, OperandSize(bits)) && e.Entry? && HasRm(e.layout) && Follows(e, imm, v)
    ensures IsRm(op) && Known(env, op)
    ensures var c := Then(Prefix16(bits), Then(OpRm(env, opc, reg, op), Lit(imm)));
            c.Code? && Means(env.pc, c.bytes, e.op, RmArgs(e, reg, Meaning(env, op), v))
  {
    var c := Then(Prefix16(bits), Then(OpRm(env, opc, reg, op), Lit(imm)));
    var rm := EncodeRm(env, reg, op).bytes;
    assert c.bytes == Prefix16(bits).bytes + ([opc] + (rm + imm));
    RmMeans(env, bits, opc, reg, op, imm, v, e, c.bytes);
  }

  /** Opcode and operand alone. */
  lemma CodeOp(env: Env, opc: Byte, reg: RegCode, op: Operand, e: Entry)
    requires env.Ok() && Local(env, op) && EncodeRm(env, reg, op) != Rejected && opc != 0x0F && opc != 0x66
    requires e == OneByte(opc, reg, 32) && e.Entry? && HasRm(e.layout) && Follows(e, [], 0)
    ensures IsRm(op) && Known(env, op)
    ensures OpRm(env, opc, reg, op).Code?
    ensures Means(env.pc, OpRm(env, opc, reg, op).bytes, e.op, RmArgs(e, reg, Meaning(env, op), 0))
  {
    CodeRm(env, 32, opc, reg, op, [], 0, e);
    assert Then(Prefix16(32), Then(OpRm(env, opc, reg, op), Lit([]))).bytes == OpRm(env, opc, reg, op).bytes;
  }

  lemma NullarySays(env: Env, mn: Mnemonic) returns (op: Operation, args: Args)
    requires EncodeNullary(mn) != Rejected
    ensures Says(env.pc, EncodeNullary(mn), op, args, OperationOf(mn), Args0, !mn.Cbw?)
  {
    var b := EncodeNullary(mn).bytes[0];
    var e := OneByte(b, 0, 32);
    NoBytes([b]);
    PlainMeans(env.pc, 32, b, [], 0, e, [b]);
    return e.op, Args0;
  }

  /** An opcode with an immediate and no operand bytes. */
  lemma CodeImm(env: Env, opc: Byte, imm: seq<Byte>, v: int, e: Entry)
    requires e.Entry? && !HasRm(e.layout) && opc != 0x0F && opc != 0x66 && forall r: int :: OneByte(opc, r, 32) == e
    requires Trails(e, imm, v, env.pc + 1 + |imm|)
    ensures Means(env.pc, Then(Lit([opc]), Lit(imm)).bytes, e.op, PlainArgs(e, opc, v))
  {
    NoBytes([opc] + imm);
    PlainMeans(env.pc, 32, opc, imm, v, e, [opc] + imm);
  }

  /** An opcode with a register in it. */
  lemma CodePlus(env: Env, opc: Byte, e: Entry)
    requires e.Entry? && e.layout.Plus? && opc != 0x0F && opc != 0x66 && forall r: int :: OneByte(opc, r, 32) == e
    ensures Means(env.pc, [opc], e.op, Args1(Loc(Register(opc % 8), e.bits)))
  {
    NoBytes([opc]);
    PlainMeans(env.pc, 32, opc, [], 0, e, [opc]);
  }

  /** What a place operand of a 32-bit instruction becomes. */
  function Full(env: Env, op: Operand): Arg
    requires env.Ok() && IsRm(op) && Known(env, op)
  {
    Loc(Meaning(env, op), 32)
  }

  lemma PushImmSays(env: Env, v: Int32)
    ensures var c := if Small(v) then Then(Lit([0x6A]), Byte8(v)) else Then(Lit([0x68]), Word32(v));
            Means(env.pc, c.bytes, PUSH, Args1(Const(Cut(v, 32), 32)))
  {
    if Small(v) {
      HoldsByte(v, 32);
      CodeImm(env, 0x6A, [v % 256], v, Entry(PUSH, 32, Value(1, 32)));
    } else {
      HoldsField(32, v);
      CodeImm(env, 0x68, Le32(v), v, Entry(PUSH, 32, Value(4, 32)));
    }
  }

  lemma PushSays(env: Env, op: Operand) returns (args: Args)
    requires env.Ok() && Local(env, op) && EncodePush(env, op) != Rejected
    ensures Known(env, op)
    ensures Says(env.pc, EncodePush(env, op), PUSH, args, Some(PUSH), Written1(env, Push, op), Fits(op, 32))
  {
    if op.Reg? {
      CodePlus(env, 0x50 + op.code, Entry(PUSH, 32, Plus));
      args := Args1(Full(env, op));
    } else if op.Mem? {
      CodeOp(env, 0xFF, 6, op, Entry(PUSH, 32, E));
      args := Args1(Full(env, op));
    } else {
      PushImmSays(env, ResolveImm(env, op).value);
      args := Written1(env, Push, op);
    }
  }

  lemma PopSays(env: Env, op: Operand) returns (args: Args)
    requires env.Ok() && Local(env, op) && EncodeUnary(env, Pop, op) != Rejected
    ensures Known(env, op)
    ensures Says(env.pc, EncodeUnary(env, Pop, op), POP, args, Some(POP), Written1(env, Pop, op), Fits(op, 32))
  {
    if op.Reg? {
      CodePlus(env, 0x58 + op.code, Entry(POP, 32, Plus));
    } else {
      CodeOp(env, 0x8F, 0, op, Entry(POP, 32, E));
    }
    args := Args1(Full(env, op));
  }

  lemma IntSays(env: Env, op: Operand)
    requires env.Ok() && EncodeUnary(env, Int, op) != Rejected
    ensures Known(env, op) && Means(env.pc, EncodeUnary(env, Int, op).bytes, INT, Written1(env, Int, op))
  {
    var v := ResolveImm(env, op).value;
    HoldsByte(v, 8);
    CodeImm(env, 0xCD, [v % 256], v, Entry(INT, 32, Value(1, 8)));
  }

  /** The distance stored leads from the end of the instruction to the target. */
  lemma BranchHolds(next: int, v: int)
    ensures Cut(next + ImmAt(Le32(v - next), 0, 4), 32) == Cut(v, 32)
  {
    HoldsWord(v - next);
    U32AddS32(v - next, next);
  }

  /** The relative forms of `call` and `jmp`. */
  lemma RelativeSays(env: Env, opc: Byte, op: Operand, e: Entry)
    requires env.Ok() && Local(env, op) && EncodeRelative(env, [opc], op) != Rejected
    requires e.Entry? && e.layout.Branch? && opc != 0x0F && opc != 0x66 && forall r: int :: OneByte(opc, r, 32) == e
    ensures IsImm(op) && Known(env, op)
    ensures Means(env.pc, EncodeRelative(env, [opc], op).bytes, e.op, Args1(Written(env, op, 32)))
  {
    var v := ResolveImm(env, op).value;
    BranchHolds(env.pc + 5, v);
    CodeImm(env, opc, Le32(v - (env.pc + 5)), v, e);
  }

  /** Conditional jumps. */
  lemma JccSays(env: Env, cc: Cond, op: Operand)
    requires env.Ok() && Local(env, op) && EncodeUnary(env, Jcc(cc), op) != Rejected
    ensures Known(env, op) && Means(env.pc, EncodeUnary(env, Jcc(cc), op).bytes, JCC(cc), Written1(env, Jcc(cc), op))
  {
    var v := ResolveImm(env, op).value;
    BranchHolds(env.pc + 6, v);
    PlainMeans2(env.pc, 0x80 + cc, Le32(v - (env.pc + 6)), v, Entry(JCC(cc), 32, Branch),
                EncodeUnary(env, Jcc(cc), op).bytes);
  }

  lemma SetccSays(env: Env, cc: Cond, op: Operand)
    requires env.Ok() && Local(env, op) && EncodeUnary(env, Setcc(cc), op) != Rejected
    ensures Known(env, op)
    ensures Means(env.pc, EncodeUnary(env, Setcc(cc), op).bytes, SETCC(cc), Written1(env, Setcc(cc), op))
  {
    RmMeans2(env, 0x90 + cc, 0, op, Entry(SETCC(cc), 8, E), EncodeUnary(env, Setcc(cc), op).bytes);
  }

  /** The one-operand instructions of groups 3 and 5. */
  lemma GroupSays(env: Env, mn: Mnemonic, opc: Byte, reg: RegCode, op: Operand, e: Entry) returns (args: Args)
    requires env.Ok() && Local(env, op) && OpRm(env, opc, reg, op) != Rejected && (opc == 0xF7 || opc == 0xFF)
    requires !mn.Int? && !mn.Setcc?
    requires e == OneByte(opc, reg, 32) && e.Entry? && e.bits == 32 && e.layout.E? && OperationOf(mn) == Some(e.op)
    ensures Known(env, op)
    ensures Says(env.pc, OpRm(env, opc, reg, op), e.op, args, OperationOf(mn), Written1(env, mn, op), Fits(op, 32))
  {
    CodeOp(env, opc, reg, op, e);
    args := Args1(Full(env, op));
  }

  lemma UnarySays(env: Env, mn: Mnemonic, op: Operand) returns (args: Args)
    requires env.Ok() && Local(env, op) && EncodeUnary(env, mn, op) != Rejected
    ensures Known(env, op) && OperationOf(mn).Some?
    ensures Says(env.pc, EncodeUnary(env, mn, op), OperationOf(mn).value, args, OperationOf(mn), Written1(env, mn, op),
                 KeepsWidths(mn, [op]))
  {
    args := Args0;
    match mn
    case Int => IntSays(env, op); args := Written1(env, mn, op);
    case Push => args := PushSays(env, op);
    case Pop => args := PopSays(env, op);
    case Call =>
      if IsImm(op) {
        RelativeSays(env, 0xE8, op, Entry(CALL, 32, Branch));
        args := Written1(env, mn, op);
      } else {
        args := GroupSays(env, mn, 0xFF, 2, op, Entry(CALL, 32, E));
      }
    case Jmp =>
      if IsImm(op) {
        RelativeSays(env, 0xE9, op, Entry(JMP, 32, Branch));
        args := Written1(env, mn, op);
      } else {
        args := GroupSays(env, mn, 0xFF, 4, op, Entry(JMP, 32, E));
      }
    case Jcc(cc) => JccSays(env, cc, op); args := Written1(env, mn, op);
    case Setcc(cc) => SetccSays(env, cc, op); args := Written1(env, mn, op);
    case Inc => args := GroupSays(env, mn, 0xFF, 0, op, Entry(INC, 32, E));
    case Dec => args := GroupSays(env, mn, 0xFF, 1, op, Entry(DEC, 32, E));
    case Not => args := GroupSays(env, mn, 0xF7, 2, op, Entry(NOT, 32, E));
    case Neg => args := GroupSays(env, mn, 0xF7, 3, op, Entry(NEG, 32, E));
    case Mul => args := GroupSays(env, mn, 0xF7, 4, op, Entry(MUL, 32, E));
    case Imul => args := GroupSays(env, mn, 0xF7, 5, op, Entry(IMUL, 32, E));
    case Idiv => args := GroupSays(env, mn, 0xF7, 7, op, Entry(IDIV, 32, E));
  }

  // ---- two operands --------------------------------------------------------------------------------------

  /** The prefix, opcode and operand. */
  lemma CodePre(env: Env, bits: int, opc: Byte, reg: RegCode, op: Operand, e: Entry)
    requires env.Ok() && Local(env, op) && EncodeRm(env, reg, op) != Rejected && opc != 0x0F && opc != 0x66
    requires e == OneByte(opc, reg, OperandSize(bits)) && e.Entry? && HasRm(e.layout) && Follows(e, [], 0)
    ensures IsRm(op) && Known(env, op)
    ensures var c := Then(Prefix16(bits), OpRm(env, opc, reg, op));
            c.Code? && Means(env.pc, c.bytes, e.op, RmArgs(e, reg, Meaning(env, op), 0))
  {
    CodeRm(env, bits, opc, reg, op, [], 0, e);
    NoBytes(OpRm(env, opc, reg, op).bytes);
  }

  /** Opcode, operand and immediate without a prefix. */
  lemma CodePost(env: Env, opc: Byte, reg: RegCode, op: Operand, imm: seq<Byte>, v: int, e: Entry)
    requires env.Ok() && Local(env, op) && EncodeRm(env, reg, op) != Rejected && opc != 0x0F && opc != 0x66
    requires e == OneByte(opc, reg, 32) && e.Entry? && HasRm(e.layout) && Follows(e, imm, v)
    ensures IsRm(op) && Known(env, op)
    ensures var c := Then(OpRm(env, opc, reg, op), Lit(imm));
            c.Code? && Means(env.pc, c.bytes, e.op, RmArgs(e, reg, Meaning(env, op), v))
  {
    CodeRm(env, 32, opc, reg, op, imm, v, e);
    NoBytes(Then(OpRm(env, opc, reg, op), Lit(imm)).bytes);
  }

  /** Instructions whose operands share a width. */
  predicate SameWidth(mn: Mnemonic) { mn.Mov? || mn.Alu? || mn.Test? }

  function PlaceArgs(env: Env, a: Operand, b: Operand, bits: int): Args
    requires env.Ok() && IsRm(a) && IsRm(b) && Known(env, a) && Known(env, b)
  {
    Args2(Loc(Meaning(env, a), bits), Loc(Meaning(env, b), bits))
  }

  lemma PlacesWritten(env: Env, mn: Mnemonic, a: Operand, b: Operand, bits: int)
    requires env.Ok() && IsRm(a) && IsRm(b) && Known(env, a) && Known(env, b) && SameWidth(mn)
    requires bits == InferBits(a, InferBits(b, 32))
    ensures PlaceArgs(env, a, b, bits) == Written2(env, mn, a, b) <==> Fits(b, bits)
  {
  }

  lemma ImmWritten(env: Env, mn: Mnemonic, a: Operand, b: Operand, bits: int)
    requires env.Ok() && IsRm(a) && IsImm(b) && Known(env, a) && Known(env, b) && SameWidth(mn)
    requires bits == InferBits(a, 32)
    ensures Args2(Loc(Meaning(env, a), bits), Const(Cut(ResolveImm(env, b).value, bits), bits)) ==
            Written2(env, mn, a, b)
    ensures Fits(b, bits)
  {
  }

  /** A register and a place, in either order. */
  lemma PairSays(env: Env, mn: Mnemonic, opc: Byte, g: Operand, m: Operand, store: bool, bits: int, e: Entry)
    requires env.Ok() && g.Reg? && Local(env, m) && EncodeRm(env, g.code, m) != Rejected && SameWidth(mn)
    requires bits == if store then InferBits(m, InferBits(g, 32)) else InferBits(g, InferBits(m, 32))
    requires opc != 0x0F && opc != 0x66 && e == OneByte(opc, g.code, OperandSize(bits))
    requires e.Entry? && e.bits == bits && e.layout == (if store then ER else GE(bits)) && OperationOf(mn) == Some(e.op)
    ensures Known(env, g) && Known(env, m) && IsRm(m)
    ensures var a, b := if store then m else g, if store then g else m;
            Says(env.pc, Then(Prefix16(bits), OpRm(env, opc, g.code, m)), e.op, PlaceArgs(env, a, b, bits),
                 OperationOf(mn), Written2(env, mn, a, b), Fits(b, bits))
  {
    CodePre(env, bits, opc, g.code, m, e);
    if store {
      PlacesWritten(env, mn, m, g, bits);
    } else {
      PlacesWritten(env, mn, g, m, bits);
    }
  }

  lemma MovEntry(code: RegCode, r: int, w: nat)
    requires w == 16 || w == 32
    ensures OneByte(0xB8 + code, r, w) == Entry(MOV, w, PlusImm(w / 8)) && (0xB8 + code) % 8 == code
  {
  }

  /** An immediate into a register: the opcode without the width bit, so a byte register names the word register
      of its number. */
  lemma MovRegImmMeans(pc: int, bits: Width, code: RegCode, v: Int32, bytes: seq<Byte>, w: nat)
    requires w == OperandSize(bits) && bytes == Prefix16(bits).bytes + ([0xB8 + code] + ImmField(bits, v).bytes)
    ensures Means(pc, bytes, MOV, Args2(Loc(Register(code), w), Const(Cut(v, w), w)))
  {
    HoldsField(w, v);
    assert ImmField(bits, v) == ImmField(w, v);
    var opc: Byte := 0xB8 + code;
    forall r: int
      ensures OneByte(opc, r, w) == Entry(MOV, w, PlusImm(w / 8))
    {
      MovEntry(code, r, w);
    }
    MovEntry(code, 0, w);
    PlainMeans(pc, bits, opc, ImmField(w, v).bytes, v, Entry(MOV, w, PlusImm(w / 8)), bytes);
  }

  lemma MovRegImmSays(env: Env, a: Operand, b: Operand) returns (args: Args)
    requires env.Ok() && Local(env, b) && a.Reg? && IsImm(b) && EncodeMov(env, a, b) != Rejected
    ensures Known(env, a) && Known(env, b)
    ensures Says(env.pc, EncodeMov(env, a, b), MOV, args, Some(MOV), Written2(env, Mov, a, b), a.bits != 8)
  {
    var w, v := OperandSize(a.bits), ResolveImm(env, b).value;
    MovRegImmMeans(env.pc, a.bits, a.code, v, EncodeMov(env, a, b).bytes, w);
    args := Args2(Loc(Register(a.code), w), Const(Cut(v, w), w));
  }

  /** A place and an immediate of its width, with the opcode for bytes and the one for words. */
  lemma FieldSays(env: Env, mn: Mnemonic, opc: Byte, reg: RegCode, a: Operand, b: Operand, bits: Width, e: Entry)
    requires env.Ok() && Local(env, a) && EncodeRm(env, reg, a) != Rejected && IsImm(b) && Known(env, b)
    requires SameWidth(mn) && bits == InferBits(a, 32) && opc != 0x0F && opc != 0x66
    requires e == OneByte(opc, reg, OperandSize(bits)) && e.Entry? && e.bits == bits
    requires e.layout == EImm(bits / 8, bits) && OperationOf(mn) == Some(e.op)
    ensures IsRm(a) && Known(env, a)
    ensures var v := ResolveImm(env, b).value;
            var c := if bits == 8 then Then(OpRm(env, opc, reg, a), Byte8(v))
                     else Then(Prefix16(bits), Then(OpRm(env, opc, reg, a), ImmField(bits, v)));
            c.Code? && Means(env.pc, c.bytes, e.op, Written2(env, mn, a, b)) && Fits(b, bits)
  {
    var v := ResolveImm(env, b).value;
    if bits == 8 {
      HoldsByte(v, 8);
      CodePost(env, opc, reg, a, [v % 256], v, e);
    } else {
      HoldsField(bits, v);
      CodeRm(env, bits, opc, reg, a, ImmField(bits, v).bytes, v, e);
    }
    ImmWritten(env, mn, a, b, bits);
  }

  lemma MovRegSays(env: Env, a: Operand, b: Operand, bits: Width)
    requires env.Ok() && Local(env, a) && Local(env, b) && EncodeMov(env, a, b) != Rejected && IsRm(b)
    requires bits == InferBits(a, InferBits(b, 32))
    ensures Known(env, a) && Known(env, b) && IsRm(a)
    ensures Says(env.pc, EncodeMov(env, a, b), MOV, PlaceArgs(env, a, b, bits), Some(MOV), Written2(env, Mov, a, b),
                 Fits(b, bits))
  {
    if a.Reg? {
      PairSays(env, Mov, if bits == 8 then 0x8A else 0x8B, a, b, false, bits, Entry(MOV, bits, GE(bits)));
    } else {
      PairSays(env, Mov, if bits == 8 then 0x88 else 0x89, b, a, true, bits, Entry(MOV, bits, ER));
    }
  }

  lemma MovMemImmSays(env: Env, a: Operand, b: Operand, bits: Width)
    requires env.Ok() && Local(env, a) && Local(env, b) && EncodeMov(env, a, b) != Rejected && a.Mem? && IsImm(b)
    requires bits == InferBits(a, 32)
    ensures Known(env, a) && Known(env, b) && Fits(b, bits)
    ensures Means(env.pc, EncodeMov(env, a, b).bytes, MOV, Written2(env, Mov, a, b))
  {
    FieldSays(env, Mov, if bits == 8 then 0xC6 else 0xC7, 0, a, b, bits, Entry(MOV, bits, EImm(bits / 8, bits)));
  }

  lemma MovSays(env: Env, a: Operand, b: Operand) returns (args: Args)
    requires env.Ok() && Local(env, a) && Local(env, b) && EncodeMov(env, a, b) != Rejected
    ensures Known(env, a) && Known(env, b)
    ensures Says(env.pc, EncodeMov(env, a, b), MOV, args, Some(MOV), Written2(env, Mov, a, b), KeepsBoth(Mov, a, b))
  {
    var bits := InferBits(a, InferBits(b, 32));
    if IsRm(b) {
      MovRegSays(env, a, b, bits);
      args := PlaceArgs(env, a, b, bits);
    } else if a.Reg? {
      args := MovRegImmSays(env, a, b);
    } else {
      MovMemImmSays(env, a, b, bits);
      args := Written2(env, Mov, a, b);
    }
  }

  /** Opcodes 00 to 3F with an operand in memory or a register. */
  lemma AluEntry(n: RegCode, form: int, r: int, w: nat, bits: int)
    requires 0 <= form < 4 && bits == if form % 2 == 0 then 8 else w
    ensures OneByte(8 * n + form, r, w) == Entry(Arithmetic(n), bits, if form < 2 then ER else GE(bits))
    ensures 8 * n + form != 0x0F && 8 * n + form != 0x66
  {
    var b := 8 * n + form;
    assert b / 8 == n && b % 8 == form && b % 2 == form % 2;
  }

  lemma Grp1Says(env: Env, n: RegCode, a: Operand, b: Operand, bits: Width, c: Code)
    requires env.Ok() && Local(env, a) && IsImm(b) && Known(env, b) && bits == InferBits(a, 32)
    requires c == EncodeGrp1(env, n, a, ResolveImm(env, b).value, bits) && c != Rejected
    ensures IsRm(a) && Known(env, a)
    ensures Means(env.pc, c.bytes, Arithmetic(n), Written2(env, Alu(n), a, b))
  {
    var v := ResolveImm(env, b).value;
    if bits != 8 && Small(v) {
      HoldsByte(v, bits);
      CodeRm(env, bits, 0x83, n, a, [v % 256], v, Entry(Arithmetic(n), bits, EImm(1, bits)));
      ImmWritten(env, Alu(n), a, b, bits);
    } else {
      FieldSays(env, Alu(n), if bits == 8 then 0x80 else 0x81, n, a, b, bits,
                Entry(Arithmetic(n), bits, EImm(bits / 8, bits)));
    }
  }

  /** The register forms, `form` being 0 or 1 to store and 2 or 3 to load. */
  lemma AluPairSays(env: Env, n: RegCode, opc: Byte, form: int, g: Operand, m: Operand, bits: int)
    requires env.Ok() && g.Reg? && Local(env, m) && EncodeRm(env, g.code, m) != Rejected
    requires bits == if form < 2 then InferBits(m, InferBits(g, 32)) else InferBits(g, InferBits(m, 32))
    requires opc == 8 * n + form && 0 <= form < 4 && (form % 2 == 0 <==> bits == 8)
    ensures Known(env, g) && Known(env, m) && IsRm(m)
    ensures var a, b := if form < 2 then m else g, if form < 2 then g else m;
            Says(env.pc, Then(Prefix16(bits), OpRm(env, opc, g.code, m)), Arithmetic(n), PlaceArgs(env, a, b, bits),
                 Some(Arithmetic(n)), Written2(env, Alu(n), a, b), Fits(b, bits))
  {
    AluEntry(n, form, g.code, OperandSize(bits), bits);
    PairSays(env, Alu(n), opc, g, m, form < 2, bits, Entry(Arithmetic(n), bits, if form < 2 then ER else GE(bits)));
  }

  /** Which register form is taken. */
  lemma AluForm(env: Env, n: RegCode, a: Operand, b: Operand, bits: int, form: int, opc: Byte, g: Operand, m: Operand)
    requires env.Ok() && IsRm(b) && bits == InferBits(a, InferBits(b, 32)) && EncodeAlu(env, n, a, b) != Rejected
    requires form == (if b.Reg? then 1 else 3) - (if bits == 8 then 1 else 0) && opc == 8 * n + form
    requires if b.Reg? then g == b && m == a else g == a && m == b
    ensures g.Reg? && EncodeRm(env, g.code, m) != Rejected
    ensures EncodeAlu(env, n, a, b) == Then(Prefix16(bits), OpRm(env, opc, g.code, m))
  {
    var narrow := if bits == 8 then 1 else 0;
    assert opc == if b.Reg? then 8 * n + 1 - narrow else 8 * n + 3 - narrow;
    var c := OpRm(env, opc, g.code, m);
    assert EncodeAlu(env, n, a, b) == Then(Prefix16(bits), c);
  }

  lemma AluPlacesSays(env: Env, n: RegCode, a: Operand, b: Operand, bits: int, form: int, opc: Byte)
    requires env.Ok() && Local(env, a) && Local(env, b) && EncodeAlu(env, n, a, b) != Rejected && IsRm(b)
    requires bits == InferBits(a, InferBits(b, 32)) && opc == 8 * n + form
    requires form == (if b.Reg? then 1 else 3) - (if bits == 8 then 1 else 0)
    ensures Known(env, a) && Known(env, b) && IsRm(a)
    ensures Says(env.pc, EncodeAlu(env, n, a, b), Arithmetic(n), PlaceArgs(env, a, b, bits), Some(Arithmetic(n)),
                 Written2(env, Alu(n), a, b), Fits(b, bits))
  {
    var g, m := if b.Reg? then b else a, if b.Reg? then a else b;
    AluForm(env, n, a, b, bits, form, opc, g, m);
    AluPairSays(env, n, opc, form, g, m, bits);
  }

  lemma AluSays(env: Env, n: RegCode, a: Operand, b: Operand) returns (args: Args)
    requires env.Ok() && Local(env, a) && Local(env, b) && EncodeAlu(env, n, a, b) != Rejected
    ensures Known(env, a) && Known(env, b)
    ensures Says(env.pc, EncodeAlu(env, n, a, b), Arithmetic(n), args, Some(Arithmetic(n)), Written2(env, Alu(n), a, b),
                 KeepsBoth(Alu(n), a, b))
  {
    var bits := InferBits(a, InferBits(b, 32));
    if IsRm(b) {
      var form := (if b.Reg? then 1 else 3) - (if bits == 8 then 1 else 0);
      AluPlacesSays(env, n, a, b, bits, form, 8 * n + form);
      args := PlaceArgs(env, a, b, bits);
    } else {
      Grp1Says(env, n, a, b, bits, EncodeAlu(env, n, a, b));
      args := Written2(env, Alu(n), a, b);
    }
  }

  lemma TestSays(env: Env, a: Operand, b: Operand) returns (args: Args)
    requires env.Ok() && Local(env, a) && Local(env, b) && EncodeTest(env, a, b) != Rejected
    ensures Known(env, a) && Known(env, b)
    ensures Says(env.pc, EncodeTest(env, a, b), TEST, args, Some(TEST), Written2(env, Test, a, b),
                 KeepsBoth(Test, a, b))
  {
    var bits := InferBits(a, InferBits(b, 32));
    if b.Reg? {
      PairSays(env, Test, if bits == 8 then 0x84 else 0x85, b, a, true, bits, Entry(TEST, bits, ER));
      args := PlaceArgs(env, a, b, bits);
    } else {
      FieldSays(env, Test, if bits == 8 then 0xF6 else 0xF7, 0, a, b, bits, Entry(TEST, bits, EImm(bits / 8, bits)));
      args := Written2(env, Test, a, b);
    }
  }

  lemma ShiftEntry(n: ShiftCode, bits: Width)
    ensures OneByte(if bits == 8 then 0xD2 else 0xD3, n, OperandSize(bits)) ==
            Entry(OperationOf(Shift(n)).value, bits, ECl)
    ensures OneByte(if bits == 8 then 0xC0 else 0xC1, n, OperandSize(bits)) ==
            Entry(OperationOf(Shift(n)).value, bits, EImm(1, 8))
  {
  }

  /** The shift's operands: the count is a byte or CL. */
  function ShiftArgs(env: Env, a: Operand, b: Operand): Args
    requires env.Ok() && Known(env, a) && Known(env, b)
  {
    Args2(Written(env, a, 32), Written(env, b, 8))
  }

  lemma ShiftByCl(env: Env, opc: Byte, reg: RegCode, a: Operand, b: Operand, bits: Width, e: Entry)
    requires env.Ok() && Local(env, a) && EncodeRm(env, reg, a) != Rejected && bits == InferBits(a, 32)
    requires b == Reg(1, 8) && opc > 0x66 && e == OneByte(opc, reg, OperandSize(bits)) && e.Entry?
    requires e.bits == bits && e.layout == ECl
    ensures Known(env, a) && Known(env, b)
    ensures Means(env.pc, Then(Prefix16(bits), OpRm(env, opc, reg, a)).bytes, e.op, ShiftArgs(env, a, b))
  {
    CodePre(env, bits, opc, reg, a, e);
  }

  lemma ShiftByImm(env: Env, opc: Byte, reg: RegCode, a: Operand, b: Operand, bits: Width, e: Entry)
    requires env.Ok() && Local(env, a) && EncodeRm(env, reg, a) != Rejected && bits == InferBits(a, 32)
    requires IsImm(b) && Known(env, b) && opc > 0x66 && e == OneByte(opc, reg, OperandSize(bits)) && e.Entry?
    requires e.bits == bits && e.layout == EImm(1, 8)
    ensures Known(env, a)
    ensures Means(env.pc, Then(Prefix16(bits), Then(OpRm(env, opc, reg, a), Byte8(ResolveImm(env, b).value))).bytes,
                  e.op, ShiftArgs(env, a, b))
  {
    var v := ResolveImm(env, b).value;
    HoldsByte(v, 8);
    CodeRm(env, bits, opc, reg, a, [v % 256], v, e);
  }

  lemma ShiftSays(env: Env, n: ShiftCode, a: Operand, b: Operand, op: Operation)
    requires env.Ok() && Local(env, a) && Local(env, b) && EncodeShift(env, n, a, b) != Rejected
    requires op == OperationOf(Shift(n)).value
    ensures Known(env, a) && Known(env, b)
    ensures Means(env.pc, EncodeShift(env, n, a, b).bytes, op, ShiftArgs(env, a, b))
  {
    var bits := InferBits(a, 32);
    ShiftEntry(n, bits);
    if b.Reg? {
      ShiftByCl(env, if bits == 8 then 0xD2 else 0xD3, n, a, b, bits, Entry(op, bits, ECl));
    } else {
      ShiftByImm(env, if bits == 8 then 0xC0 else 0xC1, n, a, b, bits, Entry(op, bits, EImm(1, 8)));
    }
  }

  lemma ExtendSays(env: Env, mn: Mnemonic, a: Operand, b: Operand) returns (args: Args)
    requires env.Ok() && Local(env, a) && Local(env, b) && (mn.Movsx? || mn.Movzx?)
    requires EncodeBinary(env, mn, a, b) != Rejected
    ensures Known(env, a) && Known(env, b)
    ensures Says(env.pc, EncodeBinary(env, mn, a, b), OperationOf(mn).value, args, OperationOf(mn),
                 Written2(env, mn, a, b), KeepsBoth(mn, a, b))
  {
    var from := if InferBits(b, 8) == 16 then 16 else 8;
    var opc: Byte := (if mn.Movsx? then 0xBE else 0xB6) + (if from == 16 then 1 else 0);
    RmMeans2(env, opc, a.code, b, Entry(OperationOf(mn).value, 32, GE(from)), EncodeBinary(env, mn, a, b).bytes);
    args := Args2(Loc(Register(a.code), 32), Loc(Meaning(env, b), from));
  }

  lemma LeaSays(env: Env, a: Operand, b: Operand) returns (args: Args)
    requires env.Ok() && Local(env, b) && EncodeBinary(env, Lea, a, b) != Rejected
    ensures Known(env, a) && Known(env, b)
    ensures Says(env.pc, EncodeBinary(env, Lea, a, b), LEA, args, Some(LEA), Written2(env, Lea, a, b), Fits(a, 32))
  {
    CodeOp(env, 0x8D, a.code, b, Entry(LEA, 32, GE(0)));
    args := Args2(Loc(Register(a.code), 32), Loc(Meaning(env, b), 0));
  }

  lemma Imul2Says(env: Env, a: Operand, b: Operand) returns (args: Args)
    requires env.Ok() && Local(env, b) && EncodeBinary(env, Imul, a, b) != Rejected
    ensures Known(env, a) && Known(env, b)
    ensures Says(env.pc, EncodeBinary(env, Imul, a, b), IMUL, args, Some(IMUL), Written2(env, Imul, a, b),
                 KeepsBoth(Imul, a, b))
  {
    RmMeans2(env, 0xAF, a.code, b, Entry(IMUL, 32, GE(32)), EncodeBinary(env, Imul, a, b).bytes);
    args := Args2(Full(env, a), Full(env, b));
  }

  lemma Imul3Says(env: Env, a: Operand, b: Operand, c: Operand) returns (args: Args)
    requires env.Ok() && Local(env, b) && Local(env, c) && EncodeImul3(env, a, b, c) != Rejected
    ensures Known(env, a) && Known(env, b) && Known(env, c)
    ensures Says(env.pc, EncodeImul3(env, a, b, c), IMUL, args, Some(IMUL),
                 Args3(Written(env, a, 32), Written(env, b, 32), Written(env, c, 32)), Fits(a, 32) && Fits(b, 32))
  {
    var v := ResolveImm(env, c).value;
    if Small(v) {
      HoldsByte(v, 32);
      CodePost(env, 0x6B, a.code, b, [v % 256], v, Entry(IMUL, 32, GEImm(1)));
    } else {
      HoldsField(32, v);
      CodePost(env, 0x69, a.code, b, Le32(v), v, Entry(IMUL, 32, GEImm(4)));
    }
    args := Args3(Full(env, a), Full(env, b), Const(Cut(v, 32), 32));
  }

  lemma BinarySays(env: Env, mn: Mnemonic, a: Operand, b: Operand) returns (args: Args)
    requires env.Ok() && Local(env, a) && Local(env, b) && EncodeBinary(env, mn, a, b) != Rejected
    ensures Known(env, a) && Known(env, b) && OperationOf(mn).Some?
    ensures Says(env.pc, EncodeBinary(env, mn, a, b), OperationOf(mn).value, args, OperationOf(mn),
                 Written2(env, mn, a, b), KeepsBoth(mn, a, b))
  {
    match mn
    case Mov => args := MovSays(env, a, b);
    case Lea => args := LeaSays(env, a, b);
    case Movsx => args := ExtendSays(env, mn, a, b);
    case Movzx => args := ExtendSays(env, mn, a, b);
    case Imul => args := Imul2Says(env, a, b);
    case Alu(n) => args := AluSays(env, n, a, b);
    case Test => args := TestSays(env, a, b);
    case Shift(n) =>
      ShiftSays(env, n, a, b, OperationOf(mn).value);
      args := ShiftArgs(env, a, b);
  }

  // ---- the theorem ---------------------------------------------------------------------------------------

  /** Whatever follows, the processor reads back one instruction from the bytes of an accepted one, and it is the
      one written, with its operands in order, exactly when the widths written are those encoded. */
  lemma EncodeSays(env: Env, mn: Mnemonic, ops: seq<Operand>) returns (op: Operation, args: Args)
    requires env.Ok() && Encode(env, mn, ops) != Rejected && forall i :: 0 <= i < |ops| ==> Local(env, ops[i])
    ensures |ops| <= 3 && AllKnown(env, ops)
    ensures Means(env.pc, Encode(env, mn, ops).bytes, op, args)
    ensures OperationOf(mn) == Some(op) && WrittenArgs(env, mn, ops) == args <==> KeepsWidths(mn, ops)
  {
    if |ops| == 0 {
      op, args := NullarySays(env, mn);
    } else if |ops| == 1 {
      args := UnarySays(env, mn, ops[0]);
      op := OperationOf(mn).value;
    } else if |ops| == 2 {
      args := BinarySays(env, mn, ops[0], ops[1]);
      op := OperationOf(mn).value;
    } else {
      args := Imul3Says(env, ops[0], ops[1], ops[2]);
      op := IMUL;
    }
  }

  /** `mov ah, 1` loads ESP. */
  lemma ByteMoveLoadsWord(env: Env)
    requires env.Ok()
    ensures var code := Encode(env, Mov, [Reg(4, 8), Operand.Imm(1)]);
            code.Code? && Means(env.pc, code.bytes, MOV, Args2(Loc(Register(4), 32), Const(1, 32)))
  {
    MovRegImmMeans(env.pc, 8, 4, 1, Encode(env, Mov, [Reg(4, 8), Operand.Imm(1)]).bytes, 32);
  }

  /** `cbw` extends AX to EAX. */
  lemma CbwExtendsWord(env: Env)
    requires env.Ok()
    ensures Encode(env, Cbw, []).Code? && Means(env.pc, Encode(env, Cbw, []).bytes, CWDE, Args0)
  {
    NoBytes([0x98]);
    PlainMeans(env.pc, 32, 0x98, [], 0, Entry(CWDE, 32, Plain), [0x98]);
  }
}
