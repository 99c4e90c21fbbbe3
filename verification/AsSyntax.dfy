/** Parsed as86 statements and the symbol table (userland/as86.c, `operand_t`, `label_t`). */
module AsSyntax {
  import opened Words
  import opened Options

  type Name = string
  type RegCode = r: int | 0 <= r < 8
  type Section = s: int | 0 <= s < 4

  /** Widths of a register operand, of a memory operand (0 when the text gives none), condition numbers, and the
      group numbers of the shifts and rotations there are names for. */
  type Width = b: int | b == 8 || b == 16 || b == 32 witness 8
  type Hint = b: int | b == 0 || b == 8 || b == 16 || b == 32
  type Cond = c: int | 0 <= c < 16
  type ShiftCode = e: int | e == 0 || e == 1 || e == 4 || e == 5 || e == 7

  const SEC_TEXT: Section := 0
  const SEC_RODATA: Section := 1
  const SEC_DATA: Section := 2
  const SEC_BSS: Section := 3

  const MAX_LABELS: nat := 2048
  const MAX_RELOCS: nat := 8192

  datatype Operand =
    | NoOperand
    | Reg(code: RegCode, bits: Width)
    | Imm(value: Int32)
    | Lab(name: Name)
    | Mem(base: Option<RegCode>, disp: Int32, dispLabel: Option<Name>, sizeHint: Hint)

  datatype Mnemonic =
    | Nop | Ret | Leave | Cdq | Cbw | Pushad | Popad | Iret
    | Int | Push | Pop | Call | Jmp | Jcc(cc: Cond) | Setcc(cc: Cond)
    | Inc | Dec | Not | Neg | Mul | Imul | Idiv
    | Mov | Lea | Movsx | Movzx | Alu(ext: RegCode) | Test | Shift(code: ShiftCode)
    | Unknown

  datatype DataItem =
    | Text(chars: seq<Byte>)       // a string literal, escapes already replaced
    | Number(value: Int32)
    | Symbol(name: Name)

  /** One labelled, directive or instruction part of a source line.  `Ignored` is a part that
      has no effect (`bits`), `Malformed` one whose text is reported as an error. */
  datatype Stmt =
    | Ignored
    | Malformed
    | Define(name: Name)
    | Global(names: seq<Name>)
    | Extern(names: seq<Name>)
    | InSection(sec: Section)
    | Org(value: Int32)
    | Align(to: nat)
    | Reserve(count: nat)
    | Data(width: int, items: seq<DataItem>)
    | Times(times: nat, twidth: int, item: DataItem)
    | Instr(mn: Mnemonic, ops: seq<Operand>)

  /** `label_t` */
  datatype Label = Label(name: Name, defined: bool, sec: Section, off: nat, isGlobal: bool, isExtern: bool)

  function NewLabel(n: Name): Label { Label(n, false, SEC_TEXT, 0, false, false) }

  /** `get_label_index` without creation: the first entry called `n` at or after `from`, or -1. */
  function FindFrom(ls: seq<Label>, n: Name, from: nat): (r: int)
    requires from <= |ls|
    ensures r == -1 || from <= r < |ls|
    ensures r == -1 ==> forall k :: from <= k < |ls| ==> ls[k].name != n
    ensures r != -1 ==> ls[r].name == n && forall k :: from <= k < r ==> ls[k].name != n
    decreases |ls| - from
  {
    if from == |ls| then -1
    else if ls[from].name == n then from
    else FindFrom(ls, n, from + 1)
  }

  function Find(ls: seq<Label>, n: Name): (r: int)
    ensures r == -1 || 0 <= r < |ls|
    ensures r == -1 ==> forall k :: 0 <= k < |ls| ==> ls[k].name != n
    ensures r != -1 ==> ls[r].name == n && forall k :: 0 <= k < r ==> ls[k].name != n
  {
    FindFrom(ls, n, 0)
  }

  /** `Find` returns the first index with the name. */
  lemma FindIs(ls: seq<Label>, n: Name, i: nat)
    requires i < |ls| && ls[i].name == n
    requires forall k :: 0 <= k < i ==> ls[k].name != n
    ensures Find(ls, n) == i
  {
    assert ls[i].name == n;
  }

  datatype RelKind = Abs32 | Rel32
}

/** Instruction encoding.  Each `encode_*` routine becomes a function from the assembler's
    read-only view to the bytes it emits and the relocations it records; `Rejected` is a zero return. */
module AsEncode {
  import opened Words
  import opened Options
  import opened AsSyntax

  /** A relocation inside one statement: `off` counts from the statement's first byte. */
  datatype Fixup = Fixup(off: nat, kind: RelKind, sym: Name, addend: Int32)

  datatype Code = Rejected | Code(bytes: seq<Byte>, fixups: seq<Fixup>)

  /** What encoding may look at.  `pc` is `cur_pc` at the statement's first byte. */
  datatype Env = Env(pass: int, obj: bool, org: int, base: seq<nat>, labels: seq<Label>, pc: int)
  {
    ghost predicate Ok() { |base| == 4 }
  }

  function Displace(fs: seq<Fixup>, n: nat): (r: seq<Fixup>)
    ensures |r| == |fs|
    ensures forall i :: 0 <= i < |fs| ==> r[i] == fs[i].(off := fs[i].off + n)
  {
    seq(|fs|, i requires 0 <= i < |fs| => fs[i].(off := fs[i].off + n))
  }

  /** Emit `a`, then `b`. */
  function Then(a: Code, b: Code): Code {
    if a.Rejected? || b.Rejected? then Rejected
    else Code(a.bytes + b.bytes, a.fixups + Displace(b.fixups, |a.bytes|))
  }

  function Lit(bytes: seq<Byte>): Code { Code(bytes, []) }

  function Byte8(v: int): Code { Lit([v % 256]) }

  function Word32(v: int): Code { Lit(Le32(v)) }

  /** Address of a table entry: `org + sec_base[section] + offset`. */
  function LabelAddr(env: Env, l: Label): int
    requires env.Ok()
  {
    env.org + env.base[l.sec] + l.off
  }

  /** `resolve_label` */
  function Resolve(env: Env, n: Name): Option<Int32>
    requires env.Ok()
  {
    var i := Find(env.labels, n);
    if i == -1 || !env.labels[i].defined then
      if env.obj && env.pass == 2 && i != -1 && env.labels[i].isExtern then Some(0) else None
    else Some(S32(LabelAddr(env, env.labels[i])))
  }

  /** `resolve_imm`: pass 1 stands in 0x1000 for every label. */
  function ResolveImm(env: Env, op: Operand): Option<Int32>
    requires env.Ok()
  {
    match op
    case Imm(v) => Some(v)
    case Lab(n) => if env.pass == 1 then Some(0x1000) else Resolve(env, n)
    case _ => None
  }

  /** A zero word for the linker to patch, with the `add_reloc` call that asks for it. */
  function Patched(kind: RelKind, sym: Name, addend: Int32): Code {
    Code([0, 0, 0, 0], [Fixup(0, kind, sym, addend)])
  }

  function ModRm(mod: int, reg: int, rm: int): Byte {
    mod % 4 * 64 + reg % 8 * 8 + rm % 8
  }

  predicate Small(v: int) { -128 <= v <= 127 }

  /** `emit_rm_operand`, the `[disp32]` form. */
  function EncodeAbsolute(env: Env, reg: int, disp: Int32, lab: Option<Name>): Code
    requires env.Ok()
  {
    var head := Lit([ModRm(0, reg, 5)]);
    if lab.None? then Then(head, Word32(disp))
    else
      var l := Resolve(env, lab.value);
      if l.None? then Rejected
      else if env.obj then Then(head, Patched(Abs32, lab.value, disp))
      else Then(head, Word32(l.value + disp))
  }

  /** `emit_rm_operand`, the `[base + disp]` form. */
  function EncodeBased(reg: int, base: RegCode, disp: Int32): Code {
    var mod := if disp == 0 && base != 5 then 0 else if Small(disp) then 1 else 2;
    var head := [ModRm(mod, reg, base)] + (if base == 4 then [0x24] else []);
    if mod == 1 then Lit(head + [disp % 256])
    else if mod == 2 then Lit(head + Le32(disp))
    else Lit(head)
  }

  /** `emit_rm_operand` */
  function EncodeRm(env: Env, reg: int, op: Operand): Code
    requires env.Ok()
  {
    match op
    case Reg(code, _) => Lit([ModRm(3, reg, code)])
    case Mem(base, disp, lab, _) =>
      if base.None? then EncodeAbsolute(env, reg, disp, lab)
      else if lab.Some? then Rejected
      else EncodeBased(reg, base.value, disp)
    case _ => Rejected
  }

  function OpRm(env: Env, opcode: Byte, reg: int, op: Operand): Code
    requires env.Ok()
  {
    Then(Lit([opcode]), EncodeRm(env, reg, op))
  }

  /** `maybe_prefix_16` */
  function Prefix16(bits: int): Code { Lit(if bits == 16 then [0x66] else []) }

  /** Immediate field of an operand-sized instruction. */
  function ImmField(bits: int, v: int): Code {
    if bits == 16 then Lit(Le16(v)) else Word32(v)
  }

  predicate IsRm(op: Operand) { op.Reg? || op.Mem? }
  predicate IsImm(op: Operand) { op.Imm? || op.Lab? }

  /** `infer_bits_from_operand` */
  function InferBits(op: Operand, fallback: int): int {
    match op
    case Reg(_, bits) => bits
    case Mem(_, _, _, hint) => if hint != 0 then hint else fallback
    case _ => fallback
  }

  /** `encode_grp1_imm` */
  function EncodeGrp1(env: Env, ext: int, dst: Operand, imm: Int32, bits: int): Code
    requires env.Ok()
  {
    if bits == 8 then Then(OpRm(env, 0x80, ext, dst), Byte8(imm))
    else if Small(imm) then Then(Prefix16(bits), Then(OpRm(env, 0x83, ext, dst), Byte8(imm)))
    else Then(Prefix16(bits), Then(OpRm(env, 0x81, ext, dst), ImmField(bits, imm)))
  }

  function EncodePush(env: Env, op: Operand): Code
    requires env.Ok()
  {
    if op.Reg? then Lit([0x50 + op.code])
    else if IsImm(op) then
      if env.obj && op.Lab? then Then(Lit([0x68]), Patched(Abs32, op.name, 0))
      else
        var imm := ResolveImm(env, op);
        if imm.None? then Rejected
        else if Small(imm.value) then Then(Lit([0x6A]), Byte8(imm.value))
        else Then(Lit([0x68]), Word32(imm.value))
    else if op.Mem? then OpRm(env, 0xFF, 6, op)
    else Rejected
  }

  /** The relative branches: `opcode` then a 32-bit displacement from the end of the instruction. */
  function EncodeRelative(env: Env, opcode: seq<Byte>, op: Operand): Code
    requires env.Ok()
  {
    if env.obj && op.Lab? then Then(Lit(opcode), Patched(Rel32, op.name, 0))
    else
      var imm := ResolveImm(env, op);
      if imm.None? then Rejected
      else Then(Lit(opcode), Word32(imm.value - (env.pc + |opcode| + 4)))
  }

  function EncodeMov(env: Env, dst: Operand, src: Operand): Code
    requires env.Ok()
  {
    var bits := InferBits(dst, InferBits(src, 32));
    if dst.Reg? && IsImm(src) then
      if env.obj && src.Lab? && bits == 32 then
        Then(Lit([0xB8 + dst.code]), Patched(Abs32, src.name, 0))
      else
        var imm := ResolveImm(env, src);
        if imm.None? then Rejected
        else Then(Prefix16(bits), Then(Lit([0xB8 + dst.code]), ImmField(bits, imm.value)))
    else if dst.Reg? && IsRm(src) then
      Then(Prefix16(bits), OpRm(env, if bits == 8 then 0x8A else 0x8B, dst.code, src))
    else if dst.Mem? && src.Reg? then
      Then(Prefix16(bits), OpRm(env, if bits == 8 then 0x88 else 0x89, src.code, dst))
    else if dst.Mem? && IsImm(src) then
      var mbits := InferBits(dst, 32);
      if env.obj && src.Lab? then
        if mbits != 32 then Rejected
        else Then(OpRm(env, 0xC7, 0, dst), Patched(Abs32, src.name, 0))
      else
        var imm := ResolveImm(env, src);
        if imm.None? then Rejected
        else if mbits == 8 then Then(OpRm(env, 0xC6, 0, dst), Byte8(imm.value))
        else Then(Prefix16(mbits), Then(OpRm(env, 0xC7, 0, dst), ImmField(mbits, imm.value)))
    else Rejected
  }

  function EncodeImul3(env: Env, dst: Operand, src: Operand, factor: Operand): Code
    requires env.Ok()
  {
    if !(dst.Reg? && IsRm(src) && IsImm(factor)) then Rejected
    else
      var imm := ResolveImm(env, factor);
      if imm.None? then Rejected
      else if Small(imm.value) then Then(OpRm(env, 0x6B, dst.code, src), Byte8(imm.value))
      else Then(OpRm(env, 0x69, dst.code, src), Word32(imm.value))
  }

  function EncodeAlu(env: Env, ext: RegCode, dst: Operand, src: Operand): Code
    requires env.Ok()
  {
    var bits := InferBits(dst, InferBits(src, 32));
    var narrow := if bits == 8 then 1 else 0;
    if IsRm(dst) && src.Reg? then
      Then(Prefix16(bits), OpRm(env, 8 * ext + 1 - narrow, src.code, dst))
    else if dst.Reg? && IsRm(src) then
      Then(Prefix16(bits), OpRm(env, 8 * ext + 3 - narrow, dst.code, src))
    else if IsRm(dst) && IsImm(src) then
      var imm := ResolveImm(env, src);
      if imm.None? then Rejected else EncodeGrp1(env, ext, dst, imm.value, bits)
    else Rejected
  }

  function EncodeTest(env: Env, dst: Operand, src: Operand): Code
    requires env.Ok()
  {
    var bits := InferBits(dst, InferBits(src, 32));
    if IsRm(dst) && src.Reg? then
      Then(Prefix16(bits), OpRm(env, if bits == 8 then 0x84 else 0x85, src.code, dst))
    else if IsRm(dst) && IsImm(src) then
      var imm := ResolveImm(env, src);
      if imm.None? then Rejected
      else if bits == 8 then Then(OpRm(env, 0xF6, 0, dst), Byte8(imm.value))
      else Then(Prefix16(bits), Then(OpRm(env, 0xF7, 0, dst), ImmField(bits, imm.value)))
    else Rejected
  }

  function EncodeShift(env: Env, ext: ShiftCode, dst: Operand, count: Operand): Code
    requires env.Ok()
  {
    var bits := InferBits(dst, 32);
    if count.Reg? && count.bits == 8 && count.code == 1 then
      Then(Prefix16(bits), OpRm(env, if bits == 8 then 0xD2 else 0xD3, ext, dst))
    else if IsImm(count) then
      var imm := ResolveImm(env, count);
      if imm.None? then Rejected
      else Then(Prefix16(bits), Then(OpRm(env, if bits == 8 then 0xC0 else 0xC1, ext, dst), Byte8(imm.value)))
    else Rejected
  }

  function EncodeNullary(mn: Mnemonic): Code {
    match mn
    case Nop => Lit([0x90])
    case Ret => Lit([0xC3])
    case Leave => Lit([0xC9])
    case Cdq => Lit([0x99])
    case Cbw => Lit([0x98])
    case Pushad => Lit([0x60])
    case Popad => Lit([0x61])
    case Iret => Lit([0xCF])
    case _ => Rejected
  }

  function EncodeUnary(env: Env, mn: Mnemonic, op: Operand): Code
    requires env.Ok()
  {
    match mn
    case Int =>
      var imm := ResolveImm(env, op);
      if imm.None? then Rejected else Then(Lit([0xCD]), Byte8(imm.value))
    case Push => EncodePush(env, op)
    case Pop =>
      if op.Reg? then Lit([0x58 + op.code]) else if op.Mem? then OpRm(env, 0x8F, 0, op) else Rejected
    case Call => if IsImm(op) then EncodeRelative(env, [0xE8], op) else OpRm(env, 0xFF, 2, op)
    case Jmp => if IsImm(op) then EncodeRelative(env, [0xE9], op) else OpRm(env, 0xFF, 4, op)
    case Jcc(cc) => EncodeRelative(env, [0x0F, (0x80 + cc) % 256], op)
    case Setcc(cc) =>
      if InferBits(op, 8) != 8 then Rejected
      else Then(Lit([0x0F, (0x90 + cc) % 256]), EncodeRm(env, 0, op))
    case Inc => OpRm(env, 0xFF, 0, op)
    case Dec => OpRm(env, 0xFF, 1, op)
    case Not => OpRm(env, 0xF7, 2, op)
    case Neg => OpRm(env, 0xF7, 3, op)
    case Mul => OpRm(env, 0xF7, 4, op)
    case Imul => OpRm(env, 0xF7, 5, op)
    case Idiv => OpRm(env, 0xF7, 7, op)
    case _ => Rejected
  }

  function EncodeBinary(env: Env, mn: Mnemonic, a: Operand, b: Operand): Code
    requires env.Ok()
  {
    match mn
    case Mov => EncodeMov(env, a, b)
    case Lea => if a.Reg? && b.Mem? then OpRm(env, 0x8D, a.code, b) else Rejected
    case Movsx => EncodeExtend(env, 0xBE, a, b)
    case Movzx => EncodeExtend(env, 0xB6, a, b)
    case Imul => if a.Reg? && IsRm(b) then Then(Lit([0x0F, 0xAF]), EncodeRm(env, a.code, b)) else Rejected
    case Alu(ext) => EncodeAlu(env, ext, a, b)
    case Test => EncodeTest(env, a, b)
    case Shift(ext) => EncodeShift(env, ext, a, b)
    case _ => Rejected
  }

  function EncodeExtend(env: Env, opcode: Byte, a: Operand, b: Operand): Code
    requires env.Ok() && opcode < 255
  {
    if !(a.Reg? && IsRm(b)) then Rejected
    else
      var wide := if InferBits(b, 8) == 16 then 1 else 0;
      Then(Lit([0x0F, opcode + wide]), EncodeRm(env, a.code, b))
  }

  /** The value field of `db`, `dw` and `dd`. */
  function ValueField(width: int, v: int): Code {
    if width == 1 then Byte8(v) else if width == 2 then Lit(Le16(v)) else Word32(v)
  }

  /** `emit_data_item`: in pass 1 an unknown symbol counts as zero, in pass 2 it is an error. */
  function EncodeData(env: Env, width: int, item: DataItem): Code
    requires env.Ok()
  {
    match item
    case Text(chars) => if width != 1 && chars != [] then Rejected else Lit(chars)
    case Number(v) => ValueField(width, v)
    case Symbol(n) =>
      if env.obj && width == 4 && env.pass == 2 then Patched(Abs32, n, 0)
      else
        var v := Resolve(env, n);
        if v.Some? then ValueField(width, v.value)
        else if env.pass == 1 then ValueField(width, 0)
        else Rejected
  }

  /** `encode_instruction` */
  function Encode(env: Env, mn: Mnemonic, ops: seq<Operand>): Code
    requires env.Ok()
  {
    match |ops|
    case 0 => EncodeNullary(mn)
    case 1 => EncodeUnary(env, mn, ops[0])
    case 2 => EncodeBinary(env, mn, ops[0], ops[1])
    case 3 => if mn.Imul? then EncodeImul3(env, ops[0], ops[1], ops[2]) else Rejected
    case _ => Rejected
  }
}
