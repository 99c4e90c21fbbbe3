/** The IA-32 reading of a ModR/M operand (section 2.1.5 of the Intel SDM, volume 2), written
    from the manual's tables and used to check `emit_rm_operand`. */
module ModRmDecode {
  import opened Words
  import opened Options
  import opened AsSyntax
  import opened AsEncode

  datatype Place =
    | Register(code: int)
    | Memory(base: Option<int>, index: Option<int>, scale: int, disp: Int32)

  /** A decoded operand: the reg field, the place and the number of bytes read. */
  datatype Decoded = Truncated | Decoded(reg: int, place: Place, size: nat)

  function SignExtend8(b: Byte): Int32 { if b < 128 then b else b - 256 }

  /** Table 2-2 and 2-3: `mod` and `rm` choose the form, rm = 100b adds a SIB byte. */
  function Decode(s: seq<Byte>): Decoded {
    if |s| < 1 then Truncated
    else
      var mod: int, reg, rm := s[0] / 64, s[0] / 8 % 8, s[0] % 8;
      if mod == 3 then Decoded(reg, Register(rm), 1)
      else if rm == 4 then
        if |s| < 2 then Truncated
        else
          var scale, index, base := s[1] / 64, s[1] / 8 % 8, s[1] % 8;
          var ix := if index == 4 then None else Some(index);
          if base == 5 && mod == 0 then WithDisp(s, reg, None, ix, scale, 2, 4)
          else WithDisp(s, reg, Some(base), ix, scale, 2, DispSize(mod))
      else if rm == 5 && mod == 0 then WithDisp(s, reg, None, None, 0, 1, 4)
      else WithDisp(s, reg, Some(rm), None, 0, 1, DispSize(mod))
  }

  function DispSize(mod: int): nat { if mod == 1 then 1 else if mod == 2 then 4 else 0 }

  function WithDisp(s: seq<Byte>, reg: int, base: Option<int>, index: Option<int>, scale: int,
                    at: nat, size: nat): Decoded
  {
    if |s| < at + size then Truncated
    else
      var disp: Int32 :=
        if size == 1 then SignExtend8(s[at])
        else if size == 4 then S32(Rd32(s, at))
        else 0;
      Decoded(reg, Memory(base, index, scale, disp), at + size)
  }

  /** The place an operand names; a label contributes its resolved address. */
  function Meaning(env: Env, op: Operand): Place
    requires env.Ok() && IsRm(op)
    requires op.Mem? && op.dispLabel.Some? ==> Resolve(env, op.dispLabel.value).Some?
  {
    match op
    case Reg(code, _) => Register(code)
    case Mem(base, disp, lab, _) =>
      var b := match base case None => None case Some(r) => Some(r as int);
      Memory(b, None, 0, if lab.None? then disp else S32(Resolve(env, lab.value).value + disp))
  }

  lemma LeRoundTrip(pre: seq<Byte>, v: Int32, rest: seq<Byte>)
    ensures S32(Rd32(pre + Le32(v) + rest, |pre|)) == v
  {
    var w := Le32(v);
    RdAfter(pre, w, rest);
    RdLe32(v);
    S32OfU32(v);
  }

  lemma RdAfter(pre: seq<Byte>, w: seq<Byte>, rest: seq<Byte>)
    requires |w| == 4
    ensures Rd32(pre + w + rest, |pre|) == Rd32(w, 0)
  {
    var s := pre + w + rest;
    assert forall i :: 0 <= i < 4 ==> s[|pre| + i] == w[i];
  }

  lemma ModRmFields(mod: int, reg: RegCode, rm: RegCode)
    requires 0 <= mod < 4
    ensures var b := ModRm(mod, reg, rm); b / 64 == mod && b / 8 % 8 == reg && b % 8 == rm
  {
    var b := ModRm(mod, reg, rm);
    assert b == 8 * (8 * mod + reg) + rm;
    assert b / 8 == 8 * mod + reg;
  }

  /** Decoding a `[base + disp]` operand, given its first byte. */
  lemma DecodeBased(s: seq<Byte>, mod: int, reg: RegCode, base: RegCode)
    requires |s| >= 1 && s[0] == ModRm(mod, reg, base) && 0 <= mod < 3 && !(mod == 0 && base == 5)
    requires base == 4 ==> |s| >= 2 && s[1] == 0x24
    ensures Decode(s) == WithDisp(s, reg, Some(base), None, 0, if base == 4 then 2 else 1, DispSize(mod))
  {
    ModRmFields(mod, reg, base);
  }

  lemma BasedRoundTrip(reg: RegCode, base: RegCode, disp: Int32, rest: seq<Byte>)
    ensures var c := EncodeBased(reg, base, disp);
            Decode(c.bytes + rest) == Decoded(reg, Memory(Some(base), None, 0, disp), |c.bytes|)
  {
    var mod := if disp == 0 && base != 5 then 0 else if Small(disp) then 1 else 2;
    var head: seq<Byte> := [ModRm(mod, reg, base)] + (if base == 4 then [0x24] else []);
    var tail: seq<Byte> := if mod == 1 then [disp % 256] else if mod == 2 then Le32(disp) else [];
    var s := head + tail + rest;
    assert EncodeBased(reg, base, disp).bytes + rest == s;
    assert s[0] == ModRm(mod, reg, base);
    assert base == 4 ==> s[1] == 0x24;
    DecodeBased(s, mod, reg, base);
    if mod == 2 {
      LeRoundTrip(head, disp, rest);
    } else if mod == 1 {
      assert s[|head|] == disp % 256;
      assert SignExtend8(disp % 256) == disp;
    }
  }

  lemma AbsoluteRoundTrip(reg: RegCode, v: Int32, rest: seq<Byte>)
    ensures Decode([ModRm(0, reg, 5)] + Le32(v) + rest) == Decoded(reg, Memory(None, None, 0, v), 5)
  {
    var s := [ModRm(0, reg, 5)] + Le32(v) + rest;
    ModRmFields(0, reg, 5);
    LeRoundTrip([ModRm(0, reg, 5)], v, rest);
    assert s[0] == ModRm(0, reg, 5);
  }

  lemma Le32OfS32(v: int)
    ensures Le32(S32(v)) == Le32(v)
  {
  }

  lemma AbsoluteBytes(env: Env, reg: RegCode, disp: Int32, lab: Option<Name>, v: int)
    requires env.Ok() && (env.obj ==> lab.None?) && EncodeAbsolute(env, reg, disp, lab) != Rejected
    requires lab.Some? ==> Resolve(env, lab.value).Some?
    requires v == if lab.None? then disp else Resolve(env, lab.value).value + disp
    ensures EncodeAbsolute(env, reg, disp, lab).bytes == [ModRm(0, reg, 5)] + Le32(v)
  {
  }

  lemma LabelledRoundTrip(env: Env, reg: RegCode, disp: Int32, lab: Option<Name>, rest: seq<Byte>)
    requires env.Ok() && (env.obj ==> lab.None?)
    requires EncodeAbsolute(env, reg, disp, lab) != Rejected
    ensures lab.Some? ==> Resolve(env, lab.value).Some?
    ensures var c := EncodeAbsolute(env, reg, disp, lab);
            && |c.bytes| == 5
            && Decode(c.bytes + rest) ==
               Decoded(reg, Memory(None, None, 0,
                                   if lab.None? then disp else S32(Resolve(env, lab.value).value + disp)), 5)
  {
    var v: int := if lab.None? then disp else Resolve(env, lab.value).value + disp;
    AbsoluteBytes(env, reg, disp, lab, v);
    Le32OfS32(v);
    AbsoluteRoundTrip(reg, S32(v), rest);
  }

  /** Every operand `emit_rm_operand` accepts and fills in itself decodes back to the register field,
      base and displacement it was given, whatever bytes follow.  A label in object mode is left to
      the linker. */
  lemma RmRoundTrip(env: Env, reg: RegCode, op: Operand, rest: seq<Byte>)
    requires env.Ok() && (env.obj && op.Mem? ==> op.dispLabel.None?)
    requires EncodeRm(env, reg, op) != Rejected
    ensures IsRm(op)
    ensures op.Mem? && op.dispLabel.Some? ==> Resolve(env, op.dispLabel.value).Some?
    ensures var c := EncodeRm(env, reg, op);
            Decode(c.bytes + rest) == Decoded(reg, Meaning(env, op), |c.bytes|)
  {
    match op
    case Reg(code, _) =>
      ModRmFields(3, reg, code);
      assert (EncodeRm(env, reg, op).bytes + rest)[0] == ModRm(3, reg, code);
    case Mem(base, disp, lab, _) =>
      if base.None? {
        LabelledRoundTrip(env, reg, disp, lab, rest);
      } else {
        BasedRoundTrip(reg, base.value, disp, rest);
      }
  }
}

/** Lengths of encodings: which statements can change size between the two passes. */
module AsLengths {
  import opened Options
  import opened AsSyntax
  import opened AsEncode

  /** Size of a ModR/M operand; it never depends on a label's value. */
  function RmSize(op: Operand): nat {
    match op
    case Mem(base, disp, _, _) =>
      if base.None? then 5
      else (if base.value == 4 then 2 else 1) +
           (if disp == 0 && base.value != 5 then 0 else if Small(disp) then 1 else 4)
    case _ => 1
  }

  lemma RmLength(env: Env, reg: int, op: Operand)
    requires env.Ok()
    ensures EncodeRm(env, reg, op) != Rejected ==> |EncodeRm(env, reg, op).bytes| == RmSize(op)
  {
  }

  /** A label immediate whose pass-2 value fits a sign-extended byte. */
  predicate SmallLabel(env: Env, op: Operand)
    requires env.Ok()
  {
    op.Lab? && ResolveImm(env, op).Some? && Small(ResolveImm(env, op).value)
  }

  /** The statements whose encoding is chosen by the value of a label immediate, when that
      value turns out small: the pass-1 placeholder forced the wide form. */
  predicate Narrows(env: Env, mn: Mnemonic, ops: seq<Operand>)
    requires env.Ok()
  {
    || (|ops| == 1 && mn.Push? && !env.obj && SmallLabel(env, ops[0]))
    || (|ops| == 2 && mn.Alu? && IsRm(ops[0]) && InferBits(ops[0], 32) != 8 && SmallLabel(env, ops[1]))
    || (|ops| == 3 && mn.Imul? && SmallLabel(env, ops[2]))
  }

  function PrefixSize(bits: int): nat { if bits == 16 then 1 else 0 }

  function ImmSize(bits: int): nat { if bits == 16 then 2 else 4 }

  predicate WideImm(op: Operand) { op.Lab? || (op.Imm? && !Small(op.value)) }

  /** Size of a one-operand instruction with every label immediate in the wide form. */
  function UnarySize(mn: Mnemonic, op: Operand): nat {
    match mn
    case Int => 2
    case Push => if op.Reg? then 1 else if op.Mem? then 1 + RmSize(op) else if WideImm(op) then 5 else 2
    case Pop => if op.Reg? then 1 else 1 + RmSize(op)
    case Call => if IsImm(op) then 5 else 1 + RmSize(op)
    case Jmp => if IsImm(op) then 5 else 1 + RmSize(op)
    case Jcc(_) => 6
    case Setcc(_) => 2 + RmSize(op)
    case _ => 1 + RmSize(op)
  }

  function MovSize(a: Operand, b: Operand): nat {
    var bits := InferBits(a, InferBits(b, 32));
    if a.Reg? && IsImm(b) then PrefixSize(bits) + 1 + ImmSize(bits)
    else if a.Reg? then PrefixSize(bits) + 1 + RmSize(b)
    else if b.Reg? then PrefixSize(bits) + 1 + RmSize(a)
    else
      var mbits := InferBits(a, 32);
      1 + RmSize(a) + (if mbits == 8 then 1 else PrefixSize(mbits) + ImmSize(mbits))
  }

  function AluSize(a: Operand, b: Operand): nat {
    var bits := InferBits(a, InferBits(b, 32));
    if IsRm(a) && b.Reg? then PrefixSize(bits) + 1 + RmSize(a)
    else if IsRm(b) then PrefixSize(bits) + 1 + RmSize(b)
    else if bits == 8 then 2 + RmSize(a)
    else PrefixSize(bits) + 1 + RmSize(a) + (if WideImm(b) then ImmSize(bits) else 1)
  }

  function TestSize(a: Operand, b: Operand): nat {
    var bits := InferBits(a, InferBits(b, 32));
    if b.Reg? then PrefixSize(bits) + 1 + RmSize(a)
    else if bits == 8 then 2 + RmSize(a)
    else PrefixSize(bits) + 1 + RmSize(a) + ImmSize(bits)
  }

  function BinarySize(mn: Mnemonic, a: Operand, b: Operand): nat {
    match mn
    case Mov => MovSize(a, b)
    case Alu(_) => AluSize(a, b)
    case Test => TestSize(a, b)
    case Shift(_) => PrefixSize(InferBits(a, 32)) + 1 + RmSize(a) + (if IsImm(b) then 1 else 0)
    case Lea => 1 + RmSize(b)
    case _ => 2 + RmSize(b)
  }

  /** The size pass 1 reserves for an instruction: it looks at the operands' shapes only. */
  function WideSize(mn: Mnemonic, ops: seq<Operand>): nat {
    if |ops| == 0 then 1
    else if |ops| == 1 then UnarySize(mn, ops[0])
    else if |ops| == 2 then BinarySize(mn, ops[0], ops[1])
    else 1 + RmSize(ops[1]) + (if |ops| == 3 && WideImm(ops[2]) then 4 else 1)
  }

  lemma UnaryLength(e: Env, mn: Mnemonic, op: Operand)
    requires e.Ok() && EncodeUnary(e, mn, op) != Rejected
    ensures |EncodeUnary(e, mn, op).bytes| == UnarySize(mn, op) <==> !(mn.Push? && !e.obj && SmallLabel(e, op))
  {
    var reg := match mn
      case Push => 6 case Call => 2 case Jmp => 4 case Dec => 1 case Not => 2 case Neg => 3
      case Mul => 4 case Imul => 5 case Idiv => 7 case _ => 0;
    RmLength(e, reg, op);
  }

  lemma AluLength(e: Env, ext: RegCode, a: Operand, b: Operand)
    requires e.Ok() && EncodeAlu(e, ext, a, b) != Rejected
    ensures |EncodeAlu(e, ext, a, b).bytes| == AluSize(a, b)
       <==> !(IsRm(a) && InferBits(a, 32) != 8 && SmallLabel(e, b))
  {
    if IsRm(a) && b.Reg? {
      RmLength(e, b.code, a);
    } else if a.Reg? && IsRm(b) {
      RmLength(e, a.code, b);
    } else {
      RmLength(e, ext, a);
    }
  }

  lemma BinaryLength(e: Env, mn: Mnemonic, a: Operand, b: Operand)
    requires e.Ok() && EncodeBinary(e, mn, a, b) != Rejected
    ensures |EncodeBinary(e, mn, a, b).bytes| == BinarySize(mn, a, b) <==> !Narrows(e, mn, [a, b])
  {
    if mn.Alu? {
      AluLength(e, mn.ext, a, b);
    } else if mn.Mov? {
      if a.Reg? && IsRm(b) { RmLength(e, a.code, b); }
      if a.Mem? { RmLength(e, if b.Reg? then b.code else 0, a); }
    } else if mn.Test? {
      RmLength(e, if b.Reg? then b.code else 0, a);
    } else if mn.Shift? {
      RmLength(e, mn.code, a);
    } else {
      RmLength(e, a.code, b);
    }
  }

  /** An accepted instruction takes the size pass 1 reserves exactly when it does not narrow. */
  lemma EncodeLength(e: Env, mn: Mnemonic, ops: seq<Operand>)
    requires e.Ok() && Encode(e, mn, ops) != Rejected
    ensures |Encode(e, mn, ops).bytes| == WideSize(mn, ops) <==> !Narrows(e, mn, ops)
  {
    if |ops| == 1 {
      UnaryLength(e, mn, ops[0]);
    } else if |ops| == 2 {
      BinaryLength(e, mn, ops[0], ops[1]);
      assert Narrows(e, mn, ops) == Narrows(e, mn, [ops[0], ops[1]]);
    } else if |ops| == 3 {
      RmLength(e, ops[0].code, ops[1]);
    }
  }

  /** Pass 1 never narrows: its placeholder is wide. */
  lemma PassOneWide(e: Env, mn: Mnemonic, ops: seq<Operand>)
    requires e.Ok() && e.pass == 1
    ensures !Narrows(e, mn, ops)
  {
  }
}
