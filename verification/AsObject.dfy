/** Object code against flat code, one statement at a time: patching the zero words of an
    object-mode encoding gives the flat-mode encoding. */
module AsObject {
  import opened Words
  import opened Options
  import opened Patching
  import opened AsSyntax
  import opened AsEncode
  import opened AsLengths

  /** Every relocation names a defined label. */
  ghost predicate Known(env: Env, fs: seq<Fixup>) {
    forall k :: 0 <= k < |fs| ==> Find(env.labels, fs[k].sym) != -1 && env.labels[Find(env.labels, fs[k].sym)].defined
  }

  /** The word ld86 stores for a relocation in a statement that starts at address `at`. */
  function FixupWord(env: Env, at: int, f: Fixup): Word
    requires env.Ok() && Find(env.labels, f.sym) != -1
  {
    var target := LabelAddr(env, env.labels[Find(env.labels, f.sym)]) + f.addend;
    Le32(if f.kind.Abs32? then target else target - (at + f.off + 4))
  }

  function FixupWrites(env: Env, at: int, fs: seq<Fixup>): (ws: seq<Write>)
    requires env.Ok() && Known(env, fs)
    ensures |ws| == |fs|
    decreases |fs|
  {
    if fs == [] then [] else [Write(fs[0].off, FixupWord(env, at, fs[0]))] + FixupWrites(env, at, fs[1..])
  }

  /** Object code `o` placed at address `at` links to flat code `f`. */
  ghost predicate Matches(env: Env, at: int, o: Code, f: Code)
    requires env.Ok()
  {
    && o.Code? && f.Code? && Known(env, o.fixups)
    && Inside(FixupWrites(env, at, o.fixups), |o.bytes|)
    && Apply(o.bytes, FixupWrites(env, at, o.fixups)) == f.bytes
  }

  lemma MatchesSame(env: Env, at: int, bytes: seq<Byte>)
    requires env.Ok()
    ensures Matches(env, at, Lit(bytes), Lit(bytes))
  {
  }

  lemma ShiftedWord(env: Env, at: int, f: Fixup, n: nat)
    requires env.Ok() && Find(env.labels, f.sym) != -1
    ensures FixupWord(env, at, f.(off := f.off + n)) == FixupWord(env, at + n, f)
  {
    assert at + (f.off + n) + 4 == (at + n) + f.off + 4;
  }

  lemma {:induction false} WritesConcat(env: Env, at: int, fa: seq<Fixup>, fb: seq<Fixup>)
    requires env.Ok() && Known(env, fa) && Known(env, fb)
    ensures Known(env, fa + fb)
    ensures FixupWrites(env, at, fa + fb) == FixupWrites(env, at, fa) + FixupWrites(env, at, fb)
    decreases |fa|
  {
    if fa == [] {
      assert fa + fb == fb;
    } else {
      WritesConcat(env, at, fa[1..], fb);
      assert (fa + fb)[1..] == fa[1..] + fb;
    }
  }

  lemma DisplaceTail(fs: seq<Fixup>, n: nat)
    requires fs != []
    ensures Displace(fs, n)[0] == fs[0].(off := fs[0].off + n) && Displace(fs, n)[1..] == Displace(fs[1..], n)
  {
  }

  lemma {:induction false} WritesDisplaced(env: Env, at: int, fs: seq<Fixup>, n: nat)
    requires env.Ok() && Known(env, fs)
    ensures Known(env, Displace(fs, n))
    ensures FixupWrites(env, at, Displace(fs, n)) == Moved(FixupWrites(env, at + n, fs), n)
    decreases |fs|
  {
    if fs != [] {
      ShiftedWord(env, at, fs[0], n);
      WritesDisplaced(env, at, fs[1..], n);
      DisplaceTail(fs, n);
      MovedTail(FixupWrites(env, at + n, fs), n);
    }
  }

  lemma MatchesThen(env: Env, at: int, oa: Code, fa: Code, ob: Code, fb: Code)
    requires env.Ok() && Matches(env, at, oa, fa) && Matches(env, at + |oa.bytes|, ob, fb)
    ensures Matches(env, at, Then(oa, ob), Then(fa, fb))
    ensures |Then(oa, ob).bytes| == |oa.bytes| + |ob.bytes|
  {
    var n := |oa.bytes|;
    WritesDisplaced(env, at, ob.fixups, n);
    WritesConcat(env, at, oa.fixups, Displace(ob.fixups, n));
    ApplyJoined(oa.bytes, FixupWrites(env, at, oa.fixups), ob.bytes, FixupWrites(env, at + n, ob.fixups));
  }

  /** One patched word. */
  lemma MatchesPatched(env: Env, at: int, kind: RelKind, sym: Name, addend: Int32)
    requires env.Ok() && !env.obj && Resolve(env, sym).Some?
    ensures var v := Resolve(env, sym).value + addend;
            Matches(env, at, Patched(kind, sym, addend), Word32(if kind.Abs32? then v else v - (at + 4)))
  {
    var i := Find(env.labels, sym);
    var addr := LabelAddr(env, env.labels[i]);
    var d: int := if kind.Abs32? then addend else addend - (at + 4);
    U32AddS32(addr, d);
    var f := Fixup(0, kind, sym, addend);
    Le32Same(addr + d, S32(addr) + d);
    assert FixupWord(env, at, f) == Le32(S32(addr) + d);
    var ws := FixupWrites(env, at, [f]);
    assert ws == [Write(0, FixupWord(env, at, f))];
    assert Apply([0, 0, 0, 0], ws) == ws[0].word;
  }

  lemma Le32Same(a: int, b: int)
    requires U32(a) == U32(b)
    ensures Le32(a) == Le32(b)
  {
  }

  lemma MatchesPre(env: Env, at: int, pre: seq<Byte>, o: Code, f: Code)
    requires env.Ok() && Matches(env, at + |pre|, o, f)
    ensures Matches(env, at, Then(Lit(pre), o), Then(Lit(pre), f))
  {
    MatchesSame(env, at, pre);
    MatchesThen(env, at, Lit(pre), Lit(pre), o, f);
  }

  lemma MatchesPost(env: Env, at: int, o: Code, f: Code, post: seq<Byte>)
    requires env.Ok() && Matches(env, at, o, f)
    ensures Matches(env, at, Then(o, Lit(post)), Then(f, Lit(post)))
  {
    MatchesSame(env, at + |o.bytes|, post);
    MatchesThen(env, at, o, f, Lit(post), Lit(post));
  }

  lemma ThenEmpty(c: Code)
    ensures Then(Lit([]), c) == c
  {
    if c.Code? {
      assert [] + c.bytes == c.bytes;
      assert [] + Displace(c.fixups, 0) == c.fixups;
    }
  }

  /** The flat pass-2 view. */
  ghost predicate Flat(env: Env) { env.Ok() && !env.obj && env.pass == 2 }

  function Obj(env: Env): Env { env.(obj := true) }

  /** A label the flat view resolves resolves to the same value in object mode. */
  lemma ResolveObj(env: Env, n: Name)
    requires Flat(env) && Resolve(env, n).Some?
    ensures Resolve(Obj(env), n) == Resolve(env, n)
  {
  }

  lemma RmMatches(env: Env, at: int, reg: int, op: Operand)
    requires Flat(env) && EncodeRm(env, reg, op) != Rejected
    ensures Matches(env, at, EncodeRm(Obj(env), reg, op), EncodeRm(env, reg, op))
  {
    if op.Mem? && op.base.None? && op.dispLabel.Some? {
      var n := op.dispLabel.value;
      ResolveObj(env, n);
      MatchesPatched(env, at + 1, Abs32, n, op.disp);
      MatchesPre(env, at, [ModRm(0, reg, 5)], Patched(Abs32, n, op.disp), Word32(Resolve(env, n).value + op.disp));
    } else {
      MatchesSame(env, at, EncodeRm(env, reg, op).bytes);
    }
  }

  lemma OpRmMatches(env: Env, at: int, opcode: Byte, reg: int, op: Operand)
    requires Flat(env) && OpRm(env, opcode, reg, op) != Rejected
    ensures Matches(env, at, OpRm(Obj(env), opcode, reg, op), OpRm(env, opcode, reg, op))
  {
    RmMatches(env, at + 1, reg, op);
    MatchesPre(env, at, [opcode], EncodeRm(Obj(env), reg, op), EncodeRm(env, reg, op));
  }

  lemma OpThenMatches(env: Env, at: int, opcode: Byte, reg: int, op: Operand, post: seq<Byte>)
    requires Flat(env) && OpRm(env, opcode, reg, op) != Rejected
    ensures Matches(env, at, Then(OpRm(Obj(env), opcode, reg, op), Lit(post)),
                    Then(OpRm(env, opcode, reg, op), Lit(post)))
  {
    OpRmMatches(env, at, opcode, reg, op);
    MatchesPost(env, at, OpRm(Obj(env), opcode, reg, op), OpRm(env, opcode, reg, op), post);
  }

  lemma PreOpMatches(env: Env, at: int, pre: seq<Byte>, opcode: Byte, reg: int, op: Operand)
    requires Flat(env) && OpRm(env, opcode, reg, op) != Rejected
    ensures Matches(env, at, Then(Lit(pre), OpRm(Obj(env), opcode, reg, op)),
                    Then(Lit(pre), OpRm(env, opcode, reg, op)))
  {
    OpRmMatches(env, at + |pre|, opcode, reg, op);
    MatchesPre(env, at, pre, OpRm(Obj(env), opcode, reg, op), OpRm(env, opcode, reg, op));
  }

  /** Opcode and operand between a prefix and trailing bytes. */
  lemma WrappedMatches(env: Env, at: int, pre: seq<Byte>, opcode: Byte, reg: int, op: Operand, post: seq<Byte>)
    requires Flat(env) && OpRm(env, opcode, reg, op) != Rejected
    ensures Matches(env, at, Then(Lit(pre), Then(OpRm(Obj(env), opcode, reg, op), Lit(post))),
                             Then(Lit(pre), Then(OpRm(env, opcode, reg, op), Lit(post))))
  {
    OpThenMatches(env, at + |pre|, opcode, reg, op, post);
    MatchesPre(env, at, pre, Then(OpRm(Obj(env), opcode, reg, op), Lit(post)),
               Then(OpRm(env, opcode, reg, op), Lit(post)));
  }

  lemma PushMatches(env: Env, at: int, op: Operand)
    requires Flat(env) && EncodePush(env, op) != Rejected && !SmallLabel(env, op)
    ensures Matches(env, at, EncodePush(Obj(env), op), EncodePush(env, op))
  {
    if op.Lab? {
      MatchesPatched(env, at + 1, Abs32, op.name, 0);
      MatchesPre(env, at, [0x68], Patched(Abs32, op.name, 0), Word32(Resolve(env, op.name).value + 0));
    } else if op.Mem? {
      OpRmMatches(env, at, 0xFF, 6, op);
    } else {
      MatchesSame(env, at, EncodePush(env, op).bytes);
    }
  }

  lemma BranchMatches(env: Env, at: int, opcode: seq<Byte>, n: Name)
    requires Flat(env) && Resolve(env, n).Some?
    ensures Matches(env, at, Then(Lit(opcode), Patched(Rel32, n, 0)),
                    Then(Lit(opcode), Word32(Resolve(env, n).value - (at + |opcode| + 4))))
  {
    MatchesPatched(env, at + |opcode|, Rel32, n, 0);
    MatchesPre(env, at, opcode, Patched(Rel32, n, 0), Word32(Resolve(env, n).value - (at + |opcode| + 4)));
  }

  lemma RelativeMatches(env: Env, opcode: seq<Byte>, op: Operand)
    requires Flat(env) && EncodeRelative(env, opcode, op) != Rejected
    ensures Matches(env, env.pc, EncodeRelative(Obj(env), opcode, op), EncodeRelative(env, opcode, op))
  {
    if op.Lab? {
      BranchMatches(env, env.pc, opcode, op.name);
    } else {
      MatchesSame(env, env.pc, EncodeRelative(env, opcode, op).bytes);
    }
  }

  lemma MovMatches(env: Env, at: int, dst: Operand, src: Operand)
    requires Flat(env) && EncodeMov(env, dst, src) != Rejected && EncodeMov(Obj(env), dst, src) != Rejected
    ensures Matches(env, at, EncodeMov(Obj(env), dst, src), EncodeMov(env, dst, src))
  {
    var bits := InferBits(dst, InferBits(src, 32));
    if dst.Reg? && IsImm(src) {
      MovRegImmMatches(env, at, dst, src);
    } else if dst.Reg? && IsRm(src) {
      PreOpMatches(env, at, Prefix16(bits).bytes, if bits == 8 then 0x8A else 0x8B, dst.code, src);
    } else if src.Reg? {
      PreOpMatches(env, at, Prefix16(bits).bytes, if bits == 8 then 0x88 else 0x89, src.code, dst);
    } else {
      MovMemImmMatches(env, at, dst, src);
    }
  }

  lemma MovRegImmMatches(env: Env, at: int, dst: Operand, src: Operand)
    requires Flat(env) && dst.Reg? && IsImm(src) && EncodeMov(env, dst, src) != Rejected
    ensures Matches(env, at, EncodeMov(Obj(env), dst, src), EncodeMov(env, dst, src))
  {
    var bits := InferBits(dst, InferBits(src, 32));
    if src.Lab? && bits == 32 {
      MatchesPatched(env, at + 1, Abs32, src.name, 0);
      var f := Word32(Resolve(env, src.name).value + 0);
      MatchesPre(env, at, [0xB8 + dst.code], Patched(Abs32, src.name, 0), f);
      ThenEmpty(Then(Lit([0xB8 + dst.code]), f));
    } else {
      if src.Lab? { ResolveObj(env, src.name); }
      MatchesSame(env, at, EncodeMov(env, dst, src).bytes);
    }
  }

  lemma MovMemImmMatches(env: Env, at: int, dst: Operand, src: Operand)
    requires Flat(env) && dst.Mem? && IsImm(src)
    requires EncodeMov(env, dst, src) != Rejected && EncodeMov(Obj(env), dst, src) != Rejected
    ensures Matches(env, at, EncodeMov(Obj(env), dst, src), EncodeMov(env, dst, src))
  {
    var bits := InferBits(dst, 32);
    var imm := ResolveImm(env, src).value;
    if src.Lab? {
      var o, f := OpRm(Obj(env), 0xC7, 0, dst), OpRm(env, 0xC7, 0, dst);
      OpRmMatches(env, at, 0xC7, 0, dst);
      MatchesPatched(env, at + |o.bytes|, Abs32, src.name, 0);
      MatchesThen(env, at, o, f, Patched(Abs32, src.name, 0), Word32(imm + 0));
      ThenEmpty(Then(f, Word32(imm)));
    } else if bits == 8 {
      OpThenMatches(env, at, 0xC6, 0, dst, [imm % 256]);
    } else {
      WrappedMatches(env, at, Prefix16(bits).bytes, 0xC7, 0, dst, ImmField(bits, imm).bytes);
    }
  }

  /** An immediate the flat view accepts has the same value in object mode. */
  lemma ImmObj(env: Env, op: Operand)
    requires Flat(env) && ResolveImm(env, op).Some?
    ensures ResolveImm(Obj(env), op) == ResolveImm(env, op)
  {
  }

  lemma Grp1Matches(env: Env, at: int, ext: RegCode, dst: Operand, imm: Int32, bits: int)
    requires Flat(env) && EncodeGrp1(env, ext, dst, imm, bits) != Rejected
    ensures Matches(env, at, EncodeGrp1(Obj(env), ext, dst, imm, bits), EncodeGrp1(env, ext, dst, imm, bits))
  {
    if bits == 8 {
      OpThenMatches(env, at, 0x80, ext, dst, [imm % 256]);
    } else if Small(imm) {
      WrappedMatches(env, at, Prefix16(bits).bytes, 0x83, ext, dst, [imm % 256]);
    } else {
      WrappedMatches(env, at, Prefix16(bits).bytes, 0x81, ext, dst, ImmField(bits, imm).bytes);
    }
  }

  lemma AluStoreForm(env: Env, ext: RegCode, dst: Operand, src: Operand, bits: int, op: Byte)
    requires env.Ok() && IsRm(dst) && src.Reg? && bits == InferBits(dst, InferBits(src, 32))
    requires op == 8 * ext + 1 - (if bits == 8 then 1 else 0)
    ensures EncodeAlu(env, ext, dst, src) == Then(Lit(Prefix16(bits).bytes), OpRm(env, op, src.code, dst))
  {
  }

  lemma AluStoreMatches(env: Env, at: int, ext: RegCode, dst: Operand, src: Operand)
    requires Flat(env) && EncodeAlu(env, ext, dst, src) != Rejected && IsRm(dst) && src.Reg?
    ensures Matches(env, at, EncodeAlu(Obj(env), ext, dst, src), EncodeAlu(env, ext, dst, src))
  {
    var bits := InferBits(dst, InferBits(src, 32));
    var op := 8 * ext + 1 - (if bits == 8 then 1 else 0);
    AluStoreForm(env, ext, dst, src, bits, op);
    AluStoreForm(Obj(env), ext, dst, src, bits, op);
    PreOpMatches(env, at, Prefix16(bits).bytes, op, src.code, dst);
  }

  lemma AluLoadForm(env: Env, ext: RegCode, dst: Operand, src: Operand, bits: int, op: Byte)
    requires env.Ok() && !src.Reg? && dst.Reg? && IsRm(src) && bits == InferBits(dst, InferBits(src, 32))
    requires op == 8 * ext + 3 - (if bits == 8 then 1 else 0)
    ensures EncodeAlu(env, ext, dst, src) == Then(Lit(Prefix16(bits).bytes), OpRm(env, op, dst.code, src))
  {
  }

  lemma AluLoadMatches(env: Env, at: int, ext: RegCode, dst: Operand, src: Operand)
    requires Flat(env) && EncodeAlu(env, ext, dst, src) != Rejected && !src.Reg? && dst.Reg? && IsRm(src)
    ensures Matches(env, at, EncodeAlu(Obj(env), ext, dst, src), EncodeAlu(env, ext, dst, src))
  {
    var bits := InferBits(dst, InferBits(src, 32));
    var op := 8 * ext + 3 - (if bits == 8 then 1 else 0);
    AluLoadForm(env, ext, dst, src, bits, op);
    AluLoadForm(Obj(env), ext, dst, src, bits, op);
    PreOpMatches(env, at, Prefix16(bits).bytes, op, dst.code, src);
  }

  lemma AluMatches(env: Env, at: int, ext: RegCode, dst: Operand, src: Operand)
    requires Flat(env) && EncodeAlu(env, ext, dst, src) != Rejected
    ensures Matches(env, at, EncodeAlu(Obj(env), ext, dst, src), EncodeAlu(env, ext, dst, src))
  {
    if IsRm(dst) && src.Reg? {
      AluStoreMatches(env, at, ext, dst, src);
    } else if dst.Reg? && IsRm(src) {
      AluLoadMatches(env, at, ext, dst, src);
    } else {
      ImmObj(env, src);
      Grp1Matches(env, at, ext, dst, ResolveImm(env, src).value, InferBits(dst, InferBits(src, 32)));
    }
  }

  lemma TestMatches(env: Env, at: int, dst: Operand, src: Operand)
    requires Flat(env) && EncodeTest(env, dst, src) != Rejected
    ensures Matches(env, at, EncodeTest(Obj(env), dst, src), EncodeTest(env, dst, src))
  {
    var bits := InferBits(dst, InferBits(src, 32));
    var pre := Prefix16(bits).bytes;
    if src.Reg? {
      PreOpMatches(env, at, pre, if bits == 8 then 0x84 else 0x85, src.code, dst);
    } else {
      ImmObj(env, src);
      var imm := ResolveImm(env, src).value;
      if bits == 8 {
        OpThenMatches(env, at, 0xF6, 0, dst, [imm % 256]);
      } else {
        WrappedMatches(env, at, pre, 0xF7, 0, dst, ImmField(bits, imm).bytes);
      }
    }
  }

  lemma ShiftMatches(env: Env, at: int, ext: ShiftCode, dst: Operand, count: Operand)
    requires Flat(env) && EncodeShift(env, ext, dst, count) != Rejected
    ensures Matches(env, at, EncodeShift(Obj(env), ext, dst, count), EncodeShift(env, ext, dst, count))
  {
    var bits := InferBits(dst, 32);
    var pre := Prefix16(bits).bytes;
    if count.Reg? {
      PreOpMatches(env, at, pre, if bits == 8 then 0xD2 else 0xD3, ext, dst);
    } else {
      ImmObj(env, count);
      WrappedMatches(env, at, pre, if bits == 8 then 0xC0 else 0xC1, ext, dst, [ResolveImm(env, count).value % 256]);
    }
  }

  lemma ExtendMatches(env: Env, at: int, opcode: seq<Byte>, reg: int, op: Operand)
    requires Flat(env) && EncodeRm(env, reg, op) != Rejected
    ensures Matches(env, at, Then(Lit(opcode), EncodeRm(Obj(env), reg, op)), Then(Lit(opcode), EncodeRm(env, reg, op)))
  {
    RmMatches(env, at + |opcode|, reg, op);
    MatchesPre(env, at, opcode, EncodeRm(Obj(env), reg, op), EncodeRm(env, reg, op));
  }

  lemma UnaryMatches(env: Env, mn: Mnemonic, op: Operand)
    requires Flat(env) && EncodeUnary(env, mn, op) != Rejected
    requires mn.Push? ==> !SmallLabel(env, op)
    ensures Matches(env, env.pc, EncodeUnary(Obj(env), mn, op), EncodeUnary(env, mn, op))
  {
    if mn.Int? || mn.Push? || mn.Pop? {
      StackMatches(env, mn, op);
    } else if mn.Setcc? {
      ExtendMatches(env, env.pc, [0x0F, (0x90 + mn.cc) % 256], 0, op);
    } else if mn.Call? || mn.Jmp? || mn.Jcc? {
      TransferMatches(env, mn, op);
    } else {
      GroupMatches(env, mn, op);
    }
  }

  lemma StackMatches(env: Env, mn: Mnemonic, op: Operand)
    requires Flat(env) && EncodeUnary(env, mn, op) != Rejected && (mn.Int? || mn.Push? || mn.Pop?)
    requires mn.Push? ==> !SmallLabel(env, op)
    ensures Matches(env, env.pc, EncodeUnary(Obj(env), mn, op), EncodeUnary(env, mn, op))
  {
    if mn.Int? {
      ImmObj(env, op);
      MatchesSame(env, env.pc, EncodeUnary(env, mn, op).bytes);
    } else if mn.Push? {
      PushMatches(env, env.pc, op);
    } else if op.Mem? {
      OpRmMatches(env, env.pc, 0x8F, 0, op);
    } else {
      MatchesSame(env, env.pc, [0x58 + op.code]);
    }
  }

  lemma TransferMatches(env: Env, mn: Mnemonic, op: Operand)
    requires Flat(env) && EncodeUnary(env, mn, op) != Rejected
    requires mn.Call? || mn.Jmp? || mn.Jcc?
    ensures Matches(env, env.pc, EncodeUnary(Obj(env), mn, op), EncodeUnary(env, mn, op))
  {
    if mn.Jcc? {
      RelativeMatches(env, [0x0F, (0x80 + mn.cc) % 256], op);
    } else if IsImm(op) {
      RelativeMatches(env, if mn.Call? then [0xE8] else [0xE9], op);
    } else {
      OpRmMatches(env, env.pc, 0xFF, if mn.Call? then 2 else 4, op);
    }
  }

  /** The one-operand arithmetic group. */
  lemma GroupMatches(env: Env, mn: Mnemonic, op: Operand)
    requires Flat(env) && EncodeUnary(env, mn, op) != Rejected
    requires mn.Inc? || mn.Dec? || mn.Not? || mn.Neg? || mn.Mul? || mn.Imul? || mn.Idiv?
    ensures Matches(env, env.pc, EncodeUnary(Obj(env), mn, op), EncodeUnary(env, mn, op))
  {
    var opcode := if mn.Inc? || mn.Dec? then 0xFF else 0xF7;
    var reg := match mn
      case Inc => 0 case Dec => 1 case Not => 2 case Neg => 3 case Mul => 4 case Imul => 5 case _ => 7;
    OpRmMatches(env, env.pc, opcode, reg, op);
  }

  lemma BinaryMatches(env: Env, at: int, mn: Mnemonic, a: Operand, b: Operand)
    requires Flat(env) && EncodeBinary(env, mn, a, b) != Rejected && EncodeBinary(Obj(env), mn, a, b) != Rejected
    ensures Matches(env, at, EncodeBinary(Obj(env), mn, a, b), EncodeBinary(env, mn, a, b))
  {
    match mn
    case Mov => MovMatches(env, at, a, b);
    case Lea => OpRmMatches(env, at, 0x8D, a.code, b);
    case Movsx => ExtendMatches(env, at, [0x0F, 0xBE + (if InferBits(b, 8) == 16 then 1 else 0)], a.code, b);
    case Movzx => ExtendMatches(env, at, [0x0F, 0xB6 + (if InferBits(b, 8) == 16 then 1 else 0)], a.code, b);
    case Imul => ExtendMatches(env, at, [0x0F, 0xAF], a.code, b);
    case Alu(ext) => AluMatches(env, at, ext, a, b);
    case Test => TestMatches(env, at, a, b);
    case Shift(ext) => ShiftMatches(env, at, ext, a, b);
    case _ =>
  }

  /** The object encoding of an instruction, patched at its own address with the final label
      addresses, is its flat encoding; it must not narrow and must be accepted in both modes. */
  lemma EncodeMatches(env: Env, mn: Mnemonic, ops: seq<Operand>)
    requires Flat(env) && !Narrows(env, mn, ops)
    requires Encode(env, mn, ops) != Rejected && Encode(Obj(env), mn, ops) != Rejected
    ensures Matches(env, env.pc, Encode(Obj(env), mn, ops), Encode(env, mn, ops))
  {
    match |ops|
    case 0 => MatchesSame(env, env.pc, EncodeNullary(mn).bytes);
    case 1 => UnaryMatches(env, mn, ops[0]);
    case 2 => BinaryMatches(env, env.pc, mn, ops[0], ops[1]);
    case 3 =>
      ImmObj(env, ops[2]);
      var imm := ResolveImm(env, ops[2]).value;
      if Small(imm) {
        OpThenMatches(env, env.pc, 0x6B, ops[0].code, ops[1], [imm % 256]);
      } else {
        OpThenMatches(env, env.pc, 0x69, ops[0].code, ops[1], Le32(imm));
      }
    case _ =>
  }

  lemma DataMatches(env: Env, at: int, width: int, item: DataItem)
    requires Flat(env) && EncodeData(env, width, item) != Rejected
    ensures Matches(env, at, EncodeData(Obj(env), width, item), EncodeData(env, width, item))
  {
    if item.Symbol? && width == 4 {
      MatchesPatched(env, at, Abs32, item.name, 0);
      assert Word32(Resolve(env, item.name).value + 0) == EncodeData(env, width, item);
    } else {
      if item.Symbol? { ResolveObj(env, item.name); }
      MatchesSame(env, at, EncodeData(env, width, item).bytes);
    }
  }
}
