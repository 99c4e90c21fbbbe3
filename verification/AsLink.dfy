/** Assembling to an object and linking it alone gives the bytes of the flat assembly. */
module AsLink {
  import opened Words
  import opened Options
  import opened Patching
  import opened AsSyntax
  import opened AsEncode
  import opened AsLengths
  import opened AsRun
  import opened AsPasses
  import opened AsObject
  import opened Ld86

  // ---- pass 1 in the two output modes ------------------------------------------------------------

  lemma {:induction false} SilentRelocs(c: Context, at: nat, fs: seq<Fixup>)
    requires c.Ok() && !(c.obj && c.pass == 2)
    ensures AddRelocs(c, at, fs) == Some(c)
    decreases |fs|
  {
    if fs != [] { SilentRelocs(c, at, fs[1..]); }
  }

  lemma SilentEmit(c: Context, code: Code)
    requires c.Ok() && !(c.obj && c.pass == 2) && code != Rejected
    ensures EmitCode(c, code) == Some(Put(c, code.bytes))
  {
    SilentRelocs(c, c.pc[c.cur], code.fixups);
  }

  /** In pass 1 only the number of bytes matters. */
  lemma PutModes1(c: Context, a: seq<Byte>, b: seq<Byte>)
    requires c.Ok() && c.pass == 1 && |a| == |b|
    ensures Put(c.(obj := true), b) == Put(c, a).(obj := true)
  {
  }

  lemma DataModes1(e: Env, width: int, item: DataItem)
    requires e.Ok() && e.pass == 1
    ensures EncodeData(Obj(e), width, item) == EncodeData(e, width, item)
  {
  }

  lemma {:induction false} ItemsModes1(c: Context, width: int, items: seq<DataItem>)
    requires c.Ok() && c.pass == 1 && !c.obj
    requires EmitItems(c, width, items).Some? && EmitItems(c.(obj := true), width, items).Some?
    ensures EmitItems(c.(obj := true), width, items).value == EmitItems(c, width, items).value.(obj := true)
    decreases |items|
  {
    if items != [] {
      var d, code := c.(obj := true), EncodeData(c.Env(), width, items[0]);
      DataModes1(c.Env(), width, items[0]);
      assert d.Env() == Obj(c.Env());
      SilentEmit(c, code);
      SilentEmit(d, code);
      PutModes1(c, code.bytes, code.bytes);
      ItemsModes1(Put(c, code.bytes), width, items[1..]);
    }
  }

  lemma InstrModes1(c: Context, mn: Mnemonic, ops: seq<Operand>)
    requires c.Ok() && c.pass == 1 && !c.obj
    requires Encode(c.Env(), mn, ops) != Rejected && Encode(Obj(c.Env()), mn, ops) != Rejected
    ensures EmitCode(c, Encode(c.Env(), mn, ops)).Some?
    ensures EmitCode(c.(obj := true), Encode(Obj(c.Env()), mn, ops))
         == Some(EmitCode(c, Encode(c.Env(), mn, ops)).value.(obj := true))
  {
    var e := c.Env();
    PassOneWide(e, mn, ops);
    PassOneWide(Obj(e), mn, ops);
    EncodeLength(e, mn, ops);
    EncodeLength(Obj(e), mn, ops);
    var a, b := Encode(e, mn, ops), Encode(Obj(e), mn, ops);
    SilentEmit(c, a);
    SilentEmit(c.(obj := true), b);
    PutModes1(c, a.bytes, b.bytes);
  }

  /** In pass 1 the modes differ in nothing but the flag. */
  lemma StepModes1(c: Context, s: Stmt)
    requires c.Ok() && c.pass == 1 && !c.obj
    requires Step(c, s).Some? && Step(c.(obj := true), s).Some?
    ensures Step(c.(obj := true), s).value == Step(c, s).value.(obj := true)
  {
    if s.Data? {
      ItemsModes1(c, s.width, s.items);
    } else if s.Times? {
      ItemsModes1(c, s.twidth, seq(s.times, _ => s.item));
    } else if s.Instr? {
      assert c.(obj := true).Env() == Obj(c.Env());
      InstrModes1(c, s.mn, s.ops);
    } else if s.Align? || s.Reserve? {
      var z := Zeros(if s.Align? then Padding(c.pc[c.cur], s.to) else s.count);
      PutModes1(c, z, z);
    }
  }

  lemma {:induction false} RunModes1(c: Context, prog: seq<Stmt>)
    requires c.Ok() && c.pass == 1 && !c.obj
    requires Run(c, prog).Some? && Run(c.(obj := true), prog).Some?
    ensures Run(c.(obj := true), prog).value == Run(c, prog).value.(obj := true)
    decreases |prog|
  {
    if prog != [] {
      StepModes1(c, prog[0]);
      StepLater(c, prog[0]);
      RunModes1(Step(c, prog[0]).value, prog[1..]);
    }
  }

  // ---- relocations of one section ----------------------------------------------------------------

  /** Every relocation names a defined label. */
  ghost predicate Bound(labels: seq<Label>, rs: seq<Reloc>) {
    forall k :: 0 <= k < |rs| ==> rs[k].sym < |labels| && labels[rs[k].sym].defined
  }

  /** The word ld86 stores for a relocation when the object is linked alone at its origin. */
  function RelocWord(env: Env, r: Reloc): Word
    requires env.Ok() && r.sym < |env.labels|
  {
    var target := LabelAddr(env, env.labels[r.sym]) + r.addend;
    Le32(if r.kind.Abs32? then target else target - (env.org + env.base[r.sec] + r.off + 4))
  }

  /** The writes of a relocation list, each still addressed by section. */
  function Locate(env: Env, rs: seq<Reloc>): (ls: seq<Located>)
    requires env.Ok() && Bound(env.labels, rs)
    ensures |ls| == |rs|
    decreases |rs|
  {
    if rs == [] then [] else [Located(rs[0].sec, rs[0].off, RelocWord(env, rs[0]))] + Locate(env, rs[1..])
  }

  lemma {:induction false} LocatedAt(env: Env, rs: seq<Reloc>, k: nat)
    requires env.Ok() && Bound(env.labels, rs) && k < |rs|
    ensures Locate(env, rs)[k] == Located(rs[k].sec, rs[k].off, RelocWord(env, rs[k]))
    decreases |rs|
  {
    if k > 0 { LocatedAt(env, rs[1..], k - 1); }
  }

  lemma {:induction false} LocateConcat(env: Env, a: seq<Reloc>, b: seq<Reloc>)
    requires env.Ok() && Bound(env.labels, a) && Bound(env.labels, b)
    ensures Bound(env.labels, a + b)
    ensures Locate(env, a + b) == Locate(env, a) + Locate(env, b)
    decreases |a|
  {
    if a == [] {
      assert a + b == b;
    } else {
      LocateConcat(env, a[1..], b);
      assert (a + b)[1..] == a[1..] + b;
    }
  }

  /** The relocations `add_reloc` records for the fixups of code placed at counter `pc`. */
  function Recorded(labels: seq<Label>, sec: Section, pc: nat, fs: seq<Fixup>): (rs: seq<Reloc>)
    requires forall k :: 0 <= k < |fs| ==> Find(labels, fs[k].sym) != -1
    decreases |fs|
  {
    if fs == [] then []
    else
      var f := fs[0];
      [Reloc(sec, pc + f.off, f.kind, Find(labels, f.sym), f.addend)] + Recorded(labels, sec, pc, fs[1..])
  }

  lemma {:induction false} AddKnown(c: Context, at: nat, fs: seq<Fixup>)
    requires c.Ok() && c.obj && c.pass == 2 && Known(c.Env(), fs) && AddRelocs(c, at, fs).Some?
    ensures AddRelocs(c, at, fs) == Some(c.(relocs := c.relocs + Recorded(c.labels, c.cur, at, fs)))
    decreases |fs|
  {
    if fs != [] {
      var d := AddReloc(c, at, fs[0]).value;
      AddKnown(d, at, fs[1..]);
      assert c.relocs + Recorded(c.labels, c.cur, at, fs) == d.relocs + Recorded(c.labels, c.cur, at, fs[1..]);
    } else {
      assert c.relocs + [] == c.relocs;
    }
  }

  lemma {:induction false} RecordedBound(env: Env, sec: Section, pc: nat, fs: seq<Fixup>)
    requires env.Ok() && Known(env, fs)
    ensures Bound(env.labels, Recorded(env.labels, sec, pc, fs))
    decreases |fs|
  {
    if fs != [] { RecordedBound(env, sec, pc, fs[1..]); }
  }

  lemma MovedCons(w: Write, ws: seq<Write>, n: nat)
    ensures Moved([w] + ws, n) == [Write(w.off + n, w.word)] + Moved(ws, n)
  {
  }

  /** Recorded relocations write what the fixups ask for, further into their section. */
  lemma {:induction false} RecordedWrites(env: Env, sec: Section, pc: nat, fs: seq<Fixup>)
    requires env.Ok() && Known(env, fs) && Bound(env.labels, Recorded(env.labels, sec, pc, fs))
    ensures Of(Locate(env, Recorded(env.labels, sec, pc, fs)), sec)
         == Moved(FixupWrites(env, env.org + env.base[sec] + pc, fs), pc)
    decreases |fs|
  {
    if fs != [] {
      var rs, at := Recorded(env.labels, sec, pc, fs), env.org + env.base[sec] + pc;
      assert rs[1..] == Recorded(env.labels, sec, pc, fs[1..]);
      RecordedWrites(env, sec, pc, fs[1..]);
      RecordedWord(env, sec, pc, fs[0]);
      MovedCons(Write(fs[0].off, FixupWord(env, at, fs[0])), FixupWrites(env, at, fs[1..]), pc);
    }
  }

  lemma {:induction false} RecordedElsewhere(env: Env, sec: Section, pc: nat, fs: seq<Fixup>, s: Section)
    requires env.Ok() && Known(env, fs) && Bound(env.labels, Recorded(env.labels, sec, pc, fs)) && s != sec
    ensures Of(Locate(env, Recorded(env.labels, sec, pc, fs)), s) == []
    decreases |fs|
  {
    if fs != [] {
      var rs := Recorded(env.labels, sec, pc, fs);
      assert rs[1..] == Recorded(env.labels, sec, pc, fs[1..]);
      RecordedElsewhere(env, sec, pc, fs[1..], s);
    }
  }

  lemma RecordedWord(env: Env, sec: Section, pc: nat, f: Fixup)
    requires env.Ok() && Find(env.labels, f.sym) != -1
    ensures RelocWord(env, Reloc(sec, pc + f.off, f.kind, Find(env.labels, f.sym), f.addend))
         == FixupWord(env, env.org + env.base[sec] + pc, f)
  {
  }

  // ---- pass 2 in the two output modes ------------------------------------------------------------

  /** The flat and the object run before the same statement of pass 2. */
  ghost predicate Twins(f: Context, o: Context, env: Env) {
    && f.Ok() && o.Ok() && env.Ok() && f.pass == 2 && !f.obj
    && o == f.(obj := true, out := o.out, relocs := o.relocs)
    && f.labels == env.labels && f.base == env.base
    && Bound(env.labels, o.relocs)
    && forall s: Section {:trigger o.out[s]} :: SectionLinks(o.out[s], Locate(env, o.relocs), s, f.out[s])
  }

  lemma {:induction false} WritesSameView(a: Env, b: Env, at: int, fs: seq<Fixup>)
    requires a.Ok() && b.Ok() && a.org == b.org && a.base == b.base && a.labels == b.labels
    requires Known(a, fs)
    ensures Known(b, fs) && FixupWrites(a, at, fs) == FixupWrites(b, at, fs)
    decreases |fs|
  {
    if fs != [] { WritesSameView(a, b, at, fs[1..]); }
  }

  /** One section of the two outputs before and after the same code. */
  lemma SectionTwin(env: Env, cur: Section, pc: nat, oc: Code, fc: Code, ls: seq<Located>, more: seq<Located>,
                    s: Section, oOut: seq<Byte>, fOut: seq<Byte>, oOut2: seq<Byte>, fOut2: seq<Byte>)
    requires env.Ok() && Matches(env, env.org + env.base[cur] + pc, oc, fc) && Known(env, oc.fixups)
    requires Bound(env.labels, Recorded(env.labels, cur, pc, oc.fixups))
    requires more == Locate(env, Recorded(env.labels, cur, pc, oc.fixups))
    requires SectionLinks(oOut, ls, s, fOut) && (s == cur ==> pc == |oOut|)
    requires oOut2 == (if s == cur then oOut + oc.bytes else oOut)
    requires fOut2 == (if s == cur then fOut + fc.bytes else fOut)
    ensures SectionLinks(oOut2, ls + more, s, fOut2)
  {
    if s == cur {
      RecordedWrites(env, cur, pc, oc.fixups);
      SectionGrows(oOut, ls, s, fOut, oc.bytes, FixupWrites(env, env.org + env.base[cur] + pc, oc.fixups), more);
    } else {
      RecordedElsewhere(env, cur, pc, oc.fixups, s);
      SectionKeeps(oOut, ls, s, fOut, more);
    }
  }

  lemma SectionKeeps(out: seq<Byte>, ls: seq<Located>, s: Section, flat: seq<Byte>, more: seq<Located>)
    requires SectionLinks(out, ls, s, flat) && Of(more, s) == []
    ensures SectionLinks(out, ls + more, s, flat)
  {
    SectionGrows(out, ls, s, flat, [], [], more);
    assert out + [] == out && flat + [] == flat;
  }

  /** What emitting code does to the two contexts. */
  lemma EmitBoth(f: Context, o: Context, env: Env, fc: Code, oc: Code)
    requires Twins(f, o, env) && env.org == f.org && Matches(env, env.org + env.base[f.cur] + f.pc[f.cur], oc, fc)
    requires EmitCode(o, oc).Some?
    ensures EmitCode(f, fc).Some? && Known(env, oc.fixups)
    ensures var n, m, cur := EmitCode(f, fc).value, EmitCode(o, oc).value, f.cur;
            && n.Ok() && m.Ok() && n.pass == 2 && !n.obj && m == n.(obj := true, out := m.out, relocs := m.relocs)
            && n.labels == f.labels && n.base == f.base
            && m.relocs == o.relocs + Recorded(env.labels, cur, f.pc[cur], oc.fixups)
            && (forall s: Section {:trigger m.out[s]} :: m.out[s] == if s == cur then o.out[s] + oc.bytes else o.out[s])
            && (forall s: Section {:trigger n.out[s]} :: n.out[s] == if s == cur then f.out[s] + fc.bytes else f.out[s])
  {
    SilentEmit(f, fc);
    assert Known(o.Env(), oc.fixups);
    AddKnown(o, f.pc[f.cur], oc.fixups);
    assert |oc.bytes| == |fc.bytes|;
  }

  /** Contexts that have grown by the same code are twins again. */
  lemma TwinsGrow(f: Context, o: Context, env: Env, fc: Code, oc: Code, n: Context, m: Context)
    requires Twins(f, o, env) && Matches(env, env.org + env.base[f.cur] + f.pc[f.cur], oc, fc) && Known(env, oc.fixups)
    requires n.Ok() && m.Ok() && n.pass == 2 && !n.obj && m == n.(obj := true, out := m.out, relocs := m.relocs)
    requires n.labels == f.labels && n.base == f.base
    requires m.relocs == o.relocs + Recorded(env.labels, f.cur, f.pc[f.cur], oc.fixups)
    requires forall s: Section {:trigger m.out[s]} :: m.out[s] == if s == f.cur then o.out[s] + oc.bytes else o.out[s]
    requires forall s: Section {:trigger n.out[s]} :: n.out[s] == if s == f.cur then f.out[s] + fc.bytes else f.out[s]
    ensures Twins(n, m, env)
  {
    var pc, cur := f.pc[f.cur], f.cur;
    var added := Recorded(env.labels, cur, pc, oc.fixups);
    RecordedBound(env, cur, pc, oc.fixups);
    LocateConcat(env, o.relocs, added);
    var ls, more := Locate(env, o.relocs), Locate(env, added);
    forall s: Section
      ensures SectionLinks(m.out[s], ls + more, s, n.out[s])
    {
      assert SectionLinks(o.out[s], ls, s, f.out[s]);
      SectionTwin(env, cur, pc, oc, fc, ls, more, s, o.out[s], f.out[s], m.out[s], n.out[s]);
    }
  }

  lemma EmitTwins(f: Context, o: Context, env: Env, fc: Code, oc: Code)
    requires Twins(f, o, env) && env.org == f.org
    requires Matches(env, env.org + env.base[f.cur] + f.pc[f.cur], oc, fc)
    requires EmitCode(o, oc).Some?
    ensures EmitCode(f, fc).Some? && Twins(EmitCode(f, fc).value, EmitCode(o, oc).value, env)
  {
    EmitBoth(f, o, env, fc, oc);
    TwinsGrow(f, o, env, fc, oc, EmitCode(f, fc).value, EmitCode(o, oc).value);
  }

  lemma FixupNeedsRoom(env: Env, at: int, fs: seq<Fixup>, n: nat)
    requires env.Ok() && Known(env, fs) && Inside(FixupWrites(env, at, fs), n)
    ensures fs == [] || n >= 4
  {
    if fs != [] { assert FixupWrites(env, at, fs)[0].off + 4 <= n; }
  }

  /** Code of no bytes records nothing, whatever origin is in force. */
  lemma EmitNothing(f: Context, o: Context, env: Env, fc: Code, oc: Code)
    requires Twins(f, o, env) && Matches(f.Env(), f.Env().pc, oc, fc) && |fc.bytes| == 0
    ensures EmitCode(f, fc) == Some(f) && EmitCode(o, oc) == Some(o)
  {
    FixupNeedsRoom(f.Env(), f.Env().pc, oc.fixups, |oc.bytes|);
    SilentEmit(f, fc);
    PutNothing(f);
    PutNothing(o);
  }

  lemma CodeTwins(f: Context, o: Context, env: Env, fc: Code, oc: Code)
    requires Twins(f, o, env) && Matches(f.Env(), f.Env().pc, oc, fc)
    requires |fc.bytes| > 0 ==> env.org == f.org
    requires EmitCode(o, oc).Some?
    ensures EmitCode(f, fc).Some? && Twins(EmitCode(f, fc).value, EmitCode(o, oc).value, env)
  {
    if |fc.bytes| == 0 {
      EmitNothing(f, o, env, fc, oc);
    } else {
      WritesSameView(f.Env(), env, f.Env().pc, oc.fixups);
      EmitTwins(f, o, env, fc, oc);
    }
  }

  lemma {:induction false} ItemsTwins(f: Context, o: Context, env: Env, width: int, items: seq<DataItem>)
    requires Twins(f, o, env)
    requires EmitItems(f, width, items).Some? && EmitItems(o, width, items).Some?
    requires EmitItems(f, width, items).value.pc != [0, 0, 0, 0] ==> env.org == f.org
    ensures Twins(EmitItems(f, width, items).value, EmitItems(o, width, items).value, env)
    decreases |items|
  {
    if items != [] {
      var fc, oc := EncodeData(f.Env(), width, items[0]), EncodeData(o.Env(), width, items[0]);
      assert o.Env() == Obj(f.Env());
      DataMatches(f.Env(), f.Env().pc, width, items[0]);
      EmitCodeEffect(f, fc);
      EmitItemsGrows(EmitCode(f, fc).value, width, items[1..]);
      assert |fc.bytes| > 0 ==> EmitItems(f, width, items).value.pc[f.cur] > 0;
      CodeTwins(f, o, env, fc, oc);
      ItemsTwins(EmitCode(f, fc).value, EmitCode(o, oc).value, env, width, items[1..]);
    }
  }

  lemma InstrTwins(f: Context, o: Context, env: Env, mn: Mnemonic, ops: seq<Operand>)
    requires Twins(f, o, env) && env.org == f.org && !Narrows(f.Env(), mn, ops)
    requires EmitCode(f, Encode(f.Env(), mn, ops)).Some? && EmitCode(o, Encode(o.Env(), mn, ops)).Some?
    ensures Twins(EmitCode(f, Encode(f.Env(), mn, ops)).value, EmitCode(o, Encode(o.Env(), mn, ops)).value, env)
  {
    assert o.Env() == Obj(f.Env());
    EncodeMatches(f.Env(), mn, ops);
    CodeTwins(f, o, env, Encode(f.Env(), mn, ops), Encode(o.Env(), mn, ops));
  }

  /** Padding and reserved space are the same zeros in both modes. */
  lemma ZerosTwins(f: Context, o: Context, env: Env, n: nat)
    requires Twins(f, o, env)
    ensures Twins(Put(f, Zeros(n)), Put(o, Zeros(n)), env)
  {
    var a, b, ls := Put(f, Zeros(n)), Put(o, Zeros(n)), Locate(env, o.relocs);
    forall s: Section
      ensures SectionLinks(b.out[s], ls, s, a.out[s])
    {
      assert SectionLinks(o.out[s], ls, s, f.out[s]);
      if s == f.cur {
        SectionGrows(o.out[s], ls, s, f.out[s], Zeros(n), [], []);
        assert ls + [] == ls;
      }
    }
  }

  lemma StepTwins(f: Context, o: Context, env: Env, s: Stmt)
    requires Twins(f, o, env) && Step(f, s).Some? && Step(o, s).Some?
    requires Step(f, s).value.labels == f.labels
    requires !s.Org? && Step(f, s).value.pc != [0, 0, 0, 0] ==> env.org == f.org
    requires s.Instr? ==> env.org == f.org && !Narrows(f.Env(), s.mn, s.ops)
    ensures Twins(Step(f, s).value, Step(o, s).value, env)
  {
    if s.Data? {
      ItemsTwins(f, o, env, s.width, s.items);
    } else if s.Times? {
      ItemsTwins(f, o, env, s.twidth, seq(s.times, _ => s.item));
    } else if s.Instr? {
      InstrTwins(f, o, env, s.mn, s.ops);
    } else if s.Align? {
      ZerosTwins(f, o, env, Padding(f.pc[f.cur], s.to));
    } else if s.Reserve? {
      ZerosTwins(f, o, env, s.count);
    }
  }

  /** Pass 2 of both modes, following the flat pass-1 run that fixed the table. */
  lemma {:induction false} RunTwins(c1: Context, f: Context, o: Context, prog: seq<Stmt>, table: seq<Label>, e: Env)
    requires c1.Ok() && Run(c1, prog).Some? && Grows(Run(c1, prog).value.labels, table)
    requires InStep(c1, f, table) && Run(f, prog).Some?
    requires o.Ok() && Run(o, prog).Some?
    requires e == FinalEnv(false, Run(f, prog).value.org, f.base, table) && NoneNarrow(prog, e)
    requires Twins(f, o, e)
    ensures Twins(Run(f, prog).value, Run(o, prog).value, e)
    decreases |prog|
  {
    if prog != [] {
      var s := prog[0];
      var n, m := Step(f, s).value, Step(o, s).value;
      FirstInStep(c1, f, prog, table);
      if !s.Org? && n.pc != [0, 0, 0, 0] { OrgInForce(f, s, prog[1..]); }
      if s.Instr? { InstrCounts(f, s); }
      StepTwins(f, o, e, s);
      StepLater(f, s);
      NoneNarrowTail(prog, e);
      RunTwins(Step(c1, s).value, n, m, prog[1..], table, e);
    }
  }

  lemma InstrCounts(c: Context, s: Stmt)
    requires c.Ok() && s.Instr? && Step(c, s).Some?
    ensures Step(c, s).value.pc != [0, 0, 0, 0]
  {
    EncodeNonEmpty(c.Env(), s.mn, s.ops);
    EmitCodeEffect(c, Encode(c.Env(), s.mn, s.ops));
    assert Step(c, s).value.pc[c.cur] > 0;
  }

  // ---- the linked object -------------------------------------------------------------------------

  /** What `parse_input` makes of the object `as86 -f obj` writes for context `c`. */
  function ToInput(c: Context): (r: Input)
    requires c.Ok()
    ensures r.Ok()
  {
    Input(c.out[0] + c.out[1] + c.out[2], |c.out[3]|,
          [0, U32(|c.out[0]|), U32(|c.out[0]| + |c.out[1]|), U32(|c.out[0]| + |c.out[1]| + |c.out[2]|)],
          seq(|c.labels|, i requires 0 <= i < |c.labels| => ToSym(c.labels[i])),
          seq(|c.relocs|, i requires 0 <= i < |c.relocs| => ToRel(c.relocs[i])))
  }

  function ToSym(l: Label): Sym {
    if l.defined then Sym(l.name, l.off, Some(l.sec), l.isGlobal) else Sym(l.name, 0, None, l.isGlobal)
  }

  function ToRel(r: Reloc): Rel { Rel(r.sec, U32(r.off), r.kind, r.sym, r.addend) }

  ghost predicate NoneInBss(rs: seq<Reloc>) {
    forall k :: 0 <= k < |rs| ==> rs[k].sec != SEC_BSS
  }

  /** The sections together stay below 2^32, so no size or offset of the object file is cut. */
  ghost predicate Small32(c: Context) { c.Ok() && |c.out[0]| + |c.out[1]| + |c.out[2]| < TWO32 }

  lemma SmallInput(c: Context)
    requires Small32(c)
    ensures ToInput(c).secBase == [0, |c.out[0]|, |c.out[0]| + |c.out[1]|, |c.out[0]| + |c.out[1]| + |c.out[2]|]
    ensures AllOk([ToInput(c)]) && ImageOff([ToInput(c)], 1) == |c.out[0]| + |c.out[1]| + |c.out[2]|
  {
    assert ImageOff([ToInput(c)], 1) == ImageOff([ToInput(c)], 0) + |ToInput(c).payload|;
  }

  /** Where a relocation of a small object is stored. */
  lemma SinglePlace(c: Context, r: Reloc)
    requires Small32(c) && r.off + 4 <= |c.out[r.sec]| && r.sec != SEC_BSS
    ensures var place := ToInput(c).secBase[r.sec] + r.off;
            && PlaceOf(ToInput(c), ToRel(r)) == place && Add32(place, 4) == place + 4 <= |ToInput(c).payload|
            && OffOf([ToInput(c)], 0, ToRel(r)) == place
  {
    SmallInput(c);
    assert ImageOff([ToInput(c)], 0) == 0;
  }

  /** One relocation of the object linked alone: the write it stands for, or a refusal in .bss. */
  lemma SingleRelWrite(c: Context, env: Env, k: nat)
    requires Small32(c) && env.Ok() && env.labels == c.labels && env.base == ToInput(c).secBase
    requires Bound(c.labels, c.relocs) && k < |c.relocs|
    requires c.relocs[k].off + 4 <= |c.out[c.relocs[k].sec]|
    ensures AllOk([ToInput(c)])
    ensures var r := c.relocs[k];
            RelWrite([ToInput(c)], env.org, 0, ToInput(c).rels[k]) ==
            (if r.sec == SEC_BSS then Refused else Done(Write(env.base[r.sec] + r.off, RelocWord(env, r))))
  {
    var ins, r := [ToInput(c)], c.relocs[k];
    SmallInput(c);
    assert ins[0].syms[r.sym] == ToSym(c.labels[r.sym]);
    if r.sec != SEC_BSS { SinglePlace(c, r); }
  }

  /** Every write of a section lies inside it, relocation by relocation. */
  lemma {:induction false} OffsetsInside(ls: seq<Located>, k: nat, size: nat)
    requires k < |ls| && Inside(Of(ls, ls[k].sec), size)
    ensures ls[k].off + 4 <= size
    decreases |ls|
  {
    if k > 0 {
      OffsetsInside(ls[1..], k - 1, size);
    }
  }

  /** The relocations from `k` on, as the linker collects them. */
  lemma {:induction false} SingleWrites(c: Context, env: Env, k: nat)
    requires Small32(c) && env.Ok() && env.labels == c.labels && env.base == ToInput(c).secBase
    requires Bound(c.labels, c.relocs) && k <= |c.relocs|
    requires forall j :: k <= j < |c.relocs| ==> c.relocs[j].off + 4 <= |c.out[c.relocs[j].sec]|
    ensures AllOk([ToInput(c)])
    ensures var ws := InputWrites([ToInput(c)], env.org, 0, k);
            && (ws.Done? <==> NoneInBss(c.relocs[k..])) && !ws.Stray?
            && (ws.Done? ==> Bound(env.labels, c.relocs[k..])
                             && ws.value == InImage(Locate(env, c.relocs[k..]), env.base))
    decreases |c.relocs| - k
  {
    SmallInput(c);
    if k < |c.relocs| {
      SingleRelWrite(c, env, k);
      SingleWrites(c, env, k + 1);
      SuffixParts(c.relocs, env.labels, k);
    }
  }

  lemma SuffixParts(rs: seq<Reloc>, labels: seq<Label>, k: nat)
    requires Bound(labels, rs) && k < |rs|
    ensures rs[k..] == [rs[k]] + rs[k + 1..] && rs[k..][0] == rs[k] && rs[k..][1..] == rs[k + 1..]
    ensures Bound(labels, rs[k..]) && Bound(labels, rs[k + 1..])
    ensures NoneInBss(rs[k..]) <==> rs[k].sec != SEC_BSS && NoneInBss(rs[k + 1..])
  {
    assert rs[k..] == [rs[k]] + rs[k + 1..];
  }

  /** Every relocation of the object lies inside its section. */
  lemma TwinsInside(f: Context, o: Context, env: Env, k: nat)
    requires Twins(f, o, env) && k < |o.relocs|
    ensures o.relocs[k].off + 4 <= |o.out[o.relocs[k].sec]|
  {
    var s := o.relocs[k].sec;
    assert SectionLinks(o.out[s], Locate(env, o.relocs), s, f.out[s]);
    LocatedAt(env, o.relocs, k);
    OffsetsInside(Locate(env, o.relocs), k, |o.out[s]|);
  }

  /** The writes of the link, or the refusal of a relocation in .bss. */
  lemma TwinsWrites(f: Context, o: Context, env: Env)
    requires Twins(f, o, env) && env.org == f.org && env.base == Layout(f.pc) && Small32(o)
    ensures AllOk([ToInput(o)])
    ensures var ws := AllWrites([ToInput(o)], o.org, 0);
            && (ws.Done? <==> NoneInBss(o.relocs)) && !ws.Stray?
            && (ws.Done? ==> ws.value == InImage(Locate(env, o.relocs), env.base))
  {
    forall k | 0 <= k < |o.relocs|
      ensures o.relocs[k].off + 4 <= |o.out[o.relocs[k].sec]|
    {
      TwinsInside(f, o, env, k);
    }
    SmallInput(o);
    SingleWrites(o, env, 0);
    assert o.relocs[0..] == o.relocs;
    assert AllWrites([ToInput(o)], o.org, 1) == Done([]);
    if NoneInBss(o.relocs) {
      var ws := InImage(Locate(env, o.relocs), env.base);
      assert ws + [] == ws;
    }
  }

  /** Done in the payload, they give the flat bytes. */
  lemma TwinsImage(f: Context, o: Context, env: Env)
    requires Twins(f, o, env) && env.base == Layout(f.pc) && NoneInBss(o.relocs)
    ensures var ws, image := InImage(Locate(env, o.relocs), env.base), o.out[0] + o.out[1] + o.out[2];
            Inside(ws, |image|) && Apply(image, ws) == f.out[0] + f.out[1] + f.out[2]
  {
    var ls := Locate(env, o.relocs);
    var image, flat := o.out[0] + o.out[1] + o.out[2], f.out[0] + f.out[1] + f.out[2];
    forall s: Section | s < 3
      ensures Gives(o.out[s], Of(ls, s), f.out[s])
    {
      assert SectionLinks(o.out[s], ls, s, f.out[s]);
      GivesApply(o.out[s], Of(ls, s), f.out[s]);
    }
    forall k | 0 <= k < |ls|
      ensures ls[k].sec < 3
    {
      LocatedAt(env, o.relocs, k);
    }
    ImageSplits(ls, env.base, o.out[0], o.out[1], o.out[2], f.out[0], f.out[1], f.out[2], image, flat);
    GivesApply(image, InImage(ls, env.base), flat);
  }

  /** The object produced by the lockstep, linked alone at the common origin. */
  lemma TwinsLink(f: Context, o: Context, env: Env)
    requires Twins(f, o, env) && env.org == f.org && env.base == Layout(f.pc) && Small32(o)
    ensures Link([ToInput(o)], o.org).Done? <==> NoneInBss(o.relocs)
    ensures !Link([ToInput(o)], o.org).Stray?
    ensures NoneInBss(o.relocs) ==> Link([ToInput(o)], o.org).value == f.out[0] + f.out[1] + f.out[2]
  {
    var ins := [ToInput(o)];
    TwinsWrites(f, o, env);
    assert Payloads(ins, 1) == [] + ins[0].payload == ins[0].payload;
    if NoneInBss(o.relocs) { TwinsImage(f, o, env); }
  }

  /** For every program that both modes accept and in which nothing narrows, linking its object
      alone at its origin succeeds exactly when no relocation lies in .bss, and then the image is
      the text, rodata and data part of the flat output. */
  lemma ObjectLinksToFlat(prog: seq<Stmt>, org: int)
    requires Stable(prog, org, false) && Assemble(prog, org, true).Some?
    ensures var f, o := Assemble(prog, org, false).value, Assemble(prog, org, true).value;
            && o.org == f.org && |Flatten(o)| == |Flatten(f)| < TWO32
            && !Link([ToInput(o)], o.org).Stray?
            && (Link([ToInput(o)], o.org).Done? <==> NoneInBss(o.relocs))
            && (NoneInBss(o.relocs) ==>
                  Link([ToInput(o)], o.org).value == Flatten(f)[..|f.out[0]| + |f.out[1]| + |f.out[2]|])
  {
    var c1 := Run(First(false, org), prog).value;
    var f, o := Assemble(prog, org, false).value, Assemble(prog, org, true).value;
    var e := FinalEnv(false, f.org, Layout(c1.pc), c1.labels);
    RunModes1(First(false, org), prog);
    RunLater(First(false, org), prog);
    OrgKept(prog, org, false);
    var f0, o0 := Second(c1), Second(c1.(obj := true));
    assert Twins(f0, o0, e);
    RunTwins(First(false, org), f0, o0, prog, c1.labels, e);
    PassAgreement(prog, org, false);
    TwinsLink(f, o, e);
    assert Flatten(f)[..|f.out[0]| + |f.out[1]| + |f.out[2]|] == f.out[0] + f.out[1] + f.out[2];
  }
}
