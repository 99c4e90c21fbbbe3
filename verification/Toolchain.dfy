/** The whole in-system toolchain: as86 to an object, ld86 to an executable, the kernel loader. */
module Toolchain {
  import opened Words
  import opened Options
  import opened AsSyntax
  import opened AsEncode
  import opened AsLengths
  import opened AsRun
  import opened AsPasses
  import opened AsLink
  import opened Ld86
  import opened Loader

  /** Offset of the image in the ELF file ld86 writes: headers, padded to one page. */
  const CODE_OFF: nat := 0x1000

  /** The single PT_LOAD header ld86 writes for one input linked at `base`. */
  function LoadHeader(base: Addr32, image: seq<Byte>, bss: nat): Segment
    requires |image| + bss < TWO32
  {
    Segment(base, CODE_OFF, |image|, |image| + bss)
  }

  /** Once loaded, the segment's memory is `bytes` and then zeros. */
  ghost predicate LoadsAs(file: seq<Byte>, seg: Segment, bytes: seq<Byte>) {
    && InFile(file, [seg], 1)
    && forall x: nat :: Expect(file, [seg], 1, x) ==
                        if seg.vaddr <= x < seg.vaddr + |bytes| then bytes[x - seg.vaddr] else 0
  }

  lemma ImageLoads(headers: seq<Byte>, base: Addr32, image: seq<Byte>, bss: nat)
    requires |headers| == CODE_OFF && base + |image| + bss < TWO32
    ensures LoadsAs(headers + image, LoadHeader(base, image, bss), image)
  {
    var file, seg := headers + image, LoadHeader(base, image, bss);
    forall x: nat
      ensures Expect(file, [seg], 1, x) == if base <= x < base + |image| then image[x - base] else 0
    {
      if base <= x < base + |image| {
        DisjointSegments(file, [seg], 1, 0, x - base);
        assert file[CODE_OFF + (x - base)] == image[x - base];
      } else {
        ZeroElsewhere(file, [seg], 1, x);
      }
    }
  }

  /** The segment takes up the `n` addresses from `from` on. */
  ghost predicate Reserves(seg: Segment, from: int, n: nat) { forall x: int :: from <= x < from + n <==> seg.Spans(x) }

  /** A program assembled to an object, linked alone at its origin and loaded has in memory, from
      its origin on, exactly the text, rodata and data bytes of its flat assembly, then zeros. */
  lemma AssembleLinkLoad(prog: seq<Stmt>, org: int, headers: seq<Byte>)
    requires Stable(prog, org, false) && Assemble(prog, org, true).Some?
    requires NoneInBss(Assemble(prog, org, true).value.relocs)
    requires 0 <= Assemble(prog, org, false).value.org < TWO32
    requires |headers| == CODE_OFF
    ensures var f, o := Assemble(prog, org, false).value, Assemble(prog, org, true).value;
            var image := Link([ToInput(o)], f.org);
            && image.Done? && |image.value| + |o.out[3]| < TWO32
            && image.value == f.out[0] + f.out[1] + f.out[2]
            && image.value <= Flatten(f) && |Flatten(f)| == |image.value| + |o.out[3]|
            && (f.org + |Flatten(f)| < TWO32 ==>
                  LoadsAs(headers + image.value, LoadHeader(f.org, image.value, |o.out[3]|), image.value))
            && Reserves(LoadHeader(f.org, image.value, |o.out[3]|), f.org, |Flatten(f)|)
  {
    var f, o := Assemble(prog, org, false).value, Assemble(prog, org, true).value;
    ObjectLinksToFlat(prog, org);
    var image := Link([ToInput(o)], f.org).value;
    FlattenParts(f);
    FlattenParts(o);
    SingleSize(o, f.org);
    if f.org + |Flatten(f)| < TWO32 { ImageLoads(headers, f.org, image, |o.out[3]|); }
  }

  /** What a program that was assembled, linked alone and loaded finds at `x`. */
  ghost predicate Finds(space: AddressSpace, flat: seq<Byte>, org: int, n: nat, x: nat)
    requires org <= x < org + |flat|
    reads space
  {
    space.Mapped(x) && space.At(x) == if x < org + n then flat[x - org] else 0
  }

  ghost predicate HoldsProgram(space: AddressSpace, flat: seq<Byte>, org: int, n: nat)
    reads space
  {
    forall x: nat :: org <= x < org + |flat| ==> Finds(space, flat, org, n, x)
  }

  /** Load a linked image followed by a .bss, which together are as long as `flat`. */
  method LoadImage(space: AddressSpace, headers: seq<Byte>, base: Addr32, image: seq<Byte>, bss: nat,
                   ghost flat: seq<Byte>)
    returns (ok: bool)
    requires |headers| == CODE_OFF && image <= flat && |flat| == |image| + bss < TWO32
    requires space.Valid() && space.pages == map[]
    modifies space, space.pmm
    ensures ok ==> HoldsProgram(space, flat, base, |image|)
    ensures !ok ==> NoneFree(space.pmm.used) || base < 0x40_0000 || base + |flat| > 0xBFFF_0000
  {
    var file, seg := headers + image, LoadHeader(base, image, bss);
    ok := space.LoadElf(file, [seg]);
    if ok {
      assert [seg][0].InBounds(|file|);
      ImageLoads(headers, base, image, bss);
      forall x: nat | base <= x < base + |flat|
        ensures Finds(space, flat, base, |image|, x)
      {
        assert [seg][0].Spans(x);
        assert space.At(x) == Expect(file, [seg], 1, x);
      }
    }
  }

  /** The whole way from the program to memory: loading fails only without a free frame or outside user space, and
      otherwise every address of the flat program is mapped and holds its flat byte, or zero in .bss. */
  method LoadProgram(space: AddressSpace, prog: seq<Stmt>, org: int, headers: seq<Byte>) returns (ok: bool)
    requires Stable(prog, org, false) && Assemble(prog, org, true).Some?
    requires NoneInBss(Assemble(prog, org, true).value.relocs)
    requires 0 <= Assemble(prog, org, false).value.org < TWO32
    requires |headers| == CODE_OFF && space.Valid() && space.pages == map[]
    modifies space, space.pmm
    ensures var f := Assemble(prog, org, false).value;
            && (ok ==> HoldsProgram(space, Flatten(f), f.org, |f.out[0] + f.out[1] + f.out[2]|))
            && (!ok ==> NoneFree(space.pmm.used) || f.org < 0x40_0000 || f.org + |Flatten(f)| > 0xBFFF_0000)
  {
    var f, o := Assemble(prog, org, false).value, Assemble(prog, org, true).value;
    AssembleLinkLoad(prog, org, headers);
    var image := Link([ToInput(o)], f.org).value;
    ok := LoadImage(space, headers, f.org, image, |o.out[3]|, Flatten(f));
  }

  lemma FlattenParts(c: Context)
    requires c.Ok()
    ensures Flatten(c) == (c.out[0] + c.out[1] + c.out[2]) + c.out[3]
    ensures Flatten(c)[..|c.out[0]| + |c.out[1]| + |c.out[2]|] == c.out[0] + c.out[1] + c.out[2]
  {
  }

  lemma SingleSize(c: Context, base: int)
    requires c.Ok() && Link([ToInput(c)], base).Done?
    ensures |Link([ToInput(c)], base).value| + |c.out[3]| == |Flatten(c)|
  {
    assert ImageOff([ToInput(c)], 1) == |ToInput(c).payload|;
  }

  /** `push a` followed by `a:`. */
  function PushForward(): seq<Stmt> { [Instr(Push, [Lab("a")]), Define("a")] }

  /** Pass 1 sizes the push with the placeholder: five bytes, so the label is at 5. */
  lemma PushSized()
    ensures var r := Run(First(false, 0), PushForward());
            r.Some? && r.value.pc == [5, 0, 0, 0] && r.value.org == 0 && !r.value.obj
            && r.value.labels == [Label("a", true, SEC_TEXT, 5, false, false)]
  {
    PushStep(First(false, 0));
    assert PushForward()[1..] == [Define("a")] && [Define("a")][1..] == [];
    DefineStep(Step(First(false, 0), PushForward()[0]).value);
  }

  lemma PushStep(c: Context)
    requires c == First(false, 0)
    ensures Step(c, Instr(Push, [Lab("a")])) == Some(c.(pc := [5, 0, 0, 0]))
  {
    var code := Encode(c.Env(), Push, [Lab("a")]);
    assert code.Code? && |code.bytes| == 5 && code.fixups == [];
    assert [0, 0, 0, 0][0 := 5] == [5, 0, 0, 0];
  }

  lemma DefineStep(c: Context)
    requires c == First(false, 0).(pc := [5, 0, 0, 0])
    ensures Step(c, Define("a")) == Some(c.(labels := [Label("a", true, SEC_TEXT, 5, false, false)]))
  {
    var (t, i) := Intern([], "a");
    assert t == [NewLabel("a")] && i == 0;
    assert t[0 := t[0].(defined := true, sec := SEC_TEXT, off := 5)] == [Label("a", true, SEC_TEXT, 5, false, false)];
  }

  /** Pass 2 knows the label and emits the short form. */
  lemma PushShort(env: Env)
    requires env.Ok() && env.pass == 2 && !env.obj && Resolve(env, "a") == Some(5)
    ensures Encode(env, Push, [Lab("a")]) == Lit([0x6A, 5])
  {
  }

  /** Pass 2 takes the two statements of the program one after the other. */
  lemma RunTwo(c: Context, n: Context, m: Context)
    requires c.Ok() && n.Ok() && Step(c, Instr(Push, [Lab("a")])) == Some(n) && Step(n, Define("a")) == Some(m)
    ensures Run(c, PushForward()) == Some(m)
  {
    assert PushForward()[1..] == [Define("a")] && [Define("a")][1..] == [];
  }

  lemma PushEmitted(c: Context)
    requires c.Ok() && c.pass == 2 && !c.obj && c.org == 0 && c.cur == SEC_TEXT && c.pc == [0, 0, 0, 0]
    requires c.base[0] == 0
    requires c.out == [[], [], [], []] && c.labels == [Label("a", true, SEC_TEXT, 5, false, false)]
    ensures Run(c, PushForward()).Some? && |Flatten(Run(c, PushForward()).value)| == 2
    ensures Run(c, PushForward()).value.org == 0
  {
    assert Resolve(c.Env(), "a") == Some(5);
    PushShort(c.Env());
    var n := Put(c, [0x6A, 5]);
    SilentEmit(c, Lit([0x6A, 5]));
    var m := DefineLabel(n, "a").value;
    RunTwo(c, n, m);
    FlatSize(m);
  }

  lemma FlatSize(c: Context)
    requires c.Ok()
    ensures |Flatten(c)| == |c.out[0]| + |c.out[1]| + |c.out[2]| + |c.out[3]|
  {
  }

  /** The placeholder is not harmless: at origin 0 the push is sized at five bytes and emitted in two,
      so the label pass 1 placed at 5 ends up at 2. */
  lemma NarrowingMovesLabels()
    ensures var prog := PushForward();
            && Assemble(prog, 0, false).Some?
            && Total(Run(First(false, 0), prog).value.pc) == 5
            && |Flatten(Assemble(prog, 0, false).value)| == 2
            && !Stable(prog, 0, false)
  {
    PushSized();
    var c1 := Run(First(false, 0), PushForward()).value;
    PushEmitted(Second(c1));
    PushNarrows(FinalEnv(false, 0, Layout(c1.pc), c1.labels));
  }

  lemma PushNarrows(env: Env)
    requires env.Ok() && env.org == 0 && env.base[0] == 0 && env.pass == 2 && !env.obj
    requires env.labels == [Label("a", true, SEC_TEXT, 5, false, false)]
    ensures Narrows(env, Push, [Lab("a")])
  {
    assert Resolve(env, "a") == Some(5);
  }

  /** `section .bss`, `a:`, `dd a`. */
  function WordInBss(): seq<Stmt> { [InSection(SEC_BSS), Define("a"), Data(4, [Symbol("a")])] }

  /** Its table, in both passes. */
  function BssTable(): seq<Label> { [Label("a", true, SEC_BSS, 0, false, false)] }

  /** A context standing at the start of the section, with or without the label from pass 1. */
  ghost predicate AtStart(c: Context) {
    && c.Ok() && c.pc == [0, 0, 0, 0] && c.relocs == []
    && (if c.pass == 1 then c.labels == [] else c.pass == 2 && c.labels == BssTable())
  }

  lemma DefinesInBss(c: Context)
    requires AtStart(c) && c.cur == SEC_BSS
    ensures DefineLabel(c, "a") == Some(c.(labels := BssTable()))
  {
    var (t, i) := Intern(c.labels, "a");
    assert i == 0 && |t| == 1;
    assert t[0 := t[0].(defined := true, sec := SEC_BSS, off := 0)] == BssTable();
  }

  /** The word is emitted, or left to the linker, in `.bss`. */
  lemma EmitsInBss(c: Context)
    requires c.Ok() && c.pc == [0, 0, 0, 0] && c.relocs == [] && c.cur == SEC_BSS && c.labels == BssTable()
    ensures var r := EmitItems(c, 4, [Symbol("a")]);
            && r.Some? && r.value.pc == [0, 0, 0, 4] && r.value.labels == BssTable()
            && (c.obj && c.pass == 2 ==> r.value.relocs == [Reloc(SEC_BSS, 0, Abs32, 0, 0)])
  {
    var code := EncodeData(c.Env(), 4, Symbol("a"));
    assert Find(c.labels, "a") == 0 && Resolve(c.Env(), "a").Some?;
    assert code.Code? && |code.bytes| == 4;
    if c.obj && c.pass == 2 {
      assert code.fixups == [Fixup(0, Abs32, "a", 0)];
      assert AddRelocs(c, 0, code.fixups) == AddReloc(c, 0, code.fixups[0]);
    } else {
      SilentRelocs(c, c.pc[c.cur], code.fixups);
    }
    assert [0, 0, 0, 0][3 := 4] == [0, 0, 0, 4];
    assert [Symbol("a")][1..] == [];
  }

  lemma RunsInBss(c: Context)
    requires AtStart(c)
    ensures var r := Run(c, WordInBss());
            && r.Some? && r.value.pc == [0, 0, 0, 4] && r.value.labels == BssTable()
            && (c.obj && c.pass == 2 ==> r.value.relocs == [Reloc(SEC_BSS, 0, Abs32, 0, 0)])
  {
    var prog := WordInBss();
    assert prog[1..] == [Define("a"), Data(4, [Symbol("a")])];
    assert prog[1..][1..] == [Data(4, [Symbol("a")])] && prog[1..][1..][1..] == [];
    var c1 := c.(cur := SEC_BSS);
    DefinesInBss(c1);
    EmitsInBss(c1.(labels := BssTable()));
  }

  lemma BssAssembles(org: int, obj: bool)
    ensures Assemble(WordInBss(), org, obj).Some?
    ensures obj ==> Assemble(WordInBss(), org, obj).value.relocs == [Reloc(SEC_BSS, 0, Abs32, 0, 0)]
  {
    RunsInBss(First(obj, org));
    var c1 := Run(First(obj, org), WordInBss()).value;
    RunLater(First(obj, org), WordInBss());
    RunsInBss(Second(c1));
  }

  /** Without an instruction nothing narrows. */
  lemma BssStable(org: int)
    requires Assemble(WordInBss(), org, false).Some?
    ensures Stable(WordInBss(), org, false)
  {
    var prog := WordInBss();
    assert forall i :: 0 <= i < |prog| ==> !prog[i].Instr?;
  }

  /** Both modes assemble it and nothing narrows, yet its object does not link: the relocation lies in
      `.bss`. */
  lemma BssObjectRefused(prog: seq<Stmt>, org: int)
    requires prog == WordInBss()
    ensures Stable(prog, org, false) && Assemble(prog, org, true).Some?
    ensures var o := Assemble(prog, org, true).value;
            !NoneInBss(o.relocs) && EachOk([ToInput(o)]) && Link([ToInput(o)], o.org) == Refused
  {
    BssAssembles(org, false);
    BssAssembles(org, true);
    BssStable(org);
    ObjectLinksToFlat(prog, org);
    assert Assemble(prog, org, true).value.relocs[0].sec == SEC_BSS;
  }
}
