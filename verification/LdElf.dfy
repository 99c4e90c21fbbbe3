/** ELF relocatable input of the linker (`parse_elf_rel_input`): symbols and REL relocations
    rewritten into the linker's own form, and what the linked image then holds. */
module LdElf {
  import opened Words
  import opened Options
  import opened Patching
  import opened AsSyntax
  import opened Ld86
  import opened LdLayout

  /** `elf32_sym_t`; `shndx` is `None` for an undefined or absolute symbol. */
  datatype ElfSym = ElfSym(name: Name, isGlobal: bool, shndx: Option<nat>, value: Addr32)

  const R_386_32 := 1
  const R_386_PC32 := 2

  /** The symbol is defined in an allocated section. */
  predicate DefinedIn(shs: seq<Shdr>, s: ElfSym) {
    s.shndx.Some? && s.shndx.value < |shs| && Kind(shs[s.shndx.value]).Some?
  }

  /** The same by the headers. */
  predicate HasHome(shs: seq<Shdr>, s: ElfSym) {
    s.shndx.Some? && s.shndx.value < |shs| && shs[s.shndx.value].alloc
  }

  function ToSym(shs: seq<Shdr>, s: ElfSym): Sym {
    if !DefinedIn(shs, s) then Sym(s.name, 0, None, s.isGlobal)
    else
      var j := s.shndx.value;
      Sym(s.name, Add32(OffInKind(shs, j), s.value), Kind(shs[j]), s.isGlobal)
  }

  /** A relocation table whose target section is in the payload; others are skipped. */
  predicate Applies(shs: seq<Shdr>, t: nat)
    requires t < |shs|
  {
    && shs[t].stype.RelTable? && shs[t].info < |shs|
    && Kind(shs[shs[t].info]).Some? && Kind(shs[shs[t].info]).value <= SEC_DATA
  }

  /** By its header, a relocation table for a section whose bytes are in the payload. */
  predicate Relocates(shs: seq<Shdr>, t: nat) {
    t < |shs| && shs[t].stype.RelTable? && shs[t].info < |shs| && Loaded(shs[shs[t].info])
  }

  lemma AppliesExactly(shs: seq<Shdr>, t: nat)
    requires t < |shs|
    ensures Applies(shs, t) <==> Relocates(shs, t)
  {
  }

  /** The tables skipped name no section, or one without bytes in the payload. */
  lemma SkippedTarget(shs: seq<Shdr>, t: nat)
    requires Fits(shs) && t < |shs| && shs[t].stype.RelTable? && !Applies(shs, t) && shs[t].info < |shs|
    ensures !shs[shs[t].info].alloc || (Kind(shs[shs[t].info]).Some? && PayloadSize(shs) <= Pos(shs, shs[t].info))
  {
    FitsInOrder(shs);
  }

  /** Where in its kind, and where in the payload, an entry for section `target` points. */
  function RelOff(shs: seq<Shdr>, target: nat, r: ElfRel): Addr32
    requires target < |shs|
  {
    Add32(OffInKind(shs, target), r.off)
  }

  function RelPlace(shs: seq<Shdr>, target: nat, r: ElfRel): Addr32
    requires target < |shs| && Kind(shs[target]).Some?
  {
    Add32(KindBase(shs)[Kind(shs[target]).value], RelOff(shs, target, r))
  }

  /** One REL entry in the linker's own form: the stored word becomes the addend, shifted by 4 for
      R_386_PC32 because REL32 is applied against the end of the word.  The entry is checked against
      its kind's size; the word is read from the payload without a check. */
  function ConvertRel(shs: seq<Shdr>, nsyms: nat, payload: seq<Byte>, target: nat, r: ElfRel): Attempt<Rel>
    requires target < |shs| && Kind(shs[target]).Some?
  {
    var kind, off, place := Kind(shs[target]).value, RelOff(shs, target, r), RelPlace(shs, target, r);
    if r.sym >= nsyms || !(r.rtype == R_386_32 || r.rtype == R_386_PC32) || off + 4 > KindSize(shs, |shs|, kind)
    then Refused
    else if place + 4 > |payload| then Stray
    else
      var stored := S32(Rd32(payload, place));
      Done(if r.rtype == R_386_32 then Rel(kind, off, Abs32, r.sym, stored) else Rel(kind, off, Rel32, r.sym,
                                                                                     stored + 4))
  }

  /** In a layout that fits, every word the conversion reads is in the payload. */
  lemma ReadsInside(shs: seq<Shdr>, nsyms: nat, payload: seq<Byte>, t: nat, r: ElfRel)
    requires t < |shs| && Applies(shs, t) && Fits(shs) && |payload| == PayloadSize(shs)
    ensures !ConvertRel(shs, nsyms, payload, shs[t].info, r).Stray?
  {
    FitsInOrder(shs);
  }

  /** Entries `j` and later of table `t`. */
  function TableRels(shs: seq<Shdr>, nsyms: nat, payload: seq<Byte>, t: nat, j: nat): Attempt<seq<Rel>>
    requires t < |shs| && Applies(shs, t) && j <= |shs[t].rels|
    decreases |shs[t].rels| - j
  {
    if j == |shs[t].rels| then Done([])
    else
      match ConvertRel(shs, nsyms, payload, shs[t].info, shs[t].rels[j])
      case Done(c) => Prepend([c], TableRels(shs, nsyms, payload, t, j + 1))
      case Refused => Refused
      case Stray => Stray
  }

  /** Tables `t` and later. */
  function AllRels(shs: seq<Shdr>, nsyms: nat, payload: seq<Byte>, t: nat): Attempt<seq<Rel>>
    requires t <= |shs|
    decreases |shs| - t
  {
    if t == |shs| then Done([])
    else
      var here := if Applies(shs, t) then TableRels(shs, nsyms, payload, t, 0) else Done([]);
      if here.Done? then Prepend(here.value, AllRels(shs, nsyms, payload, t + 1)) else here
  }

  /** `parse_elf_rel_input`, given the payload the copy loop built. */
  function ElfInput(shs: seq<Shdr>, syms: seq<ElfSym>, payload: seq<Byte>): (r: Attempt<Input>)
    ensures r.Done? ==> r.value.Ok()
  {
    match AllRels(shs, |syms|, payload, 0)
    case Done(rels) =>
      Done(Input(payload, KindSize(shs, |shs|, SEC_BSS), KindBase(shs),
                 seq(|syms|, i requires 0 <= i < |syms| => ToSym(shs, syms[i])), rels))
    case Refused => Refused
    case Stray => Stray
  }

  /** The relocation loops over all tables and their entries. */
  method ConvertTables(shs: seq<Shdr>, nsyms: nat, payload: seq<Byte>) returns (r: Attempt<seq<Rel>>)
    ensures r == AllRels(shs, nsyms, payload, 0)
  {
    var out: seq<Rel> := [];
    ResumesStart(AllRels(shs, nsyms, payload, 0));
    for t := 0 to |shs|
      invariant Resumes(AllRels(shs, nsyms, payload, 0), out, AllRels(shs, nsyms, payload, t))
    {
      var here := Done([]);
      if Applies(shs, t) { here := ConvertTable(shs, nsyms, payload, t); }
      if !here.Done? {
        return here;
      }
      ResumesStep(AllRels(shs, nsyms, payload, 0), out, here.value,
                  AllRels(shs, nsyms, payload, t), AllRels(shs, nsyms, payload, t + 1));
      out := out + here.value;
    }
    assert out + [] == out;
    return Done(out);
  }

  method ConvertTable(shs: seq<Shdr>, nsyms: nat, payload: seq<Byte>, t: nat) returns (r: Attempt<seq<Rel>>)
    requires t < |shs| && Applies(shs, t)
    ensures r == TableRels(shs, nsyms, payload, t, 0)
  {
    var out: seq<Rel> := [];
    ResumesStart(TableRels(shs, nsyms, payload, t, 0));
    for j := 0 to |shs[t].rels|
      invariant Resumes(TableRels(shs, nsyms, payload, t, 0), out, TableRels(shs, nsyms, payload, t, j))
    {
      var c := ConvertRel(shs, nsyms, payload, shs[t].info, shs[t].rels[j]);
      if !c.Done? {
        return if c.Refused? then Refused else Stray;
      }
      ResumesStep(TableRels(shs, nsyms, payload, t, 0), out, [c.value],
                  TableRels(shs, nsyms, payload, t, j), TableRels(shs, nsyms, payload, t, j + 1));
      out := out + [c.value];
    }
    assert out + [] == out;
    return Done(out);
  }

  /** `parse_elf_rel_input` */
  method ReadElf(file: seq<Byte>, shs: seq<Shdr>, syms: seq<ElfSym>) returns (r: Attempt<Input>)
    ensures match Payload(file, shs, |shs|)
            case Done(p) => r == ElfInput(shs, syms, p)
            case Refused => r == Refused
            case Stray => r == Stray
  {
    var p := BuildPayload(file, shs);
    if !p.Done? {
      return if p.Refused? then Refused else Stray;
    }
    var rels := ConvertTables(shs, |syms|, p.value);
    if !rels.Done? {
      return if rels.Refused? then Refused else Stray;
    }
    return Done(Input(p.value, KindSize(shs, |shs|, SEC_BSS), KindBase(shs),
                      seq(|syms|, i requires 0 <= i < |syms| => ToSym(shs, syms[i])), rels.value));
  }

  // ---- which symbol a relocation refers to -------------------------------------------------------

  ghost predicate ExportedAt(ins: seq<Input>, n: Name, p: nat, q: nat) {
    p < |ins| && q < |ins[p].syms| && Exports(ins[p].syms[q], n)
  }

  ghost predicate DefinedAt(ins: seq<Input>, n: Name, p: nat, q: nat) {
    p < |ins| && q < |ins[p].syms| && Defines(ins[p].syms[q], n)
  }

  /** Input `p` alone exports `n`; symbol `q` is its first export of it. */
  ghost predicate OnlyExport(ins: seq<Input>, n: Name, p: nat, q: nat) {
    ExportedAt(ins, n, p, q) && forall p2: nat, q2: nat :: ExportedAt(ins, n, p2, q2) ==> p2 == p && q <= q2
  }

  /** Nobody exports `n`; symbol `q` of input `p` is the first definition of it. */
  ghost predicate OnlyDefinition(ins: seq<Input>, n: Name, p: nat, q: nat) {
    && DefinedAt(ins, n, p, q)
    && (forall p2: nat, q2: nat :: !ExportedAt(ins, n, p2, q2))
    && forall p2: nat, q2: nat :: DefinedAt(ins, n, p2, q2) ==> p < p2 || (p == p2 && q <= q2)
  }

  ghost predicate Chosen(ins: seq<Input>, n: Name, p: nat, q: nat) {
    OnlyExport(ins, n, p, q) || OnlyDefinition(ins, n, p, q)
  }

  /** `S` is the address of what an undefined reference to `n` stands for. */
  ghost predicate Imported(ins: seq<Input>, base: int, n: Name, S: int)
    requires AllOk(ins)
  {
    exists p: nat, q: nat :: Chosen(ins, n, p, q) && S == SymAddr(ins, base, p, ins[p].syms[q])
  }

  lemma ExportScan(ins: seq<Input>, n: Name, p: nat, q: nat)
    requires ExportedAt(ins, n, p, q)
    ensures GlobalIn(ins[p].syms, n, 0) != -1 && GlobalIn(ins[p].syms, n, 0) <= q
  {
  }

  lemma DefinitionScan(ins: seq<Input>, n: Name, p: nat, q: nat)
    requires DefinedAt(ins, n, p, q)
    ensures AnyIn(ins[p].syms, n, 0) != -1 && AnyIn(ins[p].syms, n, 0) <= q
  {
  }

  /** Two inputs export `n`. */
  ghost predicate Ambiguous(ins: seq<Input>, n: Name) {
    exists p: nat, q: nat, p2: nat, q2: nat :: ExportedAt(ins, n, p, q) && ExportedAt(ins, n, p2, q2) && p != p2
  }

  /** Nobody exports or defines `n`. */
  ghost predicate Unknown(ins: seq<Input>, n: Name) {
    forall p: nat, q: nat :: !ExportedAt(ins, n, p, q) && !DefinedAt(ins, n, p, q)
  }

  /** The second exporter the scan stops at is one. */
  lemma TwoExporters(ins: seq<Input>, n: Name)
    ensures var p := Provider(ins, n, 0); p != -1 && Provider(ins, n, p + 1) != -1 <==> Ambiguous(ins, n)
  {
    var p := Provider(ins, n, 0);
    if p != -1 && Provider(ins, n, p + 1) != -1 {
      var p2 := Provider(ins, n, p + 1);
      assert ExportedAt(ins, n, p, GlobalIn(ins[p].syms, n, 0));
      assert ExportedAt(ins, n, p2, GlobalIn(ins[p2].syms, n, 0));
    }
    if a: nat, q: nat, b: nat, q2: nat :| ExportedAt(ins, n, a, q) && ExportedAt(ins, n, b, q2) && a != b {
      ExportScan(ins, n, a, q);
      ExportScan(ins, n, b, q2);
    }
  }

  lemma NobodyDefines(ins: seq<Input>, n: Name)
    ensures Provider(ins, n, 0) == -1 && Definer(ins, n, 0) == -1 <==> Unknown(ins, n)
  {
    if Provider(ins, n, 0) == -1 && Definer(ins, n, 0) == -1 {
      forall p: nat, q: nat
        ensures !ExportedAt(ins, n, p, q) && !DefinedAt(ins, n, p, q)
      {
        if ExportedAt(ins, n, p, q) { ExportScan(ins, n, p, q); }
        if DefinedAt(ins, n, p, q) { DefinitionScan(ins, n, p, q); }
      }
    }
    var p, d := Provider(ins, n, 0), Definer(ins, n, 0);
    if p != -1 { assert ExportedAt(ins, n, p, GlobalIn(ins[p].syms, n, 0)); }
    if d != -1 { assert DefinedAt(ins, n, d, AnyIn(ins[d].syms, n, 0)); }
  }

  /** `resolve_symbol_addr` finds the single exporting input, or failing any the first definition; it
      fails exactly when two inputs export the name or nobody has it. */
  lemma ExternMeaning(ins: seq<Input>, base: int, n: Name)
    requires AllOk(ins)
    ensures ResolveExtern(ins, base, n).Some? ==> Imported(ins, base, n, ResolveExtern(ins, base, n).value)
    ensures ResolveExtern(ins, base, n).None? <==> Ambiguous(ins, n) || Unknown(ins, n)
  {
    TwoExporters(ins, n);
    NobodyDefines(ins, n);
    if ResolveExtern(ins, base, n).Some? { ExternFound(ins, base, n); }
  }

  lemma ExternFound(ins: seq<Input>, base: int, n: Name)
    requires AllOk(ins) && ResolveExtern(ins, base, n).Some?
    ensures Imported(ins, base, n, ResolveExtern(ins, base, n).value)
  {
    var p := Provider(ins, n, 0);
    if p != -1 {
      var q := GlobalIn(ins[p].syms, n, 0);
      forall p2: nat, q2: nat | ExportedAt(ins, n, p2, q2)
        ensures p2 == p && q <= q2
      {
        ExportScan(ins, n, p2, q2);
      }
      assert OnlyExport(ins, n, p, q) && Chosen(ins, n, p, q);
    } else {
      p := Definer(ins, n, 0);
      var q := AnyIn(ins[p].syms, n, 0);
      forall p2: nat, q2: nat
        ensures !ExportedAt(ins, n, p2, q2)
      {
        if ExportedAt(ins, n, p2, q2) { ExportScan(ins, n, p2, q2); }
      }
      forall p2: nat, q2: nat | DefinedAt(ins, n, p2, q2)
        ensures p < p2 || (p == p2 && q <= q2)
      {
        DefinitionScan(ins, n, p2, q2);
      }
      assert OnlyDefinition(ins, n, p, q) && Chosen(ins, n, p, q);
    }
  }

  /** The address of symbol `q` of the ELF object that became input `p`: where its section lies in the
      image, plus `st_value`. */
  lemma ElfSymbolAddress(ins: seq<Input>, base: int, p: nat, shs: seq<Shdr>, syms: seq<ElfSym>, payload: seq<Byte>,
                         q: nat)
    requires AllOk(ins) && p < |ins| && ElfInput(shs, syms, payload) == Done(ins[p]) && q < |syms|
    ensures |ins[p].syms| == |syms| && ins[p].syms[q].name == syms[q].name
    ensures ins[p].syms[q].isGlobal == syms[q].isGlobal
    ensures ins[p].syms[q].sec.Some? <==> HasHome(shs, syms[q])
    ensures HasHome(shs, syms[q]) ==>
              U32(SymAddr(ins, base, p, ins[p].syms[q])) ==
              U32(base + ImageOff(ins, p) + Pos(shs, syms[q].shndx.value) + syms[q].value)
  {
    var s := syms[q];
    assert ins[p].syms[q] == ToSym(shs, s) && ins[p].secBase == KindBase(shs);
    if DefinedIn(shs, s) {
      var j := s.shndx.value;
      AddWraps(base + ImageOff(ins, p) + KindBase(shs)[Kind(shs[j]).value], OffInKind(shs, j), s.value);
    }
  }

  lemma AddWraps(a: int, b: Addr32, c: Addr32)
    ensures U32(a + Add32(b, c)) == U32(a + b + c)
  {
    U32Shift(a + b + c, -1);
  }

  /** `S` is the value the ABI calls S for symbol `sym` of the ELF object that became input `i`. */
  ghost predicate IsSymbol(ins: seq<Input>, base: int, i: nat, shs: seq<Shdr>, syms: seq<ElfSym>, sym: nat, S: int)
    requires AllOk(ins) && i < |ins|
  {
    && sym < |syms|
    && if HasHome(shs, syms[sym])
       then U32(S) == U32(base + ImageOff(ins, i) + Pos(shs, syms[sym].shndx.value) + syms[sym].value)
       else Imported(ins, base, syms[sym].name, S)
  }

  lemma SymbolMeaning(ins: seq<Input>, base: int, i: nat, shs: seq<Shdr>, syms: seq<ElfSym>, payload: seq<Byte>,
                      sym: nat)
    requires AllOk(ins) && i < |ins| && ElfInput(shs, syms, payload) == Done(ins[i])
    requires ResolveSym(ins, base, i, sym).Some?
    ensures IsSymbol(ins, base, i, shs, syms, sym, ResolveSym(ins, base, i, sym).value)
  {
    ElfSymbolAddress(ins, base, i, shs, syms, payload, sym);
    if !DefinedIn(shs, syms[sym]) { ExternMeaning(ins, base, syms[sym].name); }
  }

  // ---- what a relocation ends up storing ---------------------------------------------------------

  lemma {:induction false} TableRelIndex(shs: seq<Shdr>, nsyms: nat, payload: seq<Byte>, t: nat, j: nat,
                                         e: nat) returns (k: nat)
    requires t < |shs| && Applies(shs, t) && j <= e < |shs[t].rels|
    requires TableRels(shs, nsyms, payload, t, j).Done?
    ensures k < |TableRels(shs, nsyms, payload, t, j).value|
    ensures ConvertRel(shs, nsyms, payload, shs[t].info,
                       shs[t].rels[e]) == Done(TableRels(shs, nsyms, payload, t, j).value[k])
    decreases e - j
  {
    if j == e {
      k := 0;
    } else {
      k := TableRelIndex(shs, nsyms, payload, t, j + 1, e);
      k := k + 1;
    }
  }

  lemma {:induction false} RelIndex(shs: seq<Shdr>, nsyms: nat, payload: seq<Byte>, from: nat, t: nat,
                                    e: nat) returns (k: nat)
    requires from <= t < |shs| && Applies(shs, t) && e < |shs[t].rels|
    requires AllRels(shs, nsyms, payload, from).Done?
    ensures k < |AllRels(shs, nsyms, payload, from).value|
    ensures ConvertRel(shs, nsyms, payload, shs[t].info,
                       shs[t].rels[e]) == Done(AllRels(shs, nsyms, payload, from).value[k])
    decreases t - from
  {
    if from == t {
      k := TableRelIndex(shs, nsyms, payload, t, 0, e);
    } else {
      k := RelIndex(shs, nsyms, payload, from + 1, t, e);
      var here := if Applies(shs, from) then TableRels(shs, nsyms, payload, from, 0) else Done([]);
      k := |here.value| + k;
    }
  }

  lemma {:induction false} InputWriteIndex(ins: seq<Input>, base: int, i: nat, from: nat, k: nat) returns (w: nat)
    requires AllOk(ins) && i < |ins| && from <= k < |ins[i].rels| && InputWrites(ins, base, i, from).Done?
    ensures w < |InputWrites(ins, base, i, from).value|
    ensures RelWrite(ins, base, i, ins[i].rels[k]) == Done(InputWrites(ins, base, i, from).value[w])
    decreases k - from
  {
    if from == k {
      w := 0;
    } else {
      w := InputWriteIndex(ins, base, i, from + 1, k);
      w := w + 1;
    }
  }

  lemma {:induction false} WriteIndex(ins: seq<Input>, base: int, from: nat, i: nat, k: nat) returns (w: nat)
    requires AllOk(ins) && from <= i < |ins| && k < |ins[i].rels| && AllWrites(ins, base, from).Done?
    ensures w < |AllWrites(ins, base, from).value|
    ensures RelWrite(ins, base, i, ins[i].rels[k]) == Done(AllWrites(ins, base, from).value[w])
    decreases i - from
  {
    if from == i {
      w := InputWriteIndex(ins, base, i, 0, k);
    } else {
      w := WriteIndex(ins, base, from + 1, i, k);
      w := |InputWrites(ins, base, from, 0).value| + w;
    }
  }

  /** No two relocation sites of the link overlap. */
  ghost predicate SitesApart(ins: seq<Input>, base: int)
    requires AllOk(ins) && AllWrites(ins, base, 0).Done?
  {
    var ws := AllWrites(ins, base, 0).value;
    forall a, b :: 0 <= a < |ws| && 0 <= b < |ws| && a != b ==> Apart(ws[a], ws[b])
  }

  lemma ReadWord(image: seq<Byte>, off: nat, v: int)
    requires off + 4 <= |image| && image[off..off + 4] == Le32(v)
    ensures Rd32(image, off) == U32(v)
  {
    var word := Le32(v);
    RdLe32(v);
    assert forall j :: 0 <= j < 4 ==> image[off + j] == word[j];
  }

  /** The word at `off` of `s` is `v`. */
  ghost predicate WordAt(s: seq<Byte>, off: nat, v: int) { off + 4 <= |s| && Rd32(s, off) == v }

  /** The value ld86 computes for a relocation of input `i` at image offset `off`. */
  function RelValue(ins: seq<Input>, base: int, i: nat, r: Rel, off: nat): int
    requires AllOk(ins) && i < |ins| && ResolveSym(ins, base, i, r.sym).Some?
  {
    ResolveSym(ins, base, i, r.sym).value + r.addend - (if r.kind.Abs32? then 0 else base + off + 4)
  }

  lemma RelWriteShape(ins: seq<Input>, base: int, i: nat, r: Rel)
    requires AllOk(ins) && i < |ins| && RelWrite(ins, base, i, r).Done?
    ensures var off := OffOf(ins, i, r);
            && ResolveSym(ins, base, i, r.sym).Some?
            && RelWrite(ins, base, i, r) == Done(Write(off, Le32(RelValue(ins, base, i, r, off))))
  {
  }

  /** The word the image ends up with at a relocation's place. */
  lemma RelocatedWord(ins: seq<Input>, base: int, i: nat, k: nat)
    requires EachOk(ins) && i < |ins| && k < |ins[i].rels| && Link(ins, base).Done? && SitesApart(ins, base)
    ensures var r := ins[i].rels[k];
            var off := OffOf(ins, i, r);
            && ResolveSym(ins, base, i, r.sym).Some?
            && WordAt(Link(ins, base).value, off, U32(RelValue(ins, base, i, r, off)))
  {
    var r := ins[i].rels[k];
    var off := OffOf(ins, i, r);
    var w := WriteIndex(ins, base, 0, i, k);
    RelWriteShape(ins, base, i, r);
    WordInPlace(ins, base, w);
    WordReads(Link(ins, base).value, AllWrites(ins, base, 0).value[w], off, RelValue(ins, base, i, r, off));
  }

  lemma WordReads(image: seq<Byte>, w: Write, off: nat, v: int)
    requires w == Write(off, Le32(v)) && w.off + 4 <= |image| && image[w.off..w.off + 4] == w.word
    ensures WordAt(image, off, U32(v))
  {
    ReadWord(image, off, v);
  }

  lemma WordInPlace(ins: seq<Input>, base: int, w: nat)
    requires EachOk(ins) && Link(ins, base).Done? && SitesApart(ins, base) && w < |AllWrites(ins, base, 0).value|
    ensures var wr := AllWrites(ins, base, 0).value[w];
            wr.off + 4 <= |Link(ins, base).value| && Link(ins, base).value[wr.off..wr.off + 4] == wr.word
  {
    AllWritesInside(ins, base, 0);
    ApplyAt(Payloads(ins, |ins|), AllWrites(ins, base, 0).value, w);
  }

  /** Where entry `r` for section `j` points: `r.off` bytes into the section. */
  function EntryPlace(shs: seq<Shdr>, j: nat, r: ElfRel): Addr32
    requires j < |shs| && Loaded(shs[j])
  {
    Add32(Dest(shs, j), r.off)
  }

  lemma PlaceIs(shs: seq<Shdr>, j: nat, r: ElfRel)
    requires j < |shs| && Loaded(shs[j])
    ensures RelPlace(shs, j, r) == EntryPlace(shs, j, r)
  {
  }

  /** Relocation `k` of `input` is the linker's own form of entry `e` of table `t`, where the object
      file holds `A`. */
  ghost predicate IsConverted(input: Input, shs: seq<Shdr>, payload: seq<Byte>, t: nat, e: nat, k: nat, A: int) {
    && Relocates(shs, t) && e < |shs[t].rels| && k < |input.rels| && input.Ok()
    && var r, c := shs[t].rels[e], input.rels[k];
       var place := EntryPlace(shs, shs[t].info, r);
       && WordAt(payload, place, A)
       && PlaceOf(input, c) == place && c.sym == r.sym
       && (r.rtype == R_386_32 || r.rtype == R_386_PC32) && c.kind == (if r.rtype == R_386_32 then Abs32 else Rel32)
       && c.addend == S32(A) + (if r.rtype == R_386_32 then 0 else 4)
  }

  lemma ConvertedIndex(input: Input, shs: seq<Shdr>, syms: seq<ElfSym>, payload: seq<Byte>, t: nat, e: nat)
    returns (k: nat, A: int)
    requires ElfInput(shs, syms, payload) == Done(input)
    requires Relocates(shs, t) && e < |shs[t].rels|
    ensures IsConverted(input, shs, payload, t, e, k, A)
  {
    k := RelIndex(shs, |syms|, payload, 0, t, e);
    PlaceIs(shs, shs[t].info, shs[t].rels[e]);
    A := Rd32(payload, EntryPlace(shs, shs[t].info, shs[t].rels[e]));
  }

  /** S + A for type 1, R_386_32, and S + A - P for type 2, R_386_PC32. */
  function AbiValue(rtype: int, S: int, A: int, P: int): int { if rtype == 1 then S + A else S + A - P }

  /** The word stored for the linker's own form of an entry is the one the ABI asks for. */
  lemma AbiWord(rtype: int, kind: RelKind, S: int, A: int, P: int, addend: int, word: int)
    requires kind == (if rtype == R_386_32 then Abs32 else Rel32)
    requires addend == S32(A) + (if rtype == R_386_32 then 0 else 4)
    requires word == U32(S + addend - (if kind.Abs32? then 0 else P + 4))
    ensures word == U32(AbiValue(rtype, S, A, P))
  {
    U32AddS32(A, S);
    U32AddS32(A, S - P);
  }

  /** The image holds S + A or S + A - P at entry `e` of table `t` of input `i`, where S is the address
      the entry's symbol has, A the word the object file holds there and P its own address. */
  ghost predicate AppliedPerAbi(ins: seq<Input>, base: int, i: nat, shs: seq<Shdr>, syms: seq<ElfSym>,
                                payload: seq<Byte>, t: nat, e: nat, image: seq<Byte>, S: int, A: int)
    requires AllOk(ins) && i < |ins| && Relocates(shs, t) && e < |shs[t].rels|
  {
    var r := shs[t].rels[e];
    var place := EntryPlace(shs, shs[t].info, r);
    var off := ImageOff(ins, i) + place;
    && (r.rtype == 1 || r.rtype == 2)
    && IsSymbol(ins, base, i, shs, syms, r.sym, S)
    && WordAt(payload, place, A)
    && WordAt(image, off, U32(AbiValue(r.rtype, S, A, base + off)))
  }

  /** A relocation whose place is in its own payload is stored at that place of the image. */
  lemma OffInPayload(ins: seq<Input>, i: nat, r: Rel)
    requires AllOk(ins) && i < |ins| && PlaceOf(ins[i], r) + 4 <= |ins[i].payload|
    ensures OffOf(ins, i, r) == ImageOff(ins, i) + PlaceOf(ins[i], r)
  {
    OffMonotone(ins, i + 1, |ins|);
  }

  lemma StoredPerAbi(ins: seq<Input>, base: int, i: nat, c: Rel, rtype: int, off: nat, image: seq<Byte>, S: int, A: int)
    requires AllOk(ins) && i < |ins| && OffOf(ins, i, c) == off && ResolveSym(ins, base, i, c.sym) == Some(S)
    requires c.kind == (if rtype == R_386_32 then Abs32 else Rel32)
    requires c.addend == S32(A) + (if rtype == R_386_32 then 0 else 4)
    requires WordAt(image, off, U32(RelValue(ins, base, i, c, off)))
    ensures WordAt(image, off, U32(AbiValue(rtype, S, A, base + off)))
  {
    AbiWord(rtype, c.kind, S, A, base + off, c.addend, U32(RelValue(ins, base, i, c, off)));
  }

  lemma ConvertedMeaning(ins: seq<Input>, base: int, i: nat, shs: seq<Shdr>, syms: seq<ElfSym>,
                         payload: seq<Byte>, t: nat, e: nat, k: nat, image: seq<Byte>, S: int, A: int, place: Addr32)
    requires AllOk(ins) && i < |ins| && ins[i].payload == payload && IsConverted(ins[i], shs, payload, t, e, k, A)
    requires place == EntryPlace(shs, shs[t].info, shs[t].rels[e]) == PlaceOf(ins[i], ins[i].rels[k])
    requires var r := ins[i].rels[k];
             var off := OffOf(ins, i, r);
             && ResolveSym(ins, base, i, r.sym) == Some(S) && IsSymbol(ins, base, i, shs, syms, r.sym, S)
             && WordAt(image, off, U32(RelValue(ins, base, i, r, off)))
    ensures AppliedPerAbi(ins, base, i, shs, syms, payload, t, e, image, S, A)
  {
    var c, r, off := ins[i].rels[k], shs[t].rels[e], ImageOff(ins, i) + place;
    OffInPayload(ins, i, c);
    assert OffOf(ins, i, c) == off;
    StoredPerAbi(ins, base, i, c, r.rtype, off, image, S, A);
  }

  /** Every REL relocation of every ELF input is applied as the System V ABI for Intel386 defines it
      (section "Relocation" of chapter 4): S + A for R_386_32 and S + A - P for R_386_PC32. */
  lemma ElfRelocationMeaning(ins: seq<Input>, base: int, i: nat,
                             shs: seq<Shdr>, syms: seq<ElfSym>, payload: seq<Byte>, t: nat, e: nat)
    returns (S: int, A: int)
    requires EachOk(ins) && i < |ins| && ElfInput(shs, syms, payload) == Done(ins[i])
    requires Relocates(shs, t) && e < |shs[t].rels|
    requires Link(ins, base).Done? && SitesApart(ins, base)
    ensures AppliedPerAbi(ins, base, i, shs, syms, payload, t, e, Link(ins, base).value, S, A)
  {
    var k: nat;
    k, A := ConvertedIndex(ins[i], shs, syms, payload, t, e);
    RelocatedWord(ins, base, i, k);
    S := ResolveSym(ins, base, i, ins[i].rels[k].sym).value;
    SymbolMeaning(ins, base, i, shs, syms, payload, ins[i].rels[k].sym);
    ConvertedMeaning(ins, base, i, shs, syms, payload, t, e, k, Link(ins, base).value, S, A,
                     PlaceOf(ins[i], ins[i].rels[k]));
  }

  /** The word A is the section's own, as the file holds it, once the payload holds the section at its place. */
  lemma AddendInFile(file: seq<Byte>, shs: seq<Shdr>, payload: seq<Byte>, j: nat, r: ElfRel)
    requires Fits(shs) && |payload| == PayloadSize(shs) && j < |shs| && Loaded(shs[j]) && shs[j].stype.Progbits?
    requires Placed(file, shs, j, payload) && r.off + 4 <= shs[j].size
    ensures EntryPlace(shs, j, r) + 4 <= |payload|
    ensures Rd32(payload, EntryPlace(shs, j, r)) == Rd32(file, shs[j].offset + r.off)
  {
    SectionInside(shs, j);
    WordInSection(payload, file, Dest(shs, j), r.off, shs[j].offset, shs[j].size);
  }

  lemma WordInSection(payload: seq<Byte>, file: seq<Byte>, p: Addr32, off: Addr32, q: nat, size: nat)
    requires p + size <= |payload| < TWO32 && q + size <= |file| && payload[p..p + size] == file[q..q + size]
    requires off + 4 <= size
    ensures Add32(p, off) == p + off && Rd32(payload, Add32(p, off)) == Rd32(file, q + off)
  {
    SameWord(payload, p, file, q, size, off);
  }

  lemma SameWord(a: seq<Byte>, p: nat, b: seq<Byte>, q: nat, n: nat, off: nat)
    requires p + n <= |a| && q + n <= |b| && a[p..p + n] == b[q..q + n] && off + 4 <= n
    ensures Rd32(a, p + off) == Rd32(b, q + off)
  {
    SameByte(a, p, b, q, n, off);
    SameByte(a, p, b, q, n, off + 1);
    SameByte(a, p, b, q, n, off + 2);
    SameByte(a, p, b, q, n, off + 3);
  }

  lemma SameByte(a: seq<Byte>, p: nat, b: seq<Byte>, q: nat, n: nat, k: nat)
    requires p + n <= |a| && q + n <= |b| && a[p..p + n] == b[q..q + n] && k < n
    ensures a[p + k] == b[q + k]
  {
    assert a[p..p + n][k] == b[q..q + n][k];
  }

  lemma {:induction false} TableRelFrom(shs: seq<Shdr>, nsyms: nat, payload: seq<Byte>, t: nat, j: nat, k: nat)
    returns (e: nat)
    requires t < |shs| && Applies(shs, t) && j <= |shs[t].rels| && TableRels(shs, nsyms, payload, t, j).Done?
    requires k < |TableRels(shs, nsyms, payload, t, j).value|
    ensures e < |shs[t].rels|
    ensures ConvertRel(shs, nsyms, payload, shs[t].info,
                       shs[t].rels[e]) == Done(TableRels(shs, nsyms, payload, t, j).value[k])
    decreases k
  {
    if k == 0 {
      e := j;
    } else {
      e := TableRelFrom(shs, nsyms, payload, t, j + 1, k - 1);
    }
  }

  lemma {:induction false} RelFrom(shs: seq<Shdr>, nsyms: nat, payload: seq<Byte>, from: nat, k: nat)
    returns (t: nat, e: nat)
    requires from <= |shs| && AllRels(shs, nsyms, payload, from).Done?
    requires k < |AllRels(shs, nsyms, payload, from).value|
    ensures t < |shs| && Applies(shs, t) && e < |shs[t].rels|
    ensures ConvertRel(shs, nsyms, payload, shs[t].info,
                       shs[t].rels[e]) == Done(AllRels(shs, nsyms, payload, from).value[k])
    decreases |shs| - from
  {
    var here := if Applies(shs, from) then TableRels(shs, nsyms, payload, from, 0) else Done([]);
    if k < |here.value| {
      t := from;
      e := TableRelFrom(shs, nsyms, payload, from, 0, k);
    } else {
      t, e := RelFrom(shs, nsyms, payload, from + 1, k - |here.value|);
    }
  }

  /** The linker relocates nothing in an ELF input but what an entry of such a table asks for. */
  lemma OnlyEntries(input: Input, shs: seq<Shdr>, syms: seq<ElfSym>, payload: seq<Byte>, k: nat)
    returns (t: nat, e: nat)
    requires ElfInput(shs, syms, payload) == Done(input) && k < |input.rels|
    ensures Relocates(shs, t) && e < |shs[t].rels|
    ensures PlaceOf(input, input.rels[k]) == EntryPlace(shs, shs[t].info, shs[t].rels[e])
    ensures input.rels[k].sym == shs[t].rels[e].sym
  {
    t, e := RelFrom(shs, |syms|, payload, 0, k);
    PlaceIs(shs, shs[t].info, shs[t].rels[e]);
  }

  /** Bytes no relocation touches are the payload bytes. */
  lemma UntouchedBytes(ins: seq<Input>, base: int, x: nat)
    requires EachOk(ins) && Link(ins, base).Done? && x < ImageOff(ins, |ins|)
    requires var ws := AllWrites(ins, base, 0).value;
             forall w :: 0 <= w < |ws| ==> !(ws[w].off <= x < ws[w].off + 4)
    ensures Link(ins, base).value[x] == Payloads(ins, |ins|)[x]
  {
    AllWritesInside(ins, base, 0);
    ApplyElsewhere(Payloads(ins, |ins|), AllWrites(ins, base, 0).value, x);
  }
}
