/** Agreement of the two passes: every statement that does not narrow emits in pass 2 as many
    bytes as pass 1 counted, so the label table pass 1 built stays right. */
module AsPasses {
  import opened Words
  import opened Options
  import opened AsSyntax
  import opened AsEncode
  import opened AsLengths
  import opened AsRun

  // ---- how the label table grows -------------------------------------------------------------

  /** `b` is a later state of table `a`: same entries in the same places, nothing undefined or
      unmarked again, and no definition moved. */
  ghost predicate Grows(a: seq<Label>, b: seq<Label>) {
    && |a| <= |b|
    && forall k :: 0 <= k < |a| ==>
         && b[k].name == a[k].name
         && (a[k].defined ==> b[k].defined && b[k].sec == a[k].sec && b[k].off == a[k].off)
         && (a[k].isGlobal ==> b[k].isGlobal)
         && (a[k].isExtern ==> b[k].isExtern)
  }

  /** Names found in a table are found in the same place once it has grown. */
  lemma FindGrown(a: seq<Label>, b: seq<Label>, n: Name)
    requires Grows(a, b)
    ensures Find(a, n) != -1 ==> Find(b, n) == Find(a, n)
    ensures Find(a, n) == -1 && |a| == |b| ==> Find(b, n) == -1
  {
    assert forall k :: 0 <= k < |a| ==> b[k].name == a[k].name;
  }

  lemma {:induction false} MarkAllGrows(ls: seq<Label>, ns: seq<Name>, ext: bool)
    ensures Grows(ls, MarkAll(ls, ns, ext))
    decreases |ns|
  {
    if ns != [] {
      MarkAllGrows(Mark(ls, ns[0], ext), ns[1..], ext);
    }
  }

  lemma {:induction false} AddRelocsEffect(c: Context, at: nat, fs: seq<Fixup>)
    requires c.Ok()
    ensures var r := AddRelocs(c, at, fs);
            r.Some? ==>
              && r.value == c.(labels := r.value.labels, relocs := r.value.relocs)
              && c.labels <= r.value.labels
              && c.relocs <= r.value.relocs
              && (!(c.obj && c.pass == 2) ==> r.value == c)
              && forall k :: |c.labels| <= k < |r.value.labels| ==>
                   r.value.labels[k] == NewLabel(r.value.labels[k].name)
    decreases |fs|
  {
    if fs != [] {
      var n := AddReloc(c, at, fs[0]);
      if n.Some? {
        AddRelocsEffect(n.value, at, fs[1..]);
      }
    }
  }

  /** What emitting one piece of code changes. */
  lemma EmitCodeEffect(c: Context, code: Code)
    requires c.Ok() && EmitCode(c, code).Some?
    ensures code != Rejected
    ensures var r := EmitCode(c, code).value;
            && r == c.(labels := r.labels, relocs := r.relocs, pc := r.pc, out := r.out)
            && r.pc == c.pc[c.cur := c.pc[c.cur] + |code.bytes|]
            && r.out == (if c.pass == 2 then c.out[c.cur := c.out[c.cur] + code.bytes] else c.out)
            && c.labels <= r.labels
            && c.relocs <= r.relocs
            && (!(c.obj && c.pass == 2) ==> r.labels == c.labels && r.relocs == c.relocs)
            && forall k :: |c.labels| <= k < |r.labels| ==> r.labels[k] == NewLabel(r.labels[k].name)
  {
    AddRelocsEffect(c, c.pc[c.cur], code.fixups);
  }

  lemma {:induction false} EmitItemsGrows(c: Context, width: int, items: seq<DataItem>)
    requires c.Ok() && EmitItems(c, width, items).Some?
    ensures var r := EmitItems(c, width, items).value;
            && r == c.(labels := r.labels, relocs := r.relocs, pc := r.pc, out := r.out)
            && c.labels <= r.labels
            && (!(c.obj && c.pass == 2) ==> r.labels == c.labels)
            && (forall s :: 0 <= s < 4 ==> c.pc[s] <= r.pc[s])
            && (forall s :: 0 <= s < 4 ==> c.out[s] <= r.out[s])
    decreases |items|
  {
    if items != [] {
      var code := EncodeData(c.Env(), width, items[0]);
      EmitCodeEffect(c, code);
      EmitItemsGrows(EmitCode(c, code).value, width, items[1..]);
    }
  }

  /** `r` is a later state of a pass than `c`: counters and output only extend, the pass-1 table
      only grows, and the origin is fixed once anything has been counted. */
  ghost predicate Later(c: Context, r: Context) {
    && c.Ok() && r.Ok()
    && r.pass == c.pass && r.obj == c.obj && r.base == c.base
    && (c.pass == 1 ==> Grows(c.labels, r.labels))
    && (forall k :: 0 <= k < 4 ==> c.pc[k] <= r.pc[k])
    && (forall k :: 0 <= k < 4 ==> c.out[k] <= r.out[k])
    && (c.pc != [0, 0, 0, 0] ==> r.org == c.org)
  }

  lemma StepLater(c: Context, s: Stmt)
    requires c.Ok() && Step(c, s).Some?
    ensures Later(c, Step(c, s).value)
    ensures !s.Org? ==> Step(c, s).value.org == c.org
  {
    match s
    case Global(ns) => MarkAllGrows(c.labels, ns, false);
    case Extern(ns) => MarkAllGrows(c.labels, ns, true);
    case Data(width, items) => EmitItemsGrows(c, width, items);
    case Times(n, width, item) => EmitItemsGrows(c, width, seq(n, _ => item));
    case Instr(mn, ops) => EmitCodeEffect(c, Encode(c.Env(), mn, ops));
    case _ =>
  }

  lemma GrowsTransitive(a: seq<Label>, b: seq<Label>, c: seq<Label>)
    requires Grows(a, b) && Grows(b, c)
    ensures Grows(a, c)
  {
  }

  lemma LaterTransitive(a: Context, b: Context, c: Context)
    requires Later(a, b) && Later(b, c)
    ensures Later(a, c)
  {
    if a.pass == 1 { GrowsTransitive(a.labels, b.labels, c.labels); }
    assert b.pc == [0, 0, 0, 0] ==> forall k :: 0 <= k < 4 ==> a.pc[k] <= b.pc[k] == 0;
    assert a.pc != [0, 0, 0, 0] ==> b.pc != [0, 0, 0, 0];
  }

  lemma {:induction false} RunLater(c: Context, prog: seq<Stmt>)
    requires c.Ok() && Run(c, prog).Some?
    ensures Later(c, Run(c, prog).value)
    decreases |prog|
  {
    if prog != [] {
      var n := Step(c, prog[0]).value;
      StepLater(c, prog[0]);
      RunLater(n, prog[1..]);
      LaterTransitive(c, n, Run(c, prog).value);
    }
  }

  // ---- lockstep of the two passes --------------------------------------------------------------

  /** Table `t` of a running pass 2: the pass-1 table, then symbols only `add_reloc` has seen. */
  ghost predicate Extends(t: seq<Label>, table: seq<Label>) {
    && |table| <= |t| <= MAX_LABELS
    && t[..|table|] == table
    && forall k :: |table| <= k < |t| ==> t[k] == NewLabel(t[k].name)
  }

  /** Pass 1 before a statement, pass 2 before the same statement, and pass 1's final table. */
  ghost predicate InStep(c1: Context, c2: Context, table: seq<Label>) {
    && c1.Ok() && c2.Ok() && c1.pass == 1 && c2.pass == 2
    && c1.obj == c2.obj && c1.cur == c2.cur && c1.pc == c2.pc
    && Grows(c1.labels, table)
    && Extends(c2.labels, table)
  }

  lemma FindExtended(t: seq<Label>, table: seq<Label>, n: Name)
    requires Extends(t, table)
    ensures Find(table, n) != -1 ==> Find(t, n) == Find(table, n)
    ensures Find(table, n) == -1 && Find(t, n) != -1 ==> Find(t, n) >= |table|
  {
    assert forall k :: 0 <= k < |table| ==> t[k] == table[k];
  }

  /** The additions are undefined and not extern, so they resolve to nothing. */
  lemma ResolveExtended(e: Env, table: seq<Label>, n: Name)
    requires e.Ok() && Extends(e.labels, table)
    ensures Resolve(e, n) == Resolve(e.(labels := table), n)
  {
    FindExtended(e.labels, table, n);
    assert forall k :: 0 <= k < |table| ==> e.labels[k] == table[k];
  }

  lemma DefineInStep(c1: Context, c2: Context, table: seq<Label>, n: Name)
    requires InStep(c1, c2, table)
    requires DefineLabel(c1, n).Some? && Grows(DefineLabel(c1, n).value.labels, table)
    ensures DefineLabel(c2, n) == Some(c2)
  {
    FindExtended(c2.labels, table, n);
    var (t, i) := Intern(c1.labels, n);
    if i == -1 {
      FindGrown(c1.labels, table, n);
    } else {
      var l1 := DefineLabel(c1, n).value.labels;
      assert forall k :: 0 <= k < i ==> l1[k].name == t[k].name;
      FindIs(l1, n, i);
      FindGrown(l1, table, n);
      assert c2.labels[i] == table[i];
      assert c2.labels[i := c2.labels[i]] == c2.labels;
    }
  }

  lemma MarkInStep(l1: seq<Label>, l2: seq<Label>, table: seq<Label>, n: Name, ext: bool)
    requires |l1| <= MAX_LABELS && Extends(l2, table)
    requires Grows(Mark(l1, n, ext), table)
    ensures Mark(l2, n, ext) == l2
  {
    FindExtended(l2, table, n);
    var (t, i) := Intern(l1, n);
    var m := Mark(l1, n, ext);
    if i == -1 {
      FindGrown(m, table, n);
    } else {
      assert forall k :: 0 <= k < i ==> m[k].name == t[k].name;
      FindIs(m, n, i);
      FindGrown(m, table, n);
      assert l2[i] == table[i];
      assert l2[i := l2[i]] == l2;
    }
  }

  lemma {:induction false} MarkAllInStep(l1: seq<Label>, l2: seq<Label>, table: seq<Label>, ns: seq<Name>, ext: bool)
    requires |l1| <= MAX_LABELS && Extends(l2, table)
    requires Grows(MarkAll(l1, ns, ext), table)
    ensures MarkAll(l2, ns, ext) == l2
    decreases |ns|
  {
    if ns != [] {
      var m := Mark(l1, ns[0], ext);
      MarkAllGrows(m, ns[1..], ext);
      GrowsTransitive(m, MarkAll(l1, ns, ext), table);
      MarkInStep(l1, l2, table, ns[0], ext);
      MarkAllInStep(m, l2, table, ns[1..], ext);
    }
  }

  /** Code of the same length keeps the passes in step. */
  lemma EmitInStep(c1: Context, c2: Context, table: seq<Label>, code1: Code, code2: Code)
    requires InStep(c1, c2, table)
    requires EmitCode(c1, code1).Some? && EmitCode(c2, code2).Some?
    requires |code1.bytes| == |code2.bytes|
    ensures InStep(EmitCode(c1, code1).value, EmitCode(c2, code2).value, table)
  {
    EmitCodeEffect(c1, code1);
    EmitCodeEffect(c2, code2);
  }

  lemma DataLength(e1: Env, e2: Env, width: int, item: DataItem)
    requires e1.Ok() && e2.Ok()
    requires EncodeData(e1, width, item) != Rejected && EncodeData(e2, width, item) != Rejected
    ensures |EncodeData(e1, width, item).bytes| == |EncodeData(e2, width, item).bytes|
  {
  }

  lemma {:induction false} ItemsInStep(c1: Context, c2: Context, table: seq<Label>, width: int, items: seq<DataItem>)
    requires InStep(c1, c2, table)
    requires EmitItems(c1, width, items).Some? && EmitItems(c2, width, items).Some?
    ensures InStep(EmitItems(c1, width, items).value, EmitItems(c2, width, items).value, table)
    decreases |items|
  {
    if items != [] {
      var code1, code2 := EncodeData(c1.Env(), width, items[0]), EncodeData(c2.Env(), width, items[0]);
      DataLength(c1.Env(), c2.Env(), width, items[0]);
      EmitInStep(c1, c2, table, code1, code2);
      ItemsInStep(EmitCode(c1, code1).value, EmitCode(c2, code2).value, table, width, items[1..]);
    }
  }

  /** The pass-2 view a finished assembly gives its instructions. */
  function FinalEnv(obj: bool, org: int, base: seq<nat>, table: seq<Label>): Env {
    AsEncode.Env(2, obj, org, base, table, 0)
  }

  /** No instruction of the program narrows, judged by the table pass 1 leaves behind. */
  ghost predicate NoneNarrow(prog: seq<Stmt>, e: Env)
    requires e.Ok()
  {
    forall i :: 0 <= i < |prog| && prog[i].Instr? ==> !Narrows(e, prog[i].mn, prog[i].ops)
  }

  lemma NarrowsExtended(e: Env, table: seq<Label>, pc: int, mn: Mnemonic, ops: seq<Operand>)
    requires e.Ok() && Extends(e.labels, table)
    ensures Narrows(e, mn, ops) <==> Narrows(e.(labels := table, pc := pc), mn, ops)
  {
    forall n: Name
      ensures Resolve(e, n) == Resolve(e.(labels := table, pc := pc), n)
    {
      ResolveExtended(e, table, n);
    }
  }

  lemma StepInStep(c1: Context, c2: Context, table: seq<Label>, s: Stmt)
    requires InStep(c1, c2, table)
    requires Step(c1, s).Some? && Step(c2, s).Some?
    requires Grows(Step(c1, s).value.labels, table)
    requires s.Instr? ==> !Narrows(c2.Env(), s.mn, s.ops)
    ensures InStep(Step(c1, s).value, Step(c2, s).value, table)
    ensures !c2.obj ==> Step(c2, s).value.labels == c2.labels
  {
    match s
    case Define(n) => DefineInStep(c1, c2, table, n);
    case Global(ns) => MarkAllInStep(c1.labels, c2.labels, table, ns, false);
    case Extern(ns) => MarkAllInStep(c1.labels, c2.labels, table, ns, true);
    case Data(width, items) =>
      ItemsInStep(c1, c2, table, width, items);
      EmitItemsGrows(c2, width, items);
    case Times(n, width, item) =>
      ItemsInStep(c1, c2, table, width, seq(n, _ => item));
      EmitItemsGrows(c2, width, seq(n, _ => item));
    case Instr(mn, ops) =>
      EmitCodeEffect(c2, Encode(c2.Env(), mn, ops));
      PassOneWide(c1.Env(), mn, ops);
      EncodeLength(c1.Env(), mn, ops);
      EncodeLength(c2.Env(), mn, ops);
      EmitInStep(c1, c2, table, Encode(c1.Env(), mn, ops), Encode(c2.Env(), mn, ops));
    case _ =>
  }

  lemma EncodeNonEmpty(e: Env, mn: Mnemonic, ops: seq<Operand>)
    requires e.Ok() && Encode(e, mn, ops) != Rejected
    ensures |Encode(e, mn, ops).bytes| > 0
  {
    if |ops| == 2 {
      assert EncodeBinary(e, mn, ops[0], ops[1]) != Rejected;
    }
  }

  lemma NoneNarrowTail(prog: seq<Stmt>, e: Env)
    requires e.Ok() && prog != [] && NoneNarrow(prog, e)
    ensures NoneNarrow(prog[1..], e)
  {
    assert forall i :: 0 <= i < |prog[1..]| ==> prog[1..][i] == prog[i + 1];
  }

  ghost predicate HeadNarrows(prog: seq<Stmt>, e: Env)
    requires e.Ok()
  {
    prog != [] && prog[0].Instr? && Narrows(e, prog[0].mn, prog[0].ops)
  }

  lemma FirstInStep(c1: Context, c2: Context, prog: seq<Stmt>, table: seq<Label>)
    requires c1.Ok() && Run(c1, prog).Some? && Grows(Run(c1, prog).value.labels, table)
    requires c2.Ok() && Run(c2, prog).Some?
    requires InStep(c1, c2, table)
    requires prog != []
    requires !HeadNarrows(prog, FinalEnv(c2.obj, Run(c2, prog).value.org, c2.base, table))
    ensures InStep(Step(c1, prog[0]).value, Step(c2, prog[0]).value, table)
    ensures !c2.obj ==> Step(c2, prog[0]).value.labels == c2.labels
    ensures prog[0].Instr? ==> !Narrows(c2.Env(), prog[0].mn, prog[0].ops)
  {
    var s := prog[0];
    var n1 := Step(c1, s).value;
    RunLater(n1, prog[1..]);
    StepLater(c1, s);
    GrowsTransitive(n1.labels, Run(c1, prog).value.labels, table);
    var e := FinalEnv(c2.obj, Run(c2, prog).value.org, c2.base, table);
    NarrowsHere(c2, prog, table, e);
    StepInStep(c1, c2, table, s);
  }

  /** The view an instruction has in pass 2 agrees with the final one. */
  lemma NarrowsHere(c2: Context, prog: seq<Stmt>, table: seq<Label>, e: Env)
    requires c2.Ok() && c2.pass == 2 && Run(c2, prog).Some? && Extends(c2.labels, table) && prog != []
    requires e == FinalEnv(c2.obj, Run(c2, prog).value.org, c2.base, table)
    ensures prog[0].Instr? ==> (Narrows(c2.Env(), prog[0].mn, prog[0].ops) <==> Narrows(e, prog[0].mn, prog[0].ops))
  {
    var s := prog[0];
    if s.Instr? {
      EncodeNonEmpty(c2.Env(), s.mn, s.ops);
      EmitCodeEffect(c2, Encode(c2.Env(), s.mn, s.ops));
      assert Step(c2, s).value.pc[c2.cur] > 0;
      OrgInForce(c2, s, prog[1..]);
      NarrowsExtended(c2.Env(), table, 0, s.mn, s.ops);
    }
  }

  /** The passes are in step before every statement, given the final table and origin. */
  lemma {:induction false} RunInStep(c1: Context, c2: Context, prog: seq<Stmt>, table: seq<Label>, e: Env, i: nat)
    requires c1.Ok() && Run(c1, prog).Some? && Grows(Run(c1, prog).value.labels, table)
    requires c2.Ok() && Run(c2, prog).Some?
    requires InStep(c1, c2, table)
    requires e == FinalEnv(c2.obj, Run(c2, prog).value.org, c2.base, table) && NoneNarrow(prog, e)
    requires i <= |prog|
    ensures Run(c1, prog[..i]).Some? && Run(c2, prog[..i]).Some?
    ensures InStep(Run(c1, prog[..i]).value, Run(c2, prog[..i]).value, table)
    decreases |prog|
  {
    if i > 0 {
      var n1, n2 := Step(c1, prog[0]).value, Step(c2, prog[0]).value;
      FirstInStep(c1, c2, prog, table);
      StepLater(c2, prog[0]);
      assert n2.base == c2.base && n2.obj == c2.obj;
      NoneNarrowTail(prog, e);
      RunInStep(n1, n2, prog[1..], table, e, i - 1);
      assert prog[..i][1..] == prog[1..][..i - 1];
    }
  }

  /** Once something has been counted the origin in force is the final one. */
  lemma OrgInForce(c: Context, s: Stmt, rest: seq<Stmt>)
    requires c.Ok() && !s.Org? && Step(c, s).Some? && Run(Step(c, s).value, rest).Some?
    requires Step(c, s).value.pc != [0, 0, 0, 0]
    ensures Run(Step(c, s).value, rest).value.org == c.org
  {
    StepLater(c, s);
    RunLater(Step(c, s).value, rest);
  }

  lemma {:induction false} RunSplit(c: Context, prog: seq<Stmt>, i: nat)
    requires c.Ok() && i <= |prog| && Run(c, prog).Some?
    ensures Run(c, prog[..i]).Some?
    ensures Run(c, prog) == Run(Run(c, prog[..i]).value, prog[i..])
    decreases |prog|
  {
    if i > 0 {
      RunSplit(Step(c, prog[0]).value, prog[1..], i - 1);
      assert prog[..i][1..] == prog[1..][..i - 1];
      assert prog[i..] == prog[1..][i - 1..];
    } else {
      assert prog[i..] == prog;
    }
  }

  /** The origin in force after `prog`. */
  function LastOrg(prog: seq<Stmt>, org: int): int
    decreases |prog|
  {
    if prog == [] then org else LastOrg(prog[1..], if prog[0].Org? then U32(prog[0].value) else org)
  }

  lemma {:induction false} RunOrg(c: Context, prog: seq<Stmt>)
    requires c.Ok() && Run(c, prog).Some?
    ensures Run(c, prog).value.org == LastOrg(prog, c.org)
    decreases |prog|
  {
    if prog != [] {
      StepLater(c, prog[0]);
      RunOrg(Step(c, prog[0]).value, prog[1..]);
    }
  }

  lemma {:induction false} LastOrgTwice(prog: seq<Stmt>, a: int, b: int)
    ensures LastOrg(prog, a) == LastOrg(prog, b) || (LastOrg(prog, a) == a && LastOrg(prog, b) == b)
    decreases |prog|
  {
    if prog != [] && !prog[0].Org? { LastOrgTwice(prog[1..], a, b); }
  }

  /** Pass 2 ends with the origin pass 1 ended with. */
  lemma OrgKept(prog: seq<Stmt>, org: int, obj: bool)
    requires Assemble(prog, org, obj).Some?
    ensures Assemble(prog, org, obj).value.org == Run(First(obj, org), prog).value.org
  {
    var c1 := Run(First(obj, org), prog).value;
    RunOrg(First(obj, org), prog);
    RunOrg(Second(c1), prog);
    LastOrgTwice(prog, org, c1.org);
  }

  /** A successful assembly in which no instruction narrows, judged by what pass 1 leaves behind. */
  ghost predicate Stable(prog: seq<Stmt>, org: int, obj: bool) {
    && Assemble(prog, org, obj).Some?
    && var c1 := Run(First(obj, org), prog).value;
       NoneNarrow(prog, FinalEnv(obj, c1.org, Layout(c1.pc), c1.labels))
  }

  /** Before every statement of a stable program both passes have counted the same bytes in every
      section, and pass 2 still has pass 1's table. */
  lemma PassesInStep(prog: seq<Stmt>, org: int, obj: bool, i: nat)
    requires Stable(prog, org, obj) && i <= |prog|
    ensures var c1 := Run(First(obj, org), prog).value;
            && Run(First(obj, org), prog[..i]).Some? && Run(Second(c1), prog[..i]).Some?
            && InStep(Run(First(obj, org), prog[..i]).value, Run(Second(c1), prog[..i]).value, c1.labels)
  {
    var c1 := Run(First(obj, org), prog).value;
    RunLater(First(obj, org), prog);
    OrgKept(prog, org, obj);
    var e := FinalEnv(obj, c1.org, Layout(c1.pc), c1.labels);
    RunInStep(First(obj, org), Second(c1), prog, c1.labels, e, i);
  }

  /** Both passes stand at the same counters before every statement and after the last. */
  ghost predicate Alike(c1: Context, c2: Context, prog: seq<Stmt>)
    requires c1.Ok() && c2.Ok() && Run(c1, prog).Some? && Run(c2, prog).Some?
    decreases |prog|
  {
    && c1.pc == c2.pc
    && (prog == [] || Alike(Step(c1, prog[0]).value, Step(c2, prog[0]).value, prog[1..]))
  }

  /** An instruction that narrows is the one that sets the passes apart. */
  lemma NarrowingParts(c1: Context, c2: Context, table: seq<Label>, s: Stmt)
    requires InStep(c1, c2, table) && s.Instr? && Step(c1, s).Some? && Step(c2, s).Some?
    ensures Step(c1, s).value.pc == Step(c2, s).value.pc <==> !Narrows(c2.Env(), s.mn, s.ops)
  {
    PartByLength(c1, c2, Encode(c1.Env(), s.mn, s.ops), Encode(c2.Env(), s.mn, s.ops));
    SameLength(c1.Env(), c2.Env(), s.mn, s.ops);
  }

  lemma PartByLength(c1: Context, c2: Context, a: Code, b: Code)
    requires c1.Ok() && c2.Ok() && c1.pc == c2.pc && c1.cur == c2.cur && EmitCode(c1, a).Some? && EmitCode(c2, b).Some?
    ensures a != Rejected && b != Rejected
    ensures EmitCode(c1, a).value.pc == EmitCode(c2, b).value.pc <==> |a.bytes| == |b.bytes|
  {
    EmitCodeEffect(c1, a);
    EmitCodeEffect(c2, b);
    CountersPart(c1.pc, c1.cur, |a.bytes|, |b.bytes|);
  }

  /** Both passes give an instruction the same length exactly when it does not narrow in pass 2. */
  lemma SameLength(e1: Env, e2: Env, mn: Mnemonic, ops: seq<Operand>)
    requires e1.Ok() && e2.Ok() && e1.pass == 1 && Encode(e1, mn, ops) != Rejected && Encode(e2, mn, ops) != Rejected
    ensures |Encode(e1, mn, ops).bytes| == |Encode(e2, mn, ops).bytes| <==> !Narrows(e2, mn, ops)
  {
    PassOneWide(e1, mn, ops);
    EncodeLength(e1, mn, ops);
    EncodeLength(e2, mn, ops);
  }

  lemma CountersPart(pc: seq<nat>, cur: Section, a: nat, b: nat)
    requires |pc| == 4
    ensures pc[cur := pc[cur] + a] == pc[cur := pc[cur] + b] <==> a == b
  {
    assert pc[cur := pc[cur] + a][cur] == pc[cur] + a;
    assert pc[cur := pc[cur] + b][cur] == pc[cur] + b;
  }

  lemma NoneNarrowCons(prog: seq<Stmt>, e: Env)
    requires e.Ok() && prog != []
    ensures NoneNarrow(prog, e) <==> !HeadNarrows(prog, e) && NoneNarrow(prog[1..], e)
  {
    assert forall i :: 0 < i < |prog| ==> prog[i] == prog[1..][i - 1];
    if NoneNarrow(prog, e) { NoneNarrowTail(prog, e); }
  }

  /** A first statement that narrows sets the passes apart. */
  lemma FirstParts(c1: Context, c2: Context, prog: seq<Stmt>, table: seq<Label>)
    requires c1.Ok() && Run(c1, prog).Some? && c2.Ok() && Run(c2, prog).Some?
    requires InStep(c1, c2, table)
    requires HeadNarrows(prog, FinalEnv(c2.obj, Run(c2, prog).value.org, c2.base, table))
    ensures Step(c1, prog[0]).value.pc != Step(c2, prog[0]).value.pc
  {
    NarrowsHere(c2, prog, table, FinalEnv(c2.obj, Run(c2, prog).value.org, c2.base, table));
    NarrowingParts(c1, c2, table, prog[0]);
  }

  lemma {:induction false} AlikeExactly(c1: Context, c2: Context, prog: seq<Stmt>, table: seq<Label>, e: Env)
    requires c1.Ok() && Run(c1, prog).Some? && Grows(Run(c1, prog).value.labels, table)
    requires c2.Ok() && Run(c2, prog).Some?
    requires InStep(c1, c2, table) && e == FinalEnv(c2.obj, Run(c2, prog).value.org, c2.base, table)
    ensures NoneNarrow(prog, e) <==> Alike(c1, c2, prog)
    decreases |prog|
  {
    if prog != [] {
      var n1, n2 := Step(c1, prog[0]).value, Step(c2, prog[0]).value;
      NoneNarrowCons(prog, e);
      if HeadNarrows(prog, e) {
        FirstParts(c1, c2, prog, table);
      } else {
        FirstInStep(c1, c2, prog, table);
        StepLater(c2, prog[0]);
        AlikeExactly(n1, n2, prog[1..], table, e);
      }
    }
  }

  /** The exact condition for the passes to agree all along: no instruction narrows. */
  lemma PassesAgreeExactly(prog: seq<Stmt>, org: int, obj: bool)
    requires Assemble(prog, org, obj).Some?
    ensures Stable(prog, org, obj) <==> Alike(First(obj, org), Second(Run(First(obj, org), prog).value), prog)
  {
    var c1 := Run(First(obj, org), prog).value;
    RunLater(First(obj, org), prog);
    OrgKept(prog, org, obj);
    var e := FinalEnv(obj, c1.org, Layout(c1.pc), c1.labels);
    AlikeExactly(First(obj, org), Second(c1), prog, c1.labels, e);
  }

  /** Pass agreement for the whole program: pass 2 fills every section with exactly the bytes pass
      1 sized it for, labels keep their offsets, and the flat output has exactly `need` bytes. */
  lemma PassAgreement(prog: seq<Stmt>, org: int, obj: bool)
    requires Stable(prog, org, obj)
    ensures var c1, c2 := Run(First(obj, org), prog).value, Assemble(prog, org, obj).value;
            && c2.pass == 2 && c2.pc == c1.pc
            && (forall s :: 0 <= s < 4 ==> |c2.out[s]| == c1.pc[s])
            && c2.base == Layout(c1.pc)
            && Extends(c2.labels, c1.labels)
            && |Flatten(c2)| == Total(c1.pc)
  {
    PassesInStep(prog, org, obj, |prog|);
    assert prog[..|prog|] == prog;
    RunLater(Second(Run(First(obj, org), prog).value), prog);
  }

  /** Where a section's bytes sit in the flat output. */
  lemma FlattenSection(c: Context, s: Section, from: nat)
    requires c.Ok() && c.pass == 2 && c.base == Layout(c.pc) && from <= |c.out[s]|
    ensures c.base[s] + |c.out[s]| <= |Flatten(c)|
    ensures Flatten(c)[c.base[s] + from..c.base[s] + |c.out[s]|] == c.out[s][from..]
  {
    var (a, b, d, e) := (c.out[0], c.out[1], c.out[2], c.out[3]);
    assert Flatten(c) == a + (b + (d + e));
  }

  /** A definition the table had room for is recorded at the section counter, for good. */
  lemma DefinedInTable(c: Context, rest: seq<Stmt>, n: Name)
    requires c.Ok() && c.pass == 1 && rest != [] && rest[0] == Define(n) && Run(c, rest).Some?
    ensures var ls := Run(c, rest).value.labels;
            Find(ls, n) != -1 ==>
              var l := ls[Find(ls, n)];
              l.defined && l.sec == c.cur && l.off == c.pc[c.cur]
  {
    var n1, ls := DefineLabel(c, n).value, Run(c, rest).value.labels;
    RunLater(n1, rest[1..]);
    var (t, i) := Intern(c.labels, n);
    if i != -1 {
      FindIs(n1.labels, n, i);
    }
    FindGrown(n1.labels, ls, n);
  }

  /** Label `l`, met when pass 2 stood at `before`, is recorded where the next byte of its section goes. */
  ghost predicate Stands(before: Context, c2: Context, l: Label) {
    && before.Ok() && c2.Ok() && l.defined && l.sec == before.cur
    && l.off == |before.out[l.sec]| && before.out[l.sec] <= c2.out[l.sec]
  }

  /** The table pass 2 ends with has the label where pass 2 stood when it met the definition. */
  lemma LabelStands(prog: seq<Stmt>, org: int, obj: bool, i: nat, c1: Context, c2: Context)
    returns (before: Context, l: Label)
    requires Stable(prog, org, obj) && i < |prog| && prog[i].Define?
    requires c1 == Run(First(obj, org), prog).value && c2 == Assemble(prog, org, obj).value
    requires Find(c1.labels, prog[i].name) != -1
    ensures Run(Second(c1), prog[..i]) == Some(before)
    ensures Find(c2.labels, prog[i].name) != -1 && l == c2.labels[Find(c2.labels, prog[i].name)]
    ensures Stands(before, c2, l)
  {
    PassAgreement(prog, org, obj);
    PassesInStep(prog, org, obj, i);
    RunSplit(Second(c1), prog, i);
    before := Run(Second(c1), prog[..i]).value;
    FindExtended(c2.labels, c1.labels, prog[i].name);
    l := c2.labels[Find(c2.labels, prog[i].name)];
    RunLater(before, prog[i..]);
    RunSplit(First(obj, org), prog, i);
    DefinedInTable(Run(First(obj, org), prog[..i]).value, prog[i..], prog[i].name);
  }

  /** From the label's address to the end of its section, the flat output is what the section received
      after `before`. */
  ghost predicate Addresses(c2: Context, before: Context, l: Label)
    requires c2.Ok() && before.Ok()
  {
    var at, end := LabelAddr(c2.Env(), l) - c2.org, c2.base[l.sec] + |c2.out[l.sec]|;
    && 0 <= at <= end <= |Flatten(c2)| && |before.out[l.sec]| <= |c2.out[l.sec]|
    && Flatten(c2)[at..end] == c2.out[l.sec][|before.out[l.sec]|..]
  }

  lemma StandsAddresses(before: Context, c2: Context, l: Label)
    requires Stands(before, c2, l) && c2.pass == 2 && c2.base == Layout(c2.pc)
    ensures Addresses(c2, before, l)
  {
    FlattenSection(c2, l.sec, l.off);
  }

  /** The statement after a label puts its bytes at the label's address. */
  lemma LabelAddressesItsBytes(prog: seq<Stmt>, org: int, obj: bool, i: nat) returns (before: Context, l: Label)
    requires Stable(prog, org, obj) && i < |prog| && prog[i].Define?
    requires Find(Run(First(obj, org), prog).value.labels, prog[i].name) != -1
    ensures Run(Second(Run(First(obj, org), prog).value), prog[..i]) == Some(before)
    ensures var c2 := Assemble(prog, org, obj).value;
            && Find(c2.labels, prog[i].name) != -1 && l == c2.labels[Find(c2.labels, prog[i].name)]
            && Stands(before, c2, l) && Addresses(c2, before, l)
  {
    var c2 := Assemble(prog, org, obj).value;
    before, l := LabelStands(prog, org, obj, i, Run(First(obj, org), prog).value, c2);
    PassAgreement(prog, org, obj);
    StandsAddresses(before, c2, l);
  }
}
