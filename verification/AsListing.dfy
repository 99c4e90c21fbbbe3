/** The flat output read back as instructions. */
module AsListing {
  import opened Words
  import opened Options
  import opened AsSyntax
  import opened AsEncode
  import opened AsRun
  import opened AsPasses
  import opened X86
  import opened AsMeaning

  /** `bytes`, emitted in section `s` behind `was`, are in the flat output at that place. */
  lemma EmittedThere(c: Context, s: Section, was: seq<Byte>, bytes: seq<Byte>) returns (rest: seq<Byte>)
    requires c.Ok() && c.pass == 2 && c.base == Layout(c.pc) && was + bytes <= c.out[s]
    ensures c.base[s] + |was| <= |Flatten(c)| && Flatten(c)[c.base[s] + |was|..] == bytes + rest
  {
    var out, flat, base := c.out[s], Flatten(c), c.base[s];
    FlattenSection(c, s, |was|);
    AfterPrefix(was, bytes, out);
    rest := out[|was| + |bytes|..] + flat[base + |out|..];
    SuffixIs(flat, base + |was|, base + |out|, out, |was|, bytes);
  }

  lemma AfterPrefix(was: seq<Byte>, bytes: seq<Byte>, out: seq<Byte>)
    requires was + bytes <= out
    ensures out[|was|..|was| + |bytes|] == bytes
  {
  }

  lemma SuffixIs(flat: seq<Byte>, a: nat, b: nat, out: seq<Byte>, from: nat, bytes: seq<Byte>)
    requires a <= b <= |flat| && from + |bytes| <= |out| && flat[a..b] == out[from..]
    requires out[from..from + |bytes|] == bytes
    ensures flat[a..] == bytes + (out[from + |bytes|..] + flat[b..])
  {
    assert flat[a..] == flat[a..b] + flat[b..];
    assert out[from..] == bytes + out[from + |bytes|..];
  }

  /** What an instruction emits in flat mode, and that the rest of the run keeps it. */
  lemma StepEmits(c: Context, prog: seq<Stmt>, end: Context) returns (bytes: seq<Byte>)
    requires c.Ok() && !c.obj && prog != [] && prog[0].Instr? && Run(c, prog) == Some(end)
    ensures Encode(c.Env(), prog[0].mn, prog[0].ops) != Rejected
    ensures bytes == Encode(c.Env(), prog[0].mn, prog[0].ops).bytes && Later(Put(c, bytes), end)
    ensures end.org == c.org && (c.pass == 2 ==> c.out[c.cur] + bytes <= end.out[c.cur])
  {
    var code := Encode(c.Env(), prog[0].mn, prog[0].ops);
    EmitCodeEffect(c, code);
    RunLater(Step(c, prog[0]).value, prog[1..]);
    bytes := code.bytes;
    EncodeNonEmpty(c.Env(), prog[0].mn, prog[0].ops);
    assert Put(c, bytes).pc[c.cur] > 0;
  }

  /** From flat output `flat`, which starts at `org`, the processor reads at `pc` the `n` bytes of `op` with `args`. */
  ghost predicate ReadsAt(flat: seq<Byte>, org: int, pc: int, n: nat, op: Operation, args: Args) {
    0 <= pc - org <= |flat| && Fetch(flat[pc - org..], pc) == Instruction(op, args, n)
  }

  /** That is the instruction written. */
  ghost predicate AsWritten(c: Context, s: Stmt, op: Operation, args: Args)
    requires c.Ok() && s.Instr?
  {
    && |s.ops| <= 3 && AllKnown(c.Env(), s.ops)
    && OperationOf(s.mn) == Some(op) && WrittenArgs(c.Env(), s.mn, s.ops) == args
  }

  lemma ReadsFrom(c: Context, prog: seq<Stmt>, end: Context) returns (bytes: seq<Byte>, op: Operation, args: Args)
    requires c.Ok() && c.pass == 2 && !c.obj && prog != [] && prog[0].Instr? && Run(c, prog) == Some(end) && end.Ok()
    requires end.base == Layout(end.pc) == c.base
    ensures var code := Encode(c.Env(), prog[0].mn, prog[0].ops); code.Code? && code.bytes == bytes
    ensures ReadsAt(Flatten(end), c.org, c.Env().pc, |bytes|, op, args) && end.org == c.org
    ensures AsWritten(c, prog[0], op, args) <==> KeepsWidths(prog[0].mn, prog[0].ops)
  {
    bytes := StepEmits(c, prog, end);
    op, args := EncodeSays(c.Env(), prog[0].mn, prog[0].ops);
    var rest := EmittedThere(end, c.cur, c.out[c.cur], bytes);
    MeansAt(Flatten(end), c.org, c.Env().pc, bytes, op, args, rest);
  }

  lemma MeansAt(flat: seq<Byte>, org: int, pc: int, bytes: seq<Byte>, op: Operation, args: Args, rest: seq<Byte>)
    requires Means(pc, bytes, op, args) && 0 <= pc - org <= |flat| && flat[pc - org..] == bytes + rest
    ensures ReadsAt(flat, org, pc, |bytes|, op, args)
  {
  }

  /** An instruction of a stable flat program: the processor, at the address the assembler gave it, reads from the
      output one instruction, and it is the one written exactly when its widths are kept. */
  lemma FlatReads(prog: seq<Stmt>, org: int, i: nat)
    returns (before: Context, bytes: seq<Byte>, op: Operation, args: Args)
    requires Stable(prog, org, false) && i < |prog| && prog[i].Instr?
    ensures Run(Second(Run(First(false, org), prog).value), prog[..i]) == Some(before) && before.Ok()
    ensures before.org == Assemble(prog, org, false).value.org
    ensures var code := Encode(before.Env(), prog[i].mn, prog[i].ops); code.Code? && code.bytes == bytes
    ensures ReadsAt(Flatten(Assemble(prog, org, false).value), before.org, before.Env().pc, |bytes|, op, args)
    ensures AsWritten(before, prog[i], op, args) <==> KeepsWidths(prog[i].mn, prog[i].ops)
  {
    var c1, c2 := Run(First(false, org), prog).value, Assemble(prog, org, false).value;
    PassAgreement(prog, org, false);
    RunSplit(Second(c1), prog, i);
    before := Run(Second(c1), prog[..i]).value;
    RunLater(Second(c1), prog[..i]);
    RunLater(First(false, org), prog);
    bytes, op, args := ReadsFrom(before, prog[i..], c2);
  }
}

/** Directives: padding, numbers and exports. */
module AsDirectives {
  import opened Words
  import opened Spans
  import opened Options
  import opened AsSyntax
  import opened AsEncode
  import opened AsRun
  import opened AsPasses
  import opened AsMeaning
  import AsLink
  import Ld86

  // ---- align ---------------------------------------------------------------------------------------------

  lemma PaddingReaches(pc: nat, to: nat)
    requires to > 0
    ensures Padding(pc, to) < to && (pc + Padding(pc, to)) % to == 0
  {
    var q, m := pc / to, pc % to;
    SpanOf(pc, to);
    if m == 0 {
      Remains(to, 1, 0, to);
    } else {
      Remains(to - m, 0, to - m, to);
      Remains(pc + to - m, q + 1, 0, to);
    }
  }

  lemma Remains(x: nat, q: nat, r: nat, w: nat)
    requires r < w && x == Span(q, w) + r
    ensures x % w == r
  {
    SpanOf(x, w);
    SpanUnique(x / w, x % w, q, r, w);
  }

  /** `align n` brings the counter of the current section to the next multiple of `n`, with zeros, and touches
      nothing else. */
  lemma AlignReaches(c: Context, to: nat)
    requires c.Ok() && Step(c, Align(to)).Some?
    ensures to > 0
    ensures var r := Step(c, Align(to)).value;
            && c.pc[c.cur] <= r.pc[c.cur] < c.pc[c.cur] + to && r.pc[c.cur] % to == 0
            && r == c.(pc := c.pc[c.cur := r.pc[c.cur]], out := r.out)
            && (c.pass == 2 ==> r.out == c.out[c.cur := c.out[c.cur] + Zeros(r.pc[c.cur] - c.pc[c.cur])])
            && (c.pass != 2 ==> r.out == c.out)
  {
    PaddingReaches(c.pc[c.cur], to);
  }

  // ---- numbers -------------------------------------------------------------------------------------------

  /** `db`, `dw` and `dd` of a number store it, lowest byte first, in as many bytes, and of a string its bytes. */
  lemma DataStores(env: Env, width: int, item: DataItem)
    requires env.Ok() && (width == 1 || width == 2 || width == 4) && EncodeData(env, width, item).Code?
    ensures var b := EncodeData(env, width, item).bytes;
            && (item.Number? ==> |b| == width && Holds(b, item.value, 8 * width))
            && (item.Text? ==> b == item.chars && (b != [] ==> width == 1))
            && (item.Symbol? && !env.obj && Resolve(env, item.name).Some? ==>
                  |b| == width && Holds(b, Resolve(env, item.name).value, 8 * width))
  {
    var v: int := match item
      case Number(n) => n
      case Symbol(n) => if Resolve(env, n).Some? then Resolve(env, n).value else 0
      case Text(_) => 0;
    if width == 1 {
      HoldsByte(v, 8);
    } else {
      HoldsField(8 * width, v);
    }
  }

  /** The bytes of a list of data items. */
  function ItemBytes(env: Env, width: int, items: seq<DataItem>): seq<Byte>
    requires env.Ok()
    decreases |items|
  {
    if items == [] then []
    else
      var code := EncodeData(env, width, items[0]);
      (if code.Code? then code.bytes else []) + ItemBytes(env, width, items[1..])
  }

  /** Data depends on the labels only, not on where it stands. */
  lemma {:induction false} SameItems(a: Env, b: Env, width: int, items: seq<DataItem>)
    requires a.Ok() && b == a.(pc := b.pc)
    ensures ItemBytes(a, width, items) == ItemBytes(b, width, items)
    decreases |items|
  {
    if items != [] { SameItems(a, b, width, items[1..]); }
  }

  /** A flat data statement emits its items in order, in the current section, and touches nothing else. */
  lemma {:induction false} ItemsEmit(c: Context, width: int, items: seq<DataItem>)
    requires c.Ok() && !c.obj && EmitItems(c, width, items).Some?
    ensures EmitItems(c, width, items).value == Put(c, ItemBytes(c.Env(), width, items))
    decreases |items|
  {
    if items == [] {
      PutNothing(c);
    } else {
      var code := EncodeData(c.Env(), width, items[0]);
      EmitCodeEffect(c, code);
      var m := Put(c, code.bytes);
      assert EmitCode(c, code).value == m;
      ItemsEmit(m, width, items[1..]);
      SameItems(c.Env(), m.Env(), width, items[1..]);
      PutPut(c, code.bytes, ItemBytes(c.Env(), width, items[1..]));
    }
  }

  /** `times n` emits its item `n` times. */
  lemma {:induction false} TimesRepeats(env: Env, width: int, item: DataItem, n: nat, b: seq<Byte>)
    requires env.Ok() && EncodeData(env, width, item).Code? && b == EncodeData(env, width, item).bytes
    ensures var all := ItemBytes(env, width, seq(n, _ => item));
            |all| == Span(n, |b|) && forall k: nat :: k < n ==> Repeated(all, b, k)
    decreases n
  {
    if n > 0 {
      var items := seq(n, _ => item);
      assert items[1..] == seq(n - 1, _ => item);
      TimesRepeats(env, width, item, n - 1, b);
      var rest := ItemBytes(env, width, items[1..]);
      assert ItemBytes(env, width, items) == b + rest;
      forall k: nat | k < n
        ensures Repeated(b + rest, b, k)
      {
        if k > 0 { RepeatedBehind(b, rest, k - 1); } else { assert (b + rest)[..|b|] == b; }
      }
    }
  }

  /** Copy `k` of `b` stands in its place in `all`. */
  ghost predicate Repeated(all: seq<Byte>, b: seq<Byte>, k: nat) {
    Span(k, |b|) + |b| <= |all| && all[Span(k, |b|)..Span(k, |b|) + |b|] == b
  }

  lemma RepeatedBehind(b: seq<Byte>, rest: seq<Byte>, k: nat)
    requires Repeated(rest, b, k)
    ensures Repeated(b + rest, b, k + 1)
  {
    var p := Span(k, |b|);
    assert (b + rest)[|b| + p..|b| + p + |b|] == rest[p..p + |b|];
  }

  /** `resb n` takes `n` zero bytes. */
  lemma ReserveTakes(c: Context, n: nat)
    requires c.Ok()
    ensures Step(c, Reserve(n)) == Some(Put(c, Zeros(n)))
    ensures Put(c, Zeros(n)).pc == c.pc[c.cur := c.pc[c.cur] + n]
    ensures c.pass == 2 ==> Put(c, Zeros(n)).out == c.out[c.cur := c.out[c.cur] + Zeros(n)]
  {
  }

  // ---- exports -------------------------------------------------------------------------------------------

  predicate IsGlobal(ls: seq<Label>, n: Name) { Find(ls, n) != -1 && ls[Find(ls, n)].isGlobal }

  /** `global n` is somewhere in the program. */
  predicate Declared(prog: seq<Stmt>, n: Name) {
    exists i :: 0 <= i < |prog| && prog[i].Global? && n in prog[i].names
  }

  /** Table `b` came from `a` through statements that declare `n` global if `d`. */
  ghost predicate Comes(a: seq<Label>, b: seq<Label>, n: Name, d: bool) {
    && |a| <= |b|
    && (Find(a, n) != -1 ==> Find(b, n) != -1)
    && (Find(b, n) != -1 ==> (IsGlobal(b, n) <==> IsGlobal(a, n) || d))
    && (Find(a, n) == -1 && |a| >= MAX_LABELS ==> Find(b, n) == -1)
    && (d && Find(b, n) == -1 ==> |b| >= MAX_LABELS)
  }

  lemma ComesOn(a: seq<Label>, b: seq<Label>, c: seq<Label>, n: Name, d: bool, e: bool)
    requires Comes(a, b, n, d) && Comes(b, c, n, e)
    ensures Comes(a, c, n, d || e)
  {
  }

  lemma MarkComes(ls: seq<Label>, m: Name, ext: bool, n: Name)
    ensures Comes(ls, Mark(ls, m, ext), n, !ext && m == n)
  {
    var (t, i) := Intern(ls, m);
    InternFinds(ls, m, n);
    if i != -1 {
      var r := Mark(ls, m, ext);
      SameNames(t, r, n);
    }
  }

  lemma InternFinds(ls: seq<Label>, m: Name, n: Name)
    ensures var (t, i) := Intern(ls, m);
            && (Find(ls, n) != -1 ==> Find(t, n) == Find(ls, n))
            && (Find(ls, n) == -1 ==> Find(t, n) == if m == n then i else -1)
  {
    var (t, i) := Intern(ls, m);
    if Find(ls, n) != -1 { FindIs(t, n, Find(ls, n)); }
    if Find(ls, n) == -1 && m == n && i != -1 { FindIs(t, n, i); }
  }

  lemma SameNames(a: seq<Label>, b: seq<Label>, n: Name)
    requires |a| == |b| && forall k :: 0 <= k < |a| ==> a[k].name == b[k].name
    ensures Find(a, n) == Find(b, n)
  {
  }

  lemma {:induction false} MarkAllComes(ls: seq<Label>, ns: seq<Name>, ext: bool, n: Name)
    ensures Comes(ls, MarkAll(ls, ns, ext), n, !ext && n in ns)
    decreases |ns|
  {
    if ns != [] {
      MarkComes(ls, ns[0], ext, n);
      MarkAllComes(Mark(ls, ns[0], ext), ns[1..], ext, n);
      ComesOn(ls, Mark(ls, ns[0], ext), MarkAll(ls, ns, ext), n, !ext && ns[0] == n, !ext && n in ns[1..]);
    }
  }

  lemma DefineComes(c: Context, m: Name, n: Name)
    requires c.Ok() && DefineLabel(c, m).Some?
    ensures Comes(c.labels, DefineLabel(c, m).value.labels, n, false)
  {
    var (t, i) := Intern(c.labels, m);
    InternFinds(c.labels, m, n);
    if i != -1 { SameNames(t, DefineLabel(c, m).value.labels, n); }
  }

  /** New entries at the end are not global. */
  lemma NewComes(a: seq<Label>, b: seq<Label>, n: Name)
    requires a <= b && |b| <= MAX_LABELS && forall k :: |a| <= k < |b| ==> b[k] == NewLabel(b[k].name)
    ensures Comes(a, b, n, false)
  {
    if Find(a, n) != -1 { FindIs(b, n, Find(a, n)); }
  }

  lemma {:induction false} ItemsCome(c: Context, width: int, items: seq<DataItem>, n: Name)
    requires c.Ok() && EmitItems(c, width, items).Some?
    ensures Comes(c.labels, EmitItems(c, width, items).value.labels, n, false)
    decreases |items|
  {
    if items != [] {
      var code := EncodeData(c.Env(), width, items[0]);
      var m := EmitCode(c, code).value;
      EmitCodeEffect(c, code);
      NewComes(c.labels, m.labels, n);
      ItemsCome(m, width, items[1..], n);
      ComesOn(c.labels, m.labels, EmitItems(c, width, items).value.labels, n, false, false);
    }
  }

  lemma StepComes(c: Context, s: Stmt, n: Name)
    requires c.Ok() && Step(c, s).Some?
    ensures Comes(c.labels, Step(c, s).value.labels, n, s.Global? && n in s.names)
  {
    match s
    case Global(ns) => MarkAllComes(c.labels, ns, false, n);
    case Extern(ns) => MarkAllComes(c.labels, ns, true, n);
    case Define(m) => DefineComes(c, m, n);
    case Data(width, items) => ItemsCome(c, width, items, n);
    case Times(k, width, item) => ItemsCome(c, width, seq(k, _ => item), n);
    case Instr(mn, ops) =>
      EmitCodeEffect(c, Encode(c.Env(), mn, ops));
      NewComes(c.labels, Step(c, s).value.labels, n);
    case _ =>
  }

  lemma {:induction false} RunComes(c: Context, prog: seq<Stmt>, n: Name)
    requires c.Ok() && Run(c, prog).Some?
    ensures Comes(c.labels, Run(c, prog).value.labels, n, Declared(prog, n))
    decreases |prog|
  {
    if prog != [] {
      var s, next := prog[0], Step(c, prog[0]).value;
      StepComes(c, s, n);
      RunComes(next, prog[1..], n);
      ComesOn(c.labels, next.labels, Run(c, prog).value.labels, n, s.Global? && n in s.names, Declared(prog[1..], n));
      DeclaredSplit(prog, n);
    }
  }

  lemma DeclaredSplit(prog: seq<Stmt>, n: Name)
    requires prog != []
    ensures Declared(prog, n) <==> (prog[0].Global? && n in prog[0].names) || Declared(prog[1..], n)
  {
    if i :| 0 <= i < |prog| && prog[i].Global? && n in prog[i].names && i > 0 {
      assert prog[1..][i - 1] == prog[i];
    }
    if i :| 0 <= i < |prog[1..]| && prog[1..][i].Global? && n in prog[1..][i].names {
      assert prog[i + 1] == prog[1..][i];
    }
  }

  /** A label of the object is exported to the linker under its name exactly when it is defined and the program
      declares it global. */
  lemma ExportsExactly(prog: seq<Stmt>, org: int, n: Name)
    requires Assemble(prog, org, true).Some? && Find(Assemble(prog, org, true).value.labels, n) != -1
    ensures var o := Assemble(prog, org, true).value;
            var k := Find(o.labels, n);
            Ld86.Exports(AsLink.ToInput(o).syms[k], n) <==> o.labels[k].defined && Declared(prog, n)
  {
    var c1, o := Run(First(true, org), prog).value, Assemble(prog, org, true).value;
    RunComes(First(true, org), prog, n);
    RunComes(Second(c1), prog, n);
    ComesOn([], c1.labels, o.labels, n, Declared(prog, n), Declared(prog, n));
  }
}
