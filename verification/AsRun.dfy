/** The assembler's passes as functions on its context (`asm_ctx_t`). */
module AsRun {
  import opened Words
  import opened Options
  import opened AsSyntax
  import opened AsEncode

  /** `mobj_reloc_t`; `sym` indexes the label table. */
  datatype Reloc = Reloc(sec: Section, off: nat, kind: RelKind, sym: nat, addend: Int32)

  datatype Context = Context(pass: int, obj: bool, org: int, cur: Section, pc: seq<nat>, base: seq<nat>,
                             out: seq<seq<Byte>>, labels: seq<Label>, relocs: seq<Reloc>)
  {
    /** One counter, base and buffer per section; in pass 2 a buffer holds what was counted. */
    ghost predicate Ok() {
      && |pc| == 4 && |base| == 4 && |out| == 4
      && |labels| <= MAX_LABELS
      && (pass == 2 ==> forall s :: 0 <= s < 4 ==> |out[s]| == pc[s])
      && forall r :: 0 <= r < |relocs| ==> relocs[r].sym < |labels|
    }

    function Env(): (e: Env)
      requires |pc| == 4 && |base| == 4
      ensures e.Ok()
    {
      AsEncode.Env(pass, obj, org, base, labels, org + base[cur] + pc[cur])
    }
  }

  /** A run of `emit8`: count the bytes and, in pass 2, store them. */
  function Put(c: Context, bytes: seq<Byte>): (r: Context)
    requires c.Ok()
    ensures r.Ok()
  {
    var pc := c.pc[c.cur := c.pc[c.cur] + |bytes|];
    if c.pass == 2 then c.(pc := pc, out := c.out[c.cur := c.out[c.cur] + bytes]) else c.(pc := pc)
  }

  lemma PutPut(c: Context, a: seq<Byte>, b: seq<Byte>)
    requires c.Ok()
    ensures Put(Put(c, a), b) == Put(c, a + b)
  {
    if c.pass == 2 {
      assert (c.out[c.cur] + a) + b == c.out[c.cur] + (a + b);
    }
  }

  lemma PutNothing(c: Context)
    requires c.Ok()
    ensures Put(c, []) == c
  {
    assert c.pc[c.cur := c.pc[c.cur] + 0] == c.pc;
    assert c.out[c.cur] + [] == c.out[c.cur];
    assert c.out[c.cur := c.out[c.cur]] == c.out;
  }

  /** `get_label_index` with creation; index -1 when the table is full. */
  function Intern(ls: seq<Label>, n: Name): (r: (seq<Label>, int))
    ensures ls <= r.0
    ensures r.1 != -1 ==> 0 <= r.1 < |r.0| && r.0[r.1].name == n && forall k :: 0 <= k < r.1 ==> r.0[k].name != n
    ensures |ls| <= MAX_LABELS ==> |r.0| <= MAX_LABELS
  {
    var i := Find(ls, n);
    if i != -1 then (ls, i)
    else if |ls| >= MAX_LABELS then (ls, -1)
    else (ls + [NewLabel(n)], |ls|)
  }

  /** `add_reloc` */
  function AddReloc(c: Context, at: nat, f: Fixup): (r: Option<Context>)
    requires c.Ok()
    ensures r.Some? ==> r.value.Ok()
  {
    if !c.obj || c.pass != 2 then Some(c)
    else if |c.relocs| >= MAX_RELOCS then None
    else
      var (ls, i) := Intern(c.labels, f.sym);
      if i == -1 then None
      else Some(c.(labels := ls, relocs := c.relocs + [Reloc(c.cur, at + f.off, f.kind, i, f.addend)]))
  }

  function AddRelocs(c: Context, at: nat, fs: seq<Fixup>): (r: Option<Context>)
    requires c.Ok()
    ensures r.Some? ==> r.value.Ok()
    decreases |fs|
  {
    if fs == [] then Some(c)
    else
      var n := AddReloc(c, at, fs[0]);
      if n.None? then None else AddRelocs(n.value, at, fs[1..])
  }

  function EmitCode(c: Context, code: Code): (r: Option<Context>)
    requires c.Ok()
    ensures r.Some? ==> r.value.Ok()
  {
    if code.Rejected? then None
    else
      var n := AddRelocs(c, c.pc[c.cur], code.fixups);
      if n.None? then None else Some(Put(n.value, code.bytes))
  }

  function EmitItems(c: Context, width: int, items: seq<DataItem>): (r: Option<Context>)
    requires c.Ok()
    ensures r.Some? ==> r.value.Ok()
    decreases |items|
  {
    if items == [] then Some(c)
    else
      var n := EmitCode(c, EncodeData(c.Env(), width, items[0]));
      if n.None? then None else EmitItems(n.value, width, items[1..])
  }

  /** `mark_label_global` and `mark_label_extern` */
  function Mark(ls: seq<Label>, n: Name, ext: bool): (r: seq<Label>)
    ensures |ls| <= MAX_LABELS ==> |r| <= MAX_LABELS
    ensures |ls| <= |r|
  {
    var (t, i) := Intern(ls, n);
    if i == -1 then t
    else t[i := if ext then t[i].(isExtern := true) else t[i].(isGlobal := true)]
  }

  function MarkAll(ls: seq<Label>, ns: seq<Name>, ext: bool): (r: seq<Label>)
    ensures |ls| <= MAX_LABELS ==> |r| <= MAX_LABELS
    ensures |ls| <= |r|
    decreases |ns|
  {
    if ns == [] then ls else MarkAll(Mark(ls, ns[0], ext), ns[1..], ext)
  }

  /** `define_label`; a full table drops the definition without an error. */
  function DefineLabel(c: Context, n: Name): (r: Option<Context>)
    requires c.Ok()
    ensures r.Some? ==> r.value.Ok()
  {
    var (t, i) := Intern(c.labels, n);
    if i == -1 then Some(c)
    else if t[i].defined && c.pass == 1 then None
    else Some(c.(labels := t[i := t[i].(defined := true, sec := c.cur, off := c.pc[c.cur])]))
  }

  function Padding(pc: nat, to: nat): nat
    requires to > 0
  {
    (to - pc % to) % to
  }

  /** `process_line`, one part of a line. */
  function Step(c: Context, s: Stmt): (r: Option<Context>)
    requires c.Ok()
    ensures r.Some? ==> r.value.Ok()
  {
    match s
    case Ignored => Some(c)
    case Malformed => None
    case Define(n) => DefineLabel(c, n)
    case Global(ns) => Some(c.(labels := MarkAll(c.labels, ns, false)))
    case Extern(ns) => Some(c.(labels := MarkAll(c.labels, ns, true)))
    case InSection(sec) => Some(c.(cur := sec))
    case Org(v) => if c.pc == [0, 0, 0, 0] then Some(c.(org := U32(v))) else None
    case Align(to) => if to == 0 then None else Some(Put(c, Zeros(Padding(c.pc[c.cur], to))))
    case Reserve(n) => Some(Put(c, Zeros(n)))
    case Data(width, items) => EmitItems(c, width, items)
    case Times(n, width, item) => EmitItems(c, width, seq(n, _ => item))
    case Instr(mn, ops) => EmitCode(c, Encode(c.Env(), mn, ops))
  }

  /** The line loop of `run_pass`. */
  function Run(c: Context, prog: seq<Stmt>): (r: Option<Context>)
    requires c.Ok()
    ensures r.Some? ==> r.value.Ok()
    decreases |prog|
  {
    if prog == [] then Some(c)
    else
      var n := Step(c, prog[0]);
      if n.None? then None else Run(n.value, prog[1..])
  }

  function First(obj: bool, org: int): (c: Context)
    ensures c.Ok()
  {
    Context(1, obj, org, SEC_TEXT, [0, 0, 0, 0], [0, 0, 0, 0], [[], [], [], []], [], [])
  }

  /** Section bases from the pass-1 sizes. */
  function Layout(size: seq<nat>): (base: seq<nat>)
    requires |size| == 4
    ensures |base| == 4
  {
    [0, size[0], size[0] + size[1], size[0] + size[1] + size[2]]
  }

  /** The context pass 2 starts from. */
  function Second(c: Context): (r: Context)
    requires c.Ok()
    ensures r.Ok()
  {
    Context(2, c.obj, c.org, SEC_TEXT, [0, 0, 0, 0], Layout(c.pc), [[], [], [], []], c.labels, [])
  }

  function Total(size: seq<nat>): nat
    requires |size| == 4
  {
    size[0] + size[1] + size[2] + size[3]
  }

  /** `assemble`: both passes, or `None` when either fails, nothing is encoded, or the section buffers
      would not fit a 32-bit address space together. */
  function Assemble(prog: seq<Stmt>, org: int, obj: bool): (r: Option<Context>)
    ensures r.Some? ==> r.value.Ok()
  {
    var p1 := Run(First(obj, org), prog);
    if p1.None? || (Total(p1.value.pc) == 0 && prog != []) || Total(p1.value.pc) >= TWO32 then None
    else Run(Second(p1.value), prog)
  }

  /** The `-f bin` output: the four sections one after the other. */
  function Flatten(c: Context): seq<Byte>
    requires c.Ok()
  {
    c.out[0] + c.out[1] + c.out[2] + c.out[3]
  }
}
