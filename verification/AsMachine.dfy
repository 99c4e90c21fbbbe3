/** The assembler as the program runs it: one context updated in place, its line loop and passes. */
module AsMachine {
  import opened Words
  import opened Options
  import opened AsSyntax
  import opened AsEncode
  import opened AsRun
  import opened AsPasses

  /** `asm_ctx_t` */
  class Assembler {
    var pass: int
    var obj: bool
    var org: int
    var cur: Section
    var pc: seq<nat>
    var base: seq<nat>
    var out: seq<seq<Byte>>
    var labels: seq<Label>
    var relocs: seq<Reloc>

    ghost function View(): Context
      reads this
    {
      Context(pass, obj, org, cur, pc, base, out, labels, relocs)
    }

    function CurrentEnv(): (e: Env)
      requires |pc| == 4 && |base| == 4
      reads this
      ensures e == View().Env()
    {
      AsEncode.Env(pass, obj, org, base, labels, org + base[cur] + pc[cur])
    }

    constructor (org: int, obj: bool)
      ensures View() == First(obj, org)
    {
      this.pass, this.obj, this.org, this.cur := 1, obj, org, SEC_TEXT;
      this.pc, this.base, this.out := [0, 0, 0, 0], [0, 0, 0, 0], [[], [], [], []];
      this.labels, this.relocs := [], [];
    }

    /** `emit8` */
    method Emit8(v: Byte)
      requires View().Ok()
      modifies this`pc, this`out
      ensures View() == Put(old(View()), [v])
    {
      if pass == 2 {
        out := out[cur := out[cur] + [v]];
      }
      pc := pc[cur := pc[cur] + 1];
    }

    method EmitBytes(bytes: seq<Byte>)
      requires View().Ok()
      modifies this`pc, this`out
      ensures View() == Put(old(View()), bytes)
    {
      PutNothing(View());
      for i := 0 to |bytes|
        invariant View() == Put(old(View()), bytes[..i])
      {
        PutPut(old(View()), bytes[..i], [bytes[i]]);
        Emit8(bytes[i]);
        assert bytes[..i] + [bytes[i]] == bytes[..i + 1];
      }
      assert bytes[..|bytes|] == bytes;
    }

    /** `get_label_index`: the search loop, and creation on request. */
    method GetLabelIndex(n: Name, create: bool) returns (idx: int)
      modifies this`labels
      ensures create ==> (labels, idx) == Intern(old(labels), n)
      ensures !create ==> labels == old(labels) && idx == Find(labels, n)
    {
      var i := 0;
      while i < |labels|
        invariant 0 <= i <= |labels| && labels == old(labels)
        invariant Find(labels, n) == FindFrom(labels, n, i)
      {
        if labels[i].name == n {
          return i;
        }
        i := i + 1;
      }
      if !create || |labels| >= MAX_LABELS {
        return -1;
      }
      labels := labels + [NewLabel(n)];
      return |labels| - 1;
    }

    /** `add_reloc` */
    method RecordReloc(at: nat, f: Fixup) returns (ok: bool)
      requires View().Ok()
      modifies this`labels, this`relocs
      ensures ok <==> AddReloc(old(View()), at, f).Some?
      ensures ok ==> Some(View()) == AddReloc(old(View()), at, f)
    {
      if !obj || pass != 2 {
        return true;
      }
      if |relocs| >= MAX_RELOCS {
        return false;
      }
      var idx := GetLabelIndex(f.sym, true);
      if idx < 0 {
        return false;
      }
      relocs := relocs + [Reloc(cur, at + f.off, f.kind, idx, f.addend)];
      return true;
    }

    /** Emission of one encoded statement: its relocations, then its bytes. */
    method Emit(code: Code) returns (ok: bool)
      requires View().Ok()
      modifies this`pc, this`out, this`labels, this`relocs
      ensures ok <==> EmitCode(old(View()), code).Some?
      ensures ok ==> Some(View()) == EmitCode(old(View()), code)
    {
      if code.Rejected? {
        return false;
      }
      var at, k := pc[cur], 0;
      while k < |code.fixups|
        invariant 0 <= k <= |code.fixups| && View().Ok()
        invariant AddRelocs(View(), at, code.fixups[k..]) == AddRelocs(old(View()), at, code.fixups)
      {
        assert code.fixups[k..][1..] == code.fixups[k + 1..];
        ok := RecordReloc(at, code.fixups[k]);
        if !ok {
          return;
        }
        k := k + 1;
      }
      EmitBytes(code.bytes);
      return true;
    }

    /** `define_label`, whose "table full" answer the caller ignores. */
    method DefineHere(n: Name) returns (ok: bool)
      requires View().Ok()
      modifies this`labels
      ensures ok <==> DefineLabel(old(View()), n).Some?
      ensures ok ==> Some(View()) == DefineLabel(old(View()), n)
    {
      var idx := GetLabelIndex(n, true);
      if idx < 0 {
        return true;
      }
      if labels[idx].defined && pass == 1 {
        return false;
      }
      labels := labels[idx := labels[idx].(defined := true, sec := cur, off := pc[cur])];
      return true;
    }

    /** The name loop of `global` and `extern`. */
    method MarkNames(ns: seq<Name>, ext: bool)
      modifies this`labels
      ensures labels == MarkAll(old(labels), ns, ext)
    {
      var k := 0;
      while k < |ns|
        invariant 0 <= k <= |ns|
        invariant MarkAll(labels, ns[k..], ext) == MarkAll(old(labels), ns, ext)
      {
        assert ns[k..][1..] == ns[k + 1..];
        var idx := GetLabelIndex(ns[k], true);
        if idx >= 0 {
          labels := labels[idx := if ext then labels[idx].(isExtern := true) else labels[idx].(isGlobal := true)];
        }
        k := k + 1;
      }
    }

    /** The item loop of `db`, `dw`, `dd` and `times`. */
    method EmitData(width: int, items: seq<DataItem>) returns (ok: bool)
      requires View().Ok()
      modifies this`pc, this`out, this`labels, this`relocs
      ensures ok <==> EmitItems(old(View()), width, items).Some?
      ensures ok ==> Some(View()) == EmitItems(old(View()), width, items)
    {
      var k := 0;
      while k < |items|
        invariant 0 <= k <= |items| && View().Ok()
        invariant EmitItems(View(), width, items[k..]) == EmitItems(old(View()), width, items)
      {
        assert items[k..][1..] == items[k + 1..];
        ok := Emit(EncodeData(CurrentEnv(), width, items[k]));
        if !ok {
          return;
        }
        k := k + 1;
      }
      return true;
    }

    /** `encode_instruction` and its emission. */
    method ProcessInstr(mn: Mnemonic, ops: seq<Operand>) returns (ok: bool)
      requires View().Ok()
      modifies this`pc, this`out, this`labels, this`relocs
      ensures ok <==> EmitCode(old(View()), Encode(old(View()).Env(), mn, ops)).Some?
      ensures ok ==> Some(View()) == EmitCode(old(View()), Encode(old(View()).Env(), mn, ops))
    {
      ok := Emit(Encode(CurrentEnv(), mn, ops));
    }

    /** `process_line` */
    method ProcessStmt(s: Stmt) returns (ok: bool)
      requires View().Ok()
      modifies this
      ensures ok <==> Step(old(View()), s).Some?
      ensures ok ==> Some(View()) == Step(old(View()), s)
    {
      ok := true;
      match s
      case Ignored =>
      case Malformed => ok := false;
      case Define(n) => ok := DefineHere(n);
      case Global(ns) => MarkNames(ns, false);
      case Extern(ns) => MarkNames(ns, true);
      case InSection(sec) => cur := sec;
      case Org(v) => if pc == [0, 0, 0, 0] { org := U32(v); } else { ok := false; }
      case Align(to) => if to == 0 { ok := false; } else { EmitBytes(Zeros(Padding(pc[cur], to))); }
      case Reserve(n) => EmitBytes(Zeros(n));
      case Data(width, items) => ok := EmitData(width, items);
      case Times(n, width, item) => ok := EmitData(width, seq(n, _ => item));
      case Instr(mn, ops) => ok := ProcessInstr(mn, ops);
    }

    /** The line loop of `run_pass`. */
    method RunLines(prog: seq<Stmt>) returns (ok: bool)
      requires View().Ok()
      modifies this
      ensures ok <==> Run(old(View()), prog).Some?
      ensures ok ==> Some(View()) == Run(old(View()), prog)
    {
      var k := 0;
      while k < |prog|
        invariant 0 <= k <= |prog| && View().Ok()
        invariant Run(View(), prog[k..]) == Run(old(View()), prog)
      {
        assert prog[k..][1..] == prog[k + 1..];
        ok := ProcessStmt(prog[k]);
        if !ok {
          return;
        }
        k := k + 1;
      }
      return true;
    }

    /** `assemble`: size everything, lay the sections out, then emit. */
    method AssembleProgram(prog: seq<Stmt>) returns (ok: bool)
      requires View() == First(obj, org)
      modifies this
      ensures ok <==> Assemble(prog, old(org), old(obj)).Some?
      ensures ok ==> Some(View()) == Assemble(prog, old(org), old(obj))
    {
      ok := RunLines(prog);
      if !ok || (Total(pc) == 0 && prog != []) || Total(pc) >= TWO32 {
        return false;
      }
      RunLater(First(old(obj), old(org)), prog);
      base := Layout(pc);
      pass, cur, pc := 2, SEC_TEXT, [0, 0, 0, 0];
      out, relocs := [[], [], [], []], [];
      ok := RunLines(prog);
    }
  }
}
