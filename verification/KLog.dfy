/** The kernel log: a ring of committed lines and one pending line, read back as bytes. */
module KLogText {
  const KLOG_MAX_LINES: nat := 1024
  const KLOG_LINE_MAX: nat := 160

  /** Lines with a newline after each. */
  function Flat(lines: seq<string>): string
    decreases |lines|
  {
    if lines == [] then "" else lines[0] + ['\n'] + Flat(lines[1..])
  }

  lemma {:induction false} FlatConcat(a: seq<string>, b: seq<string>)
    ensures Flat(a + b) == Flat(a) + Flat(b)
    decreases |a|
  {
    if a == [] {
      assert a + b == b;
    } else {
      FlatConcat(a[1..], b);
      assert (a + b)[1..] == a[1..] + b;
    }
  }

  /** The part of `s` from `offset` on, at most `len` characters. */
  function Slice(s: string, offset: nat, len: nat): (r: string)
    ensures |r| <= len
  {
    if offset >= |s| then "" else if len < |s| - offset then s[offset..offset + len] else s[offset..]
  }

  /** A slice of two parts is a slice of the first and what remains wanted of the second. */
  lemma SliceConcat(a: string, b: string, offset: nat, len: nat)
    ensures var first := Slice(a, offset, len);
            Slice(a + b, offset, len) == first + Slice(b, if offset > |a| then offset - |a| else 0, len - |first|)
  {
  }

  // ---- what a sequence of characters logs ---------------------------------------------------------------

  datatype Log = Log(lines: seq<string>, pending: string)

  /** All lines ever committed, and the pending one, after one more character. */
  function Fed(log: Log, c: char): Log {
    if c == '\r' then log
    else if c == '\n' then Log(log.lines + [log.pending], "")
    else if |log.pending| < KLOG_LINE_MAX - 1 then log.(pending := log.pending + [c])
    else log
  }

  function FedAll(log: Log, cs: string): Log
    decreases |cs|
  {
    if cs == "" then log else Fed(FedAll(log, cs[..|cs| - 1]), cs[|cs| - 1])
  }

  /** The text without carriage returns, split at its newlines; what follows the last one comes last. */
  function TextLines(cs: string): (r: seq<string>)
    ensures |r| > 0
    decreases |cs|
  {
    if cs == "" then [""]
    else
      var rest, c := TextLines(cs[..|cs| - 1]), cs[|cs| - 1];
      if c == '\r' then rest
      else if c == '\n' then rest + [""]
      else rest[|rest| - 1 := rest[|rest| - 1] + [c]]
  }

  /** A line as the log keeps it. */
  function CutLine(line: string): string { if |line| < 160 then line else line[..159] }

  /** A fresh log that was fed a text has the lines of that text, each cut at 159 characters, the last one pending. */
  lemma {:induction false} LogIsText(cs: string)
    ensures var log, text := FedAll(Log([], ""), cs), TextLines(cs);
            && |log.lines| + 1 == |text| && log.pending == CutLine(text[|text| - 1])
            && forall i :: 0 <= i < |log.lines| ==> log.lines[i] == CutLine(text[i])
    decreases |cs|
  {
    if cs != "" { LogIsText(cs[..|cs| - 1]); }
  }

  /** The last lines of a log, at most as many as are kept. */
  function Kept(lines: seq<string>): seq<string> {
    if |lines| <= KLOG_MAX_LINES then lines else lines[|lines| - KLOG_MAX_LINES..]
  }

  function Snapshot(log: Log): string { Flat(Kept(log.lines)) + log.pending }
}

module KLog {
  import opened KLogText

  class KernelLog {
    const lines: array<string>
    var head: nat
    var count: nat
    var pending: string
    ghost var log: Log

    /** The ring in order of commitment. */
    ghost function Lines(): seq<string>
      requires head < lines.Length && count <= lines.Length
      reads this, lines
    {
      if count == lines.Length then lines[head..] + lines[..head] else lines[..count]
    }

    ghost predicate Valid()
      reads this, lines
    {
      && lines.Length == KLOG_MAX_LINES && head < KLOG_MAX_LINES && count <= KLOG_MAX_LINES
      && (count < KLOG_MAX_LINES ==> head == count)
      && Lines() == Kept(log.lines) && pending == log.pending && |pending| < KLOG_LINE_MAX
    }

    constructor ()
      ensures Valid() && log == Log([], "") && fresh(lines)
    {
      lines := new string[KLOG_MAX_LINES](_ => "");
      head, count, pending, log := 0, 0, "", Log([], "");
    }

    /** `klog_commit_line` */
    method Commit()
      requires Valid()
      modifies this, lines
      ensures Valid() && log == old(Log(log.lines + [log.pending], ""))
    {
      ghost var was, full := Lines(), count == KLOG_MAX_LINES;
      lines[head] := pending;
      ghost var line := pending;
      head := (head + 1) % KLOG_MAX_LINES;
      if count < KLOG_MAX_LINES {
        count := count + 1;
      }
      pending := "";
      assert Lines() == if full then was[1..] + [line] else was + [line];
      KeptGrows(log.lines, line);
      log := Log(log.lines + [log.pending], "");
    }

    /** `klog_putc` */
    method Putc(c: char)
      requires Valid()
      modifies this, lines
      ensures Valid() && log == Fed(old(log), c)
    {
      if c == '\r' {
        return;
      }
      if c == '\n' {
        Commit();
        return;
      }
      if |pending| < KLOG_LINE_MAX - 1 {
        pending := pending + [c];
        log := log.(pending := log.pending + [c]);
      }
    }

    /** Any sequence of characters logged. */
    method PutAll(cs: string)
      requires Valid()
      modifies this, lines
      ensures Valid() && log == FedAll(old(log), cs)
    {
      for i := 0 to |cs|
        invariant Valid() && log == FedAll(old(log), cs[..i])
      {
        assert cs[..i + 1][..i] == cs[..i];
        Putc(cs[i]);
      }
      assert cs[..|cs|] == cs;
    }

    /** The line committed `i`-th among those kept. */
    method LineAt(i: nat) returns (line: string)
      requires Valid() && i < count
      ensures line == Lines()[i]
    {
      var start := if count == KLOG_MAX_LINES then head else 0;
      line := lines[(start + i) % KLOG_MAX_LINES];
    }

    /** `klog_snapshot_size` */
    method SnapshotSize() returns (total: nat)
      requires Valid()
      ensures total == |Snapshot(log)|
    {
      total := 0;
      ghost var all := Lines();
      for i := 0 to count
        invariant total == |Flat(all[..i])|
      {
        var line := LineAt(i);
        FlatNext(all, i);
        total := total + |line| + 1;
      }
      assert all[..count] == all;
      total := total + |pending|;
    }

    /** `klog_read_bytes`: that slice of the snapshot. */
    method ReadBytes(offset: nat, len: nat) returns (out: string)
      requires Valid()
      ensures out == Slice(Snapshot(log), offset, len)
    {
      if len == 0 {
        return "";
      }
      var pos: nat;
      out, pos := ReadLines(offset, len);
      ghost var lines := Flat(Lines());
      if |out| >= len {
        FullSlice(lines, pending, offset, len);
        return;
      }
      out := ReadPart(pending, offset, len, pos, out, lines);
    }

    /** The loop over the committed lines. */
    method ReadLines(offset: nat, len: nat) returns (out: string, pos: nat)
      requires Valid() && len > 0
      ensures out == Slice(Flat(Lines()), offset, len)
      ensures |out| < len ==> pos == |Flat(Lines())|
    {
      out, pos := "", 0;
      ghost var all := Lines();
      for i := 0 to count
        invariant pos == |Flat(all[..i])| && out == Slice(Flat(all[..i]), offset, len) && |out| < len
      {
        var line := LineAt(i);
        FlatNext(all, i);
        out := ReadPart(line + ['\n'], offset, len, pos, out, Flat(all[..i]));
        if |out| >= len {
          FlatSplits(all, i + 1);
          FullSlice(Flat(all[..i + 1]), Flat(all[i + 1..]), offset, len);
          return;
        }
        pos := pos + |line| + 1;
      }
      assert all[..count] == all;
    }

    /** Reading in chunks until nothing comes rebuilds the snapshot. */
    method ReadAll(chunk: nat) returns (text: string)
      requires Valid() && chunk > 0
      ensures text == Snapshot(log)
    {
      text := "";
      ghost var all := Snapshot(log);
      while true
        invariant |text| <= |all| && text == all[..|text|]
        decreases |all| - |text|
      {
        var part := ReadBytes(|text|, chunk);
        if |part| == 0 {
          return;
        }
        text := text + part;
      }
    }
  }

  /** Add what is wanted of one line to what was read of the text before it. */
  method ReadPart(chunk: string, offset: nat, len: nat, pos: nat, got: string, ghost done: string) returns (out: string)
    requires pos == |done| && got == Slice(done, offset, len)
    ensures out == Slice(done + chunk, offset, len)
  {
    NextPart(done, chunk, offset, len, got);
    out := got;
    if offset < pos + |chunk| {
      var part := Copy(chunk, if offset > pos then offset - pos else 0, len - |got|);
      out := got + part;
    }
  }

  /** The copying loops of `klog_read_bytes`. */
  method Copy(s: string, from: nat, len: nat) returns (out: string)
    requires from <= |s|
    ensures out == Slice(s, from, len)
  {
    out := "";
    var at := from;
    while at < |s| && |out| < len
      invariant from <= at <= |s| && |out| <= len && out == s[from..at]
      decreases |s| - at
    {
      out := out + [s[at]];
      at := at + 1;
    }
  }

  lemma FlatNext(lines: seq<string>, i: nat)
    requires i < |lines|
    ensures Flat(lines[..i + 1]) == Flat(lines[..i]) + (lines[i] + ['\n'])
  {
    assert lines[..i + 1] == lines[..i] + [lines[i]];
    FlatConcat(lines[..i], [lines[i]]);
    assert Flat([lines[i]]) == lines[i] + ['\n'];
  }

  /** A slice already full is not changed by what follows. */
  lemma FullSlice(a: string, b: string, offset: nat, len: nat)
    requires |Slice(a, offset, len)| == len
    ensures Slice(a + b, offset, len) == Slice(a, offset, len)
  {
    SliceConcat(a, b, offset, len);
  }

  /** One more part of the text: nothing of it before `offset`, the rest as far as wanted. */
  lemma NextPart(done: string, chunk: string, offset: nat, len: nat, out: string)
    requires out == Slice(done, offset, len)
    ensures offset >= |done| + |chunk| ==> Slice(done + chunk, offset, len) == out
    ensures offset < |done| + |chunk| ==>
              Slice(done + chunk, offset, len) ==
              out + Slice(chunk, if offset > |done| then offset - |done| else 0, len - |out|)
  {
    SliceConcat(done, chunk, offset, len);
  }

  lemma FlatSplits(lines: seq<string>, i: nat)
    requires i <= |lines|
    ensures Flat(lines) == Flat(lines[..i]) + Flat(lines[i..])
  {
    assert lines == lines[..i] + lines[i..];
    FlatConcat(lines[..i], lines[i..]);
  }

  lemma KeptGrows(lines: seq<string>, line: string)
    ensures Kept(lines + [line]) == if |lines| < KLOG_MAX_LINES then Kept(lines) + [line] else Kept(lines)[1..] + [line]
  {
  }
}
