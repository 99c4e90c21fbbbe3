/** Path resolution: joining with the working directory and normalising. */
module PathText {
  const VFS_PATH_MAX: nat := 64
  const MAX_DEPTH: nat := 16

  /** At most 63 characters. */
  function Cut(s: string): (r: string)
    ensures |r| <= VFS_PATH_MAX - 1 && r <= s
  {
    if |s| <= VFS_PATH_MAX - 1 then s else s[..VFS_PATH_MAX - 1]
  }

  /** What is to be normalised, before any cutting. */
  function Whole(cwd: string, rel: string): string {
    if rel != "" && rel[0] == '/' then rel
    else if cwd == "" || cwd[|cwd| - 1] != '/' then cwd + "/" + rel
    else cwd + rel
  }

  /** The same as the code assembles it in its 64-byte buffer. */
  function Assembled(cwd: string, rel: string): string {
    if rel != "" && rel[0] == '/' then Cut(rel)
    else
      var c := Cut(cwd);
      var slashed := if c == "" || c[|c| - 1] != '/' then Cut(c + "/") else c;
      Cut(slashed + rel)
  }

  /** Length of the component `s` starts with. */
  function CompLen(s: string): (n: nat)
    ensures n <= |s| && (n == 0 <==> s == "" || s[0] == '/')
    ensures '/' !in s[..n] && (n < |s| ==> s[n] == '/')
  {
    if s == "" || s[0] == '/' then 0 else 1 + CompLen(s[1..])
  }

  /** The nonempty pieces between slashes. */
  function Split(s: string): seq<string>
    decreases |s|
  {
    if s == "" then [] else if s[0] == '/' then Split(s[1..]) else [s[..CompLen(s)]] + Split(s[CompLen(s)..])
  }

  /** One component put on the stack: "." stays, ".." goes up, a name goes down if there is room. */
  function Pushed(stack: seq<string>, c: string): seq<string> {
    if c == "." then stack
    else if c == ".." then (if stack == [] then [] else stack[..|stack| - 1])
    else if |stack| < MAX_DEPTH then stack + [c]
    else stack
  }

  function Fold(stack: seq<string>, cs: seq<string>): seq<string>
    decreases |cs|
  {
    if cs == [] then stack else Fold(Pushed(stack, cs[0]), cs[1..])
  }

  function Tail(parts: seq<string>): string
    decreases |parts|
  {
    if parts == [] then "" else "/" + parts[0] + Tail(parts[1..])
  }

  function Join(parts: seq<string>): string { if parts == [] then "/" else Tail(parts) }

  /** `vfs_resolve_path` */
  function Resolve(cwd: string, rel: string): string {
    Cut(Join(Fold([], Split(Assembled(cwd, rel)))))
  }

  // ---- splitting and joining ----------------------------------------------------------------------------

  predicate Plain(c: string) { c != "" && '/' !in c }
  predicate IsName(c: string) { Plain(c) && c != "." && c != ".." }
  ghost predicate AllPlain(cs: seq<string>) { forall i :: 0 <= i < |cs| ==> Plain(cs[i]) }
  ghost predicate AllNames(cs: seq<string>) { forall i :: 0 <= i < |cs| ==> IsName(cs[i]) }

  lemma {:induction false} SplitPlain(s: string)
    ensures AllPlain(Split(s))
    decreases |s|
  {
    if s != "" {
      if s[0] == '/' {
        SplitPlain(s[1..]);
      } else {
        SplitPlain(s[CompLen(s)..]);
      }
    }
  }

  lemma {:induction false} CompLenOf(c: string, rest: string)
    requires '/' !in c && (rest == "" || rest[0] == '/')
    ensures CompLen(c + rest) == |c|
    decreases |c|
  {
    if c == "" {
      assert c + rest == rest;
    } else {
      CompLenOf(c[1..], rest);
      assert (c + rest)[1..] == c[1..] + rest;
    }
  }

  lemma SplitComp(c: string, rest: string)
    requires Plain(c) && (rest == "" || rest[0] == '/')
    ensures Split(c + rest) == [c] + Split(rest)
  {
    CompLenOf(c, rest);
    assert (c + rest)[..|c|] == c && (c + rest)[|c|..] == rest;
  }

  lemma {:induction false} SplitTail(parts: seq<string>)
    requires AllPlain(parts)
    ensures Split(Tail(parts)) == parts && (parts != [] ==> Tail(parts)[0] == '/')
    decreases |parts|
  {
    if parts != [] {
      SplitTail(parts[1..]);
      var rest := Tail(parts[1..]);
      assert Tail(parts)[1..] == parts[0] + rest;
      SplitComp(parts[0], rest);
    }
  }

  /** Joining and splitting again changes nothing. */
  lemma SplitJoin(parts: seq<string>)
    requires AllPlain(parts)
    ensures Split(Join(parts)) == parts && Join(parts) != "" && Join(parts)[0] == '/'
  {
    SplitTail(parts);
    assert Split("/") == Split("/"[1..]);
  }

  lemma HeadAndRest(a: string, b: string, n: nat)
    requires n <= |a| && (n < |a| ==> a[n] == '/')
    ensures a + "/" + b == a[..n] + (a[n..] + "/" + b) && (a[n..] + "/" + b)[0] == '/'
  {
  }

  /** Splitting distributes over a slash. */
  lemma {:induction false} SplitConcat(a: string, b: string)
    ensures Split(a + "/" + b) == Split(a) + Split(b)
    decreases |a|
  {
    var s := a + "/" + b;
    if a == "" {
      assert s[1..] == b;
    } else if a[0] == '/' {
      SplitConcat(a[1..], b);
      assert s[1..] == a[1..] + "/" + b;
    } else {
      var n := CompLen(a);
      SplitConcat(a[n..], b);
      HeadAndRest(a, b, n);
      SplitComp(a[..n], a[n..] + "/" + b);
    }
  }

  lemma {:induction false} FoldConcat(stack: seq<string>, a: seq<string>, b: seq<string>)
    ensures Fold(stack, a + b) == Fold(Fold(stack, a), b)
    decreases |a|
  {
    if a == [] {
      assert a + b == b;
    } else {
      FoldConcat(Pushed(stack, a[0]), a[1..], b);
      assert (a + b)[1..] == a[1..] + b;
    }
  }

  lemma {:induction false} FoldNames(stack: seq<string>, cs: seq<string>)
    requires AllNames(stack) && |stack| <= MAX_DEPTH && AllPlain(cs)
    ensures AllNames(Fold(stack, cs)) && |Fold(stack, cs)| <= MAX_DEPTH
    decreases |cs|
  {
    if cs != [] { FoldNames(Pushed(stack, cs[0]), cs[1..]); }
  }

  /** Names up to the depth limit go down unchanged. */
  lemma {:induction false} FoldOfNames(stack: seq<string>, cs: seq<string>)
    requires AllNames(cs) && |stack| + |cs| <= MAX_DEPTH
    ensures Fold(stack, cs) == stack + cs
    decreases |cs|
  {
    if cs != [] {
      FoldOfNames(stack + [cs[0]], cs[1..]);
      assert stack + [cs[0]] + cs[1..] == stack + cs;
    }
  }

  // ---- lengths -----------------------------------------------------------------------------------------

  lemma {:induction false} TailConcat(a: seq<string>, b: seq<string>)
    ensures Tail(a + b) == Tail(a) + Tail(b)
    decreases |a|
  {
    if a == [] {
      assert a + b == b;
    } else {
      TailConcat(a[1..], b);
      assert (a + b)[1..] == a[1..] + b;
    }
  }

  lemma {:induction false} SplitShorter(s: string)
    ensures |Tail(Split(s))| <= |s| + if s == "" || s[0] == '/' then 0 else 1
    decreases |s|
  {
    if s != "" {
      if s[0] == '/' {
        SplitShorter(s[1..]);
      } else {
        SplitShorter(s[CompLen(s)..]);
      }
    }
  }

  lemma PushedShorter(stack: seq<string>, c: string)
    ensures |Tail(Pushed(stack, c))| <= |Tail(stack)| + 1 + |c|
  {
    TailConcat(stack, [c]);
    assert Tail([c]) == "/" + c;
    if stack != [] {
      TailConcat(stack[..|stack| - 1], [stack[|stack| - 1]]);
      assert stack[..|stack| - 1] + [stack[|stack| - 1]] == stack;
    }
  }

  lemma {:induction false} FoldShorter(stack: seq<string>, cs: seq<string>)
    ensures |Tail(Fold(stack, cs))| <= |Tail(stack)| + |Tail(cs)|
    decreases |cs|
  {
    if cs != [] {
      PushedShorter(stack, cs[0]);
      FoldShorter(Pushed(stack, cs[0]), cs[1..]);
    }
  }

  /** Normalising a path that starts with a slash never lengthens it. */
  lemma JoinShorter(s: string)
    requires s != "" && s[0] == '/'
    ensures |Join(Fold([], Split(s)))| <= |s|
  {
    SplitShorter(s);
    FoldShorter([], Split(s));
  }
}

/** What resolved paths look like, and how resolutions compose. */
module PathLaws {
  import opened PathText

  /** A leading slash, then names only, none empty, "." or "..", and nothing after the last. */
  ghost predicate NormalForm(r: string) {
    && 0 < |r| <= VFS_PATH_MAX - 1 && r[0] == '/'
    && AllNames(Split(r)) && |Split(r)| <= MAX_DEPTH && r == Join(Split(r))
  }

  /** What is normalised starts with a slash. */
  ghost predicate Rooted(cwd: string, rel: string) {
    (rel != "" && rel[0] == '/') || cwd == "" || cwd[0] == '/'
  }

  lemma AssembledRooted(cwd: string, rel: string)
    requires Rooted(cwd, rel)
    ensures Assembled(cwd, rel) != "" && Assembled(cwd, rel)[0] == '/'
  {
  }

  /** A joined list of names is a normal form. */
  lemma NormalJoin(parts: seq<string>)
    requires AllNames(parts) && |parts| <= MAX_DEPTH && |Join(parts)| <= VFS_PATH_MAX - 1
    ensures NormalForm(Join(parts))
  {
    SplitJoin(parts);
  }

  /** The stack a rooted path leaves, and its resolution. */
  lemma ResolvedStack(cwd: string, rel: string)
    requires Rooted(cwd, rel)
    ensures var s := Assembled(cwd, rel);
            && AllNames(Fold([], Split(s))) && |Fold([], Split(s))| <= MAX_DEPTH
            && Resolve(cwd, rel) == Join(Fold([], Split(s))) && |Resolve(cwd, rel)| <= |s|
  {
    var s := Assembled(cwd, rel);
    AssembledRooted(cwd, rel);
    SplitPlain(s);
    FoldNames([], Split(s));
    JoinShorter(s);
  }

  /** Whatever the path, resolving it from a rooted directory gives a normal form. */
  lemma ResolveNormal(cwd: string, rel: string)
    requires Rooted(cwd, rel)
    ensures NormalForm(Resolve(cwd, rel))
  {
    ResolvedStack(cwd, rel);
    NormalJoin(Fold([], Split(Assembled(cwd, rel))));
  }

  /** A normal form resolves to itself from anywhere. */
  lemma ResolveFixes(cwd: string, r: string)
    requires NormalForm(r)
    ensures Resolve(cwd, r) == r
  {
    FoldOfNames([], Split(r));
    assert [] + Split(r) == Split(r);
  }

  /** Resolving twice is resolving once. */
  lemma ResolveIdempotent(cwd: string, rel: string, other: string)
    requires Rooted(cwd, rel)
    ensures Resolve(other, Resolve(cwd, rel)) == Resolve(cwd, rel)
  {
    ResolveNormal(cwd, rel);
    ResolveFixes(other, Resolve(cwd, rel));
  }

  lemma WholeExtends(cwd: string, a: string, b: string)
    requires a != "" && |Whole(cwd, a + "/" + b)| <= VFS_PATH_MAX - 1
    ensures Whole(cwd, a + "/" + b) == Whole(cwd, a) + "/" + b
    ensures Assembled(cwd, a) == Whole(cwd, a) && Assembled(cwd, a + "/" + b) == Whole(cwd, a + "/" + b)
  {
    if a[0] != '/' && (cwd == "" || cwd[|cwd| - 1] != '/') {
      assert cwd + "/" + (a + "/" + b) == cwd + "/" + a + "/" + b;
    } else if a[0] != '/' {
      assert cwd + (a + "/" + b) == cwd + a + "/" + b;
    }
  }

  /** A relative path below a joined stack splits into the stack and its own components. */
  lemma SplitBelow(parts: seq<string>, b: string)
    requires AllNames(parts) && |Join(parts)| + 1 + |b| <= VFS_PATH_MAX - 1 && (b == "" || b[0] != '/')
    ensures Split(Assembled(Join(parts), b)) == parts + Split(b)
  {
    var r := Join(parts);
    SplitJoin(parts);
    if parts == [] {
      assert Assembled(r, b) == "/" + b && ("/" + b)[1..] == b;
    } else {
      JoinEnds(parts);
      assert Assembled(r, b) == r + "/" + b;
      SplitConcat(r, b);
    }
  }

  /** A joined stack of names does not end with a slash. */
  lemma {:induction false} JoinEnds(parts: seq<string>)
    requires AllNames(parts) && parts != []
    ensures Tail(parts) != "" && Tail(parts)[|Tail(parts)| - 1] != '/'
    decreases |parts|
  {
    if |parts| == 1 {
      assert parts[1..] == [];
      assert Tail(parts) == "/" + parts[0];
    } else {
      JoinEnds(parts[1..]);
    }
  }

  /** Going to `a` and then to the relative `b` is going to `a/b`, as long as it all fits the buffer. */
  lemma ResolveComposes(cwd: string, a: string, b: string)
    requires a != "" && (b == "" || b[0] != '/') && Rooted(cwd, a) && |Whole(cwd, a + "/" + b)| <= VFS_PATH_MAX - 1
    ensures Resolve(Resolve(cwd, a), b) == Resolve(cwd, a + "/" + b)
  {
    var w := Whole(cwd, a);
    WholeExtends(cwd, a, b);
    ResolvedStack(cwd, a);
    var stack := Fold([], Split(w));
    SplitConcat(w, b);
    FoldConcat([], Split(w), Split(b));
    SplitBelow(stack, b);
    FoldConcat([], stack, Split(b));
    FoldOfNames([], stack);
    assert [] + stack == stack;
  }

  /** Beyond 63 characters it need not: what a ".." takes back has already cost room in the buffer. */
  lemma CutBreaksComposition()
    ensures var a := seq(58, _ => 'x') + "/..";
            Resolve(Resolve("/", a), "y") == "/y" && Resolve("/", a + "/" + "y") == "/"
            && |Whole("/", a + "/" + "y")| == 64
  {
    var x := seq(58, _ => 'x');
    ResolvesUp(x);
    ResolvesBelow();
    ResolvesCut(x);
  }

  lemma ResolvesUp(x: string)
    requires IsName(x) && |x| == 58
    ensures Resolve("/", x + "/..") == "/"
  {
    UpAgain(x, "/..", "..");
    assert Assembled("/", x + "/..") == "/" + x + "/..";
  }

  lemma ResolvesBelow()
    ensures Resolve("/", "y") == "/y"
  {
    assert Assembled("/", "y") == "/y" && "/y"[1..] == "y";
    SplitComp("y", "");
    assert "y" + "" == "y";
    FoldOfNames([], ["y"]);
    assert Tail(["y"]) == "/y";
  }

  lemma ResolvesCut(x: string)
    requires IsName(x) && |x| == 58
    ensures Resolve("/", x + "/.." + "/" + "y") == "/" && |Whole("/", x + "/.." + "/" + "y")| == 64
  {
    UpAgain(x, "/../", "..");
    assert Assembled("/", x + "/.." + "/" + "y") == "/" + x + "/../";
  }

  /** Down to `x` and up again. */
  lemma UpAgain(x: string, rest: string, up: string)
    requires IsName(x) && up == ".." && (rest == "/" + up || rest == "/" + up + "/")
    ensures Join(Fold([], Split("/" + x + rest))) == "/"
  {
    SplitUp(x, rest, up);
    FoldUp(x);
  }

  lemma SplitUp(x: string, rest: string, up: string)
    requires IsName(x) && up == ".." && (rest == "/" + up || rest == "/" + up + "/")
    ensures Split("/" + x + rest) == [x, up]
  {
    assert ("/" + x + rest)[1..] == x + rest;
    SplitComp(x, rest);
    if rest == "/" + up {
      assert rest[1..] == up + "";
      SplitComp(up, "");
    } else {
      assert rest[1..] == up + "/" && "/"[1..] == "";
      SplitComp(up, "/");
    }
  }

  lemma FoldUp(x: string)
    requires IsName(x)
    ensures Fold([], [x, ".."]) == []
  {
    assert [x, ".."][1..] == [".."] && [".."][1..] == [];
    assert Fold([x], [".."]) == Fold([], [".."][1..]);
  }

  // ---- the depth limit ---------------------------------------------------------------------------------

  /** One component on a stack without a limit. */
  function Stepped(stack: seq<string>, c: string): seq<string> {
    if c == "." then stack else if c == ".." then (if stack == [] then [] else stack[..|stack| - 1]) else stack + [c]
  }

  function Stacked(stack: seq<string>, cs: seq<string>): seq<string>
    decreases |cs|
  {
    if cs == [] then stack else Stacked(Stepped(stack, cs[0]), cs[1..])
  }

  /** Walking the components never goes deeper than the limit. */
  ghost predicate Shallow(stack: seq<string>, cs: seq<string>)
    decreases |cs|
  {
    |stack| <= MAX_DEPTH && (cs != [] ==> Shallow(Stepped(stack, cs[0]), cs[1..]))
  }

  /** Within the limit the resolution is the plain stack. */
  lemma {:induction false} FoldIsStack(stack: seq<string>, cs: seq<string>)
    requires Shallow(stack, cs)
    ensures Fold(stack, cs) == Stacked(stack, cs)
    decreases |cs|
  {
    if cs != [] { FoldIsStack(Pushed(stack, cs[0]), cs[1..]); }
  }

  /** A path that fits the buffer and is not too deep resolves to the plain stack of its components. */
  lemma ResolveIsStack(cwd: string, rel: string)
    requires Rooted(cwd, rel) && |Whole(cwd, rel)| <= VFS_PATH_MAX - 1 && Shallow([], Split(Whole(cwd, rel)))
    ensures Resolve(cwd, rel) == Join(Stacked([], Split(Whole(cwd, rel))))
  {
    assert Assembled(cwd, rel) == Whole(cwd, rel);
    ResolvedStack(cwd, rel);
    FoldIsStack([], Split(Whole(cwd, rel)));
  }
}

/** `vfs_resolve_path` on its buffers. */
module Paths {
  import opened PathText

  const NUL: char := '\0'

  lemma CutCut(a: string, b: string)
    ensures Cut(Cut(a) + b) == Cut(a + b)
  {
  }

  /** The bounded copying loops: append `s` to the buffer, up to 63 characters in all. */
  method Append(buf: array<char>, len: nat, s: string) returns (to: nat)
    requires buf.Length >= VFS_PATH_MAX && len <= VFS_PATH_MAX - 1
    modifies buf
    ensures len <= to <= VFS_PATH_MAX - 1 && buf[..to] == Cut(old(buf[..len]) + s)
  {
    to := len;
    var i := 0;
    ghost var was := buf[..len];
    while i < |s| && to < VFS_PATH_MAX - 1
      invariant i <= |s| && to == len + i <= VFS_PATH_MAX - 1 && buf[..to] == was + s[..i]
    {
      buf[to] := s[i];
      assert was + s[..i] + [s[i]] == was + s[..i + 1];
      to, i := to + 1, i + 1;
    }
  }

  /** The first half of the function: the path to normalise, ended by NUL. */
  method Assemble(cwd: string, rel: string, tmp: array<char>) returns (len: nat)
    requires tmp.Length == VFS_PATH_MAX
    modifies tmp
    ensures len <= VFS_PATH_MAX - 1 && tmp[..len] == Assembled(cwd, rel) && tmp[len] == NUL
  {
    len := 0;
    if rel != "" && rel[0] == '/' {
      len := Append(tmp, len, rel);
      assert [] + rel == rel;
    } else {
      len := Append(tmp, len, cwd);
      assert [] + cwd == cwd;
      if len == 0 || tmp[len - 1] != '/' {
        len := Append(tmp, len, "/");
      }
      len := Append(tmp, len, rel);
    }
    tmp[len] := NUL;
  }

  /** Component `c` stands at `at` in the buffer, ended by NUL, no further than `p`. */
  ghost predicate Holds(buf: seq<char>, at: nat, c: string, p: nat) {
    at + |c| < |buf| && at + |c| <= p && buf[at..at + |c|] == c && buf[at + |c|] == NUL && NUL !in c
  }

  ghost predicate AllHeld(buf: seq<char>, parts: seq<nat>, stack: seq<string>, p: nat) {
    |stack| <= |parts| && forall d :: 0 <= d < |stack| ==> Holds(buf, parts[d], stack[d], p)
  }

  /** What is left to read from `p` on. */
  ghost predicate Ahead(buf: seq<char>, w: string, p: nat) {
    p <= |w| < |buf| && buf[|w|] == NUL && buf[p..|w|] == w[p..] && NUL !in w
  }

  lemma HeldFurther(buf: seq<char>, parts: seq<nat>, stack: seq<string>, p: nat, q: nat)
    requires AllHeld(buf, parts, stack, p) && p <= q
    ensures AllHeld(buf, parts, stack, q)
  {
    forall d | 0 <= d < |stack|
      ensures Holds(buf, parts[d], stack[d], q)
    {
      assert Holds(buf, parts[d], stack[d], p);
    }
  }

  /** Cutting the buffer behind a new component disturbs neither what is held nor what is ahead. */
  lemma CutBehind(buf: seq<char>, w: string, parts: seq<nat>, stack: seq<string>, p: nat, start: nat, e: nat, q: nat)
    requires AllHeld(buf, parts, stack, p) && p <= start < e <= |w| < |buf| && |stack| < |parts| && Ahead(buf, w, start)
    requires q == if e < |w| then e + 1 else e
    ensures AllHeld(buf[e := NUL], parts[|stack| := start], stack + [w[start..e]], q) && Ahead(buf[e := NUL], w, q)
  {
    var b2, p2, s2 := buf[e := NUL], parts[|stack| := start], stack + [w[start..e]];
    forall d | 0 <= d < |s2|
      ensures Holds(b2, p2[d], s2[d], q)
    {
      if d < |stack| {
        assert Holds(buf, parts[d], stack[d], p);
        assert b2[parts[d]..parts[d] + |stack[d]|] == buf[parts[d]..parts[d] + |stack[d]|];
      } else {
        assert buf[start..e] == buf[start..|w|][..e - start] == w[start..e];
        assert b2[start..e] == buf[start..e];
      }
    }
    assert b2[q..|w|] == buf[start..|w|][q - start..] == w[q..];
  }

  /** Skip the slashes. */
  method SkipSlashes(tmp: array<char>, from: nat, ghost w: string) returns (p: nat)
    requires Ahead(tmp[..], w, from)
    ensures from <= p <= |w| && Ahead(tmp[..], w, p) && (p < |w| ==> w[p] != '/') && Split(w[from..]) == Split(w[p..])
  {
    p := from;
    while tmp[p] == '/'
      invariant from <= p <= |w| && Ahead(tmp[..], w, p) && Split(w[from..]) == Split(w[p..])
      decreases |w| - p
    {
      StandsAt(tmp[..], w, p);
      assert w[p..][1..] == w[p + 1..];
      p := p + 1;
    }
    StandsAt(tmp[..], w, p);
  }

  lemma StandsAt(buf: seq<char>, w: string, p: nat)
    requires Ahead(buf, w, p)
    ensures buf[p] == if p < |w| then w[p] else NUL
    ensures p < |w| ==> w[p] != NUL && Ahead(buf, w, p + 1)
  {
    if p < |w| {
      assert buf[p..|w|][0] == w[p..][0];
      assert buf[p + 1..|w|] == buf[p..|w|][1..] == w[p + 1..];
    }
  }

  /** Find the end of the component that starts at `from`. */
  method SkipName(tmp: array<char>, from: nat, ghost w: string) returns (p: nat)
    requires Ahead(tmp[..], w, from) && from < |w| && w[from] != '/'
    ensures from < p <= |w| && Ahead(tmp[..], w, p) && p == from + CompLen(w[from..]) && (tmp[p] == '/' <==> p < |w|)
  {
    p := from;
    while tmp[p] != NUL && tmp[p] != '/'
      invariant from <= p <= |w| && Ahead(tmp[..], w, p) && CompLen(w[from..]) == p - from + CompLen(w[p..])
      decreases |w| - p
    {
      StandsAt(tmp[..], w, p);
      assert w[p..][1..] == w[p + 1..];
      p := p + 1;
    }
    StandsAt(tmp[..], w, p);
  }

  /** The component found at `start` and what follows it. */
  lemma SplitHere(w: string, start: nat, e: nat, q: nat)
    requires start < |w| && w[start] != '/' && e == start + CompLen(w[start..]) && q == (if e < |w| then e + 1 else e)
    ensures start < e <= |w| && Split(w[start..]) == [w[start..e]] + Split(w[q..])
  {
    var s := w[start..];
    assert s[..CompLen(s)] == w[start..e] && s[CompLen(s)..] == w[e..];
    if e < |w| { assert w[e..][0] == '/' && w[e..][1..] == w[q..]; }
  }

  /** Put the component from `start` to `e` on the stack of parts: skip, go up, or cut it off and keep it. */
  method Take(tmp: array<char>, parts: array<nat>, had: nat, start: nat, e: nat, ghost w: string,
              ghost stack: seq<string>, ghost p: nat)
    returns (depth: nat, ghost now: seq<string>)
    requires tmp.Length == VFS_PATH_MAX && parts.Length == MAX_DEPTH && had == |stack| <= MAX_DEPTH
    requires AllHeld(tmp[..], parts[..], stack, p) && p <= start < e <= |w| && Ahead(tmp[..], w, start)
    modifies tmp, parts
    ensures var q := if e < |w| then e + 1 else e; Ahead(tmp[..], w, q) && AllHeld(tmp[..], parts[..], now, q)
    ensures depth == |now| <= MAX_DEPTH && now == Pushed(stack, w[start..e])
  {
    ghost var q, c := if e < |w| then e + 1 else e, w[start..e];
    depth, now := had, Pushed(stack, c);
    HeldFurther(tmp[..], parts[..], stack, p, q);
    AheadLater(tmp[..], w, start, q);
    StandsAt(tmp[..], w, start);
    if e - start == 1 && tmp[start] == '.' {
      assert c == ".";
    } else if e - start == 2 && tmp[start] == '.' && tmp[start + 1] == '.' {
      StandsAt(tmp[..], w, start + 1);
      assert c == "..";
      if depth > 0 {
        depth := depth - 1;
      }
    } else {
      if e - start == 2 { StandsAt(tmp[..], w, start + 1); }
      assert c != "." && c != "..";
      if depth < MAX_DEPTH {
        CutBehind(tmp[..], w, parts[..], stack, p, start, e, q);
        ghost var buf, at := tmp[..], parts[..];
        tmp[e] := NUL;
        parts[depth] := start;
        assert tmp[..] == buf[e := NUL] && parts[..] == at[|stack| := start];
        depth := depth + 1;
      }
    }
  }

  lemma AheadLater(buf: seq<char>, w: string, p: nat, q: nat)
    requires Ahead(buf, w, p) && p <= q <= |w|
    ensures Ahead(buf, w, q)
  {
    assert buf[q..|w|] == buf[p..|w|][q - p..] == w[q..];
  }

  /** The normalising loop: the stack of parts is the fold of the components. */
  method Scan(tmp: array<char>, parts: array<nat>, ghost w: string) returns (depth: nat, ghost stack: seq<string>)
    requires tmp.Length == VFS_PATH_MAX && parts.Length == MAX_DEPTH && Ahead(tmp[..], w, 0)
    modifies tmp, parts
    ensures depth == |stack| <= MAX_DEPTH && stack == Fold([], Split(w)) && AllHeld(tmp[..], parts[..], stack, |w|)
  {
    depth, stack := 0, [];
    var p := 0;
    assert w[0..] == w;
    while tmp[p] != NUL
      invariant 0 <= p <= |w| && Ahead(tmp[..], w, p) && AllHeld(tmp[..], parts[..], stack, p)
      invariant depth == |stack| <= MAX_DEPTH
      invariant Fold(stack, Split(w[p..])) == Fold([], Split(w))
      decreases |w| - p
    {
      StandsAt(tmp[..], w, p);
      var start := SkipSlashes(tmp, p, w);
      StandsAt(tmp[..], w, start);
      HeldFurther(tmp[..], parts[..], stack, p, start);
      if tmp[start] == NUL {
        p := start;
        break;
      }
      var e := SkipName(tmp, start, w);
      var q := if tmp[e] == '/' then e + 1 else e;
      SplitHere(w, start, e, q);
      depth, stack := Take(tmp, parts, depth, start, e, w, stack, start);
      p := q;
    }
    StandsAt(tmp[..], w, p);
    HeldFurther(tmp[..], parts[..], stack, p, |w|);
  }

  /** Copy a NUL-ended component, as far as it fits. */
  method AppendPart(tmp: array<char>, at: nat, out: array<char>, pos: nat, ghost c: string,
                    ghost p: nat) returns (to: nat)
    requires tmp != out && out.Length >= VFS_PATH_MAX && pos <= VFS_PATH_MAX - 1 && Holds(tmp[..], at, c, p)
    modifies out
    ensures pos <= to <= VFS_PATH_MAX - 1 && out[..to] == Cut(old(out[..pos]) + c)
  {
    to := pos;
    var j := 0;
    ghost var was := out[..pos];
    while tmp[at + j] != NUL && to < VFS_PATH_MAX - 1
      invariant 0 <= j <= |c| && to == pos + j <= VFS_PATH_MAX - 1 && out[..to] == was + c[..j]
      invariant Holds(tmp[..], at, c, p)
      decreases |c| - j
    {
      CharOf(tmp[..], at, c, p, j);
      out[to] := tmp[at + j];
      assert was + c[..j] + [c[j]] == was + c[..j + 1];
      to, j := to + 1, j + 1;
    }
    CharOf(tmp[..], at, c, p, j);
  }

  lemma CharOf(buf: seq<char>, at: nat, c: string, p: nat, j: nat)
    requires Holds(buf, at, c, p) && j <= |c|
    ensures buf[at + j] == if j < |c| then c[j] else NUL
    ensures buf[at + j] == NUL <==> j == |c|
  {
    if j < |c| { assert buf[at..at + |c|][j] == c[j]; }
  }

  /** The path so far: a slash, or the first `i` parts each behind one. */
  function SoFar(stack: seq<string>, i: nat): string
    requires i <= |stack|
  {
    if i == 0 then "/" else Tail(stack[..i])
  }

  lemma SoFarNext(stack: seq<string>, i: nat)
    requires i < |stack|
    ensures SoFar(stack, i + 1) == (if i == 0 then "/" else SoFar(stack, i) + "/") + stack[i]
  {
    assert stack[..i + 1] == stack[..i] + [stack[i]];
    TailConcat(stack[..i], [stack[i]]);
    assert Tail([stack[i]]) == "/" + stack[i];
  }

  /** Once the buffer is full nothing more shows. */
  lemma {:induction false} SoFarFull(stack: seq<string>, i: nat)
    requires i <= |stack| && |Cut(SoFar(stack, i))| == VFS_PATH_MAX - 1
    ensures Cut(SoFar(stack, |stack|)) == Cut(SoFar(stack, i))
    decreases |stack| - i
  {
    if i < |stack| {
      SoFarNext(stack, i);
      if i > 0 { CutExtends(SoFar(stack, i), "/" + stack[i]); }
      SoFarFull(stack, i + 1);
    }
  }

  /** All parts are there, or the buffer is full. */
  lemma Finished(stack: seq<string>, i: nat)
    requires i <= |stack| && (i == |stack| || |Cut(SoFar(stack, i))| == VFS_PATH_MAX - 1)
    ensures Cut(SoFar(stack, i)) == Cut(Join(stack))
  {
    if i < |stack| { SoFarFull(stack, i); }
    assert stack[..|stack|] == stack;
  }

  lemma CutExtends(a: string, b: string)
    requires |Cut(a)| == VFS_PATH_MAX - 1
    ensures Cut(a + b) == Cut(a)
  {
  }

  /** One part, with the slash before it unless it is the first. */
  method RebuildPart(tmp: array<char>, at: nat, i: nat, out: array<char>, pos: nat, ghost stack: seq<string>,
                     ghost p: nat) returns (to: nat)
    requires tmp != out && out.Length >= VFS_PATH_MAX && pos < VFS_PATH_MAX - 1 && i < |stack|
    requires Holds(tmp[..], at, stack[i], p)
    requires out[..pos] == Cut(SoFar(stack, i))
    modifies out
    ensures pos <= to <= VFS_PATH_MAX - 1 && out[..to] == Cut(SoFar(stack, i + 1))
  {
    to := pos;
    if i > 0 {
      to := Append(out, to, "/");
      CutCut(SoFar(stack, i), "/");
    }
    ghost var so := if i == 0 then "/" else SoFar(stack, i) + "/";
    to := AppendPart(tmp, at, out, to, stack[i], p);
    CutCut(so, stack[i]);
    SoFarNext(stack, i);
  }

  /** The loop over the parts. */
  method RebuildParts(tmp: array<char>, parts: array<nat>, depth: nat, out: array<char>, ghost stack: seq<string>,
                      ghost p: nat) returns (pos: nat)
    requires tmp != out && out.Length >= VFS_PATH_MAX && depth == |stack| && AllHeld(tmp[..], parts[..], stack, p)
    requires out[..1] == "/"
    modifies out
    ensures pos <= VFS_PATH_MAX - 1 && out[..pos] == Cut(Join(stack))
  {
    pos := 1;
    var i := 0;
    ghost var buf, at := tmp[..], parts[..];
    while i < depth && pos < VFS_PATH_MAX - 1
      invariant 0 <= i <= depth && 0 < pos <= VFS_PATH_MAX - 1 && out[..pos] == Cut(SoFar(stack, i))
      invariant tmp[..] == buf && parts[..] == at
    {
      assert Holds(buf, at[i], stack[i], p);
      pos := RebuildPart(tmp, parts[i], i, out, pos, stack, p);
      i := i + 1;
    }
    Finished(stack, i);
  }

  /** Reconstruct the path from the parts. */
  method Rebuild(tmp: array<char>, parts: array<nat>, depth: nat, out: array<char>, ghost stack: seq<string>,
                 ghost p: nat) returns (pos: nat)
    requires tmp != out && out.Length >= VFS_PATH_MAX && depth == |stack| && AllHeld(tmp[..], parts[..], stack, p)
    modifies out
    ensures pos <= VFS_PATH_MAX - 1 && out[..pos] == Cut(Join(stack)) && out[pos] == NUL
  {
    out[0] := '/';
    pos := RebuildParts(tmp, parts, depth, out, stack, p);
    out[pos] := NUL;
  }

  /** `vfs_resolve_path` */
  method ResolvePath(cwd: string, rel: string, out: array<char>) returns (n: nat)
    requires out.Length >= VFS_PATH_MAX && NUL !in cwd && NUL !in rel
    modifies out
    ensures n <= VFS_PATH_MAX - 1 && out[..n] == Resolve(cwd, rel) && out[n] == NUL
  {
    var tmp := new char[VFS_PATH_MAX];
    var parts := new nat[MAX_DEPTH];
    var len := Assemble(cwd, rel, tmp);
    ghost var w := Assembled(cwd, rel);
    assert tmp[0..len] == tmp[..len] && w[0..] == w;
    var depth, stack := Scan(tmp, parts, w);
    n := Rebuild(tmp, parts, depth, out, stack, |w|);
  }
}
