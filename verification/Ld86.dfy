/** The linker's layout, symbol resolution and relocation (userland/ld86.c). */
module Ld86 {
  import opened Words
  import opened Options
  import opened Patching
  import opened AsSyntax

  /** `mobj_sym_t`; `sec` is `None` for SEC_UNDEF. */
  datatype Sym = Sym(name: Name, value: nat, sec: Option<Section>, isGlobal: bool)

  /** `mobj_reloc_t` */
  datatype Rel = Rel(sec: Section, off: Addr32, kind: RelKind, sym: nat, addend: int)

  /** `input_t` after `parse_input`.  A plain binary has no symbols and no relocations. */
  datatype Input = Input(payload: seq<Byte>, bssSize: nat, secBase: seq<Addr32>, syms: seq<Sym>, rels: seq<Rel>)
  {
    ghost predicate Ok() { |secBase| == 4 }
  }

  ghost predicate EachOk(ins: seq<Input>) {
    forall i :: 0 <= i < |ins| ==> ins[i].Ok()
  }

  /** `image_off` of input `i`: the payloads before it. */
  function ImageOff(ins: seq<Input>, i: nat): nat
    requires i <= |ins|
  {
    if i == 0 then 0 else ImageOff(ins, i - 1) + |ins[i - 1].payload|
  }

  /** Inputs whose payloads together fit the image buffer, which is sized in 32 bits. */
  ghost predicate AllOk(ins: seq<Input>) { EachOk(ins) && ImageOff(ins, |ins|) < TWO32 }

  lemma {:induction false} OffMonotone(ins: seq<Input>, i: nat, j: nat)
    requires i <= j <= |ins|
    ensures ImageOff(ins, i) <= ImageOff(ins, j)
    decreases j
  {
    if i < j { OffMonotone(ins, i, j - 1); }
  }

  function Payloads(ins: seq<Input>, i: nat): (r: seq<Byte>)
    requires i <= |ins|
    ensures |r| == ImageOff(ins, i)
  {
    if i == 0 then [] else Payloads(ins, i - 1) + ins[i - 1].payload
  }

  function StripDollar(n: Name): Name { if n != [] && n[0] == '$' then n[1..] else n }

  /** `sym_name_eq_loose` */
  predicate LooseEq(a: Name, b: Name) {
    || a == b
    || (a != [] && a[0] == '$' && a[1..] == b)
    || (b != [] && b[0] == '$' && a == b[1..])
  }

  /** Names match when they are equal or one is the other behind a dollar sign. */
  lemma LooseExactly(a: Name, b: Name)
    ensures LooseEq(a, b) <==> a == b || a == "$" + b || b == "$" + a
  {
    if a != [] { assert a == [a[0]] + a[1..]; }
    if b != [] { assert b == [b[0]] + b[1..]; }
    assert ("$" + a)[1..] == a && ("$" + b)[1..] == b;
  }

  function SymAddr(ins: seq<Input>, base: int, i: nat, s: Sym): int
    requires AllOk(ins) && i < |ins| && s.sec.Some?
  {
    base + ImageOff(ins, i) + ins[i].secBase[s.sec.value] + s.value
  }

  /** A defined global that loosely matches `n`. */
  predicate Exports(s: Sym, n: Name) { s.sec.Some? && s.isGlobal && LooseEq(s.name, n) }

  /** A defined symbol, global or not, equal to `n` up to a leading dollar. */
  predicate Defines(s: Sym, n: Name) { s.sec.Some? && StripDollar(s.name) == StripDollar(n) }

  /** A local symbol answers to a name it is equal to, or that differs by the only leading dollar sign. */
  lemma DefinesExactly(s: Sym, n: Name)
    ensures Defines(s, n) <==> s.sec.Some? && (s.name == n || OneDollar(s.name, n) || OneDollar(n, s.name))
  {
    if s.name != [] { assert s.name == [s.name[0]] + s.name[1..]; }
    if n != [] { assert n == [n[0]] + n[1..]; }
    assert ("$" + s.name)[1..] == s.name && ("$" + n)[1..] == n;
  }

  predicate OneDollar(a: Name, b: Name) { a == "$" + b && !(b != [] && b[0] == '$') }

  /** First defined global of a symbol table that loosely matches, from index `j`, or -1. */
  function GlobalIn(syms: seq<Sym>, n: Name, j: nat): (r: int)
    requires j <= |syms|
    ensures r == -1 || j <= r < |syms|
    ensures r == -1 ==> forall k :: j <= k < |syms| ==> !Exports(syms[k], n)
    ensures r != -1 ==> Exports(syms[r], n) && forall k :: j <= k < r ==> !Exports(syms[k], n)
    decreases |syms| - j
  {
    if j == |syms| then -1
    else if Exports(syms[j], n) then j
    else GlobalIn(syms, n, j + 1)
  }

  /** First defined symbol equal up to a leading dollar, from index `j`, or -1. */
  function AnyIn(syms: seq<Sym>, n: Name, j: nat): (r: int)
    requires j <= |syms|
    ensures r == -1 || j <= r < |syms|
    ensures r == -1 ==> forall k :: j <= k < |syms| ==> !Defines(syms[k], n)
    ensures r != -1 ==> Defines(syms[r], n) && forall k :: j <= k < r ==> !Defines(syms[k], n)
    decreases |syms| - j
  {
    if j == |syms| then -1
    else if Defines(syms[j], n) then j
    else AnyIn(syms, n, j + 1)
  }

  /** First input, from `i` on, that exports a loosely matching global, or -1. */
  function Provider(ins: seq<Input>, n: Name, i: nat): (r: int)
    requires i <= |ins|
    ensures r == -1 || i <= r < |ins|
    ensures r == -1 ==> forall k :: i <= k < |ins| ==> GlobalIn(ins[k].syms, n, 0) == -1
    ensures r != -1 ==> GlobalIn(ins[r].syms, n, 0) != -1 && forall k :: i <= k < r ==>
              GlobalIn(ins[k].syms, n, 0) == -1
    decreases |ins| - i
  {
    if i == |ins| then -1
    else if GlobalIn(ins[i].syms, n, 0) != -1 then i
    else Provider(ins, n, i + 1)
  }

  /** First input, from `i` on, that defines the name at all, or -1. */
  function Definer(ins: seq<Input>, n: Name, i: nat): (r: int)
    requires i <= |ins|
    ensures r == -1 || i <= r < |ins|
    ensures r == -1 ==> forall k :: i <= k < |ins| ==> AnyIn(ins[k].syms, n, 0) == -1
    ensures r != -1 ==> AnyIn(ins[r].syms, n, 0) != -1 && forall k :: i <= k < r ==> AnyIn(ins[k].syms, n, 0) == -1
    decreases |ins| - i
  {
    if i == |ins| then -1
    else if AnyIn(ins[i].syms, n, 0) != -1 then i
    else Definer(ins, n, i + 1)
  }

  /** Where an undefined reference to `n` goes: to the only input that exports it; when none does,
      to the first defined symbol of that name; two exporting inputs are an error. */
  function ResolveExtern(ins: seq<Input>, base: int, n: Name): Option<int>
    requires AllOk(ins)
  {
    var p := Provider(ins, n, 0);
    if p != -1 then
      if Provider(ins, n, p + 1) != -1 then None
      else Some(SymAddr(ins, base, p, ins[p].syms[GlobalIn(ins[p].syms, n, 0)]))
    else
      var q := Definer(ins, n, 0);
      if q == -1 then None
      else Some(SymAddr(ins, base, q, ins[q].syms[AnyIn(ins[q].syms, n, 0)]))
  }

  /** `resolve_symbol_addr` */
  function ResolveSym(ins: seq<Input>, base: int, owner: nat, sym: nat): Option<int>
    requires AllOk(ins) && owner < |ins|
  {
    if sym >= |ins[owner].syms| then None
    else
      var s := ins[owner].syms[sym];
      if s.sec.Some? then Some(SymAddr(ins, base, owner, s)) else ResolveExtern(ins, base, s.name)
  }

  /** `place_local` */
  function PlaceOf(input: Input, r: Rel): Addr32
    requires input.Ok()
  {
    Add32(input.secBase[r.sec], r.off)
  }

  /** `place_off` */
  function OffOf(ins: seq<Input>, i: nat, r: Rel): Addr32
    requires AllOk(ins) && i < |ins|
  {
    assert ImageOff(ins, i) <= ImageOff(ins, |ins|) by { OffMonotone(ins, i, |ins|); }
    Add32(ImageOff(ins, i), PlaceOf(ins[i], r))
  }

  /** The image write one relocation of input `i` asks for.  The range check and the place are sums
      of unsigned words, so a place just below 2^32 passes the check. */
  function RelWrite(ins: seq<Input>, base: int, i: nat, r: Rel): (w: Attempt<Write>)
    requires AllOk(ins) && i < |ins|
    ensures w.Done? ==> w.value.off + 4 <= ImageOff(ins, |ins|)
  {
    if r.sec > SEC_DATA || Add32(PlaceOf(ins[i], r), 4) > |ins[i].payload| then Refused
    else
      var off, addr := OffOf(ins, i, r), ResolveSym(ins, base, i, r.sym);
      if addr.None? then Refused
      else if off + 4 > ImageOff(ins, |ins|) then Stray
      else
        var value := addr.value + r.addend;
        Done(Write(off, Le32(if r.kind.Abs32? then value else value - (base + off + 4))))
  }

  /** The writes of relocations `k` and later of input `i`, up to the first that fails. */
  function InputWrites(ins: seq<Input>, base: int, i: nat, k: nat): Attempt<seq<Write>>
    requires AllOk(ins) && i < |ins| && k <= |ins[i].rels|
    decreases |ins[i].rels| - k
  {
    if k == |ins[i].rels| then Done([])
    else
      match RelWrite(ins, base, i, ins[i].rels[k])
      case Done(w) => Prepend([w], InputWrites(ins, base, i, k + 1))
      case Refused => Refused
      case Stray => Stray
  }

  /** The writes of inputs `i` and later, up to the first that fails. */
  function AllWrites(ins: seq<Input>, base: int, i: nat): Attempt<seq<Write>>
    requires AllOk(ins) && i <= |ins|
    decreases |ins| - i
  {
    if i == |ins| then Done([])
    else
      var ws := InputWrites(ins, base, i, 0);
      if ws.Done? then Prepend(ws.value, AllWrites(ins, base, i + 1)) else ws
  }

  lemma {:induction false} InputWritesInside(ins: seq<Input>, base: int, i: nat, k: nat)
    requires AllOk(ins) && i < |ins| && k <= |ins[i].rels| && InputWrites(ins, base, i, k).Done?
    ensures Inside(InputWrites(ins, base, i, k).value, ImageOff(ins, |ins|))
    decreases |ins[i].rels| - k
  {
    if k < |ins[i].rels| { InputWritesInside(ins, base, i, k + 1); }
  }

  lemma {:induction false} AllWritesInside(ins: seq<Input>, base: int, i: nat)
    requires AllOk(ins) && i <= |ins| && AllWrites(ins, base, i).Done?
    ensures Inside(AllWrites(ins, base, i).value, ImageOff(ins, |ins|))
    decreases |ins| - i
  {
    if i < |ins| {
      InputWritesInside(ins, base, i, 0);
      AllWritesInside(ins, base, i + 1);
      InsideConcat(InputWrites(ins, base, i, 0).value, AllWrites(ins, base, i + 1).value, ImageOff(ins, |ins|));
    }
  }

  /** The linked image: payloads in input order, then every relocation in order.  An image buffer
      sized modulo 2^32 is too small for payloads that pass it. */
  function Link(ins: seq<Input>, base: int): (r: Attempt<seq<Byte>>)
    requires EachOk(ins)
    ensures r.Done? ==> AllOk(ins) && |r.value| == ImageOff(ins, |ins|)
  {
    if ImageOff(ins, |ins|) >= TWO32 then Stray
    else
      match AllWrites(ins, base, 0)
      case Done(ws) =>
        assert Inside(ws, ImageOff(ins, |ins|)) by { AllWritesInside(ins, base, 0); }
        Done(Apply(Payloads(ins, |ins|), ws))
      case Refused => Refused
      case Stray => Stray
  }

  // ---- where relocations write -------------------------------------------------------------------

  /** The write lies in the payload of input `i`. */
  ghost predicate InPayload(ins: seq<Input>, i: nat, w: Write)
    requires i < |ins|
  {
    ImageOff(ins, i) <= w.off && w.off + 4 <= ImageOff(ins, i) + |ins[i].payload|
  }

  lemma OffExact(start: Addr32, place: Addr32, size: nat, total: nat)
    requires start + size <= total < TWO32 && Add32(place, 4) <= size
    ensures place + 4 >= TWO32 ==> (Add32(start, place) + 4 > total <==> start + place < TWO32)
    ensures place + 4 < TWO32 ==> Add32(start, place) == start + place && start + place + 4 <= start + size
    ensures place + 4 >= TWO32 ==> Add32(start, place) < start || Add32(start, place) + 4 > start + size
  {
  }

  /** The relocation passes every check: its section, its range and its symbol. */
  ghost predicate Passes(ins: seq<Input>, base: int, i: nat, r: Rel)
    requires AllOk(ins) && i < |ins|
  {
    && r.sec <= SEC_DATA && Add32(PlaceOf(ins[i], r), 4) <= |ins[i].payload|
    && ResolveSym(ins, base, i, r.sym).Some?
  }

  /** Where a relocation that passes writes, and how it can leave the image. */
  lemma AcceptedPlace(ins: seq<Input>, base: int, i: nat, r: Rel)
    requires AllOk(ins) && i < |ins|
    ensures RelWrite(ins, base, i, r).Refused? <==> !Passes(ins, base, i, r)
    ensures RelWrite(ins, base, i, r).Done? ==> RelWrite(ins, base, i, r).value.off == OffOf(ins, i, r)
    ensures RelWrite(ins, base, i, r).Stray? <==>
            Passes(ins, base, i, r) && OffOf(ins, i, r) + 4 > ImageOff(ins, |ins|)
  {
  }

  /** Its place wraps, and its input starts too early in the image for that to land in an input before. */
  ghost predicate Leaves(ins: seq<Input>, i: nat, r: Rel)
    requires AllOk(ins) && i < |ins|
  {
    PlaceOf(ins[i], r) + 4 >= TWO32 && ImageOff(ins, i) + PlaceOf(ins[i], r) < TWO32
  }

  /** The exact conditions for a relocation that passes to write into its own input, and to leave the
      image altogether. */
  lemma RelWriteExact(ins: seq<Input>, base: int, i: nat, r: Rel, w: Attempt<Write>)
    requires AllOk(ins) && i < |ins| && w == RelWrite(ins, base, i, r)
    ensures w.Done? ==> (InPayload(ins, i, w.value) <==> PlaceOf(ins[i], r) + 4 < TWO32)
    ensures w.Stray? <==> Passes(ins, base, i, r) && Leaves(ins, i, r)
  {
    OffMonotone(ins, i + 1, |ins|);
    AcceptedPlace(ins, base, i, r);
    if Passes(ins, base, i, r) {
      OffExact(ImageOff(ins, i), PlaceOf(ins[i], r), |ins[i].payload|, ImageOff(ins, |ins|));
    }
  }

  /** Relocations `k` to `q` of input `i` are all stored. */
  ghost predicate Stored(ins: seq<Input>, base: int, i: nat, k: nat, q: nat)
    requires AllOk(ins) && i < |ins| && q <= |ins[i].rels|
  {
    forall j :: k <= j < q ==> RelWrite(ins, base, i, ins[i].rels[j]).Done?
  }

  lemma {:induction false} InputStored(ins: seq<Input>, base: int, i: nat, k: nat)
    requires AllOk(ins) && i < |ins| && k <= |ins[i].rels|
    ensures InputWrites(ins, base, i, k).Done? <==> Stored(ins, base, i, k, |ins[i].rels|)
    decreases |ins[i].rels| - k
  {
    if k < |ins[i].rels| { InputStored(ins, base, i, k + 1); }
  }

  /** The relocation at which an input's loop leaves the image. */
  lemma {:induction false} InputStrays(ins: seq<Input>, base: int, i: nat, k: nat) returns (q: nat)
    requires AllOk(ins) && i < |ins| && k <= |ins[i].rels| && InputWrites(ins, base, i, k).Stray?
    ensures k <= q < |ins[i].rels| && Stored(ins, base, i, k, q) && RelWrite(ins, base, i, ins[i].rels[q]).Stray?
    decreases |ins[i].rels| - k
  {
    if RelWrite(ins, base, i, ins[i].rels[k]).Stray? {
      q := k;
    } else {
      q := InputStrays(ins, base, i, k + 1);
    }
  }

  lemma {:induction false} InputStraysBack(ins: seq<Input>, base: int, i: nat, k: nat, q: nat)
    requires AllOk(ins) && i < |ins| && k <= q < |ins[i].rels|
    requires Stored(ins, base, i, k, q) && RelWrite(ins, base, i, ins[i].rels[q]).Stray?
    ensures InputWrites(ins, base, i, k).Stray?
    decreases q - k
  {
    if k < q { InputStraysBack(ins, base, i, k + 1, q); }
  }

  /** Relocation `k` of input `i` passes and leaves the image; all before it, from input `from` on, are stored. */
  ghost predicate FirstToLeave(ins: seq<Input>, base: int, from: nat, i: nat, k: nat)
    requires AllOk(ins)
  {
    && from <= i < |ins| && k < |ins[i].rels| && Stored(ins, base, i, 0, k)
    && (forall p :: from <= p < i ==> Stored(ins, base, p, 0, |ins[p].rels|))
    && Passes(ins, base, i, ins[i].rels[k]) && Leaves(ins, i, ins[i].rels[k])
  }

  lemma {:induction false} AllStray(ins: seq<Input>, base: int, from: nat) returns (i: nat, k: nat)
    requires AllOk(ins) && from <= |ins| && AllWrites(ins, base, from).Stray?
    ensures FirstToLeave(ins, base, from, i, k)
    decreases |ins| - from
  {
    if InputWrites(ins, base, from, 0).Stray? {
      i := from;
      k := InputStrays(ins, base, from, 0);
      RelWriteExact(ins, base, i, ins[i].rels[k], RelWrite(ins, base, i, ins[i].rels[k]));
    } else {
      InputStored(ins, base, from, 0);
      i, k := AllStray(ins, base, from + 1);
    }
  }

  lemma {:induction false} AllStrayBack(ins: seq<Input>, base: int, from: nat, i: nat, k: nat)
    requires AllOk(ins) && FirstToLeave(ins, base, from, i, k)
    ensures AllWrites(ins, base, from).Stray?
    decreases i - from
  {
    if from == i {
      RelWriteExact(ins, base, i, ins[i].rels[k], RelWrite(ins, base, i, ins[i].rels[k]));
      InputStraysBack(ins, base, i, 0, k);
    } else {
      InputStored(ins, base, from, 0);
      AllStrayBack(ins, base, from + 1, i, k);
    }
  }

  /** A link leaves its image exactly when the payloads pass 2^32 together, or some relocation passes
      every check and leaves it after all before it have been stored. */
  lemma LinkStraysExactly(ins: seq<Input>, base: int)
    requires EachOk(ins)
    ensures Link(ins, base).Stray? <==>
            !AllOk(ins) || exists i: nat, k: nat :: FirstToLeave(ins, base, 0, i, k)
  {
    if AllOk(ins) {
      if Link(ins, base).Stray? {
        var i, k := AllStray(ins, base, 0);
      }
      if i: nat, k: nat :| FirstToLeave(ins, base, 0, i, k) {
        AllStrayBack(ins, base, 0, i, k);
      }
    }
  }

  /** Two inputs of four bytes; the second asks for a word at 2^32 - 4 of its text and overwrites the
      first one's bytes.  The same relocation in the first input leaves the image. */
  lemma PlaceWraps(a: seq<Byte>, b: seq<Byte>)
    requires |a| == 4 && |b| == 4
    ensures var s, r := Sym("s", 0, Some(SEC_TEXT), true), Rel(SEC_TEXT, 0xFFFF_FFFC, Abs32, 0, 0);
            var first, second := Input(a, 0, [0, 4, 4, 4], [s], []), Input(b, 0, [0, 4, 4, 4], [s], [r]);
            && AllOk([first, second]) && AllOk([second])
            && RelWrite([first, second], 0, 1, r) == Done(Write(0, Le32(4)))
            && RelWrite([second], 0, 0, r) == Stray
  {
    var s, r := Sym("s", 0, Some(SEC_TEXT), true), Rel(SEC_TEXT, 0xFFFF_FFFC, Abs32, 0, 0);
    var first, second := Input(a, 0, [0, 4, 4, 4], [s], []), Input(b, 0, [0, 4, 4, 4], [s], [r]);
    var ins := [first, second];
    assert ImageOff(ins, 1) == 4 && ImageOff(ins, 2) == 8;
    assert ImageOff([second], 0) == 0 && ImageOff([second], 1) == 4;
  }

  // ---- the program's loops -----------------------------------------------------------------------

  /** `resolve_symbol_addr` for an undefined reference: scan all exports, then all definitions. */
  method FindExtern(ins: seq<Input>, base: int, n: Name) returns (r: Option<int>)
    requires AllOk(ins)
    ensures r == ResolveExtern(ins, base, n)
  {
    var found, addr := -1, 0;
    for i := 0 to |ins|
      invariant found == -1 || 0 <= found < i
      invariant found == -1 ==> Provider(ins, n, 0) == Provider(ins, n, i)
      invariant found != -1 ==> Provider(ins, n, 0) == found && Provider(ins, n, found + 1) == Provider(ins, n, i)
      invariant found != -1 ==> addr == SymAddr(ins, base, found, ins[found].syms[GlobalIn(ins[found].syms, n, 0)])
    {
      ghost var before := found;
      for j := 0 to |ins[i].syms|
        invariant found == before || (before == -1 && found == i)
        invariant found == i ==> GlobalIn(ins[i].syms, n, 0) != -1
        invariant found == i ==> addr == SymAddr(ins, base, i, ins[i].syms[GlobalIn(ins[i].syms, n, 0)])
        invariant found != i ==> GlobalIn(ins[i].syms, n, 0) == GlobalIn(ins[i].syms, n, j)
        invariant before != -1 ==> found == before
        invariant before != -1 ==> addr == SymAddr(ins, base, found, ins[found].syms[GlobalIn(ins[found].syms, n, 0)])
      {
        var s := ins[i].syms[j];
        if Exports(s, n) {
          if found == -1 {
            found, addr := i, SymAddr(ins, base, i, s);
          } else if found != i {
            return None;
          }
        }
      }
    }
    if found != -1 {
      return Some(addr);
    }
    for i := 0 to |ins|
      invariant Definer(ins, n, 0) == Definer(ins, n, i)
    {
      for j := 0 to |ins[i].syms|
        invariant AnyIn(ins[i].syms, n, 0) == AnyIn(ins[i].syms, n, j)
      {
        if Defines(ins[i].syms[j], n) {
          return Some(SymAddr(ins, base, i, ins[i].syms[j]));
        }
      }
    }
    return None;
  }

  /** `wr32` into the image buffer. */
  method Store32(image: array<Byte>, off: nat, w: Word)
    requires off + 4 <= image.Length
    modifies image
    ensures image[..] == Splice(old(image[..]), off, w)
  {
    image[off], image[off + 1], image[off + 2], image[off + 3] := w[0], w[1], w[2], w[3];
  }

  /** The `memcpy` loop that lays the payloads end to end. */
  method CopyPayloads(ins: seq<Input>, image: array<Byte>)
    requires image.Length == ImageOff(ins, |ins|)
    modifies image
    ensures image[..] == Payloads(ins, |ins|)
  {
    for i := 0 to |ins|
      invariant ImageOff(ins, i) <= image.Length
      invariant image[..ImageOff(ins, i)] == Payloads(ins, i)
    {
      var off := ImageOff(ins, i);
      OffMonotone(ins, i + 1, |ins|);
      for j := 0 to |ins[i].payload|
        invariant image[..off] == Payloads(ins, i)
        invariant image[off..off + j] == ins[i].payload[..j]
      {
        image[off + j] := ins[i].payload[j];
      }
      assert image[..ImageOff(ins, i + 1)] == image[..off] + image[off..off + |ins[i].payload|];
    }
    assert image[..] == image[..ImageOff(ins, |ins|)];
  }

  /** One relocation: range check, symbol, value, store. */
  method PatchOne(ins: seq<Input>, base: int, i: nat, r: Rel, image: array<Byte>) returns (done: Attempt<()>)
    requires AllOk(ins) && i < |ins| && image.Length == ImageOff(ins, |ins|)
    modifies image
    ensures match RelWrite(ins, base, i, r)
            case Done(w) => done.Done? && image[..] == Splice(old(image[..]), w.off, w.word)
            case Refused => done.Refused?
            case Stray => done.Stray?
  {
    if r.sec > SEC_DATA || Add32(PlaceOf(ins[i], r), 4) > |ins[i].payload| || r.sym >= |ins[i].syms| {
      return Refused;
    }
    var s, addr := ins[i].syms[r.sym], None;
    if s.sec.Some? {
      addr := Some(SymAddr(ins, base, i, s));
    } else {
      addr := FindExtern(ins, base, s.name);
    }
    if addr.None? {
      return Refused;
    }
    var off, value := OffOf(ins, i, r), addr.value + r.addend;
    if off + 4 > image.Length {
      return Stray;
    }
    Store32(image, off, Le32(if r.kind.Abs32? then value else value - (base + off + 4)));
    return Done(());
  }

  lemma ApplySnoc(s: seq<Byte>, ws: seq<Write>, w: Write)
    requires Inside(ws, |s|) && w.off + 4 <= |s|
    ensures Inside(ws + [w], |s|) && Apply(s, ws + [w]) == Splice(Apply(s, ws), w.off, w.word)
  {
    ApplyConcat(s, ws, [w]);
  }

  /** The relocation loop of one input. */
  method PatchInput(ins: seq<Input>, base: int, i: nat, image: array<Byte>) returns (done: Attempt<()>)
    requires AllOk(ins) && i < |ins| && image.Length == ImageOff(ins, |ins|)
    modifies image
    ensures match InputWrites(ins, base, i, 0)
            case Done(ws) => done.Done? && Inside(ws, image.Length) && image[..] == Apply(old(image[..]), ws)
            case Refused => done.Refused?
            case Stray => done.Stray?
  {
    ghost var start, sofar: seq<Write> := image[..], [];
    ResumesStart(InputWrites(ins, base, i, 0));
    for k := 0 to |ins[i].rels|
      invariant Inside(sofar, |start|) && image[..] == Apply(start, sofar)
      invariant Resumes(InputWrites(ins, base, i, 0), sofar, InputWrites(ins, base, i, k))
    {
      done := PatchOne(ins, base, i, ins[i].rels[k], image);
      if !done.Done? {
        return;
      }
      ghost var w := RelWrite(ins, base, i, ins[i].rels[k]).value;
      ApplySnoc(start, sofar, w);
      ResumesStep(InputWrites(ins, base, i, 0), sofar, [w], InputWrites(ins, base, i, k),
                  InputWrites(ins, base, i, k + 1));
      sofar := sofar + [w];
    }
    assert sofar + [] == sofar;
    return Done(());
  }

  /** The linker's main part: lay out the payloads and run every relocation over the image. */
  method LinkInputs(ins: seq<Input>, base: int) returns (r: Attempt<seq<Byte>>)
    requires EachOk(ins)
    ensures r == Link(ins, base)
  {
    if ImageOff(ins, |ins|) >= TWO32 {
      return Stray;
    }
    var image := new Byte[ImageOff(ins, |ins|)];
    CopyPayloads(ins, image);
    ghost var start, sofar: seq<Write> := image[..], [];
    ResumesStart(AllWrites(ins, base, 0));
    for i := 0 to |ins|
      invariant Inside(sofar, |start|) && image[..] == Apply(start, sofar)
      invariant Resumes(AllWrites(ins, base, 0), sofar, AllWrites(ins, base, i))
    {
      var done := PatchInput(ins, base, i, image);
      if !done.Done? {
        return if done.Refused? then Refused else Stray;
      }
      ghost var ws := InputWrites(ins, base, i, 0).value;
      ApplyConcat(start, sofar, ws);
      ResumesStep(AllWrites(ins, base, 0), sofar, ws, AllWrites(ins, base, i), AllWrites(ins, base, i + 1));
      sofar := sofar + ws;
    }
    assert sofar + [] == sofar;
    return Done(image[..]);
  }

  // ---- memory of several inputs ------------------------------------------------------------------

  /** Input `i` has a byte of its payload or of its .bss at `x`, counting from the base.  Payloads follow each
      other; each .bss starts where its own payload ends. */
  ghost predicate Occupies(ins: seq<Input>, i: nat, x: int)
    requires i < |ins|
  {
    ImageOff(ins, i) <= x < ImageOff(ins, i) + |ins[i].payload| + ins[i].bssSize
  }

  ghost predicate SharesNoByte(ins: seq<Input>) {
    forall i: nat, j: nat, x: int :: i < j < |ins| && Occupies(ins, i, x) ==> !Occupies(ins, j, x)
  }

  predicate TakesMemory(input: Input) { input.payload != [] || input.bssSize > 0 }

  /** Only the last input that takes up memory has a .bss. */
  ghost predicate OnlyLastHasBss(ins: seq<Input>) {
    forall i: nat, j: nat :: i < j < |ins| && TakesMemory(ins[j]) ==> ins[i].bssSize == 0
  }

  /** The first input behind `i` that takes up memory starts where the payload of `i` ends. */
  lemma {:induction false} FirstTaker(ins: seq<Input>, i: nat, j: nat) returns (k: nat)
    requires i < j < |ins| && TakesMemory(ins[j])
    ensures i < k <= j && TakesMemory(ins[k]) && ImageOff(ins, k) == ImageOff(ins, i + 1)
    decreases j - i
  {
    if m: nat :| i < m < j && TakesMemory(ins[m]) {
      k := FirstTaker(ins, i, m);
    } else {
      NothingBetween(ins, i + 1, j);
      k := j;
    }
  }

  lemma {:induction false} NothingBetween(ins: seq<Input>, i: nat, j: nat)
    requires i <= j <= |ins| && forall m: nat :: i <= m < j ==> !TakesMemory(ins[m])
    ensures ImageOff(ins, j) == ImageOff(ins, i)
    decreases j
  {
    if i < j {
      NothingBetween(ins, i, j - 1);
      assert !TakesMemory(ins[j - 1]);
    }
  }

  lemma SharedByte(ins: seq<Input>, i: nat, j: nat)
    requires i < j < |ins| && TakesMemory(ins[j]) && ins[i].bssSize > 0
    ensures !SharesNoByte(ins)
  {
    var k := FirstTaker(ins, i, j);
    assert Occupies(ins, i, ImageOff(ins, k)) && Occupies(ins, k, ImageOff(ins, k));
  }

  /** No two inputs share a byte of memory exactly when only the last one that takes up memory has a .bss. */
  lemma MemoryExact(ins: seq<Input>)
    ensures SharesNoByte(ins) <==> OnlyLastHasBss(ins)
  {
    if i: nat, j: nat :| i < j < |ins| && TakesMemory(ins[j]) && ins[i].bssSize != 0 {
      SharedByte(ins, i, j);
    } else {
      forall i: nat, j: nat, x: int | i < j < |ins| && Occupies(ins, i, x)
        ensures !Occupies(ins, j, x)
      {
        OffMonotone(ins, i + 1, j);
      }
    }
  }

  /** Two objects, the first with a variable in .bss: it is at the address of the second one's first byte. */
  lemma BssUnderNext(base: int, a: Input, b: Input)
    requires a == Input([0xC3], 4, [0, 1, 1, 1], [Sym("v", 0, Some(SEC_BSS), true)], [])
    requires b == Input([0xC3], 0, [0, 1, 1, 1], [Sym("f", 0, Some(SEC_TEXT), true)], [])
    ensures AllOk([a, b]) && Link([a, b], base) == Done([0xC3, 0xC3])
    ensures SymAddr([a, b], base, 0, a.syms[0]) == SymAddr([a, b], base, 1, b.syms[0])
    ensures !SharesNoByte([a, b])
  {
    var ins := [a, b];
    assert ImageOff(ins, 1) == 1 && ImageOff(ins, 2) == 2;
    var none: seq<Write> := [];
    assert none + none == none;
    assert AllWrites(ins, base, 2) == Done(none) && InputWrites(ins, base, 1, 0) == Done(none);
    assert AllWrites(ins, base, 1) == Done(none) && InputWrites(ins, base, 0, 0) == Done(none);
    assert Payloads(ins, 1) == [0xC3] && Payloads(ins, 2) == [0xC3, 0xC3];
    assert ins[0].bssSize == 4 && TakesMemory(ins[1]);
    SharedByte(ins, 0, 1);
  }
}
