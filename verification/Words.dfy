/** Machine words as the C sources use them: bytes, wrapping 32-bit arithmetic and
    little-endian fields.  Integers are unbounded here, so every wrap-around is written out. */
module Words {
  type Byte = b: int | 0 <= b < 256
  type Int32 = x: int | -0x8000_0000 <= x < 0x8000_0000

  const TWO32: int := 0x1_0000_0000

  /** An `unsigned int`. */
  type Addr32 = x: int | 0 <= x < TWO32

  /** The value of `x` as an `unsigned int`. */
  function U32(x: int): (r: int)
    ensures 0 <= r < TWO32
  {
    x % TWO32
  }

  /** The sum of two words as an `unsigned int`. */
  function Add32(a: Addr32, b: Addr32): (r: Addr32) {
    if a + b < TWO32 then a + b else a + b - TWO32
  }

  /** The value of `x` reinterpreted as an `int`. */
  function S32(x: int): (r: Int32)
    ensures U32(r) == U32(x)
  {
    var u := x % TWO32;
    if u < 0x8000_0000 then u else u - TWO32
  }

  /** The `n` low bytes of `v`, lowest first. */
  function LeBytes(v: int, n: nat): (r: seq<Byte>)
    ensures |r| == n
    decreases n, v
  {
    if n == 0 then [] else [v % 256] + LeBytes(v / 256, n - 1)
  }

  /** The four bytes `emit32` / `wr32` store for `v`. */
  function Le32(v: int): (r: seq<Byte>)
    ensures |r| == 4
  {
    LeBytes(U32(v), 4)
  }

  function Le16(v: int): (r: seq<Byte>)
    ensures |r| == 2
  {
    [v % 256, v / 256 % 256]
  }

  /** The word `rd32` reads at `off`. */
  function Rd32(s: seq<Byte>, off: nat): (r: int)
    requires off + 4 <= |s|
    ensures 0 <= r < TWO32
  {
    var b0: int, b1: int, b2: int, b3: int := s[off], s[off + 1], s[off + 2], s[off + 3];
    b0 + 0x100 * b1 + 0x1_0000 * b2 + 0x100_0000 * b3
  }

  /** Reading back a stored word gives its value modulo 2^32. */
  lemma RdLe32(v: int)
    ensures Rd32(Le32(v), 0) == U32(v)
  {
    var u := U32(v);
    var w := Le32(v);
    LeBytesAt(u, 4);
    LeBytesAt(u / 0x100, 3);
    LeBytesAt(u / 0x100 / 0x100, 2);
    LeBytesAt(u / 0x100 / 0x100 / 0x100, 1);
    assert w == [u % 256] + LeBytes(u / 0x100, 3);
    assert w[1..] == LeBytes(u / 0x100, 3);
    assert w[2..] == LeBytes(u / 0x100 / 0x100, 2);
    assert w[3..] == LeBytes(u / 0x100 / 0x100 / 0x100, 1);
  }

  lemma LeBytesAt(v: int, n: nat)
    requires n > 0
    ensures LeBytes(v, n)[0] == v % 256 && LeBytes(v, n)[1..] == LeBytes(v / 256, n - 1)
  {
  }

  lemma S32OfU32(v: Int32)
    ensures S32(U32(v)) == v
  {
  }

  /** Adding to a reinterpreted word is adding to the word, modulo 2^32. */
  lemma U32AddS32(x: int, d: int)
    ensures U32(S32(x) + d) == U32(x + d)
  {
    var k := x / TWO32;
    assert x % TWO32 == x - k * TWO32;
    var q := if x % TWO32 < 0x8000_0000 then k else k + 1;
    assert S32(x) == x - q * TWO32;
    U32Shift(x + d, -q);
  }

  lemma U32Shift(x: int, k: int)
    ensures U32(x + k * TWO32) == U32(x)
  {
    var q, r := x / TWO32, x % TWO32;
    assert x + k * TWO32 == (q + k) * TWO32 + r;
  }

  function Zeros(n: nat): (r: seq<Byte>)
    ensures |r| == n && forall i :: 0 <= i < n ==> r[i] == 0
  {
    seq(n, i => 0)
  }
}

/** Lengths of runs of equal pieces.  Products of two variables are written as repeated addition, so
    that proofs about offsets stay linear. */
module Spans {
  /** `n * w` */
  function Span(n: nat, w: nat): nat {
    if n == 0 then 0 else Span(n - 1, w) + w
  }

  lemma {:induction false} SpanIsProduct(n: nat, w: nat)
    ensures Span(n, w) == n * w
    decreases n
  {
    if n > 0 {
      SpanIsProduct(n - 1, w);
      assert n * w == (n - 1) * w + w;
    }
  }

  lemma {:induction false} SpanBelow(i: nat, j: nat, w: nat)
    requires i < j
    ensures Span(i, w) + w <= Span(j, w)
    decreases j
  {
    if i < j - 1 { SpanBelow(i, j - 1, w); }
  }

  lemma SpanAtMost(i: nat, j: nat, w: nat)
    requires i <= j
    ensures Span(i, w) <= Span(j, w)
  {
    if i < j { SpanBelow(i, j, w); }
  }

  lemma SpanOrder(i: nat, j: nat, w: nat)
    requires Span(i, w) < Span(j, w)
    ensures i < j
  {
    if j <= i { SpanAtMost(j, i, w); }
  }

  /** An offset names its piece and the place inside it in one way only. */
  lemma SpanUnique(i: nat, r: nat, j: nat, q: nat, w: nat)
    requires r < w && q < w && Span(i, w) + r == Span(j, w) + q
    ensures i == j && r == q
  {
    if i < j {
      SpanBelow(i, j, w);
    } else if j < i {
      SpanBelow(j, i, w);
    }
  }

  /** Division and remainder find piece and place. */
  lemma SpanOf(p: nat, w: nat)
    requires w > 0
    ensures 0 <= p / w && 0 <= p % w < w && p == Span(p / w, w) + p % w
  {
    SpanIsProduct(p / w, w);
  }

  lemma SpanIndexAtMost(p: nat, n: nat, w: nat)
    requires w > 0 && p <= Span(n, w)
    ensures p / w <= n && 0 <= p % w < w && p == Span(p / w, w) + p % w
  {
    SpanOf(p, w);
    SpanOrder(p / w, n + 1, w);
  }

  lemma SpanIndex(p: nat, n: nat, w: nat)
    requires w > 0 && p < Span(n, w)
    ensures p / w < n && p == Span(p / w, w) + p % w
  {
    SpanOf(p, w);
    SpanOrder(p / w, n, w);
  }
}

module Options {
  datatype Option<+T> = None | Some(value: T)

  /** What a program that trusts its arithmetic can come to: a result, a refusal with a message, or
      an access outside its buffers. */
  datatype Attempt<+T> = Done(value: T) | Refused | Stray

  function Prepend<T>(xs: seq<T>, rest: Attempt<seq<T>>): Attempt<seq<T>> {
    if rest.Done? then Done(xs + rest.value) else rest
  }

  /** A loop that collects `all` has collected `done`; `rest` remains, and ends as `all` does. */
  ghost predicate Resumes<T>(all: Attempt<seq<T>>, done: seq<T>, rest: Attempt<seq<T>>) {
    all == Prepend(done, rest)
  }

  lemma ResumesStart<T>(all: Attempt<seq<T>>)
    ensures Resumes(all, [], all)
  {
    if all.Done? { assert [] + all.value == all.value; }
  }

  lemma ResumesStep<T>(all: Attempt<seq<T>>, done: seq<T>, xs: seq<T>, rest: Attempt<seq<T>>, next: Attempt<seq<T>>)
    requires Resumes(all, done, rest) && rest == Prepend(xs, next)
    ensures Resumes(all, done + xs, next)
  {
    if next.Done? {
      assert done + (xs + next.value) == (done + xs) + next.value;
    }
  }
}
