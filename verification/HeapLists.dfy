/** The records liballoc keeps in its heap: majors, and inside each major the minors in address order. */
module HeapLists {

  const HEAP_START: nat := 0xC050_0000
  const HEAP_END: nat := 0xC070_0000

  /** `struct liballoc_major`; address 0 is NULL. */
  datatype Major = Major(prev: nat, next: nat, pages: nat, size: nat, usage: nat, first: nat)

  /** `struct liballoc_minor`; `live` is the magic number. */
  datatype Minor = Minor(prev: nat, next: nat, block: nat, live: bool, size: nat, req: nat)

  /** The heap's contents: the records at their addresses and the alignment bytes at theirs. */
  datatype Memory = Memory(majors: map<nat, Major>, minors: map<nat, Minor>, marks: map<nat, nat>)

  // ---- ALIGN and UNALIGN -----------------------------------------------------------------------

  /** The user pointer `ALIGN` makes of the address behind the minor header at `k`. */
  function Pointer(k: nat): (p: nat)
    ensures p % 16 == 0 && k + 40 <= p <= k + 55
  {
    var q := k + 24 + 16;
    if q % 16 == 0 then q else q + (16 - q % 16)
  }

  /** Where `ALIGN` leaves its note. */
  function MarkAt(k: nat): nat { Pointer(k) - 16 }

  /** The note: how far the pointer is from the end of the header. */
  function MarkOf(k: nat): nat { Pointer(k) - (k + 24) }

  /** `UNALIGN` and the step back over the header, from the note at `p - 16`. */
  function Unaligned(p: nat, mark: nat): int {
    (if mark < 32 then p - mark else p) - 24
  }

  /** `UNALIGN` finds the minor `ALIGN` started from, and the note fits a `char`. */
  lemma UnalignInverts(k: nat)
    ensures Unaligned(Pointer(k), MarkOf(k)) == k && MarkOf(k) < 128
  {
  }

  // ---- one major's minors -------------------------------------------------------------------------

  function NextOf(ks: seq<nat>): nat { if |ks| > 1 then ks[1] else 0 }
  function FirstOf(ks: seq<nat>): nat { if |ks| > 0 then ks[0] else 0 }

  /** `ks` are the minors of major `m` from address `lo` on, the one before them being `prev`: linked
      both ways, in address order, none reaching into the next or past `hi`. */
  ghost predicate Row(mem: Memory, m: nat, prev: nat, lo: nat, hi: nat, ks: seq<nat>)
    decreases |ks|
  {
    if ks == [] then lo <= hi
    else
      && var k := ks[0];
      && lo <= k && k in mem.minors
      && var r := mem.minors[k];
      && r == Minor(prev, NextOf(ks), m, true, r.req + 32, r.req)
      && MarkAt(k) in mem.marks && mem.marks[MarkAt(k)] == MarkOf(k)
      && Row(mem, m, k, k + 24 + r.size, hi, ks[1..])
  }

  function SizeOf(mem: Memory, k: nat): nat { if k in mem.minors then mem.minors[k].size else 0 }
  function ReqOf(mem: Memory, k: nat): nat { if k in mem.minors then mem.minors[k].req else 0 }

  /** Headers and contents together. */
  ghost function Sum(mem: Memory, ks: seq<nat>): nat
    decreases |ks|
  {
    if ks == [] then 0 else 24 + SizeOf(mem, ks[0]) + Sum(mem, ks[1..])
  }

  /** The user blocks: pointer to requested size. */
  ghost function RowLive(mem: Memory, ks: seq<nat>): map<nat, nat>
    decreases |ks|
  {
    if ks == [] then map[] else RowLive(mem, ks[1..])[Pointer(ks[0]) := ReqOf(mem, ks[0])]
  }

  function EndOf(mem: Memory, k: nat): nat { k + 24 + SizeOf(mem, k) }

  /** The record at index `i` and its place. */
  lemma {:induction false} RowAt(mem: Memory, m: nat, prev: nat, lo: nat, hi: nat, ks: seq<nat>, i: nat)
    requires Row(mem, m, prev, lo, hi, ks) && i < |ks|
    ensures ks[i] in mem.minors
    ensures var r := mem.minors[ks[i]];
            && r == Minor(if i == 0 then prev else ks[i - 1], if i + 1 < |ks| then ks[i + 1] else 0,
                          m, true, r.req + 32, r.req)
            && lo <= ks[i] && EndOf(mem, ks[i]) <= (if i + 1 < |ks| then ks[i + 1] else hi) <= hi
            && MarkAt(ks[i]) in mem.marks && mem.marks[MarkAt(ks[i])] == MarkOf(ks[i])
    decreases |ks|
  {
    if i > 0 {
      RowAt(mem, m, ks[0], EndOf(mem, ks[0]), hi, ks[1..], i - 1);
    } else {
      RowEnd(mem, m, ks[0], EndOf(mem, ks[0]), hi, ks[1..]);
    }
  }

  lemma {:induction false} RowEnd(mem: Memory, m: nat, prev: nat, lo: nat, hi: nat, ks: seq<nat>)
    requires Row(mem, m, prev, lo, hi, ks)
    ensures lo <= (if ks == [] then hi else ks[0]) <= hi
    decreases |ks|
  {
    if ks != [] { RowEnd(mem, m, ks[0], EndOf(mem, ks[0]), hi, ks[1..]); }
  }

  /** Minors do not overlap. */
  lemma {:induction false} RowApart(mem: Memory, m: nat, prev: nat, lo: nat, hi: nat, ks: seq<nat>, i: nat, j: nat)
    requires Row(mem, m, prev, lo, hi, ks) && i < j < |ks|
    ensures ks[i] in mem.minors && ks[j] in mem.minors && EndOf(mem, ks[i]) <= ks[j]
    decreases |ks|
  {
    if i > 0 {
      RowApart(mem, m, ks[0], EndOf(mem, ks[0]), hi, ks[1..], i - 1, j - 1);
    } else {
      RowAt(mem, m, ks[0], EndOf(mem, ks[0]), hi, ks[1..], j - 1);
    }
  }

  /** Minor `k` and its note are the same in both memories. */
  ghost predicate Same(mem: Memory, to: Memory, k: nat) {
    && k in mem.minors && k in to.minors && to.minors[k] == mem.minors[k]
    && MarkAt(k) in mem.marks && MarkAt(k) in to.marks && to.marks[MarkAt(k)] == mem.marks[MarkAt(k)]
  }

  ghost predicate AllSame(mem: Memory, to: Memory, ks: seq<nat>)
    decreases |ks|
  {
    ks == [] || (Same(mem, to, ks[0]) && AllSame(mem, to, ks[1..]))
  }

  /** Nothing changes for a row whose records do not. */
  lemma {:induction false} RowFrame(mem: Memory, to: Memory, m: nat, prev: nat, lo: nat, hi: nat, ks: seq<nat>)
    requires Row(mem, m, prev, lo, hi, ks) && AllSame(mem, to, ks)
    ensures Row(to, m, prev, lo, hi, ks)
    ensures Sum(to, ks) == Sum(mem, ks) && RowLive(to, ks) == RowLive(mem, ks)
    decreases |ks|
  {
    if ks != [] {
      RowFrame(mem, to, m, ks[0], EndOf(mem, ks[0]), hi, ks[1..]);
    }
  }

  /** A changed back link, and room below, at the front of a row. */
  lemma RowRelink(mem: Memory, to: Memory, m: nat, prev: nat, prev2: nat, lo: nat, lo2: nat, hi: nat, ks: seq<nat>)
    requires Row(mem, m, prev, lo, hi, ks) && lo2 <= (if ks == [] then hi else ks[0])
    requires ks != [] ==>
               ks[0] in to.minors && ks[0] in mem.minors && to.minors[ks[0]] == mem.minors[ks[0]].(prev := prev2)
    requires ks != [] ==>
               MarkAt(ks[0]) in to.marks && to.marks[MarkAt(ks[0])] == MarkOf(ks[0]) && AllSame(mem, to, ks[1..])
    ensures Row(to, m, prev2, lo2, hi, ks)
    ensures Sum(to, ks) == Sum(mem, ks) && RowLive(to, ks) == RowLive(mem, ks)
  {
    if ks != [] {
      RowFrame(mem, to, m, ks[0], EndOf(mem, ks[0]), hi, ks[1..]);
    }
  }

  // ---- changing a row ------------------------------------------------------------------------------

  /** The two memories differ at most in the minors of `s` and in the note at `x`. */
  ghost predicate Outside(mem: Memory, to: Memory, s: set<nat>, x: nat) {
    && (forall k :: k in mem.minors && k !in s ==> k in to.minors && to.minors[k] == mem.minors[k])
    && (forall q :: q in mem.marks && q != x ==> q in to.marks && to.marks[q] == mem.marks[q])
  }

  /** Changes outside a row's addresses do not reach it. */
  lemma {:induction false} RowUntouched(mem: Memory, to: Memory, s: set<nat>, x: nat, m: nat, prev: nat, lo: nat,
                                        hi: nat, ks: seq<nat>)
    requires Row(mem, m, prev, lo, hi, ks) && Outside(mem, to, s, x)
    requires (forall k :: k in s ==> k < lo || hi <= k) && (x < lo || hi <= x)
    ensures AllSame(mem, to, ks)
    decreases |ks|
  {
    if ks != [] {
      RowAt(mem, m, prev, lo, hi, ks, 0);
      RowUntouched(mem, to, s, x, m, ks[0], EndOf(mem, ks[0]), hi, ks[1..]);
    }
  }

  /** `to` has minor `a` linked in before index `i`. */
  ghost predicate InsertedAt(mem: Memory, to: Memory, ks: seq<nat>, i: nat, a: nat)
    decreases |ks|
  {
    if ks == [] then true
    else
      && var k := ks[0];
      && k in mem.minors && k in to.minors && MarkAt(k) in to.marks && to.marks[MarkAt(k)] == MarkOf(k)
      && if i == 0 then
           to.minors[k] == mem.minors[k].(prev := a) && AllSame(mem, to, ks[1..])
         else
           to.minors[k] == (if i == 1 then mem.minors[k].(next := a) else mem.minors[k])
           && InsertedAt(mem, to, ks[1..], i - 1, a)
  }

  /** `ks` with `a` put in at index `i`. */
  function With(ks: seq<nat>, i: nat, a: nat): seq<nat>
    requires i <= |ks|
  {
    ks[..i] + [a] + ks[i..]
  }

  lemma WithParts(ks: seq<nat>, i: nat, a: nat)
    requires i <= |ks|
    ensures var row := With(ks, i, a);
            && |row| == |ks| + 1
            && (i == 0 ==> row[0] == a && row[1..] == ks)
            && (i > 0 ==> row[0] == ks[0] && row[1..] == With(ks[1..], i - 1, a))
    ensures NextOf(With(ks, i, a)) == if i == 0 then FirstOf(ks) else if i == 1 then a else NextOf(ks)
  {
  }

  /** The free stretch before index `i` of a row. */
  ghost predicate Gap(mem: Memory, lo: nat, hi: nat, ks: seq<nat>, i: nat, a: nat, len: nat)
    requires i <= |ks|
  {
    (if i == 0 then lo else EndOf(mem, ks[i - 1])) <= a && a + len <= (if i == |ks| then hi else ks[i])
  }

  lemma {:induction false} InsertTouches(mem: Memory, to: Memory, s: set<nat>, m: nat, prev: nat, lo: nat, hi: nat,
                                         ks: seq<nat>, i: nat, a: nat)
    requires Row(mem, m, prev, lo, hi, ks) && i <= |ks| && Gap(mem, lo, hi, ks, i, a, 56)
    requires Outside(mem, to, s, MarkAt(a))
    requires forall k :: k in s ==> k < lo || k == a || (i > 0 && k == ks[i - 1]) || (i < |ks| && k == ks[i])
    requires i > 0 ==> ks[i - 1] in mem.minors && ks[i - 1] in to.minors
    requires i > 0 ==> to.minors[ks[i - 1]] == mem.minors[ks[i - 1]].(next := a)
    requires i < |ks| ==> ks[i] in mem.minors && ks[i] in to.minors && to.minors[ks[i]] == mem.minors[ks[i]].(prev := a)
    ensures InsertedAt(mem, to, ks, i, a)
    decreases |ks|
  {
    if ks != [] {
      RowAt(mem, m, prev, lo, hi, ks, 0);
      if i == 0 {
        RowUntouched(mem, to, s, MarkAt(a), m, ks[0], EndOf(mem, ks[0]), hi, ks[1..]);
      } else {
        if i > 1 { RowApart(mem, m, prev, lo, hi, ks, 0, i - 1); }
        if i < |ks| { RowApart(mem, m, prev, lo, hi, ks, 0, i); }
        InsertTouches(mem, to, s, m, ks[0], EndOf(mem, ks[0]), hi, ks[1..], i - 1, a);
      }
    }
  }

  /** Linking in a minor gives a row, with its bytes counted and its user block live. */
  lemma {:induction false} RowInsert(mem: Memory, to: Memory, m: nat, prev: nat, lo: nat, hi: nat, ks: seq<nat>,
                                     i: nat, a: nat, req: nat)
    requires Row(mem, m, prev, lo, hi, ks) && i <= |ks|
    requires Gap(mem, lo, hi, ks, i, a, 56 + req) && InsertedAt(mem, to, ks, i, a)
    requires a in to.minors && MarkAt(a) in to.marks && to.marks[MarkAt(a)] == MarkOf(a)
    requires to.minors[a] == Minor(if i == 0 then prev else ks[i - 1], if i < |ks| then ks[i] else 0,
                                   m, true, req + 32, req)
    ensures Row(to, m, prev, lo, hi, With(ks, i, a))
    ensures Sum(to, With(ks, i, a)) == Sum(mem, ks) + 56 + req
    ensures RowLive(to, With(ks, i, a)) == RowLive(mem, ks)[Pointer(a) := req]
    decreases |ks|
  {
    var row := With(ks, i, a);
    WithParts(ks, i, a);
    if i == 0 {
      RowRelink(mem, to, m, prev, a, lo, a + 56 + req, hi, ks);
    } else {
      RowAt(mem, m, prev, lo, hi, ks, 0);
      RowInsert(mem, to, m, ks[0], EndOf(mem, ks[0]), hi, ks[1..], i - 1, a, req);
      PointersApart(mem, m, prev, lo, hi, ks, i, a);
      UpdatesCommute(RowLive(mem, ks[1..]), Pointer(a), req, Pointer(ks[0]), ReqOf(mem, ks[0]));
    }
  }

  lemma UpdatesCommute(m: map<nat, nat>, a: nat, x: nat, b: nat, y: nat)
    requires a != b
    ensures m[a := x][b := y] == m[b := y][a := x]
  {
  }

  lemma PointersApart(mem: Memory, m: nat, prev: nat, lo: nat, hi: nat, ks: seq<nat>, i: nat, a: nat)
    requires Row(mem, m, prev, lo, hi, ks) && 0 < i <= |ks| && EndOf(mem, ks[i - 1]) <= a
    ensures Pointer(ks[0]) != Pointer(a)
  {
    RowAt(mem, m, prev, lo, hi, ks, 0);
    if i > 1 { RowApart(mem, m, prev, lo, hi, ks, 0, i - 1); }
  }

  /** `ks` without index `i`. */
  function Without(ks: seq<nat>, i: nat): seq<nat>
    requires i < |ks|
  {
    ks[..i] + ks[i + 1..]
  }

  lemma WithoutParts(ks: seq<nat>, i: nat)
    requires i < |ks|
    ensures i == 0 ==> Without(ks, i) == ks[1..]
    ensures i > 0 ==> |Without(ks, i)| > 0 && Without(ks, i)[0] == ks[0]
    ensures i > 0 ==> Without(ks, i)[1..] == Without(ks[1..], i - 1)
    ensures i > 0 ==> NextOf(Without(ks, i)) == if i == 1 then NextOf(ks[1..]) else NextOf(ks)
  {
  }

  /** `to` has the minor at index `i` unlinked; `prev` stands before the row. */
  ghost predicate RemovedAt(mem: Memory, to: Memory, prev: nat, ks: seq<nat>, i: nat)
    requires i < |ks|
    decreases |ks|
  {
    if i == 0 then
      ks[1..] != [] ==>
        && var n := ks[1];
        && n in mem.minors && n in to.minors && to.minors[n] == mem.minors[n].(prev := prev)
        && MarkAt(n) in to.marks && to.marks[MarkAt(n)] == MarkOf(n) && AllSame(mem, to, ks[1..][1..])
    else
      && var k := ks[0];
      && k in mem.minors && k in to.minors && MarkAt(k) in to.marks && to.marks[MarkAt(k)] == MarkOf(k)
      && to.minors[k] == (if i == 1 then mem.minors[k].(next := NextOf(ks[1..])) else mem.minors[k])
      && RemovedAt(mem, to, k, ks[1..], i - 1)
  }

  lemma {:induction false} RemoveTouches(mem: Memory, to: Memory, s: set<nat>, x: nat, m: nat, prev: nat, lo: nat,
                                         hi: nat, ks: seq<nat>, i: nat)
    requires Row(mem, m, prev, lo, hi, ks) && i < |ks| && Outside(mem, to, s, x) && x == MarkAt(ks[i])
    requires forall k :: k in s ==>
               k < lo || k == ks[i] || (i > 0 && k == ks[i - 1]) || (i + 1 < |ks| && k == ks[i + 1])
    requires i > 0 ==> ks[i - 1] in mem.minors && ks[i - 1] in to.minors
                       && to.minors[ks[i - 1]] == mem.minors[ks[i - 1]].(next := if i + 1 < |ks| then ks[i + 1] else 0)
    requires i + 1 < |ks| ==> ks[i + 1] in mem.minors && ks[i + 1] in to.minors
                              && var p := if i == 0 then prev else ks[i - 1];
                              to.minors[ks[i + 1]] == mem.minors[ks[i + 1]].(prev := p)
    ensures RemovedAt(mem, to, prev, ks, i)
    decreases |ks|
  {
    RowAt(mem, m, prev, lo, hi, ks, 0);
    if i == 0 {
      if |ks| > 1 {
        RowAt(mem, m, prev, lo, hi, ks, 1);
        RowUntouched(mem, to, s, x, m, ks[1], EndOf(mem, ks[1]), hi, ks[1..][1..]);
      }
    } else {
      if i > 1 { RowApart(mem, m, prev, lo, hi, ks, 0, i - 1); }
      RowApart(mem, m, prev, lo, hi, ks, 0, i);
      if i + 1 < |ks| { RowApart(mem, m, prev, lo, hi, ks, 0, i + 1); }
      RemoveTouches(mem, to, s, x, m, ks[0], EndOf(mem, ks[0]), hi, ks[1..], i - 1);
    }
  }

  /** Unlinking a minor leaves a row without its bytes and its user block. */
  lemma {:induction false} RowRemove(mem: Memory, to: Memory, m: nat, prev: nat, lo: nat, hi: nat, ks: seq<nat>, i: nat)
    requires Row(mem, m, prev, lo, hi, ks) && i < |ks| && RemovedAt(mem, to, prev, ks, i)
    ensures Row(to, m, prev, lo, hi, Without(ks, i))
    ensures Sum(mem, ks) == Sum(to, Without(ks, i)) + 24 + SizeOf(mem, ks[i])
    ensures RowLive(to, Without(ks, i)) == RowLive(mem, ks) - {Pointer(ks[i])}
    decreases |ks|
  {
    WithoutParts(ks, i);
    RowAt(mem, m, prev, lo, hi, ks, 0);
    if i == 0 {
      RowRelink(mem, to, m, ks[0], prev, EndOf(mem, ks[0]), lo, hi, ks[1..]);
      NotLive(mem, m, ks[0], EndOf(mem, ks[0]), hi, ks[1..], Pointer(ks[0]));
      DropUpdated(RowLive(mem, ks[1..]), Pointer(ks[0]), ReqOf(mem, ks[0]));
    } else {
      RowRemove(mem, to, m, ks[0], EndOf(mem, ks[0]), hi, ks[1..], i - 1);
      RowApart(mem, m, prev, lo, hi, ks, 0, i);
      DropCommutes(RowLive(mem, ks[1..]), Pointer(ks[i]), Pointer(ks[0]), ReqOf(mem, ks[0]));
    }
  }

  lemma DropUpdated(m: map<nat, nat>, a: nat, x: nat)
    requires a !in m
    ensures m[a := x] - {a} == m
  {
  }

  lemma DropCommutes(m: map<nat, nat>, a: nat, b: nat, y: nat)
    requires a != b
    ensures (m - {a})[b := y] == m[b := y] - {a}
  {
  }

  /** A row's user blocks lie inside its addresses. */
  lemma {:induction false} NotLive(mem: Memory, m: nat, prev: nat, lo: nat, hi: nat, ks: seq<nat>, p: nat)
    requires Row(mem, m, prev, lo, hi, ks) && (p < lo || hi <= p)
    ensures p !in RowLive(mem, ks)
    decreases |ks|
  {
    if ks != [] {
      RowAt(mem, m, prev, lo, hi, ks, 0);
      NotLive(mem, m, ks[0], EndOf(mem, ks[0]), hi, ks[1..], p);
    }
  }

  /** A live pointer belongs to a minor of the row. */
  lemma {:induction false} LiveAt(mem: Memory, m: nat, prev: nat, lo: nat, hi: nat, ks: seq<nat>,
                                  p: nat) returns (i: nat)
    requires Row(mem, m, prev, lo, hi, ks) && p in RowLive(mem, ks)
    ensures i < |ks| && p == Pointer(ks[i]) && RowLive(mem, ks)[p] == ReqOf(mem, ks[i])
    decreases |ks|
  {
    if p == Pointer(ks[0]) {
      i := 0;
    } else {
      i := LiveAt(mem, m, ks[0], EndOf(mem, ks[0]), hi, ks[1..], p);
      i := i + 1;
    }
  }
}
