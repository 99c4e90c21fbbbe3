/** `malloc` and `free` of liballoc over the kernel's bump-allocated heap. */
module LiballocSteps {
  import opened HeapLists
  import opened HeapBlocks

  // ---- placing a minor -------------------------------------------------------------------------

  /** Memory after a minor at `a` for a request of `req` bytes has been linked between `prev` and
      `next` (either may be NULL) in major `m`, and its pointer aligned. */
  function Placed(mem: Memory, m: nat, prev: nat, next: nat, a: nat, req: nat): Memory
    requires m in mem.majors && (prev != 0 ==> prev in mem.minors) && (next != 0 ==> next in mem.minors)
  {
    var r := mem.majors[m];
    var with := mem.minors[a := Minor(prev, next, m, true, req + 32, req)];
    var back := if prev == 0 then with else with[prev := mem.minors[prev].(next := a)];
    var both := if next == 0 then back else back[next := mem.minors[next].(prev := a)];
    Memory(mem.majors[m := r.(usage := r.usage + req + 32 + 24, first := if prev == 0 then a else r.first)],
           both, mem.marks[MarkAt(a) := MarkOf(a)])
  }

  /** A place for a new minor: before index `i` of the row of the major at index `j`. */
  ghost predicate Spot(mem: Memory, list: seq<Block>, j: nat, i: nat, prev: nat, next: nat, a: nat, req: nat) {
    && j < |list| && i <= |list[j].ks|
    && var m, ks := list[j].at, list[j].ks;
    && m in mem.majors && Gap(mem, m + 24, m + mem.majors[m].size, ks, i, a, 56 + req)
    && prev == (if i == 0 then 0 else ks[i - 1]) && next == (if i < |ks| then ks[i] else 0)
  }

  lemma SpotRow(mem: Memory, hi: nat, list: seq<Block>, j: nat, i: nat, prev: nat, next: nat, a: nat, req: nat)
    requires Heap(mem, 0, HEAP_START, hi, list) && Spot(mem, list, j, i, prev, next, a, req)
    ensures (prev != 0 ==> prev in mem.minors) && (next != 0 ==> next in mem.minors)
    ensures var m, ks, to := list[j].at, list[j].ks, Placed(mem, list[j].at, prev, next, a, req);
            && var end := m + mem.majors[m].size;
            && Row(mem, m, 0, m + 24, end, ks) && Row(to, m, 0, m + 24, end, With(ks, i, a))
            && Sum(to, With(ks, i, a)) == Sum(mem, ks) + 56 + req
            && RowLive(to, With(ks, i, a)) == RowLive(mem, ks)[Pointer(a) := req]
  {
    var m, ks := list[j].at, list[j].ks;
    var end := m + mem.majors[m].size;
    HeapAt(mem, 0, HEAP_START, hi, list, j);
    if i > 0 { RowAt(mem, m, 0, m + 24, end, ks, i - 1); }
    if i < |ks| { RowAt(mem, m, 0, m + 24, end, ks, i); }
    var to := Placed(mem, m, prev, next, a, req);
    InsertTouches(mem, to, {a, prev, next}, m, 0, m + 24, end, ks, i, a);
    RowInsert(mem, to, m, 0, m + 24, end, ks, i, a, req);
  }

  lemma PlaceTouches(mem: Memory, hi: nat, list: seq<Block>, j: nat, i: nat, prev: nat, next: nat, a: nat, req: nat,
                     s: set<nat>)
    requires Heap(mem, 0, HEAP_START, hi, list) && Spot(mem, list, j, i, prev, next, a, req)
    requires (prev != 0 ==> prev in mem.minors) && (next != 0 ==> next in mem.minors)
    requires s == {a} + (if prev == 0 then {} else {prev}) + (if next == 0 then {} else {next})
    ensures var m, to := list[j].at, Placed(mem, list[j].at, prev, next, a, req);
            && Outside(mem, to, s, MarkAt(a)) && MajorsOutside(mem, to, 0, {m})
            && (forall k :: k in s ==> m <= k < m + mem.majors[m].size) && m <= MarkAt(a) < m + mem.majors[m].size
            && m <= Pointer(a) < m + mem.majors[m].size
  {
    SpotInside(mem, hi, list, j, i, prev, next, a, req, list[j].at, list[j].at + mem.majors[list[j].at].size);
  }

  /** The new minor and its neighbours lie in the major. */
  lemma SpotInside(mem: Memory, hi: nat, list: seq<Block>, j: nat, i: nat, prev: nat, next: nat, a: nat, req: nat,
                   m: nat, end: nat)
    requires Heap(mem, 0, HEAP_START, hi, list) && Spot(mem, list, j, i, prev, next, a, req)
    requires m == list[j].at && end == m + mem.majors[m].size
    ensures (prev != 0 ==> m <= prev < end) && (next != 0 ==> m <= next < end)
    ensures m <= a && a + 56 <= end && m <= MarkAt(a) < end && m <= Pointer(a) < end
  {
    var ks := list[j].ks;
    HeapAt(mem, 0, HEAP_START, hi, list, j);
    RowEnd(mem, m, 0, m + 24, end, ks);
    if i > 0 { RowAt(mem, m, 0, m + 24, end, ks, i - 1); }
    if i < |ks| { RowAt(mem, m, 0, m + 24, end, ks, i); }
  }

  /** The major's own record after a placement. */
  lemma PlacedMajor(mem: Memory, hi: nat, list: seq<Block>, j: nat, i: nat, prev: nat, next: nat, a: nat, req: nat)
    requires Heap(mem, 0, HEAP_START, hi, list) && Spot(mem, list, j, i, prev, next, a, req)
    requires (prev != 0 ==> prev in mem.minors) && (next != 0 ==> next in mem.minors)
    ensures var m, row := list[j].at, With(list[j].ks, i, a);
            Placed(mem, m, prev, next, a, req).majors[m]
            == mem.majors[m].(usage := 24 + Sum(mem, list[j].ks) + 56 + req, first := FirstOf(row))
  {
    var m, ks := list[j].at, list[j].ks;
    HeapAt(mem, 0, HEAP_START, hi, list, j);
    FirstWith(ks, i, a);
    if i > 0 { RowAt(mem, m, 0, m + 24, m + mem.majors[m].size, ks, i - 1); }
  }

  lemma PlaceChanges(mem: Memory, hi: nat, list: seq<Block>, j: nat, i: nat, prev: nat, next: nat, a: nat, req: nat,
                     to: Memory, row: seq<nat>, s: set<nat>)
    requires Heap(mem, 0, HEAP_START, hi, list) && Spot(mem, list, j, i, prev, next, a, req)
    requires (prev != 0 ==> prev in mem.minors) && (next != 0 ==> next in mem.minors)
    requires to == Placed(mem, list[j].at, prev, next, a, req) && row == With(list[j].ks, i, a)
    requires s == {a} + (if prev == 0 then {} else {prev}) + (if next == 0 then {} else {next})
    ensures RowChanged(mem, to, s, MarkAt(a), list, j, row)
    ensures list[j].at <= Pointer(a) < list[j].at + MajorSize(mem, list[j].at)
    ensures RowLive(to, row) == RowLive(mem, list[j].ks)[Pointer(a) := req]
    ensures Sum(to, row) == Sum(mem, list[j].ks) + 56 + req
  {
    SpotRow(mem, hi, list, j, i, prev, next, a, req);
    PlaceTouches(mem, hi, list, j, i, prev, next, a, req, s);
    PlacedMajor(mem, hi, list, j, i, prev, next, a, req);
  }

  /** Placing a minor keeps the heap well formed, makes its block live and counts its bytes. */
  lemma PlaceKeeps(mem: Memory, hi: nat, list: seq<Block>, j: nat, i: nat, prev: nat, next: nat, a: nat, req: nat,
                   to: Memory, list2: seq<Block>)
    requires Heap(mem, 0, HEAP_START, hi, list) && Spot(mem, list, j, i, prev, next, a, req)
    requires (prev != 0 ==> prev in mem.minors) && (next != 0 ==> next in mem.minors)
    requires to == Placed(mem, list[j].at, prev, next, a, req)
    requires list2 == list[j := Block(list[j].at, With(list[j].ks, i, a))]
    ensures Heap(to, 0, HEAP_START, hi, list2) && Live(to, list2) == Live(mem, list)[Pointer(a) := req]
    ensures InUse(to, list2) == InUse(mem, list) + req + 32 && Allocated(to, list2) == Allocated(mem, list)
  {
    var ks, row := list[j].ks, With(list[j].ks, i, a);
    var s := {a} + (if prev == 0 then {} else {prev}) + (if next == 0 then {} else {next});
    PlaceChanges(mem, hi, list, j, i, prev, next, a, req, to, row, s);
    HeapChange(mem, to, s, MarkAt(a), 0, HEAP_START, hi, list, j, row);
    LiveAdd(mem, to, s, MarkAt(a), 0, HEAP_START, hi, list, j, row, Pointer(a), req);
    SumSplits(mem, ks);
    SumSplits(to, row);
    FirstWith(ks, i, a);
  }

  lemma FirstWith(ks: seq<nat>, i: nat, a: nat)
    requires i <= |ks|
    ensures |With(ks, i, a)| == |ks| + 1 && FirstOf(With(ks, i, a)) == if i == 0 then a else FirstOf(ks)
  {
  }

  // ---- taking a minor out ------------------------------------------------------------------------

  ghost predicate Linkable(mem: Memory, k: nat) {
    && k in mem.minors
    && var r := mem.minors[k];
    && r.block in mem.majors && r.size + 24 <= mem.majors[r.block].usage
    && (r.prev != 0 ==> r.prev in mem.minors) && (r.next != 0 ==> r.next in mem.minors)
  }

  /** Memory after `free` has marked the minor at `k` dead and unlinked it. */
  function Unlinked(mem: Memory, k: nat): Memory
    requires Linkable(mem, k)
  {
    var r := mem.minors[k];
    var dead := mem.minors[k := r.(live := false)];
    var fore := if r.next == 0 then dead else dead[r.next := mem.minors[r.next].(prev := r.prev)];
    var both := if r.prev == 0 then fore else fore[r.prev := mem.minors[r.prev].(next := r.next)];
    var maj := mem.majors[r.block];
    Memory(mem.majors[r.block := maj.(usage := maj.usage - (r.size + 24),
                                      first := if r.prev == 0 then r.next else maj.first)],
           both, mem.marks)
  }

  /** The minor at index `i` of the major at index `j`, with what its record says. */
  lemma MinorAt(mem: Memory, hi: nat, list: seq<Block>, j: nat, i: nat)
    requires Heap(mem, 0, HEAP_START, hi, list) && j < |list| && i < |list[j].ks|
    ensures var m, ks, k := list[j].at, list[j].ks, list[j].ks[i];
            && Linkable(mem, k) && m in mem.majors
            && mem.minors[k] == Minor(if i == 0 then 0 else ks[i - 1], if i + 1 < |ks| then ks[i + 1] else 0,
                                      m, true, mem.minors[k].req + 32, mem.minors[k].req)
            && (i > 0 ==> ks[i - 1] != 0) && (i + 1 < |ks| ==> ks[i + 1] != 0)
            && m + 24 <= k && EndOf(mem, k) <= m + mem.majors[m].size
            && MarkAt(k) in mem.marks && mem.marks[MarkAt(k)] == MarkOf(k)
  {
    var m, ks := list[j].at, list[j].ks;
    var end := m + MajorSize(mem, m);
    HeapAt(mem, 0, HEAP_START, hi, list, j);
    RowAt(mem, m, 0, m + 24, end, ks, i);
    if i > 0 { RowAt(mem, m, 0, m + 24, end, ks, i - 1); }
    if i + 1 < |ks| { RowAt(mem, m, 0, m + 24, end, ks, i + 1); }
    SumHas(mem, ks, i);
  }

  lemma {:induction false} SumHas(mem: Memory, ks: seq<nat>, i: nat)
    requires i < |ks|
    ensures 24 + SizeOf(mem, ks[i]) <= Sum(mem, ks)
    decreases |ks|
  {
    if i > 0 { SumHas(mem, ks[1..], i - 1); }
  }

  lemma UnlinkRow(mem: Memory, hi: nat, list: seq<Block>, j: nat, i: nat, to: Memory)
    requires Heap(mem, 0, HEAP_START, hi, list) && j < |list| && i < |list[j].ks|
    requires Linkable(mem, list[j].ks[i]) && to == Unlinked(mem, list[j].ks[i]) && list[j].at in mem.majors
    ensures var m, ks := list[j].at, list[j].ks;
            && Row(to, m, 0, m + 24, m + mem.majors[m].size, Without(ks, i))
            && Sum(mem, ks) == Sum(to, Without(ks, i)) + 24 + SizeOf(mem, ks[i])
            && RowLive(to, Without(ks, i)) == RowLive(mem, ks) - {Pointer(ks[i])}
  {
    var m, ks := list[j].at, list[j].ks;
    var end := m + mem.majors[m].size;
    MinorAt(mem, hi, list, j, i);
    HeapAt(mem, 0, HEAP_START, hi, list, j);
    if i > 0 { RowApart(mem, m, 0, m + 24, end, ks, i - 1, i); }
    if i + 1 < |ks| { RowApart(mem, m, 0, m + 24, end, ks, i, i + 1); }
    var r := mem.minors[ks[i]];
    RemoveTouches(mem, to, {ks[i], r.prev, r.next}, MarkAt(ks[i]), m, 0, m + 24, end, ks, i);
    RowRemove(mem, to, m, 0, m + 24, end, ks, i);
  }

  lemma UnlinkTouches(mem: Memory, hi: nat, list: seq<Block>, j: nat, i: nat, to: Memory, s: set<nat>)
    requires Heap(mem, 0, HEAP_START, hi, list) && j < |list| && i < |list[j].ks|
    requires Linkable(mem, list[j].ks[i]) && to == Unlinked(mem, list[j].ks[i]) && list[j].at in mem.majors
    requires var r := mem.minors[list[j].ks[i]];
             s == {list[j].ks[i]} + (if r.prev == 0 then {} else {r.prev}) + (if r.next == 0 then {} else {r.next})
    ensures var m, k := list[j].at, list[j].ks[i];
            && Outside(mem, to, s, MarkAt(k)) && MajorsOutside(mem, to, 0, {m})
            && (forall x :: x in s ==> m <= x < m + mem.majors[m].size) && m <= MarkAt(k) < m + mem.majors[m].size
            && m <= Pointer(k) < m + mem.majors[m].size
  {
    MinorAt(mem, hi, list, j, i);
    if i > 0 { MinorAt(mem, hi, list, j, i - 1); }
    if i + 1 < |list[j].ks| { MinorAt(mem, hi, list, j, i + 1); }
  }

  lemma UnlinkedMajor(mem: Memory, hi: nat, list: seq<Block>, j: nat, i: nat, to: Memory)
    requires Heap(mem, 0, HEAP_START, hi, list) && j < |list| && i < |list[j].ks|
    requires Linkable(mem, list[j].ks[i]) && to == Unlinked(mem, list[j].ks[i]) && list[j].at in mem.majors
    requires Sum(mem, list[j].ks) == Sum(to, Without(list[j].ks, i)) + 24 + SizeOf(mem, list[j].ks[i])
    ensures var m, row := list[j].at, Without(list[j].ks, i);
            m in to.majors && to.majors[m] == mem.majors[m].(usage := 24 + Sum(to, row), first := FirstOf(row))
  {
    MinorAt(mem, hi, list, j, i);
    HeapAt(mem, 0, HEAP_START, hi, list, j);
    FirstWithout(list[j].ks, i);
  }

  lemma FirstWithout(ks: seq<nat>, i: nat)
    requires i < |ks|
    ensures |Without(ks, i)| == |ks| - 1
    ensures FirstOf(Without(ks, i)) == if i == 0 then (if |ks| > 1 then ks[1] else 0) else ks[0]
  {
  }

  /** Unlinking a minor keeps the heap well formed, makes its block no longer live and counts its bytes out. */
  lemma UnlinkKeeps(mem: Memory, hi: nat, list: seq<Block>, j: nat, i: nat, to: Memory, list2: seq<Block>)
    requires Heap(mem, 0, HEAP_START, hi, list) && j < |list| && i < |list[j].ks|
    requires Linkable(mem, list[j].ks[i]) && to == Unlinked(mem, list[j].ks[i])
    requires list2 == list[j := Block(list[j].at, Without(list[j].ks, i))]
    ensures Heap(to, 0, HEAP_START, hi, list2) && Live(to, list2) == Live(mem, list) - {Pointer(list[j].ks[i])}
    ensures InUse(mem, list) == InUse(to, list2) + mem.minors[list[j].ks[i]].size
    ensures Allocated(to, list2) == Allocated(mem, list)
  {
    var m, ks, k, row := list[j].at, list[j].ks, list[j].ks[i], Without(list[j].ks, i);
    var r := mem.minors[k];
    var s := {k} + (if r.prev == 0 then {} else {r.prev}) + (if r.next == 0 then {} else {r.next});
    MinorAt(mem, hi, list, j, i);
    UnlinkChanges(mem, hi, list, j, i, to, row, s);
    HeapChange(mem, to, s, MarkAt(k), 0, HEAP_START, hi, list, j, row);
    LiveDrop(mem, to, s, MarkAt(k), 0, HEAP_START, hi, list, j, row, Pointer(k));
    SumSplits(mem, ks);
    SumSplits(to, row);
    FirstWithout(ks, i);
  }

  lemma UnlinkChanges(mem: Memory, hi: nat, list: seq<Block>, j: nat, i: nat, to: Memory, row: seq<nat>, s: set<nat>)
    requires Heap(mem, 0, HEAP_START, hi, list) && j < |list| && i < |list[j].ks|
    requires Linkable(mem, list[j].ks[i]) && to == Unlinked(mem, list[j].ks[i]) && row == Without(list[j].ks, i)
    requires list[j].at in mem.majors
    requires var r := mem.minors[list[j].ks[i]];
             s == {list[j].ks[i]} + (if r.prev == 0 then {} else {r.prev}) + (if r.next == 0 then {} else {r.next})
    ensures RowChanged(mem, to, s, MarkAt(list[j].ks[i]), list, j, row)
    ensures list[j].at <= Pointer(list[j].ks[i]) < list[j].at + MajorSize(mem, list[j].at)
    ensures RowLive(to, row) == RowLive(mem, list[j].ks) - {Pointer(list[j].ks[i])}
    ensures Sum(mem, list[j].ks) == Sum(to, row) + 24 + SizeOf(mem, list[j].ks[i])
  {
    UnlinkRow(mem, hi, list, j, i, to);
    UnlinkTouches(mem, hi, list, j, i, to, s);
    UnlinkedMajor(mem, hi, list, j, i, to);
    var at := list[j].at;
    RowChangedIs(mem, to, s, MarkAt(list[j].ks[i]), list, j, row, at, at + mem.majors[at].size);
  }
}

module Liballoc {
  import opened Words
  import opened HeapLists
  import opened HeapBlocks
  import opened LiballocSteps

  // ---- asking the bump allocator for a major ---------------------------------------------------------

  datatype Grant = Refused | Granted(pages: nat, size: nat, heap: nat)

  /** `allocate_new_page` and `liballoc_alloc`, in 32-bit arithmetic: pages, recorded size, new bump pointer. */
  function Ask(heap: nat, size: nat): Grant {
    var st := U32(size + 48);
    var exact := if st % 4096 == 0 then st / 4096 else st / 4096 + 1;
    var pages := if exact < 16 then 16 else exact;
    var bytes := U32(pages * 4096);
    if U32(heap + bytes) > HEAP_END then Refused else Granted(pages, bytes, U32(heap + bytes))
  }

  /** A grant is refused, or inside the heap, page for page, and large enough. */
  ghost predicate Fair(g: Grant, heap: nat, size: nat) {
    g.Granted? ==> g.size == g.pages * 4096 && g.heap == heap + g.size <= HEAP_END && size + 48 <= g.size
  }

  /** Two headers and the request end a page before 4 GiB; or, for the largest requests, there is no
      room for the minimum major either. */
  ghost predicate InRange(heap: nat, size: nat) {
    if size + 48 < TWO32 then heap + size + 48 <= TWO32 - 4096 else heap + 0x1_0000 > HEAP_END
  }

  /** Exactly then is the grant fair. */
  lemma AskExact(heap: nat, size: nat)
    requires HEAP_START <= heap <= HEAP_END && heap % 4096 == 0 && size < TWO32
    ensures Fair(Ask(heap, size), heap, size) <==> InRange(heap, size)
  {
    var st := U32(size + 48);
    if size + 48 < TWO32 {
      var pages := if (st + 4095) / 4096 < 16 then 16 else (st + 4095) / 4096;
      assert pages <= 0x10_0000;
      assert heap + 4096 * pages < TWO32 <==> InRange(heap, size);
      if heap + 4096 * pages >= TWO32 && pages < 0x10_0000 {
        assert U32(heap + pages * 4096) == heap + pages * 4096 - TWO32;
      }
    } else {
      assert st == size + 48 - TWO32;
      assert Ask(heap, size).Granted? <==> heap + 0x1_0000 <= HEAP_END;
    }
  }

  /** One GiB is granted, and the bump pointer ends up below the heap. */
  lemma AskWraps()
    ensures Ask(HEAP_START, 0x3FFF_F000) == Granted(0x4_0000, 0x4000_0000, 0x50_0000)
  {
  }

  /** The heap cannot give a major for `size` bytes. */
  ghost predicate NoRoom(heap: nat, size: nat) {
    heap + size + 48 > HEAP_END || heap + 0x1_0000 > HEAP_END
  }

  /** The request as its callers may rely on it: refused only for lack of room. */
  method Request(heap: nat, size: nat) returns (g: Grant)
    requires HEAP_START <= heap <= HEAP_END && heap % 4096 == 0 && size + 48 < TWO32 && InRange(heap, size)
    ensures Fair(g, heap, size) && (g.Granted? ==> g.pages > 0 && g.heap % 4096 == 0)
    ensures g.Refused? <==> NoRoom(heap, size)
  {
    AskExact(heap, size);
    g := Ask(heap, size);
  }

  // ---- where live blocks are ----------------------------------------------------------------------

  /** A user block fits its minor exactly when adding the alignment allowance does not wrap. */
  lemma BlockFits(k: nat, req: nat)
    requires req < TWO32
    ensures Pointer(k) + req <= k + 24 + U32(req + 32) <==> req + 32 < TWO32
  {
  }

  /** Where a live block is: aligned, behind its minor's header, inside its minor and its major. */
  lemma LivePlace(mem: Memory, hi: nat, list: seq<Block>, p: nat) returns (j: nat, i: nat)
    requires Heap(mem, 0, HEAP_START, hi, list) && p in Live(mem, list)
    ensures j < |list| && i < |list[j].ks| && list[j].at in mem.majors && list[j].ks[i] in mem.minors
    ensures var m, k := list[j].at, list[j].ks[i];
            && p == Pointer(k) && p % 16 == 0
            && HEAP_START <= m && m + 24 <= k && k + 24 <= p && p + Live(mem, list)[p] <= EndOf(mem, k)
            && EndOf(mem, k) <= m + mem.majors[m].size <= hi
  {
    j, i := LiveIn(mem, 0, HEAP_START, hi, list, p);
    HeapAt(mem, 0, HEAP_START, hi, list, j);
    MinorAt(mem, hi, list, j, i);
  }

  /** No two live blocks share a byte. */
  lemma LiveApart(mem: Memory, hi: nat, list: seq<Block>, p: nat, q: nat)
    requires Heap(mem, 0, HEAP_START, hi, list) && p in Live(mem, list) && q in Live(mem, list) && p != q
    ensures p + Live(mem, list)[p] <= q || q + Live(mem, list)[q] <= p
  {
    var j, i := LivePlace(mem, hi, list, p);
    var l, k := LivePlace(mem, hi, list, q);
    MinorsApart(mem, hi, list, j, i, l, k);
  }

  lemma MinorsApart(mem: Memory, hi: nat, list: seq<Block>, j: nat, i: nat, l: nat, k: nat)
    requires Heap(mem, 0, HEAP_START, hi, list) && j < |list| && i < |list[j].ks| && l < |list| && k < |list[l].ks|
    requires j != l || i != k
    ensures EndOf(mem, list[j].ks[i]) <= list[l].ks[k] || EndOf(mem, list[l].ks[k]) <= list[j].ks[i]
  {
    MinorAt(mem, hi, list, j, i);
    MinorAt(mem, hi, list, l, k);
    if j < l {
      HeapApart(mem, 0, HEAP_START, hi, list, j, l);
    } else if l < j {
      HeapApart(mem, 0, HEAP_START, hi, list, l, j);
    } else {
      HeapAt(mem, 0, HEAP_START, hi, list, j);
      var m, ks := list[j].at, list[j].ks;
      if i < k {
        RowApart(mem, m, 0, m + 24, m + MajorSize(mem, m), ks, i, k);
      } else {
        RowApart(mem, m, 0, m + 24, m + MajorSize(mem, m), ks, k, i);
      }
    }
  }

  /** No live block touches a header, of a minor or of a major. */
  lemma LiveClearOfHeaders(mem: Memory, hi: nat, list: seq<Block>, p: nat, l: nat, k: nat)
    requires Heap(mem, 0, HEAP_START, hi, list) && p in Live(mem, list) && l < |list|
    ensures p + Live(mem, list)[p] <= list[l].at || list[l].at + 24 <= p
    ensures k < |list[l].ks| ==> p + Live(mem, list)[p] <= list[l].ks[k] || list[l].ks[k] + 24 <= p
  {
    var j, i := LivePlace(mem, hi, list, p);
    HeapAt(mem, 0, HEAP_START, hi, list, l);
    if j < l {
      HeapApart(mem, 0, HEAP_START, hi, list, j, l);
    } else if l < j {
      HeapApart(mem, 0, HEAP_START, hi, list, l, j);
    }
    if k < |list[l].ks| && (j != l || i != k) { MinorsApart(mem, hi, list, j, i, l, k); }
  }

  ghost predicate Listed(list: seq<Block>, a: nat) { exists j :: 0 <= j < |list| && list[j].at == a }

  ghost predicate AllUsed(list: seq<Block>) { forall j :: 0 <= j < |list| ==> list[j].ks != [] }

  /** Memory after a new, empty major at `a` has been linked behind `last`, or stands alone. */
  function WithMajor(mem: Memory, last: nat, a: nat, pages: nat): Memory
    requires last != 0 ==> last in mem.majors
  {
    var added := mem.majors[a := Major(last, 0, pages, pages * 4096, 24, 0)];
    mem.(majors := if last == 0 then added else added[last := mem.majors[last].(next := a)])
  }

  lemma LastListed(mem: Memory, hi: nat, list: seq<Block>, last: nat)
    requires Heap(mem, 0, HEAP_START, hi, list) && last == LastAt(0, list)
    ensures last == 0 <==> list == []
    ensures last != 0 ==> last in mem.majors && last < hi
  {
    if list != [] { HeapAt(mem, 0, HEAP_START, hi, list, |list| - 1); }
  }

  /** `list2` is `list` with `b` behind it. */
  ghost predicate Extended(list: seq<Block>, list2: seq<Block>, b: Block) {
    |list2| == |list| + 1 && list2[|list|] == b && forall j :: 0 <= j < |list| ==> list2[j] == list[j]
  }

  lemma AddMajor(mem: Memory, hi: nat, list: seq<Block>, last: nat, pages: nat, to: Memory) returns (list2: seq<Block>)
    requires Heap(mem, 0, HEAP_START, hi, list) && last == LastAt(0, list) && pages > 0
    requires (last != 0 ==> last in mem.majors)
    requires to == WithMajor(mem, last, hi, pages)
    ensures Extended(list, list2, Block(hi, []))
    ensures Heap(to, 0, HEAP_START, hi + pages * 4096, list2) && hi in to.majors && to.majors[hi].size == pages * 4096
    ensures Live(to, list2) == Live(mem, list) && InUse(to, list2) == InUse(mem, list)
    ensures Allocated(to, list2) == Allocated(mem, list) + pages * 4096
  {
    list2 := list + [Block(hi, [])];
    LastListed(mem, hi, list, last);
    AppendsIs(list, Block(hi, []));
    assert MajorAdded(mem, to, HEAP_START, list, hi, pages, 0);
    HeapAppend(mem, to, 0, HEAP_START, hi, list, hi, pages, list2);
  }

  lemma StillListed(list: seq<Block>, list2: seq<Block>, a: nat)
    requires |list| <= |list2| && forall j :: 0 <= j < |list| ==> list2[j].at == list[j].at
    ensures Listed(list, a) ==> Listed(list2, a)
  {
    if Listed(list, a) {
      var j :| 0 <= j < |list| && list[j].at == a;
      assert list2[j].at == a;
    }
  }

  /** Records, counters and pointers agree. */
  ghost predicate Ok(mem: Memory, root: nat, best: nat, total: nat, inuse: nat, heap: nat, list: seq<Block>) {
    && HEAP_START <= heap <= HEAP_END && heap % 4096 == 0 && Heap(mem, 0, HEAP_START, heap, list)
    && root == RootOf(list) && (best == 0 || Listed(list, best))
    && total == Allocated(mem, list) && inuse == InUse(mem, list)
  }

  lemma GrantKeeps(mem: Memory, root: nat, best: nat, total: nat, inuse: nat, heap: nat, list: seq<Block>, last: nat,
                   g: Grant, to: Memory)
    returns (list2: seq<Block>)
    requires Ok(mem, root, best, total, inuse, heap, list) && last == LastAt(0, list)
    requires (last != 0 ==> last in mem.majors)
    requires g.Granted? && g.size == g.pages * 4096 && g.heap == heap + g.size <= HEAP_END && g.pages > 0
    requires g.heap % 4096 == 0
    requires to == WithMajor(mem, last, heap, g.pages)
    ensures Ok(to, if last == 0 then heap else root, best, total + g.size, inuse, g.heap, list2)
    ensures Extended(list, list2, Block(heap, [])) && Live(to, list2) == Live(mem, list)
    ensures heap in to.majors && to.majors[heap].size == g.size
  {
    LastListed(mem, heap, list, last);
    list2 := AddMajor(mem, heap, list, last, g.pages, to);
    StillListed(list, list2, best);
  }

  /** One major has gained a minor; the others have the rows they had. */
  ghost predicate Filled(list: seq<Block>, list2: seq<Block>, j: nat) {
    && |list2| == |list| && j < |list| && list2[j].at == list[j].at && list2[j].ks != []
    && forall t :: 0 <= t < |list| && t != j ==> list2[t] == list[t]
  }

  lemma PlaceOk(mem: Memory, root: nat, best: nat, total: nat, inuse: nat, heap: nat, list: seq<Block>,
                j: nat, i: nat, prev: nat, next: nat, a: nat, req: nat, to: Memory)
    returns (list2: seq<Block>)
    requires Ok(mem, root, best, total, inuse, heap, list) && Spot(mem, list, j, i, prev, next, a, req)
    requires (prev != 0 ==> prev in mem.minors) && (next != 0 ==> next in mem.minors)
    requires to == Placed(mem, list[j].at, prev, next, a, req)
    ensures Ok(to, root, best, total, inuse + req + 32, heap, list2) && Filled(list, list2, j)
    ensures Live(to, list2) == Live(mem, list)[Pointer(a) := req] && Pointer(a) !in Live(mem, list)
  {
    list2 := list[j := Block(list[j].at, With(list[j].ks, i, a))];
    PlaceKeeps(mem, heap, list, j, i, prev, next, a, req, to, list2);
    StillListed(list, list2, best);
    SpotUnused(mem, heap, list, j, i, prev, next, a, req);
  }

  lemma FirstMinor(mem: Memory, hi: nat, list: seq<Block>, j: nat)
    requires Heap(mem, 0, HEAP_START, hi, list) && j < |list|
    ensures list[j].ks != [] ==> list[j].ks[0] >= list[j].at + 24
  {
    if list[j].ks != [] { MinorAt(mem, hi, list, j, 0); }
  }

  /** Behind minor `i` there is the next minor or the end of the major, at or above where it ends. */
  lemma NextSpot(mem: Memory, hi: nat, list: seq<Block>, j: nat, i: nat)
    requires Heap(mem, 0, HEAP_START, hi, list) && j < |list| && i < |list[j].ks|
    ensures var ks, m := list[j].ks, list[j].at;
            EndOf(mem, ks[i]) <= if i + 1 < |ks| then ks[i + 1] else m + MajorSize(mem, m)
  {
    HeapAt(mem, 0, HEAP_START, hi, list, j);
    var m := list[j].at;
    RowAt(mem, m, 0, m + 24, m + MajorSize(mem, m), list[j].ks, i);
  }

  /** A free stretch holds no live pointer. */
  lemma SpotUnused(mem: Memory, hi: nat, list: seq<Block>, j: nat, i: nat, prev: nat, next: nat, a: nat, req: nat)
    requires Heap(mem, 0, HEAP_START, hi, list) && Spot(mem, list, j, i, prev, next, a, req)
    ensures Pointer(a) !in Live(mem, list)
  {
    if Pointer(a) in Live(mem, list) {
      var l, k := LivePlace(mem, hi, list, Pointer(a));
      GapClear(mem, hi, list, j, i, prev, next, a, req, l, k);
    }
  }

  /** A minor lies wholly before or wholly behind a free stretch. */
  lemma GapClear(mem: Memory, hi: nat, list: seq<Block>, j: nat, i: nat, prev: nat, next: nat, a: nat, req: nat,
                 l: nat, k: nat)
    requires Heap(mem, 0, HEAP_START, hi, list) && Spot(mem, list, j, i, prev, next, a, req) && l < |list|
    requires k < |list[l].ks|
    ensures EndOf(mem, list[l].ks[k]) <= a || a + 56 + req <= list[l].ks[k]
  {
    HeapAt(mem, 0, HEAP_START, hi, list, j);
    MinorAt(mem, hi, list, l, k);
    var m, ks := list[j].at, list[j].ks;
    if i > 0 { MinorAt(mem, hi, list, j, i - 1); }
    if i < |ks| { MinorAt(mem, hi, list, j, i); }
    if l < j {
      HeapApart(mem, 0, HEAP_START, hi, list, l, j);
    } else if j < l {
      HeapApart(mem, 0, HEAP_START, hi, list, j, l);
    } else {
      if k < i - 1 { RowApart(mem, m, 0, m + 24, m + mem.majors[m].size, ks, k, i - 1); }
      if i < k { RowApart(mem, m, 0, m + 24, m + mem.majors[m].size, ks, i, k); }
    }
  }

  lemma NowUsed(list: seq<Block>, list2: seq<Block>, j: nat)
    requires j < |list| && Filled(list, list2, j) && forall t :: 0 <= t < |list| && t != j ==> list[t].ks != []
    ensures AllUsed(list2)
  {
  }

  lemma RootListed(mem: Memory, hi: nat, list: seq<Block>)
    requires Heap(mem, 0, HEAP_START, hi, list)
    ensures RootOf(list) == 0 <==> list == []
  {
    if list != [] { HeapAt(mem, 0, HEAP_START, hi, list, 0); }
  }

  lemma IndexOf(list: seq<Block>, a: nat) returns (j: nat)
    requires Listed(list, a)
    ensures j < |list| && list[j].at == a
  {
    j :| 0 <= j < |list| && list[j].at == a;
  }

  lemma {:induction false} RowSum(mem: Memory, m: nat, prev: nat, lo: nat, hi: nat, ks: seq<nat>)
    requires Row(mem, m, prev, lo, hi, ks)
    ensures lo + Sum(mem, ks) <= hi
    decreases |ks|
  {
    if ks != [] { RowSum(mem, m, ks[0], EndOf(mem, ks[0]), hi, ks[1..]); }
  }

  /** A major never has more in use than it has; its successor is the next in the list. */
  lemma UsageFits(mem: Memory, hi: nat, list: seq<Block>, j: nat)
    requires Heap(mem, 0, HEAP_START, hi, list) && j < |list|
    ensures var m := list[j].at; m in mem.majors && mem.majors[m].usage <= mem.majors[m].size && m != 0
    ensures var n := mem.majors[list[j].at].next; if j + 1 < |list| then n == list[j + 1].at != 0 else n == 0
    ensures list[j].ks == [] ==> mem.majors[list[j].at].usage == 24
    ensures j == |list| - 1 ==> LastAt(0, list) == list[j].at
  {
    HeapAt(mem, 0, HEAP_START, hi, list, j);
    if j + 1 < |list| { HeapAt(mem, 0, HEAP_START, hi, list, j + 1); }
    var m := list[j].at;
    RowSum(mem, m, 0, m + 24, m + mem.majors[m].size, list[j].ks);
  }

  /** The length of the free stretch before index `i` of a row between `lo` and `hi`. */
  ghost function GapLen(mem: Memory, lo: nat, hi: nat, ks: seq<nat>, i: nat): int
    requires i <= |ks|
  {
    (if i == |ks| then hi else ks[i]) - (if i == 0 then lo else EndOf(mem, ks[i - 1]))
  }

  /** That stretch does not take a minor for `req` bytes. */
  ghost predicate TooShort(mem: Memory, lo: nat, hi: nat, ks: seq<nat>, i: nat, req: nat)
    requires i <= |ks|
  {
    GapLen(mem, lo, hi, ks, i) < 56 + req
  }

  ghost predicate RowFull(mem: Memory, lo: nat, hi: nat, ks: seq<nat>, req: nat) {
    forall i: nat :: i <= |ks| ==> TooShort(mem, lo, hi, ks, i, req)
  }

  /** No stretch of a major takes a minor for `req` bytes. */
  ghost predicate NoGap(mem: Memory, b: Block, req: nat) {
    RowFull(mem, b.at + 24, b.at + MajorSize(mem, b.at), b.ks, req)
  }

  /** None of the first `n` majors has a stretch for `req` bytes. */
  ghost predicate Searched(mem: Memory, list: seq<Block>, n: nat, req: nat)
    requires n <= |list|
  {
    forall j :: 0 <= j < n ==> NoGap(mem, list[j], req)
  }

  lemma SearchedOne(mem: Memory, list: seq<Block>, j: nat, req: nat, all: bool)
    requires j < |list| && NoGap(mem, list[j], req) && (all ==> Searched(mem, list, j, req))
    ensures all ==> Searched(mem, list, j + 1, req)
  {
  }

  /** No stretch is longer than the bytes not in use. */
  lemma {:induction false} GapBound(mem: Memory, m: nat, prev: nat, lo: nat, hi: nat, ks: seq<nat>, i: nat)
    requires Row(mem, m, prev, lo, hi, ks) && i <= |ks|
    ensures GapLen(mem, lo, hi, ks, i) + Sum(mem, ks) <= hi - lo
    decreases |ks|
  {
    if ks != [] {
      RowSum(mem, m, ks[0], EndOf(mem, ks[0]), hi, ks[1..]);
      if i > 0 { GapBound(mem, m, ks[0], EndOf(mem, ks[0]), hi, ks[1..], i - 1); }
    }
  }

  lemma ShortOfBytes(mem: Memory, top: nat, list: seq<Block>, j: nat, req: nat)
    requires Heap(mem, 0, HEAP_START, top, list) && j < |list| && list[j].at in mem.majors
    requires mem.majors[list[j].at].size < mem.majors[list[j].at].usage + req + 56
    ensures NoGap(mem, list[j], req)
  {
    HeapAt(mem, 0, HEAP_START, top, list, j);
    var m, ks := list[j].at, list[j].ks;
    var lo, hi := m + 24, m + MajorSize(mem, m);
    forall i: nat | i <= |ks|
      ensures TooShort(mem, lo, hi, ks, i, req)
    {
      GapBound(mem, m, 0, lo, hi, ks, i);
    }
  }

  lemma UnlinkOk(mem: Memory, root: nat, best: nat, total: nat, inuse: nat, heap: nat, list: seq<Block>, j: nat,
                 i: nat, to: Memory)
    returns (list2: seq<Block>)
    requires Ok(mem, root, best, total, inuse, heap, list) && AllUsed(list) && j < |list| && i < |list[j].ks|
    requires Linkable(mem, list[j].ks[i]) && to == Unlinked(mem, list[j].ks[i])
    ensures mem.minors[list[j].ks[i]].size <= inuse
    ensures Ok(to, root, best, total, inuse - mem.minors[list[j].ks[i]].size, heap, list2)
    ensures Live(to, list2) == Live(mem, list) - {Pointer(list[j].ks[i])}
    ensures |list2| == |list| && list2[j].at == list[j].at
    ensures forall t :: 0 <= t < |list| && t != j ==> list2[t].ks != []
  {
    list2 := list[j := Block(list[j].at, Without(list[j].ks, i))];
    UnlinkKeeps(mem, heap, list, j, i, to, list2);
    StillListed(list, list2, best);
  }

  lemma MajorLinks(mem: Memory, hi: nat, list: seq<Block>, j: nat)
    requires Heap(mem, 0, HEAP_START, hi, list) && j < |list|
    ensures var m := list[j].at;
            && m in mem.majors && m != 0
            && mem.majors[m].prev == (if j == 0 then 0 else list[j - 1].at)
               && mem.majors[m].next == (if j + 1 < |list| then list[j + 1].at else 0)
            && (j > 0 ==> list[j - 1].at in mem.majors && 0 < list[j - 1].at < m)
            && (j + 1 < |list| ==> list[j + 1].at in mem.majors && m < list[j + 1].at)
  {
    HeapAt(mem, 0, HEAP_START, hi, list, j);
    if j > 0 { HeapAt(mem, 0, HEAP_START, hi, list, j - 1); }
    if j + 1 < |list| { HeapAt(mem, 0, HEAP_START, hi, list, j + 1); }
  }

  /** Memory after `free` has unlinked major `m`. */
  function WithoutMajor(mem: Memory, m: nat): Memory
    requires m in mem.majors
    requires mem.majors[m].prev != 0 ==> mem.majors[m].prev in mem.majors
    requires mem.majors[m].next != 0 ==> mem.majors[m].next in mem.majors
  {
    var r := mem.majors[m];
    var fore := if r.prev == 0 then mem.majors else mem.majors[r.prev := mem.majors[r.prev].(next := r.next)];
    mem.(majors := if r.next == 0 then fore else fore[r.next := mem.majors[r.next].(prev := r.prev)])
  }

  lemma DropOk(mem: Memory, root: nat, best: nat, total: nat, inuse: nat, heap: nat, list: seq<Block>, j: nat,
               to: Memory)
    returns (list2: seq<Block>)
    requires Ok(mem, root, best, total, inuse, heap, list) && j < |list| && list[j].ks == []
    requires forall t :: 0 <= t < |list| && t != j ==> list[t].ks != []
    requires var m := list[j].at;
             && m in mem.majors && (mem.majors[m].prev != 0 ==> mem.majors[m].prev in mem.majors)
             && (mem.majors[m].next != 0 ==> mem.majors[m].next in mem.majors) && to == WithoutMajor(mem, m)
    ensures var m := list[j].at;
            && mem.majors[m].size <= total
            && Ok(to, if root == m then mem.majors[m].next else root, if best == m then 0 else best,
                  total - mem.majors[m].size, inuse, heap, list2)
    ensures AllUsed(list2) && Live(to, list2) == Live(mem, list)
  {
    list2 := list[..j] + list[j + 1..];
    MajorLinks(mem, heap, list, j);
    DropsIs(list, j);
    DroppedLinks(mem, list, j, to);
    HeapRemove(mem, to, 0, HEAP_START, heap, list, j, list2);
    RootAfterDrop(mem, heap, list, j, list2);
    BestAfterDrop(list, j, list2, best);
  }

  lemma DroppedLinks(mem: Memory, list: seq<Block>, j: nat, to: Memory)
    requires j < |list| && list[j].at in mem.majors && list[j].at != 0
    requires var r := mem.majors[list[j].at];
             && r.prev == (if j == 0 then 0 else list[j - 1].at)
                && r.next == (if j + 1 < |list| then list[j + 1].at else 0)
             && (j > 0 ==> r.prev in mem.majors && 0 < r.prev < list[j].at)
             && (j + 1 < |list| ==> r.next in mem.majors && list[j].at < r.next)
    requires to == WithoutMajor(mem, list[j].at)
    ensures MajorDropped(mem, to, HEAP_START, list, j, 0)
  {
    if j > 0 { assert LastAt(0, list[..j]) == list[j - 1].at; }
    if j + 1 < |list| { assert RootOf(list[j + 1..]) == list[j + 1].at; }
  }

  lemma RootAfterDrop(mem: Memory, hi: nat, list: seq<Block>, j: nat, list2: seq<Block>)
    requires Heap(mem, 0, HEAP_START, hi, list) && j < |list| && list2 == list[..j] + list[j + 1..]
    ensures RootOf(list2) == if RootOf(list) == list[j].at then (if j + 1 < |list| then list[j + 1].at else 0)
            else RootOf(list)
  {
    if j > 0 { HeapApart(mem, 0, HEAP_START, hi, list, 0, j); }
    HeapAt(mem, 0, HEAP_START, hi, list, 0);
  }

  lemma BestAfterDrop(list: seq<Block>, j: nat, list2: seq<Block>, best: nat)
    requires j < |list| && list2 == list[..j] + list[j + 1..]
    ensures Listed(list, best) && best != list[j].at ==> Listed(list2, best)
  {
    if Listed(list, best) && best != list[j].at {
      var t :| 0 <= t < |list| && list[t].at == best;
      assert list2[if t < j then t else t - 1].at == best;
    }
  }

  class Allocator {
    var memory: Memory
    var root: nat
    var best: nat
    var total: nat
    var inuse: nat
    var heap: nat
    ghost var list: seq<Block>

    /** Records, counters and pointers agree; a major may be empty. */
    ghost predicate Consistent()
      reads this
    {
      Ok(memory, root, best, total, inuse, heap, list)
    }

    /** Between calls no major is empty. */
    ghost predicate Valid()
      reads this
    {
      Consistent() && AllUsed(list)
    }

    ghost function Blocks(): map<nat, nat>
      reads this
    {
      Live(memory, list)
    }

    constructor ()
      ensures Valid() && Blocks() == map[]
    {
      memory, root, best, total, inuse, heap, list := Memory(map[], map[], map[]), 0, 0, 0, 0, HEAP_START, [];
    }

    /** `allocate_new_page` with the linking its callers do: a new major behind the last one, or the root. */
    method NewMajor(size: nat, last: nat) returns (maj: nat)
      requires Consistent() && size + 48 < TWO32 && InRange(heap, size) && last == LastAt(0, list)
      modifies this
      ensures Consistent() && Blocks() == old(Blocks()) && best == old(best)
      ensures maj == 0 ==> memory == old(memory) && list == old(list) && heap == old(heap) && NoRoom(heap, size)
      ensures maj != 0 ==> Extended(old(list), list, Block(maj, []))
      ensures maj != 0 ==> maj in memory.majors && memory.majors[maj].size >= size + 48
    {
      var g := Request(heap, size);
      if g.Refused? {
        return 0;
      }
      maj := heap;
      LastListed(memory, heap, list, last);
      var to := WithMajor(memory, last, maj, g.pages);
      ghost var list2 := GrantKeeps(memory, root, best, total, inuse, heap, list, last, g, to);
      memory, root, total, heap, list := to, if last == 0 then maj else root, total + g.size, g.heap, list2;
    }

    /** Link a minor in and align its pointer: the common part of cases 2, 3, 4.1 and 4.2. */
    method Place(m: nat, prev: nat, next: nat, a: nat, req: nat, ghost j: nat, ghost i: nat) returns (p: nat)
      requires Consistent() && Spot(memory, list, j, i, prev, next, a, req) && m == list[j].at
      modifies this
      ensures Consistent() && p == Pointer(a) && Blocks() == old(Blocks())[p := req] && p !in old(Blocks())
      ensures Filled(old(list), list, j) && best == old(best) && root == old(root) && heap == old(heap)
    {
      SpotRow(memory, heap, list, j, i, prev, next, a, req);
      var to := Placed(memory, m, prev, next, a, req);
      ghost var list2 := PlaceOk(memory, root, best, total, inuse, heap, list, j, i, prev, next, a, req, to);
      memory, inuse, list := to, inuse + req + 32, list2;
      p := Pointer(a);
    }

    /** Cases 2 to 4 of `malloc` in a major with enough free bytes: the whole of an empty block, the
        space in front, behind the last minor, or between two; 0 when no single stretch is long enough. */
    method TryMajor(maj: nat, req: nat, ghost j: nat) returns (p: nat)
      requires Consistent() && j < |list| && maj == list[j].at
      requires maj in memory.majors && memory.majors[maj].usage + req + 56 <= memory.majors[maj].size
      modifies this
      ensures Consistent() && best == old(best) && root == old(root) && heap == old(heap)
      ensures p == 0 ==> list == old(list) && memory == old(memory) && list[j].ks != [] && NoGap(memory, list[j], req)
      ensures p != 0 ==> p !in old(Blocks()) && Blocks() == old(Blocks())[p := req] && Filled(old(list), list, j)
    {
      HeapAt(memory, 0, HEAP_START, heap, list, j);
      FirstMinor(memory, heap, list, j);
      var r := memory.majors[maj];
      if r.first == 0 {
        p := Place(maj, 0, 0, maj + 24, req, j, 0);
      } else if r.first - maj - 24 >= req + 56 {
        p := Place(maj, 0, r.first, maj + 24, req, j, 0);
      } else {
        p := Scan(maj, r.first, maj + r.size, req, j);
      }
    }

    /** Case 4: from minor to minor. */
    method Scan(maj: nat, first: nat, end: nat, req: nat, ghost j: nat) returns (p: nat)
      requires Consistent() && j < |list| && maj == list[j].at && maj in memory.majors
      requires first == FirstOf(list[j].ks) && end == maj + memory.majors[maj].size
      requires GapLen(memory, maj + 24, end, list[j].ks, 0) < 56 + req
      modifies this
      ensures Consistent() && best == old(best) && root == old(root) && heap == old(heap)
      ensures p == 0 ==> list == old(list) && memory == old(memory) && NoGap(memory, list[j], req)
      ensures p != 0 ==> p !in old(Blocks()) && Blocks() == old(Blocks())[p := req] && Filled(old(list), list, j)
    {
      var min := first;
      FirstMinor(memory, heap, list, j);
      ghost var i, ks, lo := 0, list[j].ks, maj + 24;
      while min != 0
        invariant unchanged(this) && i <= |ks| && min == (if i < |ks| then ks[i] else 0) && (min == 0 <==> i == |ks|)
        invariant forall t: nat :: t <= i ==> TooShort(memory, lo, end, ks, t, req)
        decreases |ks| - i
      {
        MinorAt(memory, heap, list, j, i);
        NextSpot(memory, heap, list, j, i);
        var x := memory.minors[min];
        var a := min + 24 + x.size;
        var diff := (if x.next == 0 then end else x.next) - a;
        if diff >= req + 56 {
          p := Place(maj, min, x.next, a, req, j, i + 1);
          return;
        }
        min, i := x.next, i + 1;
      }
      p := 0;
    }

    /** Put the request into a new major behind `last`.  Reached through case 5, or as the very first
        major, the new one is considered as best bet before it is used; through case 1 it is not. */
    method InNew(last: nat, req: nat, bestSize: nat, consider: bool) returns (p: nat)
      requires Valid() && req + 80 < TWO32 && InRange(heap, req + 32) && last == LastAt(0, list)
      modifies this
      ensures Valid()
      ensures p == 0 ==> memory == old(memory) && list == old(list) && heap == old(heap) && NoRoom(heap, req + 32)
      ensures p != 0 ==> p !in old(Blocks()) && Blocks() == old(Blocks())[p := req]
    {
      ghost var before, j := list, |list|;
      var maj := NewMajor(req + 32, last);
      if maj == 0 {
        return 0;
      }
      UsageFits(memory, heap, list, j);
      if consider && bestSize < memory.majors[maj].size - memory.majors[maj].usage {
        assert list[j].at == maj;
        best := maj;
      }
      ghost var with := list;
      p := TryMajor(maj, req, j);
      NowUsed(with, list, j);
    }

    /** `malloc`: the first major that has a long enough stretch, tried from the best bet on and then
        from the root, or a new one; NULL only if no stretch is long enough and the heap is used up. */
    method Malloc(req: nat) returns (p: nat)
      requires Valid() && req + 80 < TWO32 && InRange(heap, req + 32)
      modifies this
      ensures Valid()
      ensures p == 0 ==> Blocks() == old(Blocks()) && NoRoom(heap, req + 32) && Searched(memory, list, |list|, req)
      ensures p != 0 ==> p !in old(Blocks()) && Blocks() == old(Blocks())[p := req]
    {
      RootListed(memory, heap, list);
      if root == 0 {
        p := InNew(0, req, 0, true);
        return;
      }
      var maj, startedBet, bestSize := root, false, 0;
      ghost var j: nat := 0;
      if best != 0 {
        ghost var b := IndexOf(list, best);
        UsageFits(memory, heap, list, b);
        bestSize := memory.majors[best].size - memory.majors[best].usage;
        if bestSize > req + 32 + 24 {
          maj, startedBet, j := best, true, b;
        }
      }
      p := Search(maj, startedBet, bestSize, req, j);
    }

    /** The loop over the majors.  It restarts at most once. */
    method Search(start: nat, fromBest: bool, most: nat, req: nat, ghost at: nat) returns (p: nat)
      requires Valid() && at < |list| && list[at].at == start && (fromBest || at == 0)
      requires req + 80 < TWO32 && InRange(heap, req + 32)
      modifies this
      ensures Valid()
      ensures p == 0 ==> Blocks() == old(Blocks()) && NoRoom(heap, req + 32) && Searched(memory, list, |list|, req)
      ensures p != 0 ==> p !in old(Blocks()) && Blocks() == old(Blocks())[p := req]
    {
      var maj, startedBet, bestSize := start, fromBest, most;
      ghost var j: nat := at;
      while true
        invariant Valid() && memory == old(memory) && list == old(list) && heap == old(heap)
        invariant j < |list| && list[j].at == maj && (!startedBet ==> Searched(memory, list, j, req))
        decreases startedBet, |list| - j
      {
        UsageFits(memory, heap, list, j);
        var diff := memory.majors[maj].size - memory.majors[maj].usage;
        if bestSize < diff {
          best, bestSize := maj, diff;
        }
        var roomy := diff >= req + 56;
        if roomy {
          p := TryMajor(maj, req, j);
          if p != 0 {
            NowUsed(old(list), list, j);
            return;
          }
        } else {
          ShortOfBytes(memory, heap, list, j, req);
        }
        SearchedOne(memory, list, j, req, !startedBet);
        if memory.majors[maj].next != 0 {
          maj, j := memory.majors[maj].next, j + 1;
        } else if startedBet {
          maj, startedBet, j := root, false, 0;
        } else {
          p := InNew(maj, req, bestSize, roomy);
          return;
        }
      }
    }

    /** `free` of NULL or of a live pointer. */
    method Free(ptr: nat)
      requires Valid() && (ptr == 0 || ptr in Blocks())
      modifies this
      ensures Valid() && (ptr == 0 ==> unchanged(this))
      ensures ptr != 0 ==> Blocks() == old(Blocks()) - {ptr}
    {
      if ptr == 0 {
        return;
      }
      ghost var j, i := LivePlace(memory, heap, list, ptr);
      MinorAt(memory, heap, list, j, i);
      UnalignInverts(list[j].ks[i]);
      var k := Unaligned(ptr, memory.marks[ptr - 16]);
      var maj := memory.minors[k].block;
      Unlink(k, j, i);
      UsageFits(memory, heap, list, j);
      FirstMinor(memory, heap, list, j);
      HeapAt(memory, 0, HEAP_START, heap, list, j);
      if memory.majors[maj].first == 0 {
        DropMajor(maj, j);
      } else if best != 0 {
        ghost var b := IndexOf(list, best);
        UsageFits(memory, heap, list, b);
        if memory.majors[maj].size - memory.majors[maj].usage > memory.majors[best].size - memory.majors[best].usage {
          assert list[j].at == maj;
          best := maj;
        }
      }
    }

    method Unlink(k: nat, ghost j: nat, ghost i: nat)
      requires Valid() && j < |list| && i < |list[j].ks| && k == list[j].ks[i]
      modifies this
      ensures Consistent() && Blocks() == old(Blocks()) - {Pointer(k)} && heap == old(heap) && best == old(best)
      ensures |list| == |old(list)| && list[j].at == old(list)[j].at
      ensures forall t :: 0 <= t < |list| && t != j ==> list[t].ks != []
    {
      MinorAt(memory, heap, list, j, i);
      var to := Unlinked(memory, k);
      ghost var list2 := UnlinkOk(memory, root, best, total, inuse, heap, list, j, i, to);
      memory, inuse, list := to, inuse - memory.minors[k].size, list2;
    }

    /** Take an empty major out of the list. */
    method DropMajor(m: nat, ghost j: nat)
      requires Consistent() && j < |list| && m == list[j].at && list[j].ks == []
      requires forall t :: 0 <= t < |list| && t != j ==> list[t].ks != []
      modifies this
      ensures Valid() && Blocks() == old(Blocks())
    {
      MajorLinks(memory, heap, list, j);
      var to := WithoutMajor(memory, m);
      var size, next := memory.majors[m].size, memory.majors[m].next;
      ghost var list2 := DropOk(memory, root, best, total, inuse, heap, list, j, to);
      memory, total, list := to, total - size, list2;
      if root == m {
        root := next;
      }
      if best == m {
        best := 0;
      }
    }
  }
}
