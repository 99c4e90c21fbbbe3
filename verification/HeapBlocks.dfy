/** The list of majors, each with its row of minors. */
module HeapBlocks {
  import opened HeapLists

  /** A major and the minors in it. */
  datatype Block = Block(at: nat, ks: seq<nat>)

  function NextAt(list: seq<Block>): nat { if |list| > 1 then list[1].at else 0 }
  function RootOf(list: seq<Block>): nat { if |list| > 0 then list[0].at else 0 }

  /** The majors from address `lo` on, the one before them being `prev`: linked both ways, in address
      order, none reaching into the next or past `hi`; each accounts for the bytes of its row. */
  ghost predicate Heap(mem: Memory, prev: nat, lo: nat, hi: nat, list: seq<Block>)
    decreases |list|
  {
    if list == [] then lo <= hi
    else
      && var b := list[0];
      && lo <= b.at && b.at in mem.majors
      && var r := mem.majors[b.at];
      && r == Major(prev, NextAt(list), r.pages, r.pages * 4096, 24 + Sum(mem, b.ks), FirstOf(b.ks))
      && Row(mem, b.at, 0, b.at + 24, b.at + r.size, b.ks)
      && Heap(mem, b.at, b.at + r.size, hi, list[1..])
  }

  function MajorSize(mem: Memory, m: nat): nat { if m in mem.majors then mem.majors[m].size else 0 }

  /** All user blocks: pointer to requested size. */
  ghost function Live(mem: Memory, list: seq<Block>): map<nat, nat>
    decreases |list|
  {
    if list == [] then map[] else Live(mem, list[1..]) + RowLive(mem, list[0].ks)
  }

  ghost function RowUse(mem: Memory, ks: seq<nat>): nat
    decreases |ks|
  {
    if ks == [] then 0 else SizeOf(mem, ks[0]) + RowUse(mem, ks[1..])
  }

  /** What `l_inuse` counts. */
  ghost function InUse(mem: Memory, list: seq<Block>): nat
    decreases |list|
  {
    if list == [] then 0 else RowUse(mem, list[0].ks) + InUse(mem, list[1..])
  }

  /** What `l_allocated` counts. */
  ghost function Allocated(mem: Memory, list: seq<Block>): nat
    decreases |list|
  {
    if list == [] then 0 else MajorSize(mem, list[0].at) + Allocated(mem, list[1..])
  }

  /** A row's bytes are its contents and its headers. */
  lemma {:induction false} SumSplits(mem: Memory, ks: seq<nat>)
    ensures Sum(mem, ks) == RowUse(mem, ks) + 24 * |ks|
    decreases |ks|
  {
    if ks != [] { SumSplits(mem, ks[1..]); }
  }

  lemma {:induction false} HeapEnd(mem: Memory, prev: nat, lo: nat, hi: nat, list: seq<Block>)
    requires Heap(mem, prev, lo, hi, list)
    ensures lo <= (if list == [] then hi else list[0].at) <= hi
    decreases |list|
  {
    if list != [] {
      RowEnd(mem, list[0].at, 0, list[0].at + 24, list[0].at + MajorSize(mem, list[0].at), list[0].ks);
      HeapEnd(mem, list[0].at, list[0].at + MajorSize(mem, list[0].at), hi, list[1..]);
    }
  }

  /** The record and the row of the major at index `j`. */
  lemma {:induction false} HeapAt(mem: Memory, prev: nat, lo: nat, hi: nat, list: seq<Block>, j: nat)
    requires Heap(mem, prev, lo, hi, list) && j < |list|
    ensures list[j].at in mem.majors
    ensures var b, r := list[j], mem.majors[list[j].at];
            && r == Major(if j == 0 then prev else list[j - 1].at, if j + 1 < |list| then list[j + 1].at else 0,
                          r.pages, r.pages * 4096, 24 + Sum(mem, b.ks), FirstOf(b.ks))
            && lo <= b.at && b.at + 24 <= b.at + r.size <= (if j + 1 < |list| then list[j + 1].at else hi) <= hi
            && Row(mem, b.at, 0, b.at + 24, b.at + r.size, b.ks)
    decreases |list|
  {
    var b := list[0];
    HeapEnd(mem, b.at, b.at + MajorSize(mem, b.at), hi, list[1..]);
    if j > 0 {
      HeapAt(mem, b.at, b.at + MajorSize(mem, b.at), hi, list[1..], j - 1);
      RowEnd(mem, b.at, 0, b.at + 24, b.at + MajorSize(mem, b.at), b.ks);
    } else {
      RowEnd(mem, b.at, 0, b.at + 24, b.at + MajorSize(mem, b.at), b.ks);
    }
  }

  /** Majors do not overlap. */
  lemma {:induction false} HeapApart(mem: Memory, prev: nat, lo: nat, hi: nat, list: seq<Block>, i: nat, j: nat)
    requires Heap(mem, prev, lo, hi, list) && i < j < |list|
    ensures list[i].at + MajorSize(mem, list[i].at) <= list[j].at
    decreases |list|
  {
    var b := list[0];
    if i > 0 {
      HeapApart(mem, b.at, b.at + MajorSize(mem, b.at), hi, list[1..], i - 1, j - 1);
    } else {
      HeapAt(mem, b.at, b.at + MajorSize(mem, b.at), hi, list[1..], j - 1);
    }
  }

  /** From address `lo` on, the two memories differ at most in the majors of `s`. */
  ghost predicate MajorsOutside(mem: Memory, to: Memory, lo: nat, s: set<nat>) {
    forall m :: m in mem.majors && lo <= m && m !in s ==> m in to.majors && to.majors[m] == mem.majors[m]
  }

  /** Changes outside the addresses of a list of majors do not reach it. */
  lemma {:induction false} HeapUntouched(mem: Memory, to: Memory, c: set<nat>, s: set<nat>, x: nat, prev: nat, lo: nat,
                                         hi: nat, list: seq<Block>)
    requires Heap(mem, prev, lo, hi, list) && Outside(mem, to, s, x) && MajorsOutside(mem, to, lo, c)
    requires forall k :: k in c ==> k < lo || hi <= k
    requires forall k :: k in s ==> k < lo || hi <= k
    requires x < lo || hi <= x
    ensures Heap(to, prev, lo, hi, list)
    ensures Live(to, list) == Live(mem, list) && InUse(to, list) == InUse(mem, list)
    ensures Allocated(to, list) == Allocated(mem, list)
    decreases |list|
  {
    if list != [] {
      var b := list[0];
      HeapAt(mem, prev, lo, hi, list, 0);
      var end := b.at + MajorSize(mem, b.at);
      RowKept(mem, to, s, x, b.at, 0, b.at + 24, end, b.ks);
      HeapUntouched(mem, to, c, s, x, b.at, end, hi, list[1..]);
    }
  }

  lemma RowKept(mem: Memory, to: Memory, s: set<nat>, x: nat, m: nat, prev: nat, lo: nat, hi: nat, ks: seq<nat>)
    requires Row(mem, m, prev, lo, hi, ks) && Outside(mem, to, s, x)
    requires (forall k :: k in s ==> k < lo || hi <= k) && (x < lo || hi <= x)
    ensures Row(to, m, prev, lo, hi, ks)
    ensures Sum(to, ks) == Sum(mem, ks) && RowLive(to, ks) == RowLive(mem, ks) && RowUse(to, ks) == RowUse(mem, ks)
  {
    RowUntouched(mem, to, s, x, m, prev, lo, hi, ks);
    RowFrame(mem, to, m, prev, lo, hi, ks);
    SumSplits(mem, ks);
    SumSplits(to, ks);
  }

  // ---- changing one major's row ------------------------------------------------------------------

  /** The row of the major at index `j` has become `ks`, inside that major. */
  ghost predicate RowChanged(mem: Memory, to: Memory, s: set<nat>, x: nat, list: seq<Block>, j: nat, ks: seq<nat>)
    requires j < |list|
  {
    && var at := list[j].at;
    && at in mem.majors && at in to.majors
    && to.majors[at] == mem.majors[at].(usage := 24 + Sum(to, ks), first := FirstOf(ks))
    && Row(to, at, 0, at + 24, at + MajorSize(mem, at), ks)
    && MajorsOutside(mem, to, 0, {at}) && Outside(mem, to, s, x)
    && (forall k :: k in s ==> at <= k < at + MajorSize(mem, at)) && at <= x < at + MajorSize(mem, at)
  }

  lemma RowChangedIs(mem: Memory, to: Memory, s: set<nat>, x: nat, list: seq<Block>, j: nat, ks: seq<nat>, at: nat,
                     end: nat)
    requires j < |list| && at == list[j].at && at in mem.majors && end == at + mem.majors[at].size && at in to.majors
    requires to.majors[at] == mem.majors[at].(usage := 24 + Sum(to, ks), first := FirstOf(ks))
    requires Row(to, at, 0, at + 24, end, ks) && MajorsOutside(mem, to, 0, {at}) && Outside(mem, to, s, x)
    requires (forall k :: k in s ==> at <= k < end) && at <= x < end
    ensures RowChanged(mem, to, s, x, list, j, ks)
  {
  }

  lemma SetParts(list: seq<Block>, j: nat, b: Block)
    requires j < |list| && b.at == list[j].at
    ensures |list[j := b]| == |list| && NextAt(list[j := b]) == NextAt(list)
    ensures if j == 0 then list[j := b][0] == b && list[j := b][1..] == list[1..]
            else list[j := b][0] == list[0] && list[j := b][1..] == list[1..][j - 1 := b]
  {
  }

  lemma {:induction false} HeapChange(mem: Memory, to: Memory, s: set<nat>, x: nat, prev: nat, lo: nat, hi: nat,
                                      list: seq<Block>, j: nat, ks: seq<nat>)
    requires Heap(mem, prev, lo, hi, list) && j < |list| && RowChanged(mem, to, s, x, list, j, ks)
    ensures Heap(to, prev, lo, hi, list[j := Block(list[j].at, ks)])
    ensures Allocated(to, list[j := Block(list[j].at, ks)]) == Allocated(mem, list)
    ensures InUse(to, list[j := Block(list[j].at, ks)]) + RowUse(mem, list[j].ks) == InUse(mem, list) + RowUse(to, ks)
    decreases |list|
  {
    var b, list2 := list[0], list[j := Block(list[j].at, ks)];
    var end := b.at + MajorSize(mem, b.at);
    SetParts(list, j, Block(list[j].at, ks));
    if j == 0 {
      ChangeFirst(mem, to, s, x, prev, lo, hi, list, ks, list2);
    } else {
      ChangeLater(mem, to, s, x, prev, lo, hi, list, j, ks, end);
      HeapChange(mem, to, s, x, b.at, end, hi, list[1..], j - 1, ks);
      HeapCons(mem, to, prev, lo, hi, list, list2, end);
    }
  }

  lemma ChangeFirst(mem: Memory, to: Memory, s: set<nat>, x: nat, prev: nat, lo: nat, hi: nat, list: seq<Block>,
                    ks: seq<nat>, list2: seq<Block>)
    requires Heap(mem, prev, lo, hi, list) && list != [] && RowChanged(mem, to, s, x, list, 0, ks)
    requires list2 != [] && list2[0] == Block(list[0].at, ks) && list2[1..] == list[1..]
    requires NextAt(list2) == NextAt(list)
    ensures Heap(to, prev, lo, hi, list2) && Allocated(to, list2) == Allocated(mem, list)
    ensures InUse(to, list2) + RowUse(mem, list[0].ks) == InUse(mem, list) + RowUse(to, ks)
  {
    var b := list[0];
    HeapAt(mem, prev, lo, hi, list, 0);
    HeapUntouched(mem, to, {b.at}, s, x, b.at, b.at + MajorSize(mem, b.at), hi, list[1..]);
  }

  /** The head is kept when a later row changes. */
  lemma ChangeLater(mem: Memory, to: Memory, s: set<nat>, x: nat, prev: nat, lo: nat, hi: nat, list: seq<Block>,
                    j: nat, ks: seq<nat>, end: nat)
    requires Heap(mem, prev, lo, hi, list) && 0 < j < |list| && RowChanged(mem, to, s, x, list, j, ks)
    requires end == list[0].at + MajorSize(mem, list[0].at)
    ensures RowChanged(mem, to, s, x, list[1..], j - 1, ks)
    ensures HeadKept(mem, to, list[0].at, list[0].ks, end, NextAt(list))
  {
    var b := list[0];
    HeapAt(mem, prev, lo, hi, list, 0);
    HeapApart(mem, prev, lo, hi, list, 0, j);
    RowKept(mem, to, s, x, b.at, 0, b.at + 24, end, b.ks);
  }

  /** A user block added to one row is added to the whole. */
  lemma {:induction false} LiveAdd(mem: Memory, to: Memory, s: set<nat>, x: nat, prev: nat, lo: nat, hi: nat,
                                   list: seq<Block>, j: nat, ks: seq<nat>, p: nat, req: nat)
    requires Heap(mem, prev, lo, hi, list) && j < |list| && RowChanged(mem, to, s, x, list, j, ks)
    requires RowLive(to, ks) == RowLive(mem, list[j].ks)[p := req]
    requires list[j].at <= p < list[j].at + MajorSize(mem, list[j].at)
    ensures Live(to, list[j := Block(list[j].at, ks)]) == Live(mem, list)[p := req]
    decreases |list|
  {
    var b := list[0];
    var end := b.at + MajorSize(mem, b.at);
    SetParts(list, j, Block(list[j].at, ks));
    HeapAt(mem, prev, lo, hi, list, 0);
    if j == 0 {
      HeapUntouched(mem, to, {b.at}, s, x, b.at, end, hi, list[1..]);
      JoinThenAdd(Live(mem, list[1..]), RowLive(mem, b.ks), p, req);
    } else {
      HeapApart(mem, prev, lo, hi, list, 0, j);
      RowKept(mem, to, s, x, b.at, 0, b.at + 24, end, b.ks);
      NotLive(mem, b.at, 0, b.at + 24, end, b.ks, p);
      LiveAdd(mem, to, s, x, b.at, end, hi, list[1..], j - 1, ks, p, req);
      AddThenJoin(Live(mem, list[1..]), RowLive(mem, b.ks), p, req);
    }
  }

  lemma JoinThenAdd(m: map<nat, nat>, r: map<nat, nat>, p: nat, v: nat)
    ensures m + r[p := v] == (m + r)[p := v]
  {
  }

  lemma AddThenJoin(m: map<nat, nat>, r: map<nat, nat>, p: nat, v: nat)
    requires p !in r
    ensures m[p := v] + r == (m + r)[p := v]
  {
  }

  lemma {:induction false} LiveDrop(mem: Memory, to: Memory, s: set<nat>, x: nat, prev: nat, lo: nat, hi: nat,
                                    list: seq<Block>, j: nat, ks: seq<nat>, p: nat)
    requires Heap(mem, prev, lo, hi, list) && j < |list| && RowChanged(mem, to, s, x, list, j, ks)
    requires RowLive(to, ks) == RowLive(mem, list[j].ks) - {p}
    requires list[j].at <= p < list[j].at + MajorSize(mem, list[j].at)
    ensures Live(to, list[j := Block(list[j].at, ks)]) == Live(mem, list) - {p}
    decreases |list|
  {
    var b := list[0];
    var end := b.at + MajorSize(mem, b.at);
    SetParts(list, j, Block(list[j].at, ks));
    HeapAt(mem, prev, lo, hi, list, 0);
    if j == 0 {
      HeapUntouched(mem, to, {b.at}, s, x, b.at, end, hi, list[1..]);
      NotLiveBelow(mem, b.at, end, hi, list[1..], p);
      DropFromRow(Live(mem, list[1..]), RowLive(mem, b.ks), p);
    } else {
      HeapApart(mem, prev, lo, hi, list, 0, j);
      RowKept(mem, to, s, x, b.at, 0, b.at + 24, end, b.ks);
      NotLive(mem, b.at, 0, b.at + 24, end, b.ks, p);
      LiveDrop(mem, to, s, x, b.at, end, hi, list[1..], j - 1, ks, p);
      DropThenJoin(Live(mem, list[1..]), RowLive(mem, b.ks), p);
    }
  }

  lemma DropThenJoin(m: map<nat, nat>, r: map<nat, nat>, p: nat)
    requires p !in r
    ensures (m - {p}) + r == (m + r) - {p}
  {
  }

  lemma DropFromRow(m: map<nat, nat>, r: map<nat, nat>, p: nat)
    requires p !in m
    ensures m + (r - {p}) == (m + r) - {p}
  {
  }

  lemma {:induction false} NotLiveBelow(mem: Memory, prev: nat, lo: nat, hi: nat, list: seq<Block>, p: nat)
    requires Heap(mem, prev, lo, hi, list) && p < lo
    ensures p !in Live(mem, list)
    decreases |list|
  {
    if list != [] {
      var b := list[0];
      HeapAt(mem, prev, lo, hi, list, 0);
      NotLive(mem, b.at, 0, b.at + 24, b.at + MajorSize(mem, b.at), b.ks, p);
      NotLiveBelow(mem, b.at, b.at + MajorSize(mem, b.at), hi, list[1..], p);
    }
  }

  /** A live pointer belongs to a minor of some major. */
  lemma {:induction false} LiveIn(mem: Memory, prev: nat, lo: nat, hi: nat, list: seq<Block>, p: nat) returns (j: nat,
                                                                                                               i: nat)
    requires Heap(mem, prev, lo, hi, list) && p in Live(mem, list)
    ensures j < |list| && i < |list[j].ks| && p == Pointer(list[j].ks[i])
    ensures p in RowLive(mem, list[j].ks)
    ensures Live(mem, list)[p] == RowLive(mem, list[j].ks)[p] == ReqOf(mem, list[j].ks[i])
    decreases |list|
  {
    var b := list[0];
    if p in RowLive(mem, b.ks) {
      j := 0;
      i := LiveAt(mem, b.at, 0, b.at + 24, b.at + MajorSize(mem, b.at), b.ks, p);
    } else {
      j, i := LiveIn(mem, b.at, b.at + MajorSize(mem, b.at), hi, list[1..], p);
      j := j + 1;
    }
  }

  // ---- adding and removing majors ------------------------------------------------------------------

  function LastAt(prev: nat, list: seq<Block>): nat { if list == [] then prev else list[|list| - 1].at }

  /** `to` has a new, empty major `a` linked behind the last. */
  ghost predicate MajorAdded(mem: Memory, to: Memory, lo: nat, list: seq<Block>, a: nat, pages: nat, prev: nat) {
    && to.minors == mem.minors && to.marks == mem.marks && a in to.majors
    && var last := LastAt(prev, list);
    && to.majors[a] == Major(last, 0, pages, pages * 4096, 24, 0) && MajorsOutside(mem, to, lo, {a, last})
    && (list != [] ==> last in mem.majors && last in to.majors && to.majors[last] == mem.majors[last].(next := a))
  }

  /** `list2` is `list` with `b` at the end. */
  ghost predicate Appends(list: seq<Block>, list2: seq<Block>, b: Block)
    decreases |list|
  {
    if list == [] then list2 == [b]
    else
      && list2 != [] && list2[0] == list[0] && NextAt(list2) == (if |list| == 1 then b.at else NextAt(list))
      && Appends(list[1..], list2[1..], b)
  }

  lemma {:induction false} AppendsIs(list: seq<Block>, b: Block)
    ensures Appends(list, list + [b], b)
    decreases |list|
  {
    if list != [] {
      AppendsIs(list[1..], b);
      assert (list + [b])[1..] == list[1..] + [b];
    }
  }

  /** `list2` is `list` without index `j`. */
  ghost predicate Drops(list: seq<Block>, list2: seq<Block>, j: nat)
    requires j < |list|
    decreases |list|
  {
    if j == 0 then list2 == list[1..]
    else
      && list2 != [] && list2[0] == list[0] && NextAt(list2) == (if j == 1 then NextAt(list[1..]) else NextAt(list))
      && Drops(list[1..], list2[1..], j - 1)
  }

  lemma {:induction false} DropsIs(list: seq<Block>, j: nat)
    requires j < |list|
    ensures Drops(list, list[..j] + list[j + 1..], j)
    decreases |list|
  {
    if j > 0 {
      DropsIs(list[1..], j - 1);
      assert (list[..j] + list[j + 1..])[1..] == list[1..][..j - 1] + list[1..][j..];
    }
  }

  lemma NeighbourParts(prev: nat, list: seq<Block>, j: nat)
    requires 0 < j < |list|
    ensures LastAt(prev, list[..j]) == LastAt(list[0].at, list[1..][..j - 1]) == list[j - 1].at
    ensures RootOf(list[j + 1..]) == RootOf(list[1..][j..])
    ensures RootOf(list[j + 1..]) == if j + 1 < |list| then list[j + 1].at else 0
  {
    if j > 1 { assert list[1..][..j - 1][j - 2] == list[j - 1]; }
    assert list[1..][j..] == list[j + 1..];
  }

  /** `to` has the major at index `j` unlinked. */
  ghost predicate MajorDropped(mem: Memory, to: Memory, lo: nat, list: seq<Block>, j: nat, prev: nat)
    requires j < |list|
  {
    && var last, next := LastAt(prev, list[..j]), RootOf(list[j + 1..]);
    && to.minors == mem.minors && to.marks == mem.marks && MajorsOutside(mem, to, lo, {list[j].at, last, next})
    && (j > 0 ==> last in mem.majors && last in to.majors && to.majors[last] == mem.majors[last].(next := next))
    && (j + 1 < |list| ==>
          next in mem.majors && next in to.majors && to.majors[next] == mem.majors[next].(prev := last))
  }

  lemma {:induction false} HeapRemove(mem: Memory, to: Memory, prev: nat, lo: nat, hi: nat, list: seq<Block>, j: nat,
                                      list2: seq<Block>)
    requires Heap(mem, prev, lo, hi, list) && j < |list| && MajorDropped(mem, to, lo, list, j, prev) && list[j].ks == []
    requires prev < lo
    requires Drops(list, list2, j)
    ensures Heap(to, prev, lo, hi, list2)
    ensures Live(to, list2) == Live(mem, list) && InUse(to, list2) == InUse(mem, list)
    ensures Allocated(to, list2) + MajorSize(mem, list[j].at) == Allocated(mem, list)
    decreases |list|
  {
    if j == 0 {
      RemoveFirst(mem, to, prev, lo, hi, list);
    } else {
      var b := list[0];
      var end := b.at + MajorSize(mem, b.at);
      RemoveLater(mem, to, prev, lo, hi, list, j, end);
      HeapRemove(mem, to, b.at, end, hi, list[1..], j - 1, list2[1..]);
      HeapCons(mem, to, prev, lo, hi, list, list2, end);
    }
  }

  lemma RemoveFirst(mem: Memory, to: Memory, prev: nat, lo: nat, hi: nat, list: seq<Block>)
    requires Heap(mem, prev, lo, hi, list) && list != [] && MajorDropped(mem, to, lo, list, 0, prev) && list[0].ks == []
    requires prev < lo
    ensures Heap(to, prev, lo, hi, list[1..])
    ensures Live(to, list[1..]) == Live(mem, list) && InUse(to, list[1..]) == InUse(mem, list)
    ensures Allocated(to, list[1..]) + MajorSize(mem, list[0].at) == Allocated(mem, list)
  {
    var b := list[0];
    HeapAt(mem, prev, lo, hi, list, 0);
    HeapRelink(mem, to, b.at, prev, b.at + MajorSize(mem, b.at), lo, hi, list[1..]);
  }

  /** The head's record and row when a later major goes. */
  lemma RemoveLater(mem: Memory, to: Memory, prev: nat, lo: nat, hi: nat, list: seq<Block>, j: nat, end: nat)
    requires Heap(mem, prev, lo, hi, list) && 0 < j < |list| && MajorDropped(mem, to, lo, list, j, prev) && prev < lo
    requires end == list[0].at + MajorSize(mem, list[0].at)
    ensures MajorDropped(mem, to, end, list[1..], j - 1, list[0].at) && list[0].at < end
    ensures HeadKept(mem, to, list[0].at, list[0].ks, end, if j == 1 then NextAt(list[1..]) else NextAt(list))
  {
    var b := list[0];
    HeapAt(mem, prev, lo, hi, list, 0);
    HeapApart(mem, prev, lo, hi, list, 0, j);
    if j > 1 { HeapApart(mem, prev, lo, hi, list, 0, j - 1); }
    if j + 1 < |list| { HeapApart(mem, prev, lo, hi, list, 0, j + 1); }
    RowKept(mem, to, {}, 0, b.at, 0, b.at + 24, end, b.ks);
    NeighbourParts(prev, list, j);
  }

  /** A major keeps its row and its record, up to the forward link. */
  ghost predicate HeadKept(mem: Memory, to: Memory, at: nat, ks: seq<nat>, end: nat, next: nat) {
    && at in mem.majors && at in to.majors && to.majors[at] == mem.majors[at].(next := next)
    && Row(to, at, 0, at + 24, end, ks)
    && Sum(to, ks) == Sum(mem, ks) && RowLive(to, ks) == RowLive(mem, ks) && RowUse(to, ks) == RowUse(mem, ks)
  }

  /** A kept head in front of a rebuilt tail. */
  lemma HeapCons(mem: Memory, to: Memory, prev: nat, lo: nat, hi: nat, list: seq<Block>, list2: seq<Block>, end: nat)
    requires Heap(mem, prev, lo, hi, list) && list != [] && end == list[0].at + MajorSize(mem, list[0].at)
    requires list2 != [] && list2[0] == list[0] && HeadKept(mem, to, list[0].at, list[0].ks, end, NextAt(list2))
    requires Heap(to, list[0].at, end, hi, list2[1..])
    ensures Heap(to, prev, lo, hi, list2)
    ensures Live(to, list2[1..]) == Live(mem, list[1..]) ==> Live(to, list2) == Live(mem, list)
    ensures InUse(to, list2) - InUse(to, list2[1..]) == InUse(mem, list) - InUse(mem, list[1..])
    ensures Allocated(to, list2) - Allocated(to, list2[1..]) == Allocated(mem, list) - Allocated(mem, list[1..])
  {
  }

  /** A changed back link, and room below, at the front of a list of majors. */
  lemma HeapRelink(mem: Memory, to: Memory, prev: nat, prev2: nat, lo: nat, lo2: nat, hi: nat, list: seq<Block>)
    requires Heap(mem, prev, lo, hi, list) && lo2 <= (if list == [] then hi else list[0].at)
    requires to.minors == mem.minors && to.marks == mem.marks && MajorsOutside(mem, to, lo, {RootOf(list)})
    requires list != [] ==> list[0].at in mem.majors && list[0].at in to.majors
    requires list != [] ==> to.majors[list[0].at] == mem.majors[list[0].at].(prev := prev2)
    ensures Heap(to, prev2, lo2, hi, list)
    ensures Live(to, list) == Live(mem, list) && InUse(to, list) == InUse(mem, list)
    ensures Allocated(to, list) == Allocated(mem, list)
  {
    if list != [] {
      HeapAt(mem, prev, lo, hi, list, 0);
      RelinkRest(mem, to, prev, lo, hi, list, list[0].at, list[0].at + MajorSize(mem, list[0].at));
    }
  }

  /** Behind the head only the head's own record has changed. */
  lemma RelinkRest(mem: Memory, to: Memory, prev: nat, lo: nat, hi: nat, list: seq<Block>, at: nat, end: nat)
    requires list != [] && Heap(mem, prev, lo, hi, list) && at == list[0].at && end == at + MajorSize(mem, at)
    requires to.minors == mem.minors && to.marks == mem.marks && MajorsOutside(mem, to, lo, {at}) && at + 24 <= end
    ensures Row(to, at, 0, at + 24, end, list[0].ks) && Heap(to, at, end, hi, list[1..])
    ensures Sum(to, list[0].ks) == Sum(mem, list[0].ks) && RowLive(to, list[0].ks) == RowLive(mem, list[0].ks)
    ensures RowUse(to, list[0].ks) == RowUse(mem, list[0].ks)
    ensures Live(to, list[1..]) == Live(mem, list[1..]) && InUse(to, list[1..]) == InUse(mem, list[1..])
    ensures Allocated(to, list[1..]) == Allocated(mem, list[1..])
  {
    RowKept(mem, to, {}, 0, at, 0, at + 24, end, list[0].ks);
    HeapUntouched(mem, to, {at}, {}, 0, at, end, hi, list[1..]);
  }

  lemma {:induction false} HeapAppend(mem: Memory, to: Memory, prev: nat, lo: nat, hi: nat, list: seq<Block>, a: nat,
                                      pages: nat, list2: seq<Block>)
    requires Heap(mem, prev, lo, hi, list) && MajorAdded(mem, to, lo, list, a, pages, prev) && hi <= a && pages > 0
    requires Appends(list, list2, Block(a, []))
    ensures Heap(to, prev, lo, a + pages * 4096, list2)
    ensures Live(to, list2) == Live(mem, list) && InUse(to, list2) == InUse(mem, list)
    ensures Allocated(to, list2) == Allocated(mem, list) + pages * 4096
    decreases |list|
  {
    if list != [] {
      var b := list[0];
      var end := b.at + MajorSize(mem, b.at);
      AppendLater(mem, to, prev, lo, hi, list, a, pages, end);
      HeapAppend(mem, to, b.at, end, hi, list[1..], a, pages, list2[1..]);
      HeapBound(mem, prev, lo, hi, a + pages * 4096, list);
      HeapCons(mem, to, prev, lo, a + pages * 4096, list, list2, end);
    }
  }

  /** The end of the heap may move up. */
  lemma {:induction false} HeapBound(mem: Memory, prev: nat, lo: nat, hi: nat, hi2: nat, list: seq<Block>)
    requires Heap(mem, prev, lo, hi, list) && hi <= hi2
    ensures Heap(mem, prev, lo, hi2, list)
    decreases |list|
  {
    if list != [] { HeapBound(mem, list[0].at, list[0].at + MajorSize(mem, list[0].at), hi, hi2, list[1..]); }
  }

  lemma AppendLater(mem: Memory, to: Memory, prev: nat, lo: nat, hi: nat, list: seq<Block>, a: nat, pages: nat,
                    end: nat)
    requires Heap(mem, prev, lo, hi, list) && list != [] && MajorAdded(mem, to, lo, list, a, pages, prev) && hi <= a
    requires end == list[0].at + MajorSize(mem, list[0].at)
    ensures MajorAdded(mem, to, end, list[1..], a, pages, list[0].at)
    ensures HeadKept(mem, to, list[0].at, list[0].ks, end, if |list| == 1 then a else NextAt(list))
  {
    var b := list[0];
    HeapAt(mem, prev, lo, hi, list, 0);
    RowKept(mem, to, {}, 0, b.at, 0, b.at + 24, end, b.ks);
    if |list| > 1 { HeapApart(mem, prev, lo, hi, list, 0, |list| - 1); }
  }
}
