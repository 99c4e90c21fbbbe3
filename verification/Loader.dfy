/** The kernel's ELF loader (`load_elf_into`, src/syscall.c): PT_LOAD segments copied page by page
    into fresh frames of a new address space. */
module Loader {
  import opened Words
  import opened Pmm

  const USER_REGION_START: nat := 0x0040_0000
  const USER_STACK_BASE: nat := 0xBFFF_0000
  const USER_STACK_PAGES: nat := 16
  const PAGE: nat := 0x1000

  /** A PT_LOAD program header. */
  datatype Segment = Segment(vaddr: Addr32, offset: Addr32, filesz: Addr32, memsz: Addr32)
  {
    /** The two range checks of the segment loop. */
    predicate Accepted(fileSize: nat) {
      && offset <= fileSize && filesz <= fileSize - offset
      && vaddr >= USER_REGION_START && U32(vaddr + memsz) >= vaddr && U32(vaddr + memsz) <= USER_STACK_BASE
    }

    /** The file part is in the file, and the memory between the start of user space and the stack. */
    predicate InBounds(fileSize: nat) {
      offset + filesz <= fileSize && 0x40_0000 <= vaddr && vaddr + memsz <= 0xBFFF_0000
    }

    /** The pages from `seg_start` up to `seg_end`. */
    function FirstPage(): nat { vaddr / PAGE }
    function EndPage(): nat { (vaddr + memsz + 0xFFF) / PAGE }

    /** `x` is one of the segment's addresses. */
    predicate Spans(x: int) { vaddr <= x < vaddr + memsz }

    /** The addresses of page `q` meet the segment's; an empty segment counts where it lies inside a page. */
    predicate Meets(q: int) { q * PAGE < vaddr + memsz && vaddr < q * PAGE + PAGE }

    /** `x` receives a byte of the file: the end of the file part is computed unsigned, and only pages of the segment
        are filled. */
    predicate Covers(x: nat) { vaddr <= x < U32(vaddr + filesz) && Meets(x / PAGE) }
  }

  /** The checks, which compute unsigned, accept exactly that. */
  lemma AcceptedExactly(seg: Segment, fileSize: nat)
    ensures seg.Accepted(fileSize) <==> seg.InBounds(fileSize)
  {
  }

  /** The page loop visits the pages that meet the segment. */
  lemma PagesMeet(seg: Segment, q: nat)
    ensures seg.FirstPage() <= q < seg.EndPage() <==> seg.Meets(q)
  {
    var v, m := seg.vaddr, seg.vaddr + seg.memsz;
    assert v == PAGE * (v / PAGE) + v % PAGE;
    assert m + 0xFFF == PAGE * ((m + 0xFFF) / PAGE) + (m + 0xFFF) % PAGE;
  }

  /** Every address of a segment is on a page that meets it. */
  lemma SpansMeets(seg: Segment, x: nat)
    requires seg.Spans(x)
    ensures seg.Meets(x / PAGE)
  {
    assert x == PAGE * (x / PAGE) + x % PAGE;
  }

  /** Page `q` is one of the first `n` of the stack. */
  predicate InStack(q: nat, n: nat) { USER_STACK_BASE / PAGE <= q < USER_STACK_BASE / PAGE + n }

  /** What `x` holds once the segment's part of `page` has been copied, if it held `was`. */
  function Overlaid(file: seq<Byte>, seg: Segment, page: nat, x: nat, was: Byte): Byte
    requires seg.offset + seg.filesz <= |file|
  {
    if x / PAGE == page && seg.Covers(x) then file[seg.offset + (x - seg.vaddr)] else was
  }

  ghost predicate InFile(file: seq<Byte>, segs: seq<Segment>, n: nat) {
    n <= |segs| && forall i :: 0 <= i < n ==> segs[i].offset + segs[i].filesz <= |file|
  }

  /** What address `x` holds once the first `n` segments are loaded: the byte of the last segment
      that covers it, and zero if none does. */
  ghost function Expect(file: seq<Byte>, segs: seq<Segment>, n: nat, x: nat): Byte
    requires InFile(file, segs, n)
  {
    if n == 0 then 0
    else if segs[n - 1].Covers(x) then file[segs[n - 1].offset + (x - segs[n - 1].vaddr)]
    else Expect(file, segs, n - 1, x)
  }

  /** Page `p` belongs to one of the first `n` segments. */
  ghost predicate InSegments(segs: seq<Segment>, n: nat, p: nat)
    requires n <= |segs|
  {
    exists i :: 0 <= i < n && segs[i].Meets(p)
  }

  lemma InSegmentsStep(segs: seq<Segment>, n: nat, p: nat)
    requires n < |segs|
    ensures InSegments(segs, n + 1, p) <==> InSegments(segs, n, p) || segs[n].Meets(p)
  {
    if InSegments(segs, n + 1, p) {
      var i :| 0 <= i < n + 1 && segs[i].Meets(p);
      assert i == n || InSegments(segs, n, p);
    }
  }

  /** What `x` holds when segment `n` has been loaded up to `page`. */
  ghost function Loaded(file: seq<Byte>, segs: seq<Segment>, n: nat, page: nat, x: nat): Byte
    requires n < |segs| && InFile(file, segs, n + 1)
  {
    if x / PAGE < page then Expect(file, segs, n + 1, x) else Expect(file, segs, n, x)
  }

  lemma LoadedFrom(file: seq<Byte>, segs: seq<Segment>, n: nat, x: nat)
    requires n < |segs| && InFile(file, segs, n + 1)
    ensures Loaded(file, segs, n, segs[n].FirstPage(), x) == Expect(file, segs, n, x)
  {
    if segs[n].Covers(x) { PagesMeet(segs[n], x / PAGE); }
  }

  lemma LoadedNext(file: seq<Byte>, segs: seq<Segment>, n: nat, page: nat, x: nat)
    requires n < |segs| && InFile(file, segs, n + 1)
    ensures Overlaid(file, segs[n], page, x, Loaded(file, segs, n, page, x)) == Loaded(file, segs, n, page + 1, x)
  {
  }

  lemma LoadedUpTo(file: seq<Byte>, segs: seq<Segment>, n: nat, page: nat, x: nat)
    requires n < |segs| && InFile(file, segs, n + 1) && segs[n].EndPage() <= page
    ensures Loaded(file, segs, n, page, x) == Expect(file, segs, n + 1, x)
  {
    if segs[n].Covers(x) { PagesMeet(segs[n], x / PAGE); }
  }

  ghost predicate Taken(used: seq<bool>, a: nat) {
    exists i: nat :: IsFrame(|used|, a, i) && used[i]
  }

  ghost predicate NoneFree(used: seq<bool>) { forall i :: 0 <= i < |used| ==> used[i] }

  ghost predicate SomeRejected(segs: seq<Segment>, fileSize: nat) {
    exists i :: 0 <= i < |segs| && !segs[i].InBounds(fileSize)
  }

  class AddressSpace {
    const pmm: FrameAllocator
    var tables: map<nat, nat>        // directory index to page-table frame
    var pages: map<nat, nat>         // user page number to frame
    var mem: map<nat, seq<Byte>>     // frame to its bytes

    /** Every mapped page and every table has a frame of its own. */
    ghost predicate Valid()
      reads this, pmm
    {
      && (forall p :: p in pages ==> Taken(pmm.used, pages[p]) && pages[p] in mem && |mem[pages[p]]| == PAGE)
      && (forall d :: d in tables ==> Taken(pmm.used, tables[d]))
      && (forall p, q :: p in pages && q in pages && p != q ==> pages[p] != pages[q])
      && (forall d, p :: d in tables && p in pages ==> tables[d] != pages[p])
    }

    /** The byte at virtual address `x`; an unmapped page reads as zero. */
    ghost function At(x: nat): Byte
      reads this
    {
      if x / PAGE in pages && pages[x / PAGE] in mem && |mem[pages[x / PAGE]]| == PAGE
      then mem[pages[x / PAGE]][x % PAGE] else 0
    }

    /** The page of `x` is mapped. */
    ghost predicate Mapped(x: nat)
      reads this
    {
      x / PAGE in pages
    }

    constructor (pmm: FrameAllocator)
      ensures Valid() && pages == map[] && this.pmm == pmm
    {
      this.pmm := pmm;
      tables, pages, mem := map[], map[], map[];
    }

    /** A zeroed frame nobody else uses. */
    method FreshFrame() returns (f: nat)
      requires Valid()
      modifies this`mem, pmm
      ensures Valid()
      ensures forall x: nat :: At(x) == old(At(x))
      ensures forall a :: Taken(old(pmm.used), a) ==> Taken(pmm.used, a)
      ensures f == 0 ==> NoneFree(pmm.used)
      ensures f != 0 ==>
                && Taken(pmm.used, f) && !Taken(old(pmm.used), f) && mem == old(mem)[f := Zeros(PAGE)]
                && (forall p :: p in pages ==> pages[p] != f) && (forall d :: d in tables ==> tables[d] != f)
    {
      ghost var index;
      f, index := pmm.AllocFrame();
      if f != 0 {
        forall a, i: nat | IsFrame(|old(pmm.used)|, a, i) && old(pmm.used)[i]
          ensures a != f && Taken(pmm.used, a)
        {
          FrameAddrInjective(i, index);
          assert IsFrame(|pmm.used|, a, i) && pmm.used[i];
        }
        assert IsFrame(|pmm.used|, f, index) && pmm.used[index];
        assert !Taken(old(pmm.used), f);
        mem := mem[f := Zeros(PAGE)];
      }
    }

    /** `paging_map_page`: create the page table if it is missing, then enter the page. */
    method MapPage(page: nat, f: nat) returns (ok: bool)
      requires Valid() && page !in pages
      requires Taken(pmm.used, f) && f in mem && |mem[f]| == PAGE
      requires (forall p :: p in pages ==> pages[p] != f) && (forall d :: d in tables ==> tables[d] != f)
      modifies this`tables, this`pages, pmm
      ensures Valid()
      ensures if ok then pages == old(pages)[page := f] else NoneFree(pmm.used)
      ensures forall a :: Taken(old(pmm.used), a) ==> Taken(pmm.used, a)
    {
      var dir := page / 1024;
      if dir !in tables {
        ghost var index;
        var t;
        t, index := pmm.AllocFrame();
        if t == 0 {
          return false;
        }
        forall a, i: nat | IsFrame(|old(pmm.used)|, a, i) && old(pmm.used)[i]
          ensures a != t && Taken(pmm.used, a)
        {
          FrameAddrInjective(i, index);
          assert IsFrame(|pmm.used|, a, i) && pmm.used[i];
        }
        assert IsFrame(|pmm.used|, t, index) && pmm.used[index];
        tables := tables[dir := t];
      }
      pages := pages[page := f];
      return true;
    }

    /** The page a segment needs: the frame already mapped there, or a fresh one. */
    method EnsurePage(page: nat) returns (ok: bool)
      requires Valid()
      modifies this, pmm
      ensures Valid()
      ensures if ok then page in pages && pages.Keys == old(pages).Keys + {page} else NoneFree(pmm.used)
      ensures forall a :: Taken(old(pmm.used), a) ==> Taken(pmm.used, a)
      ensures ok ==> forall q :: q in pages && q !in old(pages) ==> !Taken(old(pmm.used), pages[q])
      ensures ok ==> forall q :: q in old(pages) ==> pages[q] == old(pages)[q]
      ensures ok ==> forall x: nat :: At(x) == old(At(x))
    {
      if page in pages {
        return true;
      }
      var f := FreshFrame();
      if f == 0 {
        return false;
      }
      ok := MapPage(page, f);
    }

    /** The `memcpy` of one page: the stretch of the file that falls into it. */
    method CopyPage(file: seq<Byte>, seg: Segment, page: nat)
      requires Valid() && page in pages && seg.offset + seg.filesz <= |file| && seg.Meets(page)
      modifies this`mem
      ensures Valid()
      ensures forall x: nat :: At(x) == Overlaid(file, seg, page, x, old(At(x)))
    {
      var start, end := page * PAGE, page * PAGE + PAGE;
      var from := if start > seg.vaddr then start else seg.vaddr;
      var to := if end < U32(seg.vaddr + seg.filesz) then end else U32(seg.vaddr + seg.filesz);
      if from < to {
        var f := pages[page];
        var was := mem[f];
        var chunk := file[seg.offset + (from - seg.vaddr)..seg.offset + (to - seg.vaddr)];
        mem := mem[f := was[..from - start] + chunk + was[to - start..]];
      }
    }

    /** One turn of the page loop. */
    method LoadPage(file: seq<Byte>, seg: Segment, page: nat) returns (ok: bool)
      requires Valid() && seg.offset + seg.filesz <= |file| && seg.Meets(page)
      modifies this, pmm
      ensures Valid()
      ensures forall a :: Taken(old(pmm.used), a) ==> Taken(pmm.used, a)
      ensures ok ==> forall q :: q in pages && q !in old(pages) ==> !Taken(old(pmm.used), pages[q])
      ensures if ok then pages.Keys == old(pages).Keys + {page} else NoneFree(pmm.used)
      ensures ok ==> forall q :: q in old(pages) ==> pages[q] == old(pages)[q]
      ensures ok ==> forall x: nat :: At(x) == Overlaid(file, seg, page, x, old(At(x)))
    {
      ok := EnsurePage(page);
      if ok {
        CopyPage(file, seg, page);
      }
    }

    /** The page loop of one segment. */
    method LoadSegment(file: seq<Byte>, segs: seq<Segment>, n: nat) returns (ok: bool)
      requires Valid() && n < |segs| && InFile(file, segs, n + 1)
      requires forall x: nat :: At(x) == Expect(file, segs, n, x)
      modifies this, pmm
      ensures Valid()
      ensures forall a :: Taken(old(pmm.used), a) ==> Taken(pmm.used, a)
      ensures ok ==> forall q :: q in pages && q !in old(pages) ==> !Taken(old(pmm.used), pages[q])
      ensures ok ==> forall q :: q in old(pages) ==> q in pages && pages[q] == old(pages)[q]
      ensures ok ==> forall q: nat :: q in pages <==> q in old(pages) || segs[n].Meets(q)
      ensures ok ==> forall x: nat :: At(x) == Expect(file, segs, n + 1, x)
      ensures !ok ==> NoneFree(pmm.used)
    {
      var seg := segs[n];
      var page := seg.FirstPage();
      forall x: nat
        ensures At(x) == Loaded(file, segs, n, page, x)
      {
        LoadedFrom(file, segs, n, x);
      }
      while page < seg.EndPage()
        invariant Valid()
        invariant seg.FirstPage() <= page && (page <= seg.EndPage() || page == seg.FirstPage())
        invariant forall a :: Taken(old(pmm.used), a) ==> Taken(pmm.used, a)
        invariant forall q :: q in pages && q !in old(pages) ==> !Taken(old(pmm.used), pages[q])
        invariant forall q :: q in old(pages) ==> q in pages && pages[q] == old(pages)[q]
        invariant forall q :: q in pages <==> q in old(pages) || seg.FirstPage() <= q < page
        invariant forall x: nat :: At(x) == Loaded(file, segs, n, page, x)
      {
        PagesMeet(seg, page);
        ok := LoadPage(file, seg, page);
        if !ok {
          return;
        }
        forall x: nat
          ensures At(x) == Loaded(file, segs, n, page + 1, x)
        {
          LoadedNext(file, segs, n, page, x);
        }
        page := page + 1;
      }
      forall x: nat
        ensures At(x) == Expect(file, segs, n + 1, x)
      {
        LoadedUpTo(file, segs, n, page, x);
      }
      forall q: nat
        ensures seg.FirstPage() <= q < page <==> seg.Meets(q)
      {
        PagesMeet(seg, q);
      }
      return true;
    }

    /** The segment loop: every header is checked before it is loaded. */
    method LoadSegments(file: seq<Byte>, segs: seq<Segment>) returns (ok: bool)
      requires Valid() && pages == map[]
      modifies this, pmm
      ensures Valid()
      ensures forall a :: Taken(old(pmm.used), a) ==> Taken(pmm.used, a)
      ensures ok ==> InFile(file, segs, |segs|) && forall i :: 0 <= i < |segs| ==> segs[i].InBounds(|file|)
      ensures ok ==> forall q: nat :: q in pages <==> InSegments(segs, |segs|, q)
      ensures ok ==> forall q :: q in pages ==> !Taken(old(pmm.used), pages[q])
      ensures ok ==> forall x: nat :: At(x) == Expect(file, segs, |segs|, x)
      ensures !ok ==> NoneFree(pmm.used) || SomeRejected(segs, |file|)
    {
      for n := 0 to |segs|
        invariant Valid()
        invariant InFile(file, segs, n) && forall i :: 0 <= i < n ==> segs[i].InBounds(|file|)
        invariant forall a :: Taken(old(pmm.used), a) ==> Taken(pmm.used, a)
        invariant forall q: nat :: q in pages <==> InSegments(segs, n, q)
        invariant forall q :: q in pages ==> !Taken(old(pmm.used), pages[q])
        invariant forall x: nat :: At(x) == Expect(file, segs, n, x)
      {
        AcceptedExactly(segs[n], |file|);
        if !segs[n].Accepted(|file|) {
          return false;
        }
        ok := LoadSegment(file, segs, n);
        if !ok {
          return;
        }
        forall q: nat
          ensures InSegments(segs, n + 1, q) <==> InSegments(segs, n, q) || segs[n].Meets(q)
        {
          InSegmentsStep(segs, n, q);
        }
      }
      return true;
    }

    /** The stack loop: sixteen zeroed pages above every segment. */
    method MapStack() returns (ok: bool)
      requires Valid()
      requires forall p :: p in pages ==> p < USER_STACK_BASE / PAGE
      modifies this, pmm
      ensures Valid()
      ensures ok ==> forall q :: q in pages <==> q in old(pages) || InStack(q, USER_STACK_PAGES)
      ensures ok ==> forall x: nat :: At(x) == old(At(x))
      ensures !ok ==> NoneFree(pmm.used)
    {
      for i := 0 to USER_STACK_PAGES
        invariant Valid()
        invariant forall q :: q in pages <==> q in old(pages) || InStack(q, i)
        invariant forall x: nat :: At(x) == old(At(x))
      {
        ok := EnsurePage(USER_STACK_BASE / PAGE + i);
        if !ok {
          return;
        }
      }
      return true;
    }

    /** `load_elf_into`, from the program headers on: in a new address space, every byte is the
        file's where a segment covers it and zero elsewhere, the mapped pages are the segments' and
        the stack's, and no two pages share a frame.  It fails only for a segment out of range or for
        want of a frame. */
    method LoadElf(file: seq<Byte>, segs: seq<Segment>) returns (ok: bool)
      requires Valid() && pages == map[]
      modifies this, pmm
      ensures Valid()
      ensures ok ==> InFile(file, segs, |segs|) && forall i :: 0 <= i < |segs| ==> segs[i].InBounds(|file|)
      ensures ok ==> forall x: nat :: At(x) == Expect(file, segs, |segs|, x)
      ensures ok ==> forall q: nat :: q in pages <==> InSegments(segs, |segs|, q) || 0xB_FFF0 <= q < 0xC_0000
      ensures ok ==> forall i: nat, x: nat :: i < |segs| && segs[i].Spans(x) ==> Mapped(x)
      ensures ok ==> forall q :: q in pages ==> 0x400 <= q < 0xC_0000
      ensures !ok ==> NoneFree(pmm.used) || SomeRejected(segs, |file|)
    {
      ok := LoadSegments(file, segs);
      if !ok {
        return;
      }
      forall p | p in pages
        ensures 0x400 <= p < USER_STACK_BASE / PAGE
      {
        var i :| 0 <= i < |segs| && segs[i].Meets(p);
        assert segs[i].InBounds(|file|);
      }
      ok := MapStack();
      forall i: nat, x: nat | i < |segs| && segs[i].Spans(x)
        ensures InSegments(segs, |segs|, x / PAGE)
      {
        SpansMeets(segs[i], x);
      }
    }
  }

  /** With disjoint segments no larger in the file than in memory and below 2^32, address `vaddr + k` of every
      segment holds byte `offset + k` of the file, and addresses outside the file parts hold zero. */
  lemma {:induction false} DisjointSegments(file: seq<Byte>, segs: seq<Segment>, n: nat, i: nat, k: nat)
    requires i < n && InFile(file, segs, n)
    requires forall j :: 0 <= j < n ==> segs[j].filesz <= segs[j].memsz && segs[j].vaddr + segs[j].memsz < TWO32
    requires forall a, b :: 0 <= a < b < n ==>
               segs[a].vaddr + segs[a].memsz <= segs[b].vaddr || segs[b].vaddr + segs[b].memsz <= segs[a].vaddr
    requires k < segs[i].filesz
    ensures Expect(file, segs, n, segs[i].vaddr + k) == file[segs[i].offset + k]
    decreases n
  {
    var x := segs[i].vaddr + k;
    SpansMeets(segs[i], x);
    if i == n - 1 {
      assert segs[i].Covers(x);
    } else {
      assert !segs[n - 1].Covers(x);
      DisjointSegments(file, segs, n - 1, i, k);
    }
  }

  lemma {:induction false} ZeroElsewhere(file: seq<Byte>, segs: seq<Segment>, n: nat, x: nat)
    requires InFile(file, segs, n)
    requires forall j :: 0 <= j < n ==> !(segs[j].vaddr <= x < segs[j].vaddr + segs[j].filesz)
    ensures Expect(file, segs, n, x) == 0
    decreases n
  {
    if n > 0 { ZeroElsewhere(file, segs, n - 1, x); }
  }
}
