/** The file system above the volume: directory entries, open handles and the VFS operations.
    A directory entry's place stands for the sector and offset the path lookup found. */
module FatView {
  import opened Words
  import opened FatVolume
  import opened FatChains
  import opened FatBytes
  import opened FatCore
  import opened FatFiles

  datatype Dirent = Dirent(first: nat, size: nat, isDir: bool)

  datatype Handle = Handle(inUse: bool, access: nat, append: bool, loc: Loc, first: nat, size: nat, pos: nat)

  ghost predicate EntryOk(e: Dirent, ch: seq<nat>, cs: nat) {
    Heads(e.first, ch) && if e.isDir then e.size == 0 else Tight(e.size, ch, cs)
  }

  /** Table, directory entries and chains agree. */
  ghost predicate Sound(t: seq<U16>, chains: map<Loc, seq<nat>>, dir: map<Loc, Dirent>, cs: nat) {
    && Owns(t, chains) && dir.Keys == chains.Keys
    && forall l :: l in dir ==> EntryOk(dir[l], chains[l], cs)
  }

  /** A handle in use knows its file's first cluster and size and stands inside it. */
  ghost predicate HandleOk(h: Handle, dir: map<Loc, Dirent>) {
    h.inUse ==>
      && h.loc in dir && !dir[h.loc].isDir && h.pos <= h.size
      && h.first == dir[h.loc].first && h.size == dir[h.loc].size
  }

  ghost predicate HandlesOk(open: seq<Handle>, dir: map<Loc, Dirent>) {
    && (forall k :: 0 <= k < |open| ==> HandleOk(open[k], dir))
    && (forall j, k :: 0 <= j < k < |open| && open[j].inUse && open[k].inUse ==> open[j].loc != open[k].loc)
  }

  ghost predicate NotOpen(open: seq<Handle>, loc: Loc) {
    forall k :: 0 <= k < |open| && open[k].inUse ==> open[k].loc != loc
  }

  /** The first `size` bytes of a chain. */
  ghost function Text(b: seq<seq<Byte>>, ch: seq<nat>, size: nat): seq<Byte> {
    if (forall i :: 0 <= i < |ch| ==> ch[i] < |b|) && size <= |FileBytes(b, ch)| then FileBytes(b, ch)[..size] else []
  }

  /** What the volume holds: a byte sequence for every directory entry. */
  ghost function View(b: seq<seq<Byte>>, chains: map<Loc, seq<nat>>, dir: map<Loc, Dirent>): (v: map<Loc, seq<Byte>>)
    requires dir.Keys == chains.Keys
    ensures v.Keys == dir.Keys
  {
    map l | l in dir :: Text(b, chains[l], dir[l].size)
  }

  lemma TextSame(a: seq<seq<Byte>>, b: seq<seq<Byte>>, ch: seq<nat>, size: nat)
    requires Untouched(a, b, ch)
    ensures Text(a, ch, size) == Text(b, ch, size)
  {
    FileSame(a, b, ch);
  }

  /** Changing one file changes that file in the view. */
  lemma ViewUpdate(a: seq<seq<Byte>>, b: seq<seq<Byte>>, chains: map<Loc, seq<nat>>, dir: map<Loc, Dirent>, loc: Loc,
                   to: seq<nat>, e: Dirent,
                   all: map<Loc, seq<nat>>, d: map<Loc, Dirent>, files: map<Loc, seq<Byte>>, text: seq<Byte>)
    requires dir.Keys == chains.Keys && OthersKept(chains, loc, a, b) && all == chains[loc := to] && d == dir[loc := e]
    requires files == View(a, chains, dir) && text == Text(b, to, e.size)
    ensures d.Keys == all.Keys && View(b, all, d) == files[loc := text]
  {
    assert d.Keys == dir.Keys + {loc} && all.Keys == chains.Keys + {loc};
    forall l | l in d
      ensures Text(b, all[l], d[l].size) == files[loc := text][l]
    {
      if l != loc { TextSame(a, b, chains[l], dir[l].size); }
    }
  }

  lemma ViewDrop(b: seq<seq<Byte>>, chains: map<Loc, seq<nat>>, dir: map<Loc, Dirent>, loc: Loc)
    requires dir.Keys == chains.Keys
    ensures (dir - {loc}).Keys == (chains - {loc}).Keys
    ensures View(b, chains - {loc}, dir - {loc}) == View(b, chains, dir) - {loc}
  {
  }

  /** Replacing one entry and its chain keeps everything in agreement. */
  lemma SoundUpdate(t: seq<U16>, t2: seq<U16>, chains: map<Loc, seq<nat>>, dir: map<Loc, Dirent>, cs: nat, loc: Loc,
                    to: seq<nat>, e: Dirent, all: map<Loc, seq<nat>>, d: map<Loc, Dirent>)
    requires all == chains[loc := to] && d == dir[loc := e]
    requires Sound(t, chains, dir, cs) && Owns(t2, all) && EntryOk(e, to, cs)
    ensures Sound(t2, all, d, cs)
  {
    assert d.Keys == dir.Keys + {loc} && all.Keys == chains.Keys + {loc};
    forall l | l in d
      ensures EntryOk(d[l], all[l], cs)
    {
      assert l != loc ==> EntryOk(dir[l], chains[l], cs);
    }
  }

  lemma SoundDrop(t: seq<U16>, chains: map<Loc, seq<nat>>, dir: map<Loc, Dirent>, cs: nat, loc: Loc)
    requires Sound(t, chains, dir, cs) && loc in dir && chains[loc] == []
    ensures Sound(t, chains - {loc}, dir - {loc}, cs)
  {
    OwnsDrop(t, chains, loc);
    forall l | l in dir - {loc}
      ensures EntryOk((dir - {loc})[l], (chains - {loc})[l], cs)
    {
      assert EntryOk(dir[l], chains[l], cs);
    }
  }

  /** Rewriting the file a handle is on, and the handle with it. */
  lemma HandleFollows(open: seq<Handle>, dir: map<Loc, Dirent>, k: nat, g: Handle, e: Dirent, now: seq<Handle>,
                      d: map<Loc, Dirent>)
    requires HandlesOk(open, dir) && k < |open| && open[k].inUse
    requires g == open[k].(first := e.first, size := e.size, pos := g.pos)
    requires !e.isDir && g.pos <= g.size && now == open[k := g] && d == dir[g.loc := e]
    ensures HandlesOk(now, d)
  {
    forall j | 0 <= j < |now|
      ensures HandleOk(now[j], d)
    {
      assert HandleOk(open[j], dir);
    }
  }

  lemma EntryKept(dir: map<Loc, Dirent>, d: map<Loc, Dirent>, loc: Loc, e: Dirent)
    requires d == dir[loc := e] || (d == dir && loc in dir && dir[loc] == e)
    ensures d == dir[loc := e]
  {
  }

  lemma HandleMoves(open: seq<Handle>, dir: map<Loc, Dirent>, k: nat, g: Handle)
    requires HandlesOk(open, dir) && k < |open| && g == open[k].(pos := g.pos) && g.pos <= g.size
    ensures HandlesOk(open[k := g], dir)
  {
    assert HandleOk(open[k], dir);
  }

  /** Changing or deleting an entry no handle is on. */
  lemma HandlesElsewhere(open: seq<Handle>, dir: map<Loc, Dirent>, loc: Loc, e: Dirent, d: map<Loc, Dirent>)
    requires HandlesOk(open, dir) && NotOpen(open, loc) && (d == dir[loc := e] || d == dir - {loc})
    ensures HandlesOk(open, d)
  {
    forall j | 0 <= j < |open|
      ensures HandleOk(open[j], d)
    {
      assert HandleOk(open[j], dir);
    }
  }

  lemma AbsentNotOpen(open: seq<Handle>, dir: map<Loc, Dirent>, loc: Loc)
    requires HandlesOk(open, dir) && loc !in dir
    ensures NotOpen(open, loc)
  {
    assert forall k :: 0 <= k < |open| ==> HandleOk(open[k], dir);
  }

  lemma DirNotOpen(open: seq<Handle>, dir: map<Loc, Dirent>, loc: Loc)
    requires HandlesOk(open, dir) && loc in dir && dir[loc].isDir
    ensures NotOpen(open, loc)
  {
    assert forall k :: 0 <= k < |open| ==> HandleOk(open[k], dir);
  }

  lemma SoundRemove(t: seq<U16>, t2: seq<U16>, chains: map<Loc, seq<nat>>, dir: map<Loc, Dirent>, cs: nat, loc: Loc)
    requires Sound(t, chains, dir, cs) && loc in dir && Owns(t2, chains[loc := []])
    ensures Sound(t2, chains - {loc}, dir - {loc}, cs)
  {
    var e := Dirent(0, 0, true);
    var all, d := chains[loc := []], dir[loc := e];
    SoundUpdate(t, t2, chains, dir, cs, loc, [], e, all, d);
    SoundDrop(t2, all, d, cs, loc);
    assert all - {loc} == chains - {loc} && d - {loc} == dir - {loc};
  }

  lemma OwnsNew(t: seq<U16>, chains: map<Loc, seq<nat>>, loc: Loc, n: nat)
    requires Owns(t, chains) && loc !in chains && 2 <= n < |t| < 0x1_0000 && t[n] == 0
    ensures Owns(t[n := EOC], chains[loc := [n]])
  {
    var all := chains[loc := []];
    OwnsEmpty(t, chains, loc);
    assert IsChain(t, all[loc]);
    OwnsAppend(t, all, loc, n);
    assert [] + [n] == [n] && all[loc := [n]] == chains[loc := [n]];
  }

  lemma HandleOpens(open: seq<Handle>, dir: map<Loc, Dirent>, k: nat, h: Handle)
    requires HandlesOk(open, dir) && k < |open| && HandleOk(h, dir) && NotOpen(open, h.loc)
    ensures HandlesOk(open[k := h], dir)
  {
  }

  lemma HandleCloses(open: seq<Handle>, dir: map<Loc, Dirent>, k: nat, h: Handle)
    requires HandlesOk(open, dir) && k < |open| && !h.inUse
    ensures HandlesOk(open[k := h], dir)
  {
  }
}

module FatFs {
  import opened Words
  import opened Options
  import opened Spans
  import opened FatVolume
  import opened FatChains
  import opened FatBytes
  import opened FatCore
  import opened FatFiles
  import opened FatView

  const MAX_OPEN: nat := 16
  const RDONLY: nat := 0
  const WRONLY: nat := 1
  const RDWR: nat := 2

  /** What `fat16_resolve_path` reports. */
  datatype Lookup = Root | Found(loc: Loc) | Missing(free: Option<Loc>)

  datatype Whence = Set | Cur | End | Other

  /** Where a seek goes when nothing overflows. */
  function Clamp(p: int, size: nat): nat { if p < 0 then 0 else if p > size then size else p }

  /** `fat16_vfs_seek`: the sum is computed in 32-bit signed arithmetic. */
  function SeekTo(start: nat, offset: int, size: nat): (r: nat)
    ensures r <= size
  {
    var p := S32(start + offset);
    if p < 0 then 0 else if p > size then size else p
  }

  /** A seek lands where it should just when the sum fits a signed 32-bit integer. */
  lemma SeekExact(start: nat, offset: int, size: nat)
    requires start <= size < 0x8000_0000 && -0x8000_0000 <= offset < 0x8000_0000
    ensures SeekTo(start, offset, size) == Clamp(start + offset, size) <==> start + offset < 0x8000_0000
  {
  }

  /** Forty bytes in, seeking forward by the largest `int` goes back to the start. */
  lemma SeekWraps()
    ensures SeekTo(40, 0x7FFF_FFFF, 100) == 0 && Clamp(40 + 0x7FFF_FFFF, 100) == 100
  {
  }

  /** A read returns that slice and moves the position past it; it fails on a bad or write-only handle. */
  ghost predicate ReadDone(files: map<Loc, seq<Byte>>, was: seq<Handle>, now: seq<Handle>, h: int, len: nat,
                           r: Option<seq<Byte>>) {
    if !(0 <= h < |was| && was[h].inUse) || was[h].access == WRONLY then
      r == None && now == was
    else
      && var f := was[h];
      && f.loc in files && f.pos <= |files[f.loc]|
      && var bytes := Slice(files[f.loc], f.pos, len);
      && r == Some(bytes) && now == was[h := f.(pos := f.pos + |bytes|)]
  }

  lemma DidRead(files: map<Loc, seq<Byte>>, was: seq<Handle>, now: seq<Handle>, h: nat, len: nat, g: Handle,
                bytes: seq<Byte>)
    requires h < |was| && was[h].inUse && was[h].access != WRONLY && was[h].loc in files
    requires was[h].pos <= |files[was[h].loc]|
    requires bytes == Slice(files[was[h].loc], was[h].pos, len) && g == was[h].(pos := was[h].pos + |bytes|)
    requires now == was[h := g]
    ensures ReadDone(files, was, now, h, len, Some(bytes))
  {
  }

  /** A write stores the first `r` bytes at the position, or at the end when appending, and moves the
      position behind them; no other file changes. */
  ghost predicate WriteDone(files: map<Loc, seq<Byte>>, after: map<Loc, seq<Byte>>, was: seq<Handle>, now: seq<Handle>,
                            h: int, buf: seq<Byte>, r: int) {
    if !(0 <= h < |was| && was[h].inUse) || was[h].access == RDONLY then
      r == -1 && after == files && now == was
    else if buf == [] then
      r == 0 && after == files && now == was
    else
      && var f := was[h];
      && var start := if f.append then f.size else f.pos;
      && 0 <= r <= |buf| && f.loc in files && start <= |files[f.loc]|
      && var text := WriteSpec(files[f.loc], start, buf[..r]);
      && after == files[f.loc := text]
      && |now| == |was| && now == was[h := now[h]]
      && now[h] == f.(first := now[h].first, size := |text|, pos := start + r)
  }

  lemma DidWrite(files: map<Loc, seq<Byte>>, after: map<Loc, seq<Byte>>, was: seq<Handle>, now: seq<Handle>,
                 h: nat, buf: seq<Byte>, r: nat, g: Handle, start: nat, text: seq<Byte>)
    requires h < |was| && was[h].inUse && was[h].access != RDONLY && buf != [] && r <= |buf| && now == was[h := g]
    requires was[h].loc in files && |files[was[h].loc]| == was[h].size && was[h].pos <= was[h].size
    requires start == if was[h].append then was[h].size else was[h].pos
    requires text == WriteSpec(files[was[h].loc], start, buf[..r]) && after == files[was[h].loc := text]
    requires g == was[h].(first := g.first, size := Max(was[h].size, start + r), pos := start + r)
    ensures WriteDone(files, after, was, now, h, buf, r)
  {
  }

  lemma WriteNothing(was: seq<Byte>, start: nat, file: seq<Byte>)
    requires |was| <= |file| && was == file[..|was|] && start <= |was|
    ensures WriteSpec(was, start, []) == was && was <= file
  {
  }

  /** Where a seek counts from. */
  function Origin(f: Handle, whence: Whence): nat { match whence case Set => 0 case Cur => f.pos case _ => f.size }

  /** A seek moves the position inside the file; it fails on a bad handle or origin. */
  ghost predicate SeekDone(was: seq<Handle>, now: seq<Handle>, h: int, offset: int, whence: Whence, r: int) {
    if !(0 <= h < |was| && was[h].inUse) || whence == Other then
      r == -1 && now == was
    else
      && var f := was[h];
      && var start := match whence case Set => 0 case Cur => f.pos case _ => f.size;
      && r == SeekTo(start, offset, f.size) && now == was[h := f.(pos := r)]
  }

  /** A shrinking truncation keeps the first `length` bytes and pulls the position back to them. */
  ghost predicate TruncateDone(files: map<Loc, seq<Byte>>, after: map<Loc, seq<Byte>>, was: seq<Handle>,
                               now: seq<Handle>, h: int, length: nat, r: int) {
    if !(0 <= h < |was| && was[h].inUse) then
      r == -1 && after == files && now == was
    else
      && var f := was[h];
      && r == 0 && f.loc in files && length <= |files[f.loc]|
      && after == files[f.loc := files[f.loc][..length]]
      && |now| == |was| && now == was[h := now[h]]
      && now[h] == f.(first := now[h].first, size := length, pos := if f.pos > length then length else f.pos)
  }

  lemma NoTruncate(files: map<Loc, seq<Byte>>, was: seq<Handle>, h: nat, length: nat)
    requires h < |was| && was[h].inUse && was[h].loc in files && length == was[h].size == |files[was[h].loc]|
    requires was[h].pos <= length
    ensures TruncateDone(files, files, was, was, h, length, 0)
  {
    assert files[was[h].loc][..length] == files[was[h].loc];
    assert files[was[h].loc := files[was[h].loc]] == files;
  }

  lemma DidTruncate(files: map<Loc, seq<Byte>>, after: map<Loc, seq<Byte>>, was: seq<Handle>, now: seq<Handle>, h: nat,
                    length: nat, g: Handle)
    requires h < |was| && was[h].inUse && was[h].loc in files && length <= |files[was[h].loc]|
    requires g == was[h].(first := g.first, size := length, pos := if was[h].pos > length then length else was[h].pos)
    requires now == was[h := g] && after == files[was[h].loc := files[was[h].loc][..length]]
    ensures TruncateDone(files, after, was, now, h, length, 0)
  {
  }

  /** The text left on the clusters kept. */
  lemma TextCut(b: seq<seq<Byte>>, ch: seq<nat>, to: seq<nat>, size: nat, length: nat, cs: nat)
    requires Sized(b, ch, cs) && to <= ch && length <= Span(|to|, cs) && length <= size <= |FileBytes(b, ch)|
    ensures Text(b, to, length) == FileBytes(b, ch)[..size][..length]
  {
    FileSplit(b, ch, cs, |to|);
    assert ch[..|to|] == to;
  }

  ghost predicate LookupOk(found: Lookup, dir: map<Loc, Dirent>) {
    match found
    case Root => true
    case Found(l) => l in dir
    case Missing(free) => free.Some? ==> free.value !in dir
  }

  /** The lowest handle not in use becomes `f`; -1 when there is none. */
  ghost predicate HandleTaken(was: seq<Handle>, now: seq<Handle>, f: Handle, h: int) {
    if h == -1 then now == was && forall k :: 0 <= k < |was| ==> was[k].inUse
    else 0 <= h < |was| && !was[h].inUse && now == was[h := f] && forall k :: 0 <= k < h ==> was[k].inUse
  }

  /** Opening: which requests are refused, which file is created or emptied, and which handle it gets. */
  ghost predicate OpenDone(files: map<Loc, seq<Byte>>, after: map<Loc, seq<Byte>>, dir: map<Loc, Dirent>,
                           d: map<Loc, Dirent>, was: seq<Handle>, now: seq<Handle>, found: Lookup, access: nat,
                           create: bool, trunc: bool, append: bool, h: int)
    requires LookupOk(found, dir) && files.Keys == dir.Keys
  {
    if access > RDWR || found.Root? || (found.Missing? && (!create || found.free == None))
    || (found.Found? && dir[found.loc].isDir) then
      h == -1 && after == files && d == dir && now == was
    else
      && var l := if found.Found? then found.loc else found.free.value;
      && var text := if found.Missing? || (trunc && access != RDONLY) then [] else files[l];
      && after == files[l := text] && l in d && d == dir[l := d[l]] && !d[l].isDir
      && HandleTaken(was, now, Handle(true, access, append, l, d[l].first, d[l].size, 0), h)
  }

  /** The text of a file just written. */
  lemma WrittenText(t: seq<U16>, b: seq<seq<Byte>>, chains: map<Loc, seq<nat>>, loc: Loc, head: nat, ch: seq<nat>,
                    cs: nat, was: seq<Byte>, pos: nat, data: seq<Byte>, size: nat, text: seq<Byte>)
    requires pos <= |was| && Written(t, b, chains, loc, head, ch, cs, was, pos, data)
    requires size == Max(|was|, pos + |data|) && text == WriteSpec(was, pos, data)
    ensures text == Text(b, ch, size) && Owns(t, chains[loc := ch]) && Heads(head, ch) && Tight(size, ch, cs)
  {
  }

  lemma DidOpen(files: map<Loc, seq<Byte>>, after: map<Loc, seq<Byte>>, dir: map<Loc, Dirent>, d: map<Loc, Dirent>,
                was: seq<Handle>, now: seq<Handle>, found: Lookup, access: nat, create: bool, trunc: bool, append: bool,
                h: int, l: Loc, text: seq<Byte>)
    requires LookupOk(found, dir) && files.Keys == dir.Keys && access <= RDWR && !found.Root?
    requires (found.Missing? ==> create && found.free == Some(l)) && (found.Found? ==> found.loc == l && !dir[l].isDir)
    requires text == if found.Missing? || (trunc && access != RDONLY) then [] else files[l]
    requires after == files[l := text] && l in d && d == dir[l := d[l]] && !d[l].isDir
    requires HandleTaken(was, now, Handle(true, access, append, l, d[l].first, d[l].size, 0), h)
    ensures OpenDone(files, after, dir, d, was, now, found, access, create, trunc, append, h)
  {
  }

  /** Setting a key to the same value once or twice, or not at all. */
  lemma SetTwice<V>(m: map<Loc, V>, mid: map<Loc, V>, after: map<Loc, V>, l: Loc, first: bool, second: bool, v: V)
    requires mid == (if first then m[l := v] else m) && after == (if second then mid[l := v] else mid)
    requires (first || l in m)
    ensures l in after && after == m[l := if first || second then v else m[l]] && after == m[l := after[l]]
  {
  }

  /** The slot search of open. */
  method FirstFree(open: seq<Handle>) returns (h: int)
    ensures h == -1 || (0 <= h < |open| && !open[h].inUse)
    ensures forall k :: 0 <= k < (if h == -1 then |open| else h) ==> open[k].inUse
  {
    for i := 0 to |open|
      invariant forall k :: 0 <= k < i ==> open[k].inUse
    {
      if !open[i].inUse {
        return i;
      }
    }
    h := -1;
  }

  class FileSystem {
    const vol: Volume
    var dir: map<Loc, Dirent>
    var open: seq<Handle>
    ghost var chains: map<Loc, seq<nat>>

    ghost predicate Valid()
      reads this, vol
    {
      && vol.Valid() && Sound(vol.Table(), chains, dir, ClusterSize(vol.g))
      && |open| == MAX_OPEN && HandlesOk(open, dir)
    }

    /** Every file as a byte sequence. */
    ghost function Files(): map<Loc, seq<Byte>>
      requires Valid()
      reads this, vol
    {
      View(VolumeBytes(vol), chains, dir)
    }

    constructor (vol: Volume, dir: map<Loc, Dirent>, ghost chains: map<Loc, seq<nat>>)
      requires vol.Valid() && Sound(vol.Table(), chains, dir, ClusterSize(vol.g))
      ensures Valid() && this.vol == vol && this.dir == dir && this.chains == chains
      ensures forall k :: 0 <= k < MAX_OPEN ==> !open[k].inUse
    {
      this.vol, this.dir, this.chains := vol, dir, chains;
      this.open := seq(MAX_OPEN, _ => Handle(false, 0, false, 0, 0, 0, 0));
    }

    predicate InUse(h: int)
      reads this
    {
      0 <= h < |open| && open[h].inUse
    }

    /** An open file's bytes are as many as its size, on a chain that holds them. */
    lemma FileFits(loc: Loc)
      requires Valid() && loc in dir
      ensures IsChain(vol.Table(), chains[loc]) && Heads(dir[loc].first, chains[loc])
      ensures |FileBytes(VolumeBytes(vol), chains[loc])| == Span(|chains[loc]|, ClusterSize(vol.g)) >= dir[loc].size
      ensures Files()[loc] == FileBytes(VolumeBytes(vol), chains[loc])[..dir[loc].size]
    {
      assert EntryOk(dir[loc], chains[loc], ClusterSize(vol.g));
      assert IsChain(vol.Table(), chains[loc]);
      ChainSized(vol, chains[loc]);
      FileLength(VolumeBytes(vol), chains[loc], ClusterSize(vol.g));
    }

    /** `fat16_vfs_read` */
    method Read(h: int, len: nat, haveBuffer: bool) returns (r: Option<seq<Byte>>)
      requires Valid()
      modifies this, vol`cache, vol`next
      ensures Valid() && Files() == old(Files())
      ensures ReadDone(old(Files()), old(open), open, h, len, r) && dir == old(dir)
      ensures vol.Table() == old(vol.Table())
    {
      if !InUse(h) || open[h].access == WRONLY {
        return None;
      }
      var f := open[h];
      assert HandleOk(f, dir);
      var bytes := ReadAt(f, len, haveBuffer);
      r := Some(bytes);
      var g := f.(pos := f.pos + |bytes|);
      HandleMoves(open, dir, h, g);
      Install(chains, dir, open[h := g]);
      DidRead(old(Files()), old(open), open, h, len, g, bytes);
    }

    method ReadAt(f: Handle, len: nat, haveBuffer: bool) returns (bytes: seq<Byte>)
      requires Valid() && f.inUse && HandleOk(f, dir)
      modifies vol`cache, vol`next
      ensures Valid() && Files() == old(Files()) && f.pos <= |old(Files()[f.loc])| == f.size
      ensures bytes == Slice(old(Files()[f.loc]), f.pos, len) && vol.Table() == old(vol.Table())
    {
      FileFits(f.loc);
      bytes := ReadText(vol, f.first, f.size, f.pos, len, haveBuffer, chains[f.loc]);
    }

    /** Record a changed file in its handle and, if `record`, in its directory entry. */
    method Commit(h: nat, g: Handle, record: bool, ghost to: seq<nat>, ghost t: seq<U16>, ghost b: seq<seq<Byte>>,
                  ghost files: map<Loc, seq<Byte>>, ghost text: seq<Byte>)
      requires vol.Valid() && Sound(t, chains, dir, ClusterSize(vol.g)) && |open| == MAX_OPEN && HandlesOk(open, dir)
      requires h < |open| && open[h].inUse && g == open[h].(first := g.first, size := g.size, pos := g.pos)
      requires g.pos <= g.size
      requires Owns(vol.Table(), chains[g.loc := to]) && Heads(g.first, to) && Tight(g.size, to, ClusterSize(vol.g))
      requires OthersKept(chains, g.loc, b, VolumeBytes(vol))
      requires files == View(b, chains, dir) && text == Text(VolumeBytes(vol), to, g.size)
      requires !record ==> g.loc in dir && dir[g.loc] == Dirent(g.first, g.size, false)
      modifies this
      ensures Valid() && open == old(open)[h := g] && dir == old(dir)[g.loc := Dirent(g.first, g.size, false)]
      ensures Files() == files[g.loc := text]
    {
      var e := Dirent(g.first, g.size, false);
      var d, now := if record then dir[g.loc := e] else dir, open[h := g];
      ghost var all, t2, b2 := chains[g.loc := to], vol.Table(), VolumeBytes(vol);
      EntryKept(dir, d, g.loc, e);
      SoundUpdate(t, t2, chains, dir, ClusterSize(vol.g), g.loc, to, e, all, d);
      HandleFollows(open, dir, h, g, e, now, d);
      ViewUpdate(b, b2, chains, dir, g.loc, to, e, all, d, files, text);
      Install(all, d, now);
    }

    method Install(ghost all: map<Loc, seq<nat>>, d: map<Loc, Dirent>, now: seq<Handle>)
      requires vol.Valid() && Sound(vol.Table(), all, d, ClusterSize(vol.g)) && |now| == MAX_OPEN && HandlesOk(now, d)
      modifies this
      ensures Valid() && chains == all && dir == d && open == now
      ensures Files() == View(VolumeBytes(vol), all, d)
    {
      chains, dir, open := all, d, now;
    }

    /** `fat16_vfs_write` */
    method Write(h: int, buf: seq<Byte>) returns (r: int)
      requires Valid()
      modifies this, vol
      ensures Valid()
      ensures WriteDone(old(Files()), Files(), old(open), open, h, buf, r)
      ensures 0 <= r < |buf| ==> Full(vol.Table())
    {
      if !InUse(h) || open[h].access == RDONLY {
        return -1;
      }
      if |buf| == 0 {
        return 0;
      }
      assert HandleOk(open[h], dir);
      r := WriteOpen(h, buf);
    }

    method WriteOpen(h: nat, buf: seq<Byte>) returns (done: nat)
      requires Valid() && h < |open| && open[h].inUse && open[h].access != RDONLY && HandleOk(open[h], dir) && |buf| > 0
      modifies this, vol
      ensures Valid() && done <= |buf|
      ensures WriteDone(old(Files()), Files(), old(open), open, h, buf, done)
      ensures done < |buf| ==> Full(vol.Table())
    {
      var f := open[h];
      var start := if f.append then f.size else f.pos;
      ghost var t, b, files, handles := vol.Table(), VolumeBytes(vol), Files(), open;
      var head, size: nat;
      ghost var to, text;
      done, head, size, to, text := Store(f, start, buf);
      var g := f.(first := head, size := size, pos := start + done);
      Commit(h, g, done > 0, to, t, b, files, text);
      DidWrite(files, Files(), handles, open, h, buf, done, g, start, text);
    }

    /** The data part of a write: clusters are written and linked, handle and entry not yet updated. */
    method Store(f: Handle, start: nat, buf: seq<Byte>) returns (done: nat, head: nat, size: nat, ghost to: seq<nat>,
                                                                 ghost text: seq<Byte>)
      requires Valid() && f.inUse && HandleOk(f, dir) && start <= f.size
      modifies vol
      ensures vol.Valid() && done <= |buf| && size == Max(f.size, start + done) && |old(Files()[f.loc])| == f.size
      ensures text == WriteSpec(old(Files()[f.loc]), start, buf[..done]) && text == Text(VolumeBytes(vol), to, size)
      ensures Owns(vol.Table(), chains[f.loc := to]) && Heads(head, to) && Tight(size, to, ClusterSize(vol.g))
      ensures OthersKept(chains, f.loc, old(VolumeBytes(vol)), VolumeBytes(vol))
      ensures done < |buf| ==> Full(vol.Table())
      ensures done == 0 ==> head == f.first
    {
      ghost var was := Files()[f.loc];
      FileFits(f.loc);
      WriteStarts(f.loc, was, start);
      done, head, to := WriteClusters(vol, f.first, start, buf, chains, f.loc, was);
      size, text := Max(f.size, start + done), WriteSpec(was, start, buf[..done]);
      WrittenText(vol.Table(), VolumeBytes(vol), chains, f.loc, head, to, ClusterSize(vol.g), was, start, buf[..done],
                  size, text);
    }

    lemma WriteStarts(loc: Loc, was: seq<Byte>, start: nat)
      requires Valid() && loc in dir && !dir[loc].isDir && was == Files()[loc] && start <= dir[loc].size
      ensures |was| == dir[loc].size
      ensures Written(vol.Table(), VolumeBytes(vol), chains, loc, dir[loc].first, chains[loc], ClusterSize(vol.g), was,
                      start, [])
    {
      FileFits(loc);
      assert EntryOk(dir[loc], chains[loc], ClusterSize(vol.g));
      ChainSized(vol, chains[loc]);
      assert chains[loc := chains[loc]] == chains;
      WriteNothing(was, start, FileBytes(VolumeBytes(vol), chains[loc]));
    }

    /** No file outgrows the data area, so sizes and positions are non-negative as C `int`s. */
    lemma SizeBound(loc: Loc)
      requires Valid() && loc in dir && !dir[loc].isDir
      ensures dir[loc].size <= vol.g.DataSize() < 0x8000_0000
    {
      FileFits(loc);
      ChainLength(vol.Table(), chains[loc]);
      SpanAtMost(|chains[loc]|, vol.g.clusters, ClusterSize(vol.g));
    }

    /** `fat16_vfs_seek` */
    method Seek(h: int, offset: int, whence: Whence) returns (r: int)
      requires Valid() && -0x8000_0000 <= offset < 0x8000_0000
      modifies this
      ensures Valid() && Files() == old(Files()) && dir == old(dir)
      ensures SeekDone(old(open), open, h, offset, whence, r)
      ensures InUse(h) && whence != Other ==>
                var start, size := Origin(old(open)[h], whence), old(open)[h].size;
                r == Clamp(start + offset, size) <==> start + offset < 0x8000_0000
    {
      if !InUse(h) || whence == Other {
        return -1;
      }
      var f := open[h];
      assert HandleOk(f, dir);
      SizeBound(f.loc);
      SeekExact(Origin(f, whence), offset, f.size);
      r := SeekTo(Origin(f, whence), offset, f.size);
      var g := f.(pos := r);
      HandleMoves(open, dir, h, g);
      Install(chains, dir, open[h := g]);
    }

    /** `fat16_vfs_close` */
    method Close(h: int) returns (r: int)
      requires Valid()
      modifies this
      ensures Valid() && Files() == old(Files()) && dir == old(dir)
      ensures r == if 0 <= h < MAX_OPEN && old(open)[h].inUse then 0 else -1
      ensures r == 0 ==> |open| == MAX_OPEN && !open[h].inUse && open == old(open)[h := open[h]]
      ensures r == -1 ==> open == old(open)
    {
      if !InUse(h) {
        return -1;
      }
      HandleCloses(open, dir, h, Handle(false, 0, false, 0, 0, 0, 0));
      Install(chains, dir, open[h := Handle(false, 0, false, 0, 0, 0, 0)]);
      r := 0;
    }

    /** `fat16_vfs_ftruncate`, to at most the present size. */
    method Truncate(h: int, length: nat) returns (r: int)
      requires Valid() && (InUse(h) ==> length <= open[h].size)
      modifies this, vol
      ensures Valid()
      ensures TruncateDone(old(Files()), Files(), old(open), open, h, length, r)
    {
      if !InUse(h) {
        return -1;
      }
      var f := open[h];
      assert HandleOk(f, dir);
      FileFits(f.loc);
      if length == f.size {
        NoTruncate(Files(), open, h, length);
        return 0;
      }
      ShrinkOpen(h, length);
      r := 0;
    }

    method ShrinkOpen(h: nat, length: nat)
      requires Valid() && h < |open| && open[h].inUse && HandleOk(open[h], dir) && length < open[h].size
      modifies this, vol
      ensures Valid()
      ensures TruncateDone(old(Files()), Files(), old(open), open, h, length, 0)
    {
      var f := open[h];
      ghost var t, b, files, handles := vol.Table(), VolumeBytes(vol), Files(), open;
      FileFits(f.loc);
      assert EntryOk(dir[f.loc], chains[f.loc], ClusterSize(vol.g));
      ChainSized(vol, chains[f.loc]);
      AllKept(t, chains, f.loc, b);
      var head, to := Shrink(vol, f.first, length, chains, f.loc, f.size);
      TextCut(b, chains[f.loc], to, f.size, length, ClusterSize(vol.g));
      ghost var text := files[f.loc][..length];
      var g := f.(first := head, size := length, pos := if f.pos > length then length else f.pos);
      Commit(h, g, true, to, t, b, files, text);
      DidTruncate(files, Files(), handles, open, h, length, g);
    }

    // ---- names ---------------------------------------------------------------------------------

    /** Write a new, empty directory entry. */
    method Create(l: Loc)
      requires Valid() && l !in dir
      modifies this
      ensures Valid() && open == old(open) && dir == old(dir)[l := Dirent(0, 0, false)]
      ensures Files() == old(Files())[l := []]
    {
      ghost var t, b, all := vol.Table(), VolumeBytes(vol), chains[l := []];
      var e := Dirent(0, 0, false);
      var d := dir[l := e];
      OwnsEmpty(t, chains, l);
      AllKept(t, chains, l, b);
      SoundUpdate(t, t, chains, dir, ClusterSize(vol.g), l, [], e, all, d);
      AbsentNotOpen(open, dir, l);
      HandlesElsewhere(open, dir, l, e, d);
      ViewUpdate(b, b, chains, dir, l, [], e, all, d, Files(), []);
      Install(all, d, open);
    }

    /** The `O_TRUNC` part of open. */
    method Empty(l: Loc)
      requires Valid() && l in dir && !dir[l].isDir && NotOpen(open, l)
      modifies this, vol
      ensures Valid() && open == old(open) && dir == old(dir)[l := Dirent(0, 0, false)]
      ensures Files() == old(Files())[l := []]
    {
      ghost var t, b, files, all := vol.Table(), VolumeBytes(vol), Files(), chains[l := []];
      var e := Dirent(0, 0, false);
      var d := dir[l := e];
      assert EntryOk(dir[l], chains[l], ClusterSize(vol.g));
      AllKept(t, chains, l, b);
      FreeAll(vol, dir[l].first, chains, l);
      SoundUpdate(t, vol.Table(), chains, dir, ClusterSize(vol.g), l, [], e, all, d);
      HandlesElsewhere(open, dir, l, e, d);
      ViewUpdate(b, b, chains, dir, l, [], e, all, d, files, []);
      Install(all, d, open);
    }

    /** Free an entry's clusters and mark it deleted. */
    method Remove(l: Loc)
      requires Valid() && l in dir && NotOpen(open, l)
      modifies this, vol
      ensures Valid() && open == old(open) && dir == old(dir) - {l} && Files() == old(Files()) - {l}
    {
      ghost var t, b := vol.Table(), VolumeBytes(vol);
      assert EntryOk(dir[l], chains[l], ClusterSize(vol.g));
      FreeAll(vol, dir[l].first, chains, l);
      var d := dir - {l};
      SoundRemove(t, vol.Table(), chains, dir, ClusterSize(vol.g), l);
      HandlesElsewhere(open, dir, l, Dirent(0, 0, false), d);
      ViewDrop(b, chains, dir, l);
      Install(chains - {l}, d, open);
    }

    /** `fat16_vfs_open` of a file no handle is on. */
    method Open(found: Lookup, access: nat, create: bool, trunc: bool, append: bool) returns (h: int)
      requires Valid() && LookupOk(found, dir) && (found.Found? ==> NotOpen(open, found.loc))
      modifies this, vol
      ensures Valid()
      ensures OpenDone(old(Files()), Files(), old(dir), dir, old(open), open, found, access, create, trunc, append, h)
    {
      if access > RDWR || found.Root? || (found.Missing? && (!create || found.free == None)) {
        return -1;
      }
      if found.Found? && dir[found.loc].isDir {
        return -1;
      }
      ghost var files, was, d := Files(), open, dir;
      var l := if found.Found? then found.loc else found.free.value;
      if found.Missing? { AbsentNotOpen(open, dir, l); }
      Prepare(l, found.Missing?, trunc && access != RDONLY);
      h := TakeHandle(l, access, append);
      DidOpen(files, Files(), d, dir, was, open, found, access, create, trunc, append, h, l, Files()[l]);
    }

    method Prepare(l: Loc, missing: bool, clear: bool)
      requires Valid() && NotOpen(open, l) && if missing then l !in dir else l in dir && !dir[l].isDir
      modifies this, vol
      ensures Valid() && open == old(open) && l in dir && dir == old(dir)[l := dir[l]] && !dir[l].isDir
      ensures Files() == old(Files())[l := if missing || clear then [] else old(Files()[l])]
    {
      ghost var files, d := Files(), dir;
      if missing {
        Create(l);
      }
      ghost var files1, d1 := Files(), dir;
      if clear {
        Empty(l);
      }
      SetTwice(files, files1, Files(), l, missing, clear, []);
      SetTwice(d, d1, dir, l, missing, clear, Dirent(0, 0, false));
    }

    /** The lowest free handle, set to the start of the file. */
    method TakeHandle(l: Loc, access: nat, append: bool) returns (h: int)
      requires Valid() && l in dir && !dir[l].isDir && NotOpen(open, l)
      modifies this
      ensures Valid() && Files() == old(Files()) && dir == old(dir)
      ensures HandleTaken(old(open), open, Handle(true, access, append, l, dir[l].first, dir[l].size, 0), h)
    {
      h := FirstFree(open);
      if h >= 0 {
        var f := Handle(true, access, append, l, dir[l].first, dir[l].size, 0);
        HandleOpens(open, dir, h, f);
        Install(chains, dir, open[h := f]);
      }
    }

    /** `fat16_vfs_unlink` of a file no handle is on. */
    method Unlink(found: Lookup) returns (r: int)
      requires Valid() && LookupOk(found, dir) && (found.Found? ==> NotOpen(open, found.loc))
      modifies this, vol
      ensures Valid() && open == old(open)
      ensures r == if found.Found? && !old(dir)[found.loc].isDir then 0 else -1
      ensures dir == if r == 0 then old(dir) - {found.loc} else old(dir)
      ensures Files() == if r == 0 then old(Files()) - {found.loc} else old(Files())
    {
      if !found.Found? || dir[found.loc].isDir {
        return -1;
      }
      Remove(found.loc);
      r := 0;
    }

    /** `fat16_vfs_rmdir`; `hasEntries` is what the scan of its sectors finds. */
    method Rmdir(found: Lookup, hasEntries: bool) returns (r: int)
      requires Valid() && LookupOk(found, dir)
      modifies this, vol
      ensures Valid() && open == old(open)
      ensures r == if found.Found? && old(dir)[found.loc].isDir && old(dir)[found.loc].first >= 2 && !hasEntries then 0
              else -1
      ensures dir == if r == 0 then old(dir) - {found.loc} else old(dir)
      ensures Files() == if r == 0 then old(Files()) - {found.loc} else old(Files())
    {
      if !found.Found? || !dir[found.loc].isDir || dir[found.loc].first < 2 || hasEntries {
        return -1;
      }
      DirNotOpen(open, dir, found.loc);
      Remove(found.loc);
      r := 0;
    }

    /** `fat16_vfs_mkdir` */
    method Mkdir(found: Lookup) returns (r: int)
      requires Valid() && LookupOk(found, dir)
      modifies this, vol
      ensures Valid() && open == old(open)
      ensures r == 0 || r == -1
      ensures r == 0 ==> found.Missing? && found.free.Some?
      ensures r == 0 ==> Files() == old(Files())[found.free.value := []]
      ensures r == 0 ==> exists n: nat :: n >= 2 && dir == old(dir)[found.free.value := Dirent(n, 0, true)]
      ensures r == -1 ==> dir == old(dir) && Files() == old(Files())
      ensures r == -1 && found.Missing? && found.free.Some? ==> Full(vol.Table())
    {
      if !found.Missing? || found.free == None {
        return -1;
      }
      var n := MakeDir(found.free.value);
      r := if n == 0 then -1 else 0;
    }

    method MakeDir(l: Loc) returns (n: nat)
      requires Valid() && l !in dir
      modifies this, vol
      ensures Valid() && open == old(open)
      ensures n == 0 ==> Full(vol.Table()) && dir == old(dir) && Files() == old(Files())
      ensures n != 0 ==> n >= 2 && dir == old(dir)[l := Dirent(n, 0, true)] && Files() == old(Files())[l := []]
    {
      ghost var t, b, files := vol.Table(), VolumeBytes(vol), Files();
      AllKept(t, chains, l, b);
      n := AllocCluster(vol);
      if n != 0 {
        var e := Dirent(n, 0, true);
        var d := dir[l := e];
        ghost var all := chains[l := [n]];
        OwnsNew(t, chains, l, n);
        UnownedFree(t, chains, n);
        OthersAfter(chains, l, b, b, n, Zeros(ClusterSize(vol.g)));
        SoundUpdate(t, vol.Table(), chains, dir, ClusterSize(vol.g), l, [n], e, all, d);
        AbsentNotOpen(open, dir, l);
        HandlesElsewhere(open, dir, l, e, d);
        ViewUpdate(b, VolumeBytes(vol), chains, dir, l, [n], e, all, d, files, []);
        Install(all, d, open);
      }
    }
  }
}

/** Whole sessions on one open file. */
module FatSession {
  import opened Words
  import opened Options
  import opened FatVolume
  import opened FatChains
  import opened FatCore
  import opened FatFiles
  import opened FatView
  import opened FatFs

  datatype Request =
    | DoRead(len: nat, haveBuffer: bool)
    | DoWrite(buf: seq<Byte>)
    | DoSeek(offset: int, whence: Whence)
    | DoShrink(length: nat)

  datatype Reply = Bytes(bytes: Option<seq<Byte>>) | Count(n: int)

  /** A byte sequence and a position in it. */
  datatype Cursor = Cursor(text: seq<Byte>, pos: nat)

  ghost predicate Admissible(q: Request) {
    q.DoSeek? ==> -0x8000_0000 <= q.offset < 0x8000_0000
  }

  /** What each request does to a byte sequence with a position; a shrink beyond the end is skipped. */
  ghost predicate Plays(access: nat, append: bool, c: Cursor, q: Request, a: Reply, d: Cursor)
    requires c.pos <= |c.text|
  {
    match q
    case DoRead(len, _) =>
      if access == WRONLY then a == Bytes(None) && d == c
      else
        var got := Slice(c.text, c.pos, len);
        a == Bytes(Some(got)) && d == c.(pos := c.pos + |got|)
    case DoWrite(buf) =>
      if access == RDONLY then a == Count(-1) && d == c
      else if buf == [] then a == Count(0) && d == c
      else
        var start := if append then |c.text| else c.pos;
        a.Count? && 0 <= a.n <= |buf| && d == Cursor(WriteSpec(c.text, start, buf[..a.n]), start + a.n)
    case DoSeek(offset, whence) =>
      if whence == Other then a == Count(-1) && d == c
      else
        var start := match whence case Set => 0 case Cur => c.pos case _ => |c.text|;
        d == c.(pos := SeekTo(start, offset, |c.text|)) && a == Count(d.pos)
    case DoShrink(length) =>
      if length > |c.text| then a == Count(-1) && d == c
      else a == Count(0) && d == Cursor(c.text[..length], if c.pos > length then length else c.pos)
  }

  /** Handle `h` is on the file `loc`, whose bytes and position are the cursor's. */
  ghost predicate Shows(files: map<Loc, seq<Byte>>, open: seq<Handle>, h: nat, access: nat, append: bool, loc: Loc,
                        c: Cursor) {
    && h < |open| && open[h].inUse && open[h].access == access && open[h].append == append && open[h].loc == loc
    && loc in files && c == Cursor(files[loc], open[h].pos) && c.pos <= |c.text| == open[h].size
  }

  /** A request has been answered as a step of the byte sequence, and no other file has changed. */
  ghost predicate Served(files: map<Loc, seq<Byte>>, after: map<Loc, seq<Byte>>, now: seq<Handle>, h: nat, access: nat,
                         append: bool, loc: Loc, c: Cursor, q: Request, a: Reply, d: Cursor) {
    && c.pos <= |c.text| && Plays(access, append, c, q, a, d)
    && Shows(after, now, h, access, append, loc, d) && after == files[loc := d.text]
  }

  lemma ShowsNow(fs: FileSystem, h: nat)
    requires fs.Valid() && h < |fs.open| && fs.open[h].inUse
    ensures var f := fs.open[h];
            f.loc in fs.Files() && Shows(fs.Files(), fs.open, h, f.access, f.append, f.loc,
                                         Cursor(fs.Files()[f.loc], f.pos))
  {
    assert HandleOk(fs.open[h], fs.dir);
    fs.FileFits(fs.open[h].loc);
  }

  lemma ReadServed(files: map<Loc, seq<Byte>>, was: seq<Handle>, now: seq<Handle>, h: nat, access: nat, append: bool,
                   loc: Loc, c: Cursor, len: nat, haveBuffer: bool, r: Option<seq<Byte>>)
    requires Shows(files, was, h, access, append, loc, c) && ReadDone(files, was, now, h, len, r)
    ensures Served(files, files, now, h, access, append, loc, c, DoRead(len, haveBuffer), Bytes(r),
                   Cursor(c.text, now[h].pos))
  {
    assert files[loc := files[loc]] == files;
  }

  lemma WriteServed(files: map<Loc, seq<Byte>>, after: map<Loc, seq<Byte>>, was: seq<Handle>, now: seq<Handle>, h: nat,
                    access: nat, append: bool, loc: Loc, c: Cursor, buf: seq<Byte>, r: int)
    requires Shows(files, was, h, access, append, loc, c) && WriteDone(files, after, was, now, h, buf, r)
    ensures loc in after
    ensures Served(files, after, now, h, access, append, loc, c, DoWrite(buf), Count(r), Cursor(after[loc], now[h].pos))
  {
    assert files[loc := files[loc]] == files;
  }

  lemma SeekServed(files: map<Loc, seq<Byte>>, was: seq<Handle>, now: seq<Handle>, h: nat, access: nat, append: bool,
                   loc: Loc, c: Cursor, offset: int, whence: Whence, r: int)
    requires Shows(files, was, h, access, append, loc, c) && SeekDone(was, now, h, offset, whence, r)
    ensures Served(files, files, now, h, access, append, loc, c, DoSeek(offset, whence), Count(r),
                   Cursor(c.text, now[h].pos))
  {
    assert files[loc := files[loc]] == files;
  }

  lemma ShrinkServed(files: map<Loc, seq<Byte>>, after: map<Loc, seq<Byte>>, was: seq<Handle>, now: seq<Handle>, h: nat,
                     access: nat, append: bool, loc: Loc, c: Cursor, length: nat, r: int)
    requires Shows(files, was, h, access, append, loc, c) && length <= |c.text|
    requires TruncateDone(files, after, was, now, h, length, r)
    ensures loc in after
    ensures Served(files, after, now, h, access, append, loc, c, DoShrink(length), Count(r),
                   Cursor(after[loc], now[h].pos))
  {
  }

  /** A write that stores less than it was given does so only because no cluster is free. */
  ghost predicate ShortOnlyIfFull(q: Request, a: Reply, table: seq<U16>) {
    q.DoWrite? && a.Count? && 0 <= a.n < |q.buf| ==> Full(table)
  }

  /** One request through a handle. */
  method Serve(fs: FileSystem, h: nat, q: Request, ghost access: nat, ghost append: bool, ghost loc: Loc,
               ghost c: Cursor)
    returns (a: Reply, ghost d: Cursor)
    requires fs.Valid() && Shows(fs.Files(), fs.open, h, access, append, loc, c) && Admissible(q)
    modifies fs, fs.vol
    ensures fs.Valid() && Served(old(fs.Files()), fs.Files(), fs.open, h, access, append, loc, c, q, a, d)
    ensures ShortOnlyIfFull(q, a, fs.vol.Table())
  {
    ghost var files, was := fs.Files(), fs.open;
    match q {
      case DoRead(len, haveBuffer) =>
        var r := fs.Read(h, len, haveBuffer);
        ReadServed(files, was, fs.open, h, access, append, loc, c, len, haveBuffer, r);
        a, d := Bytes(r), Cursor(c.text, fs.open[h].pos);
      case DoWrite(buf) =>
        var r := fs.Write(h, buf);
        WriteServed(files, fs.Files(), was, fs.open, h, access, append, loc, c, buf, r);
        a, d := Count(r), Cursor(fs.Files()[loc], fs.open[h].pos);
      case DoSeek(offset, whence) =>
        var r := fs.Seek(h, offset, whence);
        SeekServed(files, was, fs.open, h, access, append, loc, c, offset, whence, r);
        a, d := Count(r), Cursor(c.text, fs.open[h].pos);
      case DoShrink(length) =>
        if length > fs.open[h].size {
          assert files[loc := files[loc]] == files;
          a, d := Count(-1), c;
        } else {
          var r := fs.Truncate(h, length);
          ShrinkServed(files, fs.Files(), was, fs.open, h, access, append, loc, c, length, r);
          a, d := Count(r), Cursor(fs.Files()[loc], fs.open[h].pos);
        }
    }
  }

  /** A run of a byte sequence: every step is what its request does, and the position never passes the end. */
  ghost predicate IsRun(access: nat, append: bool, qs: seq<Request>, answers: seq<Reply>, run: seq<Cursor>) {
    && |answers| == |qs| && |run| == |qs| + 1
    && (forall i :: 0 <= i < |run| ==> run[i].pos <= |run[i].text|)
    && forall i :: 0 <= i < |qs| ==> Plays(access, append, run[i], qs[i], answers[i], run[i + 1])
  }

  lemma RunExtends(access: nat, append: bool, qs: seq<Request>, i: nat, answers: seq<Reply>, run: seq<Cursor>,
                   a: Reply, d: Cursor, answers2: seq<Reply>, run2: seq<Cursor>)
    requires i < |qs| && IsRun(access, append, qs[..i], answers, run) && d.pos <= |d.text|
    requires Plays(access, append, run[i], qs[i], a, d) && answers2 == answers + [a] && run2 == run + [d]
    ensures IsRun(access, append, qs[..i + 1], answers2, run2) && run2[0] == run[0] && run2[i + 1] == d
  {
    forall k | 0 <= k < i + 1
      ensures Plays(access, append, run2[k], qs[..i + 1][k], answers2[k], run2[k + 1])
    {
      if k < i { assert Plays(access, append, run[k], qs[..i][k], answers[k], run[k + 1]); }
    }
  }

  /** Where a session stands after `i` requests. */
  ghost predicate Standing(files: map<Loc, seq<Byte>>, after: map<Loc, seq<Byte>>, open: seq<Handle>, h: nat, f: Handle,
                           qs: seq<Request>, i: nat, answers: seq<Reply>, run: seq<Cursor>) {
    && f.loc in files && i <= |qs| && IsRun(f.access, f.append, qs[..i], answers, run)
    && run[0] == Cursor(files[f.loc], f.pos) && after == files[f.loc := run[i].text]
    && Shows(after, open, h, f.access, f.append, f.loc, run[i])
  }

  lemma SessionStarts(files: map<Loc, seq<Byte>>, open: seq<Handle>, h: nat, f: Handle, qs: seq<Request>, c: Cursor)
    requires Shows(files, open, h, f.access, f.append, f.loc, c) && c == Cursor(files[f.loc], f.pos)
    ensures Standing(files, files, open, h, f, qs, 0, [], [c])
  {
    assert files[f.loc := files[f.loc]] == files;
  }

  lemma SessionStep(files: map<Loc, seq<Byte>>, mid: map<Loc, seq<Byte>>, after: map<Loc, seq<Byte>>,
                    open: seq<Handle>, now: seq<Handle>,
                    h: nat, f: Handle, qs: seq<Request>, i: nat, answers: seq<Reply>, run: seq<Cursor>, a: Reply,
                    d: Cursor, answers2: seq<Reply>, run2: seq<Cursor>)
    requires i < |qs| && Standing(files, mid, open, h, f, qs, i, answers, run)
    requires Served(mid, after, now, h, f.access, f.append, f.loc, run[i], qs[i], a, d)
    requires answers2 == answers + [a] && run2 == run + [d]
    ensures Standing(files, after, now, h, f, qs, i + 1, answers2, run2)
  {
    RunExtends(f.access, f.append, qs, i, answers, run, a, d, answers2, run2);
    assert files[f.loc := run[i].text][f.loc := d.text] == files[f.loc := d.text];
  }

  /** The allocation tables a session passes through, each short write leaving a full one. */
  ghost predicate Passed(first: seq<U16>, last: seq<U16>, qs: seq<Request>, answers: seq<Reply>,
                         tables: seq<seq<U16>>) {
    && |answers| == |qs| && |tables| == |qs| + 1 && tables[0] == first && tables[|qs|] == last
    && forall i :: 0 <= i < |qs| ==> ShortOnlyIfFull(qs[i], answers[i], tables[i + 1])
  }

  lemma PassedStep(first: seq<U16>, mid: seq<U16>, last: seq<U16>, qs: seq<Request>, i: nat, answers: seq<Reply>,
                   tables: seq<seq<U16>>, a: Reply, answers2: seq<Reply>)
    requires i < |qs| && Passed(first, mid, qs[..i], answers, tables)
    requires ShortOnlyIfFull(qs[i], a, last) && answers2 == answers + [a]
    ensures Passed(first, last, qs[..i + 1], answers2, tables + [last])
  {
    forall k | 0 <= k < i + 1
      ensures ShortOnlyIfFull(qs[..i + 1][k], answers2[k], (tables + [last])[k + 1])
    {
      if k < i { assert ShortOnlyIfFull(qs[..i][k], answers[k], tables[k + 1]); }
    }
  }

  /** Any sequence of requests on the only handle of a file is a run of a byte sequence with a
      position, starting from the file as it was and ending in the file as it is, with every other
      file unchanged; `tables` are the allocation tables in between. */
  method Session(fs: FileSystem, h: nat, qs: seq<Request>)
    returns (answers: seq<Reply>, ghost run: seq<Cursor>, ghost tables: seq<seq<U16>>)
    requires fs.Valid() && h < |fs.open| && fs.open[h].inUse && forall i :: 0 <= i < |qs| ==> Admissible(qs[i])
    modifies fs, fs.vol
    ensures fs.Valid() && Standing(old(fs.Files()), fs.Files(), fs.open, h, old(fs.open[h]), qs, |qs|, answers, run)
    ensures |answers| == |qs| && Passed(old(fs.vol.Table()), fs.vol.Table(), qs, answers, tables)
  {
    tables := [fs.vol.Table()];
    ghost var files, f := fs.Files(), fs.open[h];
    ShowsNow(fs, h);
    answers, run := [], [Cursor(files[f.loc], f.pos)];
    SessionStarts(files, fs.open, h, f, qs, run[0]);
    for i := 0 to |qs|
      invariant fs.Valid() && Standing(files, fs.Files(), fs.open, h, f, qs, i, answers, run)
      invariant |answers| == i && Passed(old(fs.vol.Table()), fs.vol.Table(), qs[..i], answers, tables)
    {
      ghost var mid, open := fs.Files(), fs.open;
      var a, d := Serve(fs, h, qs[i], f.access, f.append, f.loc, run[i]);
      var answers2 := answers + [a];
      ghost var run2 := run + [d];
      SessionStep(files, mid, fs.Files(), open, fs.open, h, f, qs, i, answers, run, a, d, answers2, run2);
      PassedStep(old(fs.vol.Table()), tables[i], fs.vol.Table(), qs, i, answers, tables, a, answers2);
      answers, run, tables := answers2, run2, tables + [fs.vol.Table()];
    }
    assert qs[..|qs|] == qs;
  }
}
