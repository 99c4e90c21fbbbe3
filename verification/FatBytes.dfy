/** Files as byte strings: clusters are runs of sectors, a file is the clusters of its chain. */
module FatBytes {
  import opened Words
  import opened Spans
  import opened FatSectors

  ghost function Bytes(data: seq<seq<Sector>>): (b: seq<seq<Byte>>)
    ensures |b| == |data|
    decreases |data|
  {
    if data == [] then [] else [Joined(data[0])] + Bytes(data[1..])
  }

  lemma {:induction false} BytesAt(data: seq<seq<Sector>>, c: nat)
    requires c < |data|
    ensures Bytes(data)[c] == Joined(data[c])
    decreases |data|
  {
    if c > 0 { BytesAt(data[1..], c - 1); }
  }

  /** Changing one cluster changes its bytes only. */
  lemma {:induction false} BytesUpdate(data: seq<seq<Sector>>, c: nat, cl: seq<Sector>)
    requires c < |data|
    ensures Bytes(data[c := cl]) == Bytes(data)[c := Joined(cl)]
    decreases |data|
  {
    if c > 0 {
      BytesUpdate(data[1..], c - 1, cl);
      assert data[c := cl][1..] == data[1..][c - 1 := cl];
    } else {
      assert data[c := cl][1..] == data[1..];
    }
  }

  /** Every cluster number of `ch` names a cluster of `size` bytes. */
  ghost predicate Sized(bytes: seq<seq<Byte>>, ch: seq<nat>, size: nat) {
    forall i :: 0 <= i < |ch| ==> ch[i] < |bytes| && |bytes[ch[i]]| == size
  }

  /** The bytes of a chain's clusters, one after the other. */
  ghost function FileBytes(bytes: seq<seq<Byte>>, ch: seq<nat>): seq<Byte>
    requires forall i :: 0 <= i < |ch| ==> ch[i] < |bytes|
    decreases |ch|
  {
    if ch == [] then [] else bytes[ch[0]] + FileBytes(bytes, ch[1..])
  }

  lemma {:induction false} FileLength(bytes: seq<seq<Byte>>, ch: seq<nat>, size: nat)
    requires Sized(bytes, ch, size)
    ensures |FileBytes(bytes, ch)| == Span(|ch|, size)
    decreases |ch|
  {
    if ch != [] {
      FileLength(bytes, ch[1..], size);
    }
  }

  lemma {:induction false} FileSame(a: seq<seq<Byte>>, b: seq<seq<Byte>>, ch: seq<nat>)
    requires forall i :: 0 <= i < |ch| ==> ch[i] < |a| && ch[i] < |b| && a[ch[i]] == b[ch[i]]
    ensures FileBytes(a, ch) == FileBytes(b, ch)
    decreases |ch|
  {
    if ch != [] { FileSame(a, b, ch[1..]); }
  }

  lemma {:induction false} FileConcat(bytes: seq<seq<Byte>>, x: seq<nat>, y: seq<nat>)
    requires forall i :: 0 <= i < |x| ==> x[i] < |bytes|
    requires forall i :: 0 <= i < |y| ==> y[i] < |bytes|
    ensures FileBytes(bytes, x + y) == FileBytes(bytes, x) + FileBytes(bytes, y)
    decreases |x|
  {
    if x == [] {
      assert x + y == y;
    } else {
      FileConcat(bytes, x[1..], y);
      assert (x + y)[1..] == x[1..] + y;
    }
  }

  /** Splitting a file's bytes at cluster `i`. */
  lemma FileSplit(bytes: seq<seq<Byte>>, ch: seq<nat>, size: nat, i: nat)
    requires Sized(bytes, ch, size) && i <= |ch|
    ensures |FileBytes(bytes, ch)| == Span(|ch|, size) && Span(i, size) <= Span(|ch|, size)
    ensures FileBytes(bytes, ch[..i]) == FileBytes(bytes, ch)[..Span(i, size)]
    ensures FileBytes(bytes, ch[i..]) == FileBytes(bytes, ch)[Span(i, size)..]
  {
    assert ch == ch[..i] + ch[i..];
    FileConcat(bytes, ch[..i], ch[i..]);
    FileLength(bytes, ch, size);
    FileLength(bytes, ch[..i], size);
    FileLength(bytes, ch[i..], size);
  }

  /** Cluster `i` of a file is its bytes from `Span(i, size)` on. */
  lemma FileCluster(bytes: seq<seq<Byte>>, ch: seq<nat>, size: nat, i: nat)
    requires Sized(bytes, ch, size) && i < |ch|
    ensures |FileBytes(bytes, ch)| == Span(|ch|, size) && Span(i, size) + size <= Span(|ch|, size)
    ensures FileBytes(bytes, ch)[Span(i, size)..Span(i, size) + size] == bytes[ch[i]]
  {
    FileSplit(bytes, ch, size, i);
    SpanBelow(i, |ch|, size);
    var tail := FileBytes(bytes, ch[i..]);
    assert tail == bytes[ch[i]] + FileBytes(bytes, ch[i..][1..]);
    assert tail[..size] == bytes[ch[i]];
  }

  /** What stands before and after cluster `i`. */
  lemma FileAround(bytes: seq<seq<Byte>>, ch: seq<nat>, size: nat, i: nat)
    requires Sized(bytes, ch, size) && i < |ch|
    ensures |FileBytes(bytes, ch[..i])| == Span(i, size) && |FileBytes(bytes, ch)| == Span(|ch|, size)
    ensures FileBytes(bytes, ch) == FileBytes(bytes, ch[..i]) + (bytes[ch[i]] + FileBytes(bytes, ch[i + 1..]))
  {
    FileLength(bytes, ch, size);
    FileLength(bytes, ch[..i], size);
    assert ch == ch[..i] + ch[i..];
    FileConcat(bytes, ch[..i], ch[i..]);
    assert ch[i..][1..] == ch[i + 1..];
  }

  /** Changing cluster `i` alone leaves what stands before and after it. */
  lemma OthersSame(a: seq<seq<Byte>>, b: seq<seq<Byte>>, ch: seq<nat>, i: nat)
    requires i < |ch| && |a| == |b| && forall k :: 0 <= k < |ch| ==> ch[k] < |a|
    requires forall x, y :: 0 <= x < y < |ch| ==> ch[x] != ch[y]
    requires forall c :: 0 <= c < |a| && c != ch[i] ==> a[c] == b[c]
    ensures FileBytes(a, ch[..i]) == FileBytes(b, ch[..i]) && FileBytes(a, ch[i + 1..]) == FileBytes(b, ch[i + 1..])
  {
    FileSame(a, b, ch[..i]);
    FileSame(a, b, ch[i + 1..]);
  }

  /** Writing inside one cluster of a chain without repetitions writes there in the file. */
  lemma FileOverwrite(bytes: seq<seq<Byte>>, ch: seq<nat>, size: nat, i: nat, k: nat, chunk: seq<Byte>)
    requires Sized(bytes, ch, size) && i < |ch| && k + |chunk| <= size
    requires forall a, b :: 0 <= a < b < |ch| ==> ch[a] != ch[b]
    ensures |FileBytes(bytes, ch)| == Span(|ch|, size) && Span(i, size) + size <= Span(|ch|, size)
    ensures FileBytes(bytes[ch[i] := Overwrite(bytes[ch[i]], k, chunk)], ch)
         == Overwrite(FileBytes(bytes, ch), Span(i, size) + k, chunk)
  {
    var c := ch[i];
    var to := bytes[c := Overwrite(bytes[c], k, chunk)];
    SpanBelow(i, |ch|, size);
    FileAround(bytes, ch, size, i);
    OthersSame(bytes, to, ch, i);
    FileAround(to, ch, size, i);
    OverwriteMiddle(FileBytes(bytes, ch), FileBytes(to, ch),
                    FileBytes(bytes, ch[..i]), bytes[c], FileBytes(bytes, ch[i + 1..]), k, Span(i, size) + k, chunk);
  }
}
