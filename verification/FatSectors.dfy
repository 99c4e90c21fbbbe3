/** Runs of disk sectors as byte strings. */
module FatSectors {
  import opened Words

  const SECTOR: nat := 512

  type Sector = s: seq<Byte> | |s| == SECTOR witness Zeros(SECTOR)

  function Joined(cl: seq<Sector>): seq<Byte>
    decreases |cl|
  {
    if cl == [] then [] else cl[0] + Joined(cl[1..])
  }

  function SetSector(cl: seq<Sector>, s: nat, sec: Sector): seq<Sector>
    requires s < |cl|
  {
    cl[s := sec]
  }

  /** `s` with `chunk` written at `at`. */
  function Overwrite(s: seq<Byte>, at: nat, chunk: seq<Byte>): (r: seq<Byte>)
    requires at + |chunk| <= |s|
    ensures |r| == |s|
  {
    s[..at] + chunk + s[at + |chunk|..]
  }

  lemma {:induction false} JoinedLength(cl: seq<Sector>)
    ensures |Joined(cl)| == |cl| * 512
    decreases |cl|
  {
    if cl != [] { JoinedLength(cl[1..]); }
  }

  /** Byte `k` of a cluster is byte `k % 512` of its sector `k / 512`. */
  lemma {:induction false} JoinedSector(cl: seq<Sector>, s: nat)
    requires s < |cl|
    ensures |Joined(cl)| == |cl| * 512
    ensures Joined(cl)[s * 512..s * 512 + SECTOR] == cl[s]
    decreases |cl|
  {
    JoinedLength(cl);
    JoinedLength(cl[1..]);
    if s > 0 {
      JoinedSector(cl[1..], s - 1);
      BehindHead(cl[0], Joined(cl[1..]), (s - 1) * 512, SECTOR);
    }
  }

  lemma BehindHead(a: seq<Byte>, b: seq<Byte>, k: nat, n: nat)
    requires k + n <= |b|
    ensures (a + b)[|a| + k..|a| + k + n] == b[k..k + n]
  {
  }

  /** Rewriting part of one sector rewrites that part of the cluster. */
  lemma {:induction false} JoinedOverwrite(cl: seq<Sector>, s: nat, off: nat, chunk: seq<Byte>)
    requires s < |cl| && off + |chunk| <= SECTOR
    ensures |Joined(cl)| == |cl| * 512
    ensures Joined(SetSector(cl, s, Overwrite(cl[s], off, chunk))) == Overwrite(Joined(cl), s * 512 + off, chunk)
    decreases |cl|
  {
    JoinedLength(cl);
    JoinedLength(cl[1..]);
    var to := SetSector(cl, s, Overwrite(cl[s], off, chunk));
    if s > 0 {
      JoinedOverwrite(cl[1..], s - 1, off, chunk);
      assert to[1..] == SetSector(cl[1..], s - 1, Overwrite(cl[s], off, chunk));
      OverwriteAfter(cl[0], Joined(cl[1..]), (s - 1) * 512 + off, chunk);
    } else {
      assert to[1..] == cl[1..];
      OverwriteBefore(cl[0], Joined(cl[1..]), off, chunk);
    }
  }

  lemma OverwriteAfter(a: seq<Byte>, b: seq<Byte>, at: nat, chunk: seq<Byte>)
    requires at + |chunk| <= |b|
    ensures Overwrite(a + b, |a| + at, chunk) == a + Overwrite(b, at, chunk)
  {
  }

  lemma OverwriteBefore(a: seq<Byte>, b: seq<Byte>, at: nat, chunk: seq<Byte>)
    requires at + |chunk| <= |a|
    ensures Overwrite(a + b, at, chunk) == Overwrite(a, at, chunk) + b
  {
  }

  lemma OverwriteMiddle(f: seq<Byte>, f2: seq<Byte>, a: seq<Byte>, b: seq<Byte>, c: seq<Byte>, at: nat, pos: nat,
                        chunk: seq<Byte>)
    requires at + |chunk| <= |b| && pos == |a| + at && f == a + (b + c) && f2 == a + (Overwrite(b, at, chunk) + c)
    ensures pos + |chunk| <= |f| && f2 == Overwrite(f, pos, chunk)
  {
    OverwriteBefore(b, c, at, chunk);
    OverwriteAfter(a, b + c, at, chunk);
  }
}
