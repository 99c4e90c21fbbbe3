/** The byte ring of the kernel utilities. */
module KRings {
  import opened Words

  lemma NextIndex(i: nat, n: nat)
    requires i < n
    ensures (i + 1) % n == if i + 1 == n then 0 else i + 1
  {
    if i + 1 < n { ModSmall(i + 1, n); }
  }

  lemma ModSmall(x: nat, n: nat)
    requires x < n
    ensures x % n == x
  {
  }

  class KRing {
    const buf: array<Byte>
    var head: nat
    var tail: nat

    ghost predicate Valid()
      reads this
    {
      if buf.Length < 2 then head == 0 && tail == 0 else head < buf.Length && tail < buf.Length
    }

    /** The bytes pushed and not yet popped, oldest first. */
    ghost function Contents(): (s: seq<Byte>)
      requires Valid()
      reads this, buf
      ensures |s| <= (if buf.Length < 2 then 0 else buf.Length - 1)
    {
      if head >= tail then buf[tail..head] else buf[tail..] + buf[..head]
    }

    /** `kring_u8_init` */
    constructor (capacity: nat)
      ensures Valid() && buf.Length == capacity && Contents() == [] && fresh(buf)
    {
      buf := new Byte[capacity](_ => 0);
      head, tail := 0, 0;
    }

    /** `kring_u8_reset` */
    method Reset()
      modifies this
      ensures Valid() && Contents() == []
    {
      head, tail := 0, 0;
    }

    /** `kring_u8_push`: refused when full, one slot always staying free. */
    method Push(value: Byte) returns (r: int)
      requires Valid()
      modifies this`head, buf
      ensures Valid()
      ensures r == if old(|Contents()|) + 1 < buf.Length then 0 else -1
      ensures Contents() == if r == 0 then old(Contents()) + [value] else old(Contents())
    {
      if buf.Length < 2 {
        return -1;
      }
      NextIndex(head, buf.Length);
      var next := (head + 1) % buf.Length;
      if next == tail {
        return -1;
      }
      buf[head] := value;
      head := next;
      return 0;
    }

    /** `kring_u8_pop`: the oldest byte, or a refusal when empty. */
    method Pop() returns (r: int, out: Byte)
      requires Valid()
      modifies this`tail
      ensures Valid()
      ensures r == if old(Contents()) == [] then -1 else 0
      ensures r == 0 ==> out == old(Contents())[0] && Contents() == old(Contents())[1..]
      ensures r == -1 ==> Contents() == old(Contents())
    {
      if buf.Length < 2 || head == tail {
        return -1, 0;
      }
      out := buf[tail];
      NextIndex(tail, buf.Length);
      tail := (tail + 1) % buf.Length;
      r := 0;
    }

    /** `kring_u8_empty` */
    method Empty() returns (r: bool)
      requires Valid()
      ensures r <==> Contents() == []
    {
      r := buf.Length < 2 || head == tail;
    }

    /** `kring_u8_used` */
    method Used() returns (n: nat)
      requires Valid()
      ensures n == |Contents()|
    {
      if buf.Length < 2 {
        return 0;
      }
      return if head >= tail then head - tail else buf.Length - (tail - head);
    }
  }
}

/** Named pipes.  Between two yields a reader or writer runs undisturbed, so an interleaving is a
    sequence of such segments; a call that yields has moved nothing and starts over. */
module Pipes {
  import opened Words
  import opened KRings

  const PIPE_BUF_SIZE: nat := 512

  datatype Outcome = Yields | Fails | Done

  function Least(a: nat, b: nat): nat { if a < b then a else b }

  lemma Assoc(a: seq<Byte>, b: seq<Byte>, c: seq<Byte>)
    ensures (a + b) + c == a + (b + c)
  {
  }

  lemma Drained(all: seq<Byte>, bytes: seq<Byte>, rest: seq<Byte>, len: nat)
    requires all == bytes + rest && |bytes| <= len && (|bytes| == len || rest == [])
    ensures bytes == all[..Least(len, |all|)] && rest == all[|bytes|..]
  {
  }

  lemma OneOff(all: seq<Byte>, bytes: seq<Byte>, rest: seq<Byte>)
    requires all == bytes + rest && rest != []
    ensures all == (bytes + [rest[0]]) + rest[1..]
  {
  }

  lemma TakeOneMore(all: seq<Byte>, buf: seq<Byte>, i: nat)
    requires i < |buf|
    ensures (all + buf[..i]) + [buf[i]] == all + buf[..i + 1]
  {
  }

  class Pipe {
    var inUse: bool
    const ring: KRing
    ghost var given: seq<Byte>
    ghost var taken: seq<Byte>

    /** Since the last reset, what writers gave is what readers took followed by what is in the ring. */
    ghost predicate Valid()
      reads this, ring, ring.buf
    {
      ring.Valid() && ring.buf.Length == PIPE_BUF_SIZE && given == taken + ring.Contents()
    }

    ghost function Waiting(): seq<Byte>
      requires Valid()
      reads this, ring, ring.buf
    {
      ring.Contents()
    }

    constructor ()
      ensures Valid() && !inUse && Waiting() == [] && fresh(ring) && fresh(ring.buf)
    {
      ring := new KRing(PIPE_BUF_SIZE);
      inUse, given, taken := false, [], [];
    }

    /** The slot part of `pipe_create` and of `pipe_destroy`. */
    method Restart(use: bool)
      requires Valid()
      modifies this, ring
      ensures Valid() && inUse == use && Waiting() == [] && given == [] && taken == []
    {
      ring.Reset();
      inUse, given, taken := use, [], [];
    }

    /** One segment of `pipe_read`, entered with nothing read yet. */
    method ReadSegment(len: nat) returns (o: Outcome, bytes: seq<Byte>)
      requires Valid()
      modifies this`taken, ring`tail
      ensures Valid() && inUse == old(inUse) && given == old(given)
      ensures o == if len == 0 then Done else if !inUse then Fails else if old(Waiting()) == [] then Yields else Done
      ensures bytes == if o == Done then old(Waiting())[..Least(len, |old(Waiting())|)] else []
      ensures taken == old(taken) + bytes && Waiting() == old(Waiting())[|bytes|..]
    {
      if len > 0 && !inUse {
        return Fails, [];
      }
      bytes := Drain(len);
      o := if len > 0 && |bytes| == 0 then Yields else Done;
      taken := taken + bytes;
    }

    /** Pop until enough or empty. */
    method Drain(len: nat) returns (bytes: seq<Byte>)
      requires Valid()
      modifies ring`tail
      ensures ring.Valid() && bytes == old(Waiting())[..Least(len, |old(Waiting())|)]
      ensures ring.Contents() == old(Waiting())[|bytes|..]
      ensures given == (taken + bytes) + ring.Contents()
    {
      bytes := [];
      ghost var all := Waiting();
      while |bytes| < len
        invariant ring.Valid() && |bytes| <= len && all == bytes + ring.Contents()
      {
        ghost var before := ring.Contents();
        var r, b := ring.Pop();
        if r != 0 {
          break;
        }
        OneOff(all, bytes, before);
        bytes := bytes + [b];
      }
      Drained(all, bytes, ring.Contents(), len);
      Assoc(taken, bytes, ring.Contents());
    }

    /** One segment of `pipe_write`, entered with nothing sent yet. */
    method WriteSegment(buf: seq<Byte>) returns (o: Outcome, sent: nat)
      requires Valid()
      modifies this`given, ring`head, ring.buf
      ensures Valid() && inUse == old(inUse) && taken == old(taken)
      ensures o == if buf == [] then Done else if !inUse then Fails
              else if |old(Waiting())| == PIPE_BUF_SIZE - 1 then Yields else Done
      ensures sent == if o == Done then Least(|buf|, PIPE_BUF_SIZE - 1 - |old(Waiting())|) else 0
      ensures given == old(given) + buf[..sent] && Waiting() == old(Waiting()) + buf[..sent]
    {
      sent, o := 0, Done;
      ghost var all := Waiting();
      while sent < |buf|
        invariant ring.Valid() && ring.buf.Length == PIPE_BUF_SIZE && inUse == old(inUse) && given == old(given)
        invariant taken == old(taken)
        invariant sent <= |buf| && ring.Contents() == all + buf[..sent]
        invariant sent > 0 ==> inUse
      {
        if !inUse {
          o := Fails;
          break;
        }
        var r := ring.Push(buf[sent]);
        if r == 0 {
          TakeOneMore(all, buf, sent);
          sent := sent + 1;
        } else {
          if sent > 0 {
            break;
          }
          o := Yields;
          break;
        }
      }
      Assoc(taken, all, buf[..sent]);
      given := given + buf[..sent];
    }
  }

  // ---- interleavings --------------------------------------------------------------------------------

  datatype Segment = Reads(len: nat) | Writes(buf: seq<Byte>)

  /** The block a segment moves: the oldest bytes, as many as wanted and there; or the first bytes
      offered, as many as there is room for; nothing once the pipe is gone. */
  function Block(inUse: bool, waiting: seq<Byte>, seg: Segment): seq<Byte>
    requires |waiting| <= PIPE_BUF_SIZE - 1
  {
    if !inUse then []
    else
      match seg
      case Reads(len) => waiting[..Least(len, |waiting|)]
      case Writes(buf) => buf[..Least(|buf|, PIPE_BUF_SIZE - 1 - |waiting|)]
  }

  /** What waits in the pipe after the segment has moved its block. */
  function Left(inUse: bool, waiting: seq<Byte>, seg: Segment): (r: seq<Byte>)
    requires |waiting| <= PIPE_BUF_SIZE - 1
    ensures |r| <= PIPE_BUF_SIZE - 1
  {
    if seg.Reads? then waiting[|Block(inUse, waiting, seg)|..] else waiting + Block(inUse, waiting, seg)
  }

  /** The run of a bounded queue: each segment moves its block from or to the one before. */
  ghost predicate IsRun(inUse: bool, segs: seq<Segment>, blocks: seq<seq<Byte>>, waits: seq<seq<Byte>>) {
    && |blocks| == |segs| && |waits| == |segs| + 1
    && (forall i :: 0 <= i < |waits| ==> |waits[i]| <= PIPE_BUF_SIZE - 1)
    && (forall i :: 0 <= i < |segs| ==> blocks[i] == Block(inUse, waits[i], segs[i]))
    && forall i :: 0 <= i < |segs| ==> waits[i + 1] == Left(inUse, waits[i], segs[i])
  }

  lemma RunExtends(inUse: bool, segs: seq<Segment>, i: nat, blocks: seq<seq<Byte>>, waits: seq<seq<Byte>>,
                   block: seq<Byte>, now: seq<Byte>)
    requires i < |segs| && IsRun(inUse, segs[..i], blocks, waits)
    requires block == Block(inUse, waits[i], segs[i]) && now == Left(inUse, waits[i], segs[i])
    ensures IsRun(inUse, segs[..i + 1], blocks + [block], waits + [now])
  {
    var more := segs[..i + 1];
    assert forall k :: 0 <= k < i ==> more[k] == segs[..i][k];
  }

  /** The bytes written, and the bytes read, by a run of segments that moved these blocks. */
  ghost function Given(segs: seq<Segment>, blocks: seq<seq<Byte>>): seq<Byte>
    requires |segs| == |blocks|
    decreases |segs|
  {
    if segs == [] then []
    else Given(segs[..|segs| - 1], blocks[..|segs| - 1]) + if segs[|segs| - 1].Writes? then blocks[|segs| - 1] else []
  }

  ghost function Taken(segs: seq<Segment>, blocks: seq<seq<Byte>>): seq<Byte>
    requires |segs| == |blocks|
    decreases |segs|
  {
    if segs == [] then []
    else Taken(segs[..|segs| - 1], blocks[..|segs| - 1]) + if segs[|segs| - 1].Reads? then blocks[|segs| - 1] else []
  }

  lemma RunGrows(segs: seq<Segment>, i: nat, blocks: seq<seq<Byte>>, b: seq<Byte>)
    requires i < |segs| && |blocks| == i
    ensures Given(segs[..i + 1], blocks + [b]) == Given(segs[..i], blocks) + if segs[i].Writes? then b else []
    ensures Taken(segs[..i + 1], blocks + [b]) == Taken(segs[..i], blocks) + if segs[i].Reads? then b else []
  {
    assert segs[..i + 1][..i] == segs[..i] && (blocks + [b])[..i] == blocks;
  }

  /** Over any interleaving of readers and writers between two resets: what was in the pipe and what
      was written is what was read and what is left, in order; every segment moves exactly the block a
      queue of 511 bytes would move. */
  method Interleave(pipe: Pipe, segs: seq<Segment>) returns (blocks: seq<seq<Byte>>, ghost waits: seq<seq<Byte>>)
    requires pipe.Valid()
    modifies pipe, pipe.ring, pipe.ring.buf
    ensures pipe.Valid() && |blocks| == |segs|
    ensures old(pipe.Waiting()) + Given(segs, blocks) == Taken(segs, blocks) + pipe.Waiting()
    ensures IsRun(old(pipe.inUse), segs, blocks, waits)
    ensures waits[0] == old(pipe.Waiting()) && waits[|segs|] == pipe.Waiting()
  {
    blocks := [];
    ghost var start := pipe.Waiting();
    waits := [start];
    for i := 0 to |segs|
      invariant pipe.Valid() && |blocks| == i
      invariant start + Given(segs[..i], blocks) == Taken(segs[..i], blocks) + pipe.Waiting()
      invariant pipe.inUse == old(pipe.inUse) && IsRun(pipe.inUse, segs[..i], blocks, waits)
      invariant waits[0] == start && waits[i] == pipe.Waiting()
    {
      ghost var was := pipe.Waiting();
      var block := Move(pipe, segs[i]);
      RunGrows(segs, i, blocks, block);
      Conserves(start, Given(segs[..i], blocks), Taken(segs[..i], blocks), was, pipe.Waiting(), block, segs[i].Reads?);
      RunExtends(pipe.inUse, segs, i, blocks, waits, block, pipe.Waiting());
      blocks, waits := blocks + [block], waits + [pipe.Waiting()];
    }
    assert segs[..|segs|] == segs;
  }

  /** One segment, and the block it moved. */
  method Move(pipe: Pipe, seg: Segment) returns (block: seq<Byte>)
    requires pipe.Valid()
    modifies pipe, pipe.ring, pipe.ring.buf
    ensures pipe.Valid() && pipe.inUse == old(pipe.inUse)
    ensures block == Block(pipe.inUse, old(pipe.Waiting()), seg)
    ensures pipe.Waiting() == Left(pipe.inUse, old(pipe.Waiting()), seg)
    ensures if seg.Reads? then old(pipe.Waiting()) == block + pipe.Waiting()
            else pipe.Waiting() == old(pipe.Waiting()) + block
  {
    ghost var was := pipe.Waiting();
    match seg {
      case Reads(len) =>
        var o, bytes := pipe.ReadSegment(len);
        block := bytes;
        Halves(was, |bytes|);
      case Writes(buf) =>
        var o, sent := pipe.WriteSegment(buf);
        block := buf[..sent];
    }
  }

  lemma Halves(s: seq<Byte>, n: nat)
    requires n <= |s|
    ensures s == s[..n] + s[n..]
  {
  }

  /** One block leaves at the front or joins at the back. */
  lemma Conserves(start: seq<Byte>, given: seq<Byte>, taken: seq<Byte>, was: seq<Byte>, now: seq<Byte>,
                  block: seq<Byte>, front: bool)
    requires start + given == taken + was && if front then was == block + now else now == was + block
    ensures start + (given + if front then [] else block) == (taken + if front then block else []) + now
  {
    if front {
      Assoc(taken, block, now);
      assert given + [] == given;
    } else {
      Assoc(start, given, block);
      Assoc(taken, was, block);
      assert taken + [] == taken;
    }
  }
}
