/** Lists of word writes into a byte image, as the linker's relocation loop performs them. */
module Patching {
  import opened Words

  type Word = w: seq<Byte> | |w| == 4 witness [0, 0, 0, 0]

  datatype Write = Write(off: nat, word: Word)

  function Splice(s: seq<Byte>, off: nat, w: Word): (r: seq<Byte>)
    requires off + 4 <= |s|
    ensures |r| == |s|
    ensures r[off..off + 4] == w
    ensures forall i :: 0 <= i < |s| && !(off <= i < off + 4) ==> r[i] == s[i]
  {
    s[..off] + w + s[off + 4..]
  }

  /** Every write lies inside `size` bytes. */
  ghost predicate Inside(ws: seq<Write>, size: nat)
    decreases |ws|
  {
    ws == [] || (ws[0].off + 4 <= size && Inside(ws[1..], size))
  }

  lemma {:induction false} InsideConcat(a: seq<Write>, b: seq<Write>, size: nat)
    requires Inside(a, size) && Inside(b, size)
    ensures Inside(a + b, size)
    decreases |a|
  {
    if a == [] {
      assert a + b == b;
    } else {
      InsideConcat(a[1..], b, size);
      assert (a + b)[1..] == a[1..] + b;
    }
  }

  function Apply(s: seq<Byte>, ws: seq<Write>): (r: seq<Byte>)
    requires Inside(ws, |s|)
    ensures |r| == |s|
    decreases |ws|
  {
    if ws == [] then s else Apply(Splice(s, ws[0].off, ws[0].word), ws[1..])
  }

  /** Writes done in two lists one after the other. */
  lemma {:induction false} ApplyConcat(s: seq<Byte>, a: seq<Write>, b: seq<Write>)
    requires Inside(a, |s|) && Inside(b, |s|)
    ensures Inside(a + b, |s|)
    ensures Apply(s, a + b) == Apply(Apply(s, a), b)
    decreases |a|
  {
    if a == [] {
      assert a + b == b;
    } else {
      ApplyConcat(Splice(s, a[0].off, a[0].word), a[1..], b);
      assert (a + b)[1..] == a[1..] + b;
    }
  }

  function Moved(ws: seq<Write>, delta: nat): (r: seq<Write>)
    ensures |r| == |ws|
    ensures forall k :: 0 <= k < |ws| ==> r[k] == Write(ws[k].off + delta, ws[k].word)
  {
    seq(|ws|, k requires 0 <= k < |ws| => Write(ws[k].off + delta, ws[k].word))
  }

  lemma MovedTail(ws: seq<Write>, delta: nat)
    requires ws != []
    ensures Moved(ws, delta) == [Write(ws[0].off + delta, ws[0].word)] + Moved(ws[1..], delta)
  {
  }

  lemma SpliceWithin(pre: seq<Byte>, s: seq<Byte>, post: seq<Byte>, off: nat, w: Word)
    requires off + 4 <= |s|
    ensures Splice(pre + s + post, |pre| + off, w) == pre + Splice(s, off, w) + post
  {
  }

  /** Writing `ws` into `s` gives `r`. */
  ghost predicate Gives(s: seq<Byte>, ws: seq<Write>, r: seq<Byte>)
    decreases |ws|
  {
    if ws == [] then r == s else ws[0].off + 4 <= |s| && Gives(Splice(s, ws[0].off, ws[0].word), ws[1..], r)
  }

  lemma {:induction false} GivesApply(s: seq<Byte>, ws: seq<Write>, r: seq<Byte>)
    ensures Gives(s, ws, r) <==> Inside(ws, |s|) && Apply(s, ws) == r
    decreases |ws|
  {
    if ws != [] && ws[0].off + 4 <= |s| { GivesApply(Splice(s, ws[0].off, ws[0].word), ws[1..], r); }
  }

  lemma GivesCons(s: seq<Byte>, w: Write, ws: seq<Write>, r: seq<Byte>)
    ensures Gives(s, [w] + ws, r) <==> w.off + 4 <= |s| && Gives(Splice(s, w.off, w.word), ws, r)
  {
    var all := [w] + ws;
    assert all[0] == w && all[1..] == ws;
  }

  lemma MovedNone(ws: seq<Write>, delta: nat)
    requires ws == []
    ensures Moved(ws, delta) == []
  {
  }

  lemma SpliceImage(pre: seq<Byte>, s: seq<Byte>, post: seq<Byte>, off: nat, w: Word, image: seq<Byte>)
    returns (image2: seq<Byte>)
    requires off + 4 <= |s| && image == pre + s + post
    ensures off + |pre| + 4 <= |image| && image2 == Splice(image, off + |pre|, w) == pre + Splice(s, off, w) + post
  {
    SpliceWithin(pre, s, post, off, w);
    image2 := Splice(image, off + |pre|, w);
  }

  lemma {:induction false} GivesWithin(pre: seq<Byte>, s: seq<Byte>, post: seq<Byte>, ws: seq<Write>,
                                       q: seq<Byte>, image: seq<Byte>, r: seq<Byte>)
    requires Gives(s, ws, q) && image == pre + s + post && r == pre + q + post
    ensures Gives(image, Moved(ws, |pre|), r)
    decreases |ws|
  {
    if ws == [] {
      MovedNone(ws, |pre|);
    } else {
      var off, word := ws[0].off, ws[0].word;
      var image2 := SpliceImage(pre, s, post, off, word, image);
      GivesWithin(pre, Splice(s, off, word), post, ws[1..], q, image2, r);
      GivesCons(image, Write(off + |pre|, word), Moved(ws[1..], |pre|), r);
      MovedTail(ws, |pre|);
    }
  }

  /** Writes confined to one stretch of a longer image act on that stretch alone. */
  lemma ApplyWithin(pre: seq<Byte>, s: seq<Byte>, post: seq<Byte>, ws: seq<Write>)
    requires Inside(ws, |s|)
    ensures Inside(Moved(ws, |pre|), |pre + s + post|)
    ensures Apply(pre + s + post, Moved(ws, |pre|)) == pre + Apply(s, ws) + post
  {
    var q, image := Apply(s, ws), pre + s + post;
    GivesApply(s, ws, q);
    GivesWithin(pre, s, post, ws, q, image, pre + q + post);
    GivesApply(image, Moved(ws, |pre|), pre + q + post);
  }

  lemma ApplyFront(a: seq<Byte>, b: seq<Byte>, ws: seq<Write>)
    requires Inside(ws, |a|)
    ensures Inside(ws, |a + b|) && Apply(a + b, ws) == Apply(a, ws) + b
  {
    ApplyWithin([], a, b, ws);
    MovedNowhere(ws);
    EmptyFront(a, b);
    EmptyFront(Apply(a, ws), b);
  }

  lemma MovedNowhere(ws: seq<Write>)
    ensures Moved(ws, 0) == ws
  {
  }

  lemma EmptyFront(a: seq<Byte>, b: seq<Byte>)
    ensures [] + a + b == a + b
  {
  }

  lemma ApplyBack(a: seq<Byte>, b: seq<Byte>, ws: seq<Write>)
    requires Inside(ws, |b|)
    ensures Inside(Moved(ws, |a|), |a + b|) && Apply(a + b, Moved(ws, |a|)) == a + Apply(b, ws)
  {
    ApplyWithin(a, b, [], ws);
    assert a + b + [] == a + b && a + Apply(b, ws) + [] == a + Apply(b, ws);
  }

  /** Two stretches written separately and then joined. */
  lemma ApplyJoined(a: seq<Byte>, wa: seq<Write>, b: seq<Byte>, wb: seq<Write>)
    requires Inside(wa, |a|) && Inside(wb, |b|)
    ensures Inside(wa + Moved(wb, |a|), |a + b|)
    ensures Apply(a + b, wa + Moved(wb, |a|)) == Apply(a, wa) + Apply(b, wb)
  {
    ApplyFront(a, b, wa);
    ApplyBack(Apply(a, wa), b, wb);
    ApplyConcat(a + b, wa, Moved(wb, |a|));
  }

  ghost predicate Apart(a: Write, b: Write) {
    a.off + 4 <= b.off || b.off + 4 <= a.off
  }

  /** A byte no write covers keeps its value. */
  lemma {:induction false} ApplyElsewhere(s: seq<Byte>, ws: seq<Write>, i: nat)
    requires Inside(ws, |s|) && i < |s|
    requires forall k :: 0 <= k < |ws| ==> !(ws[k].off <= i < ws[k].off + 4)
    ensures Apply(s, ws)[i] == s[i]
    decreases |ws|
  {
    if ws != [] {
      ApplyElsewhere(Splice(s, ws[0].off, ws[0].word), ws[1..], i);
    }
  }

  /** A write that overlaps no other is what the image holds in the end. */
  lemma {:induction false} ApplyAt(s: seq<Byte>, ws: seq<Write>, j: nat)
    requires Inside(ws, |s|) && j < |ws|
    requires forall k :: 0 <= k < |ws| && k != j ==> Apart(ws[k], ws[j])
    ensures ws[j].off + 4 <= |s|
    ensures Apply(s, ws)[ws[j].off..ws[j].off + 4] == ws[j].word
    decreases |ws|
  {
    var t, off := Splice(s, ws[0].off, ws[0].word), ws[j].off;
    if j > 0 {
      assert forall k :: 0 <= k < |ws[1..]| && k != j - 1 ==> ws[1..][k] == ws[k + 1];
      ApplyAt(t, ws[1..], j - 1);
    } else {
      forall i | off <= i < off + 4
        ensures Apply(s, ws)[i] == t[i]
      {
        ApplyElsewhere(t, ws[1..], i);
      }
    }
  }

  // ---- writes addressed by section ---------------------------------------------------------------

  type SectionNo = s: int | 0 <= s < 4

  datatype Located = Located(sec: SectionNo, off: nat, word: Word)

  /** The writes of section `s`, in order. */
  function Of(ls: seq<Located>, s: SectionNo): seq<Write>
    decreases |ls|
  {
    if ls == [] then []
    else if ls[0].sec == s then [Write(ls[0].off, ls[0].word)] + Of(ls[1..], s)
    else Of(ls[1..], s)
  }

  lemma {:induction false} OfConcat(a: seq<Located>, b: seq<Located>, s: SectionNo)
    ensures Of(a + b, s) == Of(a, s) + Of(b, s)
    decreases |a|
  {
    if a == [] {
      assert a + b == b;
    } else {
      OfConcat(a[1..], b, s);
      assert (a + b)[1..] == a[1..] + b;
    }
  }

  /** Section `s`, patched, is `flat`. */
  ghost predicate SectionLinks(out: seq<Byte>, ls: seq<Located>, s: SectionNo, flat: seq<Byte>) {
    && Inside(Of(ls, s), |out|)
    && Apply(out, Of(ls, s)) == flat
  }

  /** Appending a patched stretch to a section. */
  lemma SectionGrows(out: seq<Byte>, ls: seq<Located>, s: SectionNo, flat: seq<Byte>,
                     more: seq<Byte>, ws: seq<Write>, added: seq<Located>)
    requires SectionLinks(out, ls, s, flat)
    requires Inside(ws, |more|) && Of(added, s) == Moved(ws, |out|)
    ensures SectionLinks(out + more, ls + added, s, flat + Apply(more, ws))
  {
    OfConcat(ls, added, s);
    ApplyJoined(out, Of(ls, s), more, ws);
  }

  /** The same writes into the sections laid end to end at `base`. */
  function InImage(ls: seq<Located>, base: seq<nat>): seq<Write>
    requires |base| == 4
    decreases |ls|
  {
    if ls == [] then []
    else [Write(base[ls[0].sec] + ls[0].off, ls[0].word)] + InImage(ls[1..], base)
  }

  /** The head write belongs to one section's writes and leaves the others alone. */
  lemma OfTail(ls: seq<Located>, s: SectionNo, out: seq<Byte>, r: seq<Byte>)
    requires ls != [] && Gives(out, Of(ls, s), r)
    ensures ls[0].sec == s ==> ls[0].off + 4 <= |out| && Gives(Splice(out, ls[0].off, ls[0].word), Of(ls[1..], s), r)
    ensures ls[0].sec != s ==> Gives(out, Of(ls[1..], s), r)
  {
    if ls[0].sec == s { GivesCons(out, Write(ls[0].off, ls[0].word), Of(ls[1..], s), r); }
  }

  function Part(a: seq<Byte>, b: seq<Byte>, c: seq<Byte>,
                s: nat): seq<Byte> { if s == 0 then a else if s == 1 then b else c }

  /** One located write done in its section; the other two are as they were. */
  ghost predicate OneSpliced(l: Located, a: seq<Byte>, b: seq<Byte>, c: seq<Byte>, x: seq<Byte>, y: seq<Byte>,
                             z: seq<Byte>) {
    && l.sec < 3 && l.off + 4 <= |Part(a, b, c, l.sec)|
    && x == (if l.sec == 0 then Splice(a, l.off, l.word) else a)
    && y == (if l.sec == 1 then Splice(b, l.off, l.word) else b)
    && z == (if l.sec == 2 then Splice(c, l.off, l.word) else c)
  }

  lemma SpliceFront(s: seq<Byte>, post: seq<Byte>, off: nat, w: Word)
    requires off + 4 <= |s|
    ensures Splice(s + post, off, w) == Splice(s, off, w) + post
  {
  }

  lemma SpliceFirst(a: seq<Byte>, b: seq<Byte>, c: seq<Byte>, off: nat, w: Word)
    requires off + 4 <= |a|
    ensures Splice(a + b + c, off, w) == Splice(a, off, w) + b + c
  {
    SpliceFront(a, b, off, w);
    SpliceFront(a + b, c, off, w);
  }

  lemma SpliceBack(pre: seq<Byte>, s: seq<Byte>, off: nat, w: Word)
    requires off + 4 <= |s|
    ensures Splice(pre + s, |pre| + off, w) == pre + Splice(s, off, w)
  {
  }

  /** The head write, done in the image, changes one section. */
  lemma SplicePart(l: Located, a: seq<Byte>, b: seq<Byte>, c: seq<Byte>, off: nat) returns (x: seq<Byte>, y: seq<Byte>,
                                                                                            z: seq<Byte>)
    requires l.sec < 3 && l.off + 4 <= |Part(a, b, c, l.sec)|
    requires off == l.off + (if l.sec == 0 then 0 else if l.sec == 1 then |a| else |a| + |b|)
    ensures off + 4 <= |a + b + c| && Splice(a + b + c, off, l.word) == x + y + z && OneSpliced(l, a, b, c, x, y, z)
  {
    x, y, z := a, b, c;
    if l.sec == 0 {
      x := Splice(a, l.off, l.word);
      SpliceFirst(a, b, c, l.off, l.word);
    } else if l.sec == 1 {
      y := Splice(b, l.off, l.word);
      SpliceWithin(a, b, c, l.off, l.word);
    } else {
      z := Splice(c, l.off, l.word);
      SpliceBack(a + b, c, l.off, l.word);
    }
  }

  /** Three sections to be laid end to end at `base`; their writes turn `a`, `b`, `c` into `a2`, `b2`, `c2`. */
  ghost predicate Three(ls: seq<Located>, base: seq<nat>, a: seq<Byte>, b: seq<Byte>, c: seq<Byte>,
                        a2: seq<Byte>, b2: seq<Byte>, c2: seq<Byte>)
  {
    && |base| == 4 && base[0] == 0 && base[1] == |a| && base[2] == |a| + |b|
    && (forall k :: 0 <= k < |ls| ==> ls[k].sec < 3)
    && Gives(a, Of(ls, 0), a2) && Gives(b, Of(ls, 1), b2) && Gives(c, Of(ls, 2), c2)
  }

  /** The head write lies in its section. */
  lemma HeadPlace(ls: seq<Located>, base: seq<nat>, a: seq<Byte>, b: seq<Byte>, c: seq<Byte>,
                  a2: seq<Byte>, b2: seq<Byte>, c2: seq<Byte>)
    requires ls != [] && Three(ls, base, a, b, c, a2, b2, c2)
    ensures ls[0].sec < 3 && ls[0].off + 4 <= |Part(a, b, c, ls[0].sec)|
    ensures base[ls[0].sec] == if ls[0].sec == 0 then 0 else if ls[0].sec == 1 then |a| else |a| + |b|
  {
    if ls[0].sec == 0 {
      OfTail(ls, 0, a, a2);
    } else if ls[0].sec == 1 {
      OfTail(ls, 1, b, b2);
    } else {
      OfTail(ls, 2, c, c2);
    }
  }

  /** The head write, done in the image, leaves three sections laid end to end. */
  lemma HeadWrite(ls: seq<Located>, base: seq<nat>, a: seq<Byte>, b: seq<Byte>, c: seq<Byte>,
                  a2: seq<Byte>, b2: seq<Byte>, c2: seq<Byte>)
    returns (x: seq<Byte>, y: seq<Byte>, z: seq<Byte>)
    requires ls != [] && Three(ls, base, a, b, c, a2, b2, c2)
    ensures OneSpliced(ls[0], a, b, c, x, y, z)
    ensures var off := base[ls[0].sec] + ls[0].off;
            off + 4 <= |a + b + c| && Splice(a + b + c, off, ls[0].word) == x + y + z
  {
    HeadPlace(ls, base, a, b, c, a2, b2, c2);
    x, y, z := SplicePart(ls[0], a, b, c, base[ls[0].sec] + ls[0].off);
  }

  lemma ThreeTail(ls: seq<Located>, base: seq<nat>, a: seq<Byte>, b: seq<Byte>, c: seq<Byte>,
                  a2: seq<Byte>, b2: seq<Byte>, c2: seq<Byte>, x: seq<Byte>, y: seq<Byte>, z: seq<Byte>)
    requires ls != [] && Three(ls, base, a, b, c, a2, b2, c2) && OneSpliced(ls[0], a, b, c, x, y, z)
    ensures Three(ls[1..], base, x, y, z, a2, b2, c2)
  {
    OfTail(ls, 0, a, a2);
    OfTail(ls, 1, b, b2);
    OfTail(ls, 2, c, c2);
  }

  /** Writes into three sections laid end to end act on each section separately. */
  lemma {:induction false} ImageSplits(ls: seq<Located>, base: seq<nat>, a: seq<Byte>, b: seq<Byte>, c: seq<Byte>,
                                       a2: seq<Byte>, b2: seq<Byte>, c2: seq<Byte>, image: seq<Byte>, image2: seq<Byte>)
    requires Three(ls, base, a, b, c, a2, b2, c2) && image == a + b + c && image2 == a2 + b2 + c2
    ensures Gives(image, InImage(ls, base), image2)
    decreases |ls|
  {
    if ls != [] {
      var off := base[ls[0].sec] + ls[0].off;
      var x, y, z := HeadWrite(ls, base, a, b, c, a2, b2, c2);
      ThreeTail(ls, base, a, b, c, a2, b2, c2, x, y, z);
      ImageSplits(ls[1..], base, x, y, z, a2, b2, c2, Splice(image, off, ls[0].word), image2);
      GivesCons(image, Write(off, ls[0].word), InImage(ls[1..], base), image2);
    }
  }
}
