/** ELF relocatable input of the linker (`parse_elf_rel_input`): sections merged by kind. */
module LdLayout {
  import opened Words
  import opened Spans
  import opened Options
  import opened AsSyntax

  datatype ShType = Progbits | Nobits | RelTable | OtherType

  /** `elf32_rel_t` split into its fields. */
  datatype ElfRel = ElfRel(off: Addr32, rtype: int, sym: nat)

  /** `elf32_shdr_t`; `rels` are the entries of a relocation table. */
  datatype Shdr = Shdr(stype: ShType, alloc: bool, exec: bool, write: bool,
                       offset: Addr32, size: Addr32, addralign: Addr32, info: nat, rels: seq<ElfRel>)

  /** `sec_kind_from_elf` */
  function Kind(sh: Shdr): Option<Section> {
    if !sh.alloc then None
    else if sh.stype.Nobits? then Some(SEC_BSS)
    else if sh.exec then Some(SEC_TEXT)
    else if sh.write then Some(SEC_DATA)
    else Some(SEC_RODATA)
  }

  /** By its header, a section whose bytes are in the payload. */
  predicate Loaded(sh: Shdr) { sh.alloc && !sh.stype.Nobits? }

  // ---- align_up ----------------------------------------------------------------------------------

  /** Bitwise and. */
  function And(x: nat, m: nat): (r: nat)
    ensures r <= m && r <= x
  {
    if x == 0 || m == 0 then 0 else 2 * And(x / 2, m / 2) + (if x % 2 == 1 && m % 2 == 1 then 1 else 0)
  }

  /** `align_up` on integers without a width: `(v + a - 1) & ~(a - 1)`. */
  function AlignUp(v: nat, a: nat): (r: nat)
    requires a > 0
    ensures v <= r < v + a
  {
    v + a - 1 - And(v + a - 1, a - 1)
  }

  /** `align_up` as computed, in 32 bits. */
  function AlignUp32(v: Addr32, a: Addr32): (r: Addr32)
    requires a > 0
  {
    var t := Add32(v, a - 1);
    t - And(t, a - 1)
  }

  function Pow2(k: nat): (r: nat)
    ensures r > 0
  {
    if k == 0 then 1 else 2 * Pow2(k - 1)
  }

  /** For the alignments ELF allows, `align_up` really aligns. */
  lemma AlignsPowers(v: nat, k: nat)
    ensures AlignUp(v, Pow2(k)) % Pow2(k) == 0
  {
    var x, a := v + Pow2(k) - 1, Pow2(k);
    AndMask(x, k);
    RoundDown(x, a);
  }

  lemma RoundDown(x: nat, a: nat)
    requires a > 0
    ensures (x - x % a) % a == 0
  {
    ModUnique(x - x % a, a, x / a, 0);
  }

  function LowBits(x: nat, k: nat): nat
    decreases k
  {
    if k == 0 then 0 else 2 * LowBits(x / 2, k - 1) + x % 2
  }

  lemma AndMask(x: nat, k: nat)
    ensures And(x, Pow2(k) - 1) == x % Pow2(k)
  {
    AndLowBits(x, k);
    LowBitsMod(x, k);
  }

  lemma {:induction false} AndLowBits(x: nat, k: nat)
    ensures And(x, Pow2(k) - 1) == LowBits(x, k)
    decreases k
  {
    if k > 0 {
      AndLowBits(x / 2, k - 1);
      if x > 0 { AndOdd(x, Pow2(k - 1)); }
    }
  }

  lemma {:induction false} LowBitsMod(x: nat, k: nat)
    ensures LowBits(x, k) == x % Pow2(k)
    decreases k
  {
    if k > 0 {
      LowBitsMod(x / 2, k - 1);
      HalfMod(x, Pow2(k - 1));
    }
  }

  lemma AndOdd(x: nat, h: nat)
    requires x > 0 && h > 0
    ensures And(x, 2 * h - 1) == 2 * And(x / 2, h - 1) + x % 2
  {
    assert (2 * h - 1) / 2 == h - 1 && (2 * h - 1) % 2 == 1;
  }

  lemma HalfMod(x: nat, h: nat)
    requires h > 0
    ensures x % (2 * h) == 2 * (x / 2 % h) + x % 2
  {
    var y, q := x / 2, x / 2 / h;
    assert y == q * h + y % h;
    assert x == q * (2 * h) + (2 * (y % h) + x % 2);
    ModUnique(x, 2 * h, q, 2 * (y % h) + x % 2);
  }

  lemma ModUnique(x: nat, m: nat, q: nat, r: nat)
    requires m > 0 && x == q * m + r && r < m
    ensures x % m == r
  {
    SpanIsProduct(q, m);
    SpanOf(x, m);
    SpanUnique(x / m, x % m, q, r, m);
  }

  /** A mask of `k` bits takes nothing from the bits above. */
  lemma {:induction false} AndLow(x: nat, m: nat, k: nat)
    requires m < Pow2(k)
    ensures And(x, m) <= LowBits(x, k)
    decreases k
  {
    if k > 0 { AndLow(x / 2, m / 2, k - 1); }
  }

  lemma Pow32()
    ensures Pow2(32) == TWO32
  {
    assert Pow2(8) == 0x100;
    assert Pow2(16) == 0x1_0000;
    assert Pow2(24) == 0x100_0000;
  }

  /** The 32-bit form agrees with the wide one exactly when the wide result fits; otherwise it
      steps back below where it started. */
  lemma AlignExact(v: Addr32, a: Addr32)
    requires a > 0
    ensures AlignUp(v, a) < TWO32 ==> AlignUp32(v, a) == AlignUp(v, a)
    ensures AlignUp(v, a) >= TWO32 ==> AlignUp32(v, a) < v
  {
    var x: nat := v + a - 1;
    if x >= TWO32 {
      Pow32();
      AndLow(x, a - 1, 32);
      LowBitsMod(x, 32);
    }
  }

  // ---- merging sections by kind ----------------------------------------------------------------

  function AlignOf(sh: Shdr): (a: Addr32)
    ensures a > 0
  {
    if sh.addralign == 0 then 1 else sh.addralign
  }

  /** `kind_size[k]` after the first `n` sections. */
  function KindSize(shs: seq<Shdr>, n: nat, k: Section): Addr32
    requires n <= |shs|
  {
    if n == 0 then 0
    else
      var before := KindSize(shs, n - 1, k);
      if Kind(shs[n - 1]) == Some(k) then Add32(AlignUp32(before, AlignOf(shs[n - 1])), shs[n - 1].size) else before
  }

  /** `sh_off_in_kind[i]` */
  function OffInKind(shs: seq<Shdr>, i: nat): Addr32
    requires i < |shs|
  {
    if Kind(shs[i]).None? then 0 else AlignUp32(KindSize(shs, i, Kind(shs[i]).value), AlignOf(shs[i]))
  }

  /** `sec_base` */
  function KindBase(shs: seq<Shdr>): (b: seq<nat>)
    ensures |b| == 4 && forall k: Section :: b[k] < TWO32
  {
    var n := |shs|;
    var t, r, d := KindSize(shs, n, SEC_TEXT), KindSize(shs, n, SEC_RODATA), KindSize(shs, n, SEC_DATA);
    [0, t, Add32(t, r), Add32(Add32(t, r), d)]
  }

  function PayloadSize(shs: seq<Shdr>): nat { KindBase(shs)[3] }

  /** Where section `i` starts, counting .bss after the payload. */
  function Pos(shs: seq<Shdr>, i: nat): nat
    requires i < |shs| && Kind(shs[i]).Some?
  {
    KindBase(shs)[Kind(shs[i]).value] + OffInKind(shs, i)
  }

  /** The same place as the copy loop computes it. */
  function Dest(shs: seq<Shdr>, i: nat): Addr32
    requires i < |shs| && Kind(shs[i]).Some?
  {
    Add32(KindBase(shs)[Kind(shs[i]).value], OffInKind(shs, i))
  }

  /** Sections one after the other inside their kind, kinds one after the other in the payload. */
  ghost predicate InOrder(shs: seq<Shdr>) {
    var n, base := |shs|, KindBase(shs);
    && (forall i, j :: 0 <= i < j < n && Kind(shs[i]).Some? && Kind(shs[i]) == Kind(shs[j]) ==>
          OffInKind(shs, i) + shs[i].size <= OffInKind(shs, j))
    && (forall i :: 0 <= i < n && Kind(shs[i]).Some? ==>
          OffInKind(shs, i) + shs[i].size <= KindSize(shs, n, Kind(shs[i]).value))
    && base[1] == KindSize(shs, n, SEC_TEXT)
    && base[2] == base[1] + KindSize(shs, n, SEC_RODATA)
    && base[3] == base[2] + KindSize(shs, n, SEC_DATA)
  }

  /** The room sections of kind `k` need, padding included, whatever the width of the counter. */
  function Room(shs: seq<Shdr>, n: nat, k: Section): nat
    requires n <= |shs|
  {
    if n == 0 then 0
    else
      var before := Room(shs, n - 1, k);
      if Kind(shs[n - 1]) == Some(k) then AlignUp(before, AlignOf(shs[n - 1])) + shs[n - 1].size else before
  }

  /** Text, rodata and data together need less than 2^32 bytes, and so does .bss. */
  ghost predicate Fits(shs: seq<Shdr>) {
    var n := |shs|;
    && Room(shs, n, SEC_TEXT) + Room(shs, n, SEC_RODATA) + Room(shs, n, SEC_DATA) < TWO32
    && Room(shs, n, SEC_BSS) < TWO32
  }

  lemma {:induction false} RoomMonotone(shs: seq<Shdr>, m: nat, n: nat, k: Section)
    requires m <= n <= |shs|
    ensures Room(shs, m, k) <= Room(shs, n, k)
    decreases n
  {
    if m < n { RoomMonotone(shs, m, n - 1, k); }
  }

  /** As long as the room fits, the counter is the room. */
  lemma {:induction false} SizeIsRoom(shs: seq<Shdr>, n: nat, k: Section)
    requires n <= |shs| && Room(shs, n, k) < TWO32
    ensures KindSize(shs, n, k) == Room(shs, n, k)
    decreases n
  {
    if n > 0 {
      RoomMonotone(shs, n - 1, n, k);
      SizeIsRoom(shs, n - 1, k);
      if Kind(shs[n - 1]) == Some(k) { AlignExact(KindSize(shs, n - 1, k), AlignOf(shs[n - 1])); }
    }
  }

  /** Every kind's room is below 2^32. */
  lemma FitsEach(shs: seq<Shdr>, n: nat, k: Section)
    requires Fits(shs) && n <= |shs|
    ensures Room(shs, n, k) < TWO32 && KindSize(shs, n, k) == Room(shs, n, k)
  {
    RoomMonotone(shs, n, |shs|, k);
    assert k == SEC_TEXT || k == SEC_RODATA || k == SEC_DATA || k == SEC_BSS;
    SizeIsRoom(shs, n, k);
  }

  /** Where section `i` lies in its kind when everything fits. */
  lemma OffIsRoom(shs: seq<Shdr>, i: nat)
    requires Fits(shs) && i < |shs| && Kind(shs[i]).Some?
    ensures var k := Kind(shs[i]).value;
            Room(shs, i, k) <= OffInKind(shs, i) && OffInKind(shs, i) + shs[i].size == Room(shs, i + 1, k)
  {
    var k := Kind(shs[i]).value;
    FitsEach(shs, i, k);
    FitsEach(shs, i + 1, k);
    AlignExact(KindSize(shs, i, k), AlignOf(shs[i]));
  }

  lemma FitsInOrder(shs: seq<Shdr>)
    requires Fits(shs)
    ensures InOrder(shs)
  {
    var n := |shs|;
    forall i, j | 0 <= i < j < n && Kind(shs[i]).Some? && Kind(shs[i]) == Kind(shs[j])
      ensures OffInKind(shs, i) + shs[i].size <= OffInKind(shs, j)
    {
      OffIsRoom(shs, i);
      OffIsRoom(shs, j);
      RoomMonotone(shs, i + 1, j, Kind(shs[i]).value);
    }
    forall i | 0 <= i < n && Kind(shs[i]).Some?
      ensures OffInKind(shs, i) + shs[i].size <= KindSize(shs, n, Kind(shs[i]).value)
    {
      OffIsRoom(shs, i);
      RoomMonotone(shs, i + 1, n, Kind(shs[i]).value);
      FitsEach(shs, n, Kind(shs[i]).value);
    }
    FitsEach(shs, n, SEC_TEXT);
    FitsEach(shs, n, SEC_RODATA);
    FitsEach(shs, n, SEC_DATA);
  }

  /** The counter of a kind stands at the end of the kind's last section. */
  lemma {:induction false} LastOfKind(shs: seq<Shdr>, n: nat, k: Section) returns (m: nat)
    requires n <= |shs|
    ensures KindSize(shs, n, k) == 0
         || (m < n && Kind(shs[m]) == Some(k) && KindSize(shs, n, k) == Add32(OffInKind(shs, m), shs[m].size))
    decreases n
  {
    if n == 0 {
      m := 0;
    } else if Kind(shs[n - 1]) == Some(k) {
      m := n - 1;
    } else {
      m := LastOfKind(shs, n - 1, k);
    }
  }

  lemma {:induction false} OrderIsRoom(shs: seq<Shdr>, n: nat, k: Section)
    requires InOrder(shs) && n <= |shs|
    ensures KindSize(shs, n, k) == Room(shs, n, k)
    decreases n
  {
    if n > 0 {
      OrderIsRoom(shs, n - 1, k);
      if Kind(shs[n - 1]) == Some(k) {
        var m := LastOfKind(shs, n - 1, k);
        AlignExact(KindSize(shs, n - 1, k), AlignOf(shs[n - 1]));
        assert OffInKind(shs, n - 1) + shs[n - 1].size <= KindSize(shs, |shs|, k);
      }
    }
  }

  /** The exact condition for the layout to be in order: the sections, with their padding, need
      less than 2^32 bytes. */
  lemma LayoutExact(shs: seq<Shdr>)
    ensures InOrder(shs) <==> Fits(shs)
  {
    if Fits(shs) {
      FitsInOrder(shs);
    }
    if InOrder(shs) {
      OrderIsRoom(shs, |shs|, SEC_TEXT);
      OrderIsRoom(shs, |shs|, SEC_RODATA);
      OrderIsRoom(shs, |shs|, SEC_DATA);
      OrderIsRoom(shs, |shs|, SEC_BSS);
    }
  }

  /** Sections that fit never share a byte, whatever their alignments. */
  lemma SectionsDisjoint(shs: seq<Shdr>, i: nat, j: nat)
    requires Fits(shs) && i < j < |shs| && Kind(shs[i]).Some? && Kind(shs[j]).Some?
    ensures Pos(shs, i) + shs[i].size <= Pos(shs, j) || Pos(shs, j) + shs[j].size <= Pos(shs, i)
  {
    FitsInOrder(shs);
  }

  lemma SectionInside(shs: seq<Shdr>, i: nat)
    requires Fits(shs) && i < |shs| && Kind(shs[i]).Some? && Kind(shs[i]).value <= SEC_DATA
    ensures Pos(shs, i) + shs[i].size <= PayloadSize(shs) && Dest(shs, i) == Pos(shs, i)
  {
    FitsInOrder(shs);
  }

  /** By their headers: code, then constants, then writable data, each in file order, and what has no bytes in the
      file behind the payload. */
  lemma OrderByFlags(shs: seq<Shdr>, i: nat, j: nat)
    requires Fits(shs) && i < |shs| && j < |shs| && Loaded(shs[i])
    ensures Pos(shs, i) + shs[i].size <= PayloadSize(shs)
    ensures shs[j].alloc && shs[j].stype.Nobits? ==> PayloadSize(shs) <= Pos(shs, j)
    ensures Loaded(shs[j]) && shs[i].exec && !shs[j].exec ==> Pos(shs, i) + shs[i].size <= Pos(shs, j)
    ensures Loaded(shs[j]) && !shs[i].exec && !shs[i].write && !shs[j].exec && shs[j].write ==>
              Pos(shs, i) + shs[i].size <= Pos(shs, j)
    ensures Loaded(shs[j]) && i < j && shs[i].exec == shs[j].exec && (shs[i].exec || shs[i].write == shs[j].write) ==>
              Pos(shs, i) + shs[i].size <= Pos(shs, j)
  {
    FitsInOrder(shs);
  }

  /** A section that asks for 2^k is aligned to it inside its kind; in the payload it is aligned exactly when its kind
      happens to start at a multiple. */
  lemma AlignedExactly(shs: seq<Shdr>, i: nat, k: nat)
    requires Fits(shs) && i < |shs| && shs[i].alloc && shs[i].addralign == Pow2(k)
    ensures OffInKind(shs, i) % Pow2(k) == 0
    ensures Pos(shs, i) % Pow2(k) == 0 <==> KindBase(shs)[Kind(shs[i]).value] % Pow2(k) == 0
  {
    OffAligned(shs, i, k, Kind(shs[i]).value);
    SumAligned(KindBase(shs)[Kind(shs[i]).value], OffInKind(shs, i), Pow2(k));
  }

  lemma OffAligned(shs: seq<Shdr>, i: nat, k: nat, kind: Section)
    requires Fits(shs) && i < |shs| && Kind(shs[i]) == Some(kind) && shs[i].addralign == Pow2(k)
    ensures OffInKind(shs, i) % Pow2(k) == 0
  {
    FitsEach(shs, i, kind);
    FitsEach(shs, i + 1, kind);
    var v := KindSize(shs, i, kind);
    AlignExact(v, AlignOf(shs[i]));
    AlignsPowers(v, k);
    assert OffInKind(shs, i) == AlignUp(v, Pow2(k));
  }

  lemma SumAligned(a: nat, b: nat, m: nat)
    requires m > 0 && b % m == 0
    ensures (a + b) % m == 0 <==> a % m == 0
  {
    var p, q, r := a / m, b / m, a % m;
    assert a == p * m + r && b == q * m;
    assert a + b == (p + q) * m + r by { assert (p + q) * m == p * m + q * m; }
    ModUnique(a + b, m, p + q, r);
  }

  /** A section of one byte of code and one of four bytes of data that asks for an alignment of 4. */
  ghost predicate CodeThenData(shs: seq<Shdr>) {
    && |shs| == 2
    && shs[0] == Shdr(Progbits, true, true, false, 0, 1, 1, 0, [])
    && shs[1] == Shdr(Progbits, true, false, true, 1, 4, 4, 0, [])
  }

  /** The byte of code moves the data to an odd place. */
  lemma Misaligned(shs: seq<Shdr>)
    requires CodeThenData(shs)
    ensures Kind(shs[1]).Some? && Pos(shs, 1) == 1
  {
    OneSection(shs, 2, SEC_TEXT);
    OneSection(shs, 2, SEC_RODATA);
    assert KindBase(shs)[SEC_DATA] == 1;
    DataFirst(shs);
  }

  lemma DataFirst(shs: seq<Shdr>)
    requires CodeThenData(shs)
    ensures OffInKind(shs, 1) == 0
  {
    OneSection(shs, 1, SEC_DATA);
    AlignedZero(4);
  }

  lemma OneSection(shs: seq<Shdr>, n: nat, k: Section)
    requires CodeThenData(shs) && n <= 2 && k != SEC_BSS && !(n == 2 && k == SEC_DATA)
    ensures KindSize(shs, n, k) == if k == SEC_TEXT && n > 0 then 1 else 0
  {
    AlignedZero(1);
    if n > 0 { assert KindSize(shs, 0, k) == 0; }
    if n == 2 { OneSection(shs, 1, k); }
  }

  lemma AlignedZero(a: Addr32)
    requires a > 0
    ensures AlignUp32(0, a) == 0
  {
    AndSelf(a - 1);
  }

  lemma {:induction false} AndSelf(x: nat)
    ensures And(x, x) == x
  {
    if x > 0 { AndSelf(x / 2); }
  }

  // ---- the payload -------------------------------------------------------------------------------

  /** Whether a section is copied into the payload. */
  predicate Copied(sh: Shdr) { Kind(sh).Some? && Kind(sh).value <= SEC_DATA && sh.stype.Progbits? }

  /** `s` with `chunk` at `at`. */
  function Laid(s: seq<Byte>, at: nat, chunk: seq<Byte>): (r: seq<Byte>)
    requires at + |chunk| <= |s|
    ensures |r| == |s|
  {
    s[..at] + chunk + s[at + |chunk|..]
  }

  /** The payload after the copy loop has seen the first `n` sections; the sums of its range checks
      are tested for wrap-around, the destination is not. */
  function Payload(file: seq<Byte>, shs: seq<Shdr>, n: nat): (r: Attempt<seq<Byte>>)
    requires n <= |shs|
    ensures r.Done? ==> |r.value| == PayloadSize(shs)
  {
    if n == 0 then Done(Zeros(PayloadSize(shs)))
    else
      var p, sh := Payload(file, shs, n - 1), shs[n - 1];
      if !p.Done? || !Copied(sh) then p
      else
        var dst := Dest(shs, n - 1);
        if sh.offset + sh.size > |file| || dst + sh.size > PayloadSize(shs) then Refused
        else Done(Laid(p.value, dst, file[sh.offset..sh.offset + sh.size]))
  }

  ghost predicate Truncated(file: seq<Byte>, sh: Shdr) { Copied(sh) && sh.offset + sh.size > |file| }

  /** `x` lies in a copied section among the first `n`. */
  ghost predicate InCopied(shs: seq<Shdr>, n: nat, x: int)
    requires n <= |shs|
  {
    exists i :: 0 <= i < n && Copied(shs[i]) && Pos(shs, i) <= x < Pos(shs, i) + shs[i].size
  }

  /** Section `i` stands in `p` at its place. */
  ghost predicate Placed(file: seq<Byte>, shs: seq<Shdr>, i: nat, p: seq<Byte>)
    requires i < |shs| && Copied(shs[i])
  {
    && shs[i].offset + shs[i].size <= |file|
    && Pos(shs, i) + shs[i].size <= |p|
    && p[Pos(shs, i)..Pos(shs, i) + shs[i].size] == file[shs[i].offset..shs[i].offset + shs[i].size]
  }

  /** The payload holds every copied section at its place and zero everywhere else. */
  ghost predicate IsPayload(file: seq<Byte>, shs: seq<Shdr>, n: nat, p: seq<Byte>)
    requires n <= |shs|
  {
    && |p| == PayloadSize(shs)
    && (forall i :: 0 <= i < n && Copied(shs[i]) ==> Placed(file, shs, i, p))
    && forall x :: 0 <= x < |p| && !InCopied(shs, n, x) ==> p[x] == 0
  }

  /** Copying section `n` leaves the earlier sections as they were. */
  lemma CopyKeeps(file: seq<Byte>, shs: seq<Shdr>, n: nat, q: seq<Byte>, p: seq<Byte>)
    requires Fits(shs) && n < |shs| && Copied(shs[n]) && shs[n].offset + shs[n].size <= |file|
    requires IsPayload(file, shs, n, q) && Pos(shs, n) + shs[n].size <= |q|
    requires p == Laid(q, Pos(shs, n), file[shs[n].offset..shs[n].offset + shs[n].size])
    ensures IsPayload(file, shs, n + 1, p)
  {
    forall i | 0 <= i < n && Copied(shs[i])
      ensures Placed(file, shs, i, p)
    {
      SectionsDisjoint(shs, i, n);
      assert Placed(file, shs, i, q);
      assert p[Pos(shs, i)..Pos(shs, i) + shs[i].size] == q[Pos(shs, i)..Pos(shs, i) + shs[i].size];
    }
    assert Placed(file, shs, n, p);
    forall x | 0 <= x < |p| && !InCopied(shs, n + 1, x)
      ensures p[x] == 0
    {
      assert !InCopied(shs, n, x);
    }
  }

  lemma SkipKeeps(file: seq<Byte>, shs: seq<Shdr>, n: nat, p: seq<Byte>)
    requires n < |shs| && !Copied(shs[n]) && IsPayload(file, shs, n, p)
    ensures IsPayload(file, shs, n + 1, p)
  {
    forall x | 0 <= x < |p| && !InCopied(shs, n + 1, x)
      ensures p[x] == 0
    {
      assert !InCopied(shs, n, x);
    }
  }

  /** Of sections that fit, only a truncated one is refused, and the payload holds each in its place. */
  lemma {:induction false} PayloadMeaning(file: seq<Byte>, shs: seq<Shdr>, n: nat)
    requires Fits(shs) && n <= |shs|
    ensures Payload(file, shs, n) == Refused <==> exists i :: 0 <= i < n && Truncated(file, shs[i])
    ensures Payload(file, shs, n) != Refused ==> Payload(file, shs, n).Done?
    ensures Payload(file, shs, n).Done? ==> IsPayload(file, shs, n, Payload(file, shs, n).value)
    decreases n
  {
    if n > 0 {
      PayloadMeaning(file, shs, n - 1);
      if Payload(file, shs, n - 1).Done? {
        PayloadStep(file, shs, n - 1, Payload(file, shs, n - 1).value);
      }
    }
  }

  /** One round of the copy loop. */
  lemma CopyNext(file: seq<Byte>, shs: seq<Shdr>, i: nat, p: seq<Byte>, dst: Addr32)
    requires i < |shs| && Payload(file, shs, i) == Done(p) && Copied(shs[i]) && dst == Dest(shs, i)
    ensures var sh := shs[i];
            Payload(file, shs, i + 1) ==
            if sh.offset + sh.size > |file| || dst + sh.size > |p| then Refused
            else Done(Laid(p, dst, file[sh.offset..sh.offset + sh.size]))
  {
  }

  /** A copied section of a layout that fits goes to its place. */
  lemma CopyStep(file: seq<Byte>, shs: seq<Shdr>, n: nat, p: seq<Byte>)
    requires Fits(shs) && n < |shs| && Copied(shs[n]) && Payload(file, shs, n) == Done(p) && IsPayload(file, shs, n, p)
    ensures Payload(file, shs, n + 1) == Refused <==> Truncated(file, shs[n])
    ensures !Truncated(file, shs[n]) ==>
              Payload(file, shs, n + 1).Done? && IsPayload(file, shs, n + 1, Payload(file, shs, n + 1).value)
  {
    SectionInside(shs, n);
    CopyNext(file, shs, n, p, Dest(shs, n));
    if !Truncated(file, shs[n]) { CopyKeeps(file, shs, n, p, Payload(file, shs, n + 1).value); }
  }

  lemma PayloadStep(file: seq<Byte>, shs: seq<Shdr>, n: nat, p: seq<Byte>)
    requires Fits(shs) && n < |shs| && Payload(file, shs, n) == Done(p) && IsPayload(file, shs, n, p)
    ensures Payload(file, shs, n + 1) == Refused <==> Truncated(file, shs[n])
    ensures !Truncated(file, shs[n]) ==>
              Payload(file, shs, n + 1).Done? && IsPayload(file, shs, n + 1, Payload(file, shs, n + 1).value)
  {
    if Copied(shs[n]) {
      CopyStep(file, shs, n, p);
    } else {
      SkipKeeps(file, shs, n, p);
    }
  }

  lemma AlignOne(v: Addr32)
    ensures AlignUp32(v, 1) == v
  {
    assert And(v, 0) == 0;
  }

  /** Sections without padding add up modulo 2^32. */
  lemma Unpadded(shs: seq<Shdr>, n: nat, k: Section, v: Addr32)
    requires n < |shs| && AlignOf(shs[n]) == 1 && KindSize(shs, n, k) == v
    ensures KindSize(shs, n + 1, k) == (if Kind(shs[n]) == Some(k) then Add32(v, shs[n].size) else v)
    ensures Kind(shs[n]) == Some(k) ==> OffInKind(shs, n) == v
  {
    AlignOne(v);
  }

  ghost predicate ReadOnly(sh: Shdr, size: Addr32) {
    Kind(sh) == Some(SEC_RODATA) && AlignOf(sh) == 1 && sh.size == size
  }

  /** Three read-only sections whose sizes pass 2^32 together; the middle one is not copied. */
  ghost predicate PastTheEnd(shs: seq<Shdr>) {
    && |shs| == 3 && ReadOnly(shs[0], 8) && ReadOnly(shs[1], 0xFFFF_FFF8) && ReadOnly(shs[2], 8)
    && Copied(shs[0]) && !Copied(shs[1]) && Copied(shs[2]) && shs[0].offset == 0 && shs[2].offset == 8
  }

  lemma SuchSectionsExist()
    ensures PastTheEnd([Shdr(Progbits, true, false, false, 0, 8, 1, 0, []),
                        Shdr(OtherType, true, false, false, 0, 0xFFFF_FFF8, 1, 0, []),
                        Shdr(Progbits, true, false, false, 8, 8, 1, 0, [])])
  {
  }

  lemma WrappingSizes(shs: seq<Shdr>, n: nat, k: Section)
    requires PastTheEnd(shs) && n <= 3
    ensures KindSize(shs, n, k) == if k == SEC_RODATA && (n == 1 || n == 3) then 8 else 0
    ensures k == SEC_RODATA && (n == 0 || n == 2) ==> OffInKind(shs, n) == 0
    decreases n
  {
    if n > 0 {
      WrappingSizes(shs, n - 1, k);
      Unpadded(shs, n - 1, k, KindSize(shs, n - 1, k));
    }
    if n < 3 { Unpadded(shs, n, k, KindSize(shs, n, k)); }
  }

  /** What happens without the condition: the third section lands on the first and the payload the
      linker goes on with has lost the first one's bytes. */
  lemma LayoutWraps(file: seq<Byte>, shs: seq<Shdr>)
    requires |file| == 16 && PastTheEnd(shs)
    ensures !Fits(shs) && Copied(shs[0]) && Copied(shs[2]) && Pos(shs, 0) == Pos(shs, 2) == 0
    ensures Payload(file, shs, |shs|) == Done(file[8..16])
  {
    WrappingPlaces(shs);
    LastCopyWins(file, shs);
  }

  lemma WrappingPlaces(shs: seq<Shdr>)
    requires PastTheEnd(shs)
    ensures !Fits(shs) && PayloadSize(shs) == 8 && Pos(shs, 0) == 0 && Pos(shs, 2) == 0
  {
    WrappingSizes(shs, |shs|, SEC_TEXT);
    WrappingSizes(shs, |shs|, SEC_RODATA);
    WrappingSizes(shs, |shs|, SEC_DATA);
    WrappingSizes(shs, |shs| - 3, SEC_RODATA);
    WrappingSizes(shs, |shs| - 1, SEC_RODATA);
    if Fits(shs) {
      FitsInOrder(shs);
      assert false;
    }
  }

  lemma LastCopyWins(file: seq<Byte>, shs: seq<Shdr>)
    requires |file| == 16 && PastTheEnd(shs) && PayloadSize(shs) == 8 && Pos(shs, 0) == 0 && Pos(shs, 2) == 0
    ensures Payload(file, shs, |shs|) == Done(file[8..16])
  {
    var n := |shs|;
    CopyWhole(file, shs, n - 3, Zeros(8), file[0..8]);
    SkipNext(file, shs, n - 2, file[0..8]);
    CopyWhole(file, shs, n - 1, file[0..8], file[8..16]);
  }

  lemma SkipNext(file: seq<Byte>, shs: seq<Shdr>, n: nat, p: seq<Byte>)
    requires n < |shs| && Payload(file, shs, n) == Done(p) && !Copied(shs[n])
    ensures Payload(file, shs, n + 1) == Done(p)
  {
  }

  lemma CopyWhole(file: seq<Byte>, shs: seq<Shdr>, n: nat, p: seq<Byte>, chunk: seq<Byte>)
    requires n < |shs| && Payload(file, shs, n) == Done(p) && Copied(shs[n]) && Pos(shs, n) == 0
    requires shs[n].size == |p| && shs[n].offset + |p| <= |file|
    requires chunk == file[shs[n].offset..shs[n].offset + |p|]
    ensures Payload(file, shs, n + 1) == Done(chunk)
  {
    CopyNext(file, shs, n, p, Dest(shs, n));
    assert Laid(p, 0, chunk) == chunk;
  }

  // ---- the loops ---------------------------------------------------------------------------------

  /** The layout loop: each allocated section's offset inside its kind, and the four sizes. */
  method LayoutSections(shs: seq<Shdr>) returns (offs: seq<Addr32>, sizes: seq<Addr32>)
    ensures |offs| == |shs| && forall i :: 0 <= i < |shs| ==> offs[i] == OffInKind(shs, i)
    ensures |sizes| == 4 && forall k: Section :: sizes[k] == KindSize(shs, |shs|, k)
  {
    offs, sizes := [], [0, 0, 0, 0];
    for i := 0 to |shs|
      invariant |offs| == i && forall j :: 0 <= j < i ==> offs[j] == OffInKind(shs, j)
      invariant |sizes| == 4 && forall k: Section :: sizes[k] == KindSize(shs, i, k)
    {
      var kind := Kind(shs[i]);
      if kind.None? {
        offs := offs + [0];
      } else {
        var at := AlignUp32(sizes[kind.value], AlignOf(shs[i]));
        offs, sizes := offs + [at], sizes[kind.value := Add32(at, shs[i].size)];
      }
    }
  }

  /** The copy loop: a zeroed payload, then each PROGBITS section at its destination. */
  method BuildPayload(file: seq<Byte>, shs: seq<Shdr>) returns (r: Attempt<seq<Byte>>)
    ensures r == Payload(file, shs, |shs|)
  {
    var p := Zeros(PayloadSize(shs));
    for i := 0 to |shs|
      invariant Payload(file, shs, i) == Done(p)
    {
      var sh := shs[i];
      if Copied(sh) {
        var dst := Dest(shs, i);
        CopyNext(file, shs, i, p, dst);
        if sh.offset + sh.size > |file| || dst + sh.size > |p| {
          RefusedStays(file, shs, i + 1);
          return Refused;
        }
        p := Laid(p, dst, file[sh.offset..sh.offset + sh.size]);
      }
    }
    return Done(p);
  }

  lemma {:induction false} RefusedStays(file: seq<Byte>, shs: seq<Shdr>, n: nat)
    requires n <= |shs| && Payload(file, shs, n) == Refused
    ensures Payload(file, shs, |shs|) == Refused
    decreases |shs| - n
  {
    if n < |shs| { RefusedStays(file, shs, n + 1); }
  }
}
