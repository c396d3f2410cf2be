/** The read-write operations of fdt_rw.c, in place on the blob's buffer. */
module Edit {
  import opened Words
  import opened Tokens
  import opened Structure
  import opened Tokenizer
  import opened Walk
  import opened Tree
  import opened Blob
  import opened Queries
  import opened Ancestors
  import opened Properties
  import opened Splice

  /** `_fdt_blocks_misordered`; the sums are 32-bit unsigned. */
  ghost predicate Misordered(b: seq<byte>, rsv: int, st: int)
    requires Buffer(b)
  {
    || OffRsv(b) < HEADER
    || OffStruct(b) < (OffRsv(b) + rsv) % 0x1_0000_0000
    || OffStrings(b) < (OffStruct(b) + st) % 0x1_0000_0000
    || TotalSize(b) < (OffStrings(b) + SizeStrings(b)) % 0x1_0000_0000
  }

  method FdtBlocksMisordered(b: seq<byte>, rsv: int, st: int) returns (r: bool)
    requires Buffer(b)
    ensures r == Misordered(b, rsv, st)
  {
    hide Get32;
    var offRsv := Load32(b, OFF_RSVMAP);
    var offStruct := Load32(b, OFF_STRUCT);
    var offStrings := Load32(b, OFF_STRINGS);
    var sizeStrings := Load32(b, SIZE_STRINGS);
    var total := Load32(b, TOTALSIZE);
    return offRsv < HEADER || offStruct < (offRsv + rsv) % 0x1_0000_0000
           || offStrings < (offStruct + st) % 0x1_0000_0000
           || total < (offStrings + sizeStrings) % 0x1_0000_0000;
  }

  /** `_fdt_rw_check_header`: its result, and the version it writes. */
  ghost function RwCheck(b: seq<byte>): int
    requires Buffer(b)
  {
    if CheckHeader(b) != 0 then CheckHeader(b)
    else if Version(b) < 17 then BADVERSION
    else if Misordered(b, 16, SizeStruct(b)) then BADLAYOUT
    else 0
  }

  ghost function Checked(b: seq<byte>): seq<byte>
    requires Buffer(b)
  {
    if RwCheck(b) == 0 && Version(b) > 17 then Overlay(b, VERSION, Word(17)) else b
  }

  /** Each error of the check, by the header cells; on success only the version changes, to 17. */
  lemma RwCheckPlainly(b: seq<byte>)
    requires Buffer(b)
    ensures var err := RwCheck(b);
            var usable := || (Get32(b, 0) == 0xd00d_feed && Get32(b, 20) >= 16 && Get32(b, 24) <= 17)
                          || (Get32(b, 0) == 0x2ff2_0112 && Get32(b, 36) != 0);
            && (err == BADMAGIC <==> Get32(b, 0) != 0xd00d_feed && Get32(b, 0) != 0x2ff2_0112)
            && (err == BADSTATE <==> Get32(b, 0) == 0x2ff2_0112 && Get32(b, 36) == 0)
            && (err == BADVERSION <==>
                || (Get32(b, 0) == 0xd00d_feed && (Get32(b, 20) < 17 || Get32(b, 24) > 17))
                || (Get32(b, 0) == 0x2ff2_0112 && Get32(b, 36) != 0 && Get32(b, 20) < 17))
            && (err == BADLAYOUT <==>
                && usable && Get32(b, 20) >= 17
                && (|| OffRsv(b) < 40
                    || OffStruct(b) < (OffRsv(b) + 16) % 0x1_0000_0000
                    || OffStrings(b) < (OffStruct(b) + SizeStruct(b)) % 0x1_0000_0000
                    || TotalSize(b) < (OffStrings(b) + SizeStrings(b)) % 0x1_0000_0000))
            && (err == 0 || err == BADMAGIC || err == BADSTATE || err == BADVERSION || err == BADLAYOUT)
    ensures RwCheck(b) == 0 ==> Get32(Checked(b), 20) == 17
    ensures |Checked(b)| == |b|
    ensures forall i :: 0 <= i < |b| && (RwCheck(b) != 0 || i < 20 || i >= 24) ==> Checked(b)[i] == b[i]
  {
    hide Get32, Word;
    OverlayWord(b, VERSION, 17);
  }

  method FdtRwCheckHeader(a: array<byte>) returns (err: int)
    requires Buffer(a[..])
    modifies a
    ensures err == RwCheck(old(a[..])) && a[..] == Checked(old(a[..]))
  {
    hide Get32, CheckHeader, Misordered;
    err := FdtCheckHeader(a[..]);
    if err != 0 {
      return;
    }
    var version := Load32(a[..], VERSION);
    if version < 17 {
      return BADVERSION;
    }
    var size := Load32(a[..], SIZE_STRUCT);
    var bad := FdtBlocksMisordered(a[..], 16, size);
    if bad {
      return BADLAYOUT;
    }
    if version > 17 {
      Store32(a, VERSION, 17);
    }
  }

  /** On a well-formed blob the check passes and changes nothing but the version. */
  lemma CheckedMeans(b: seq<byte>)
    requires WellFormed(b)
    ensures RwCheck(b) == 0 && WellFormed(Checked(b))
    ensures Stored(Checked(b)) == Stored(b) && TreeOf(Checked(b)) == TreeOf(b) && Reserved(Checked(b)) == Reserved(b)
    ensures Struct(Checked(b)) == Struct(b) && Strings(Checked(b)) == Strings(b)
    ensures Moved(b, HEADER, |b|, Checked(b), 0)
  {
    hide Decode, Named, Rooted, Get32, Reservations, Moved;
    InOrderPasses(b);
    var c := Checked(b);
    if Version(b) > 17 {
      VersionSet(b);
      MovedReservations(b, HEADER, |b|, c, 0, OffRsv(b));
      SliceEqual(b, HEADER, |b|, c, 0);
      BlockSlices(b, c);
    } else {
      MovedSelf(b, HEADER, |b|);
    }
  }

  lemma InOrderPasses(b: seq<byte>)
    requires WellFormed(b)
    ensures RwCheck(b) == 0
  {
    hide Decode, Named, Rooted, Get32;
    assert RsvSize(Reserved(b)) >= 16;
  }

  lemma MovedSelf(b: seq<byte>, o: int, e: int)
    requires 0 <= o <= e <= |b|
    ensures Moved(b, o, e, b, 0)
  {
  }

  lemma VersionSet(b: seq<byte>)
    requires Buffer(b)
    ensures var c := Overlay(b, VERSION, Word(17));
            && |c| == |b| && Version(c) == 17 && Moved(b, HEADER, |b|, c, 0)
            && Get32(c, MAGIC) == Get32(b, MAGIC) && TotalSize(c) == TotalSize(b) && OffStruct(c) == OffStruct(b)
            && OffStrings(c) == OffStrings(b) && OffRsv(c) == OffRsv(b) && Get32(c, LAST_COMP) == Get32(b, LAST_COMP)
            && SizeStrings(c) == SizeStrings(b) && SizeStruct(c) == SizeStruct(b)
  {
    hide Get32;
    OverlayWord(b, VERSION, 17);
    OverlayMoved(b, VERSION, Word(17), HEADER, |b|);
    OverlayGet(b, VERSION, Word(17), MAGIC);
    OverlayGet(b, VERSION, Word(17), TOTALSIZE);
    OverlayGet(b, VERSION, Word(17), OFF_STRUCT);
    OverlayGet(b, VERSION, Word(17), OFF_STRINGS);
    OverlayGet(b, VERSION, Word(17), OFF_RSVMAP);
    OverlayGet(b, VERSION, Word(17), LAST_COMP);
    OverlayGet(b, VERSION, Word(17), SIZE_STRINGS);
    OverlayGet(b, VERSION, Word(17), SIZE_STRUCT);
  }

  lemma BlockSlices(b: seq<byte>, c: seq<byte>)
    requires BlocksFit(b) && BlocksFit(c) && |c| == |b| && c[HEADER..] == b[HEADER..]
    requires HEADER <= OffStruct(b) == OffStruct(c) && SizeStruct(b) == SizeStruct(c)
    requires HEADER <= OffStrings(b) == OffStrings(c) && SizeStrings(b) == SizeStrings(c)
    ensures Struct(c) == Struct(b) && Strings(c) == Strings(b)
  {
    hide Get32;
    assert forall i {:trigger c[i]} :: HEADER <= i < |b| ==>
           c[i] == c[HEADER..][i - HEADER] == b[HEADER..][i - HEADER] == b[i];
  }

  /** The header check leaves a blob of version 17 with its blocks where they were, and is then idempotent. */
  lemma CheckedFrame(b: seq<byte>)
    requires WellFormed(b)
    ensures |Checked(b)| == |b| && Version(Checked(b)) == 17
    ensures OffStrings(Checked(b)) == OffStrings(b) && SizeStrings(Checked(b)) == SizeStrings(b)
            && TotalSize(Checked(b)) == TotalSize(b)
    ensures Moved(b, HEADER, OffStrings(b) + SizeStrings(b), Checked(b), 0)
  {
    hide Get32, Decode, Reservations, RwCheck, Overlay, Word;
    VersionSet(b);
    CheckedMeans(b);
  }

  /** The buffer after `_fdt_splice_struct`: tail moved, then the two header cells. */
  ghost function SplicedBuffer(b: seq<byte>, k: int, n: int, m: int): seq<byte>
    requires InOrder(b) && HEADER <= OffStruct(b) + k && 0 <= m && 0 <= n <= SizeStruct(b) && k + n <= SizeStruct(b)
    requires OffStrings(b) + SizeStrings(b) - n + m <= TotalSize(b)
  {
    var p, e := OffStruct(b) + k, OffStrings(b) + SizeStrings(b);
    var b1 := Overlay(b, p + m, b[p + n..e]);
    var b2 := Overlay(b1, SIZE_STRUCT, Word(SizeStruct(b) - n + m));
    Overlay(b2, OFF_STRINGS, Word(OffStrings(b) - n + m))
  }

  lemma ShiftMoved(b: seq<byte>, p: int, n: int, m: int, e: int)
    requires 0 <= p && 0 <= n && 0 <= m && p + n <= e <= |b| && e - n + m <= |b|
    ensures Moved(b, p + n, e, Overlay(b, p + m, b[p + n..e]), m - n)
  {
    var x := b[p + n..e];
    var c := Overlay(b, p + m, x);
    forall i {:trigger b[i]} | p + n <= i < e ensures c[i + (m - n)] == b[i] {
      assert c[i + (m - n)] == x[i - p - n];
    }
  }

  /** Two header stores do not reach past the header. */
  lemma TwoStores(b: seq<byte>, v: u32, w: u32)
    requires Buffer(b)
    ensures var c := Overlay(Overlay(b, SIZE_STRUCT, Word(v)), OFF_STRINGS, Word(w));
            && |c| == |b| && SizeStruct(c) == v && OffStrings(c) == w && Moved(b, HEADER, |b|, c, 0)
            && Get32(c, MAGIC) == Get32(b, MAGIC) && TotalSize(c) == TotalSize(b) && OffStruct(c) == OffStruct(b)
            && OffRsv(c) == OffRsv(b) && Version(c) == Version(b) && Get32(c, LAST_COMP) == Get32(b, LAST_COMP)
            && Get32(c, BOOT_CPUID) == Get32(b, BOOT_CPUID) && SizeStrings(c) == SizeStrings(b)
  {
    hide Get32;
    var b1 := Overlay(b, SIZE_STRUCT, Word(v));
    OverlayWord(b, SIZE_STRUCT, v);
    OverlayWord(b1, OFF_STRINGS, w);
    Through(b, v, w, MAGIC);
    Through(b, v, w, TOTALSIZE);
    Through(b, v, w, OFF_STRUCT);
    Through(b, v, w, OFF_RSVMAP);
    Through(b, v, w, VERSION);
    Through(b, v, w, LAST_COMP);
    Through(b, v, w, BOOT_CPUID);
    Through(b, v, w, SIZE_STRINGS);
    OverlayGet(b1, OFF_STRINGS, Word(w), SIZE_STRUCT);
  }

  lemma Through(b: seq<byte>, v: u32, w: u32, i: int)
    requires Buffer(b) && 0 <= i && i + 4 <= |b| && (i + 4 <= SIZE_STRUCT || i >= HEADER)
             && (i + 4 <= OFF_STRINGS || i >= OFF_STRINGS + 4)
    ensures Get32(Overlay(Overlay(b, SIZE_STRUCT, Word(v)), OFF_STRINGS, Word(w)), i) == Get32(b, i)
  {
    OverlayGet(b, SIZE_STRUCT, Word(v), i);
    OverlayGet(Overlay(b, SIZE_STRUCT, Word(v)), OFF_STRINGS, Word(w), i);
  }

  /** What a splice does to the header and to the bytes in front of and behind it, wherever it is. */
  lemma SplicedParts(b: seq<byte>, k: int, n: int, m: int)
    requires InOrder(b) && HEADER <= OffStruct(b) + k && 0 <= m && 0 <= n <= SizeStruct(b) && k + n <= SizeStruct(b)
    requires OffStrings(b) + SizeStrings(b) - n + m <= TotalSize(b)
    ensures var c := SplicedBuffer(b, k, n, m);
            && SameHeader(b, c) && SizeStruct(c) == SizeStruct(b) - n + m
            && OffStrings(c) == OffStrings(b) - n + m && SizeStrings(c) == SizeStrings(b)
            && Moved(b, HEADER, OffStruct(b) + k, c, 0)
            && Moved(b, OffStruct(b) + k + n, OffStrings(b) + SizeStrings(b), c, m - n)
  {
    hide Get32, Moved, Overlay, Reservations, Word;
    var p, e := OffStruct(b) + k, OffStrings(b) + SizeStrings(b);
    var x := b[p + n..e];
    var b1 := Overlay(b, p + m, x);
    HeaderKept(b, p + m, x);
    TwoStores(b1, SizeStruct(b) - n + m, OffStrings(b) - n + m);
    ShiftedThenStored(b, p, n, m, e, SplicedBuffer(b, k, n, m));
  }

  lemma SplicedBufferIs(b: seq<byte>, k: int, n: int, m: int)
    requires InOrder(b) && 0 <= k && 0 <= n && 0 <= m && k + n <= SizeStruct(b)
    requires OffStrings(b) + SizeStrings(b) - n + m <= TotalSize(b)
    ensures Respliced(b, SplicedBuffer(b, k, n, m), k, n, m)
  {
    hide Get32, Moved, Overlay, Reservations, Word, SplicedBuffer;
    SplicedParts(b, k, n, m);
  }

  /** A range that grows keeps its old bytes in front of the new ones. */
  lemma GrownBufferIs(b: seq<byte>, k: int, n: int, m: int)
    requires InOrder(b) && 0 <= k && 0 <= n <= m && k + n <= SizeStruct(b)
    requires OffStrings(b) + SizeStrings(b) - n + m <= TotalSize(b)
    ensures Respliced(b, SplicedBuffer(b, k, n, m), k + n, 0, m - n)
  {
    hide Get32, Moved, Overlay, Reservations, Word, Respliced;
    SplicedBufferIs(b, k + n, 0, m - n);
  }

  lemma ShiftedThenStored(b: seq<byte>, p: int, n: int, m: int, e: int, c: seq<byte>)
    requires HEADER <= p && 0 <= n && 0 <= m && p + n <= e <= |b| && e - n + m <= |b|
    requires Moved(Overlay(b, p + m, b[p + n..e]), HEADER, |b|, c, 0)
    ensures Moved(b, HEADER, p, c, 0) && Moved(b, p + n, e, c, m - n)
  {
    hide Moved, Overlay;
    var x := b[p + n..e];
    var b1 := Overlay(b, p + m, x);
    ShiftMoved(b, p, n, m, e);
    OverlayMoved(b, p + m, x, HEADER, p);
    SubMoved(b1, HEADER, |b|, c, 0, HEADER, p);
    MovedThen(b, HEADER, p, b1, 0, c, 0);
    SubMoved(b1, HEADER, |b|, c, 0, p + m, e - n + m);
    MovedThen(b, p + n, e, b1, m - n, c, 0);
  }

  lemma HeaderKept(b: seq<byte>, at: int, x: seq<byte>)
    requires Buffer(b) && HEADER <= at && at + |x| <= |b|
    ensures |Overlay(b, at, x)| == |b| && SameHeader(b, Overlay(b, at, x))
    ensures SizeStruct(Overlay(b, at, x)) == SizeStruct(b) && SizeStrings(Overlay(b, at, x)) == SizeStrings(b)
    ensures OffStrings(Overlay(b, at, x)) == OffStrings(b)
  {
    hide Get32;
    OverlayGet(b, at, x, MAGIC);
    OverlayGet(b, at, x, TOTALSIZE);
    OverlayGet(b, at, x, OFF_STRUCT);
    OverlayGet(b, at, x, OFF_STRINGS);
    OverlayGet(b, at, x, OFF_RSVMAP);
    OverlayGet(b, at, x, VERSION);
    OverlayGet(b, at, x, LAST_COMP);
    OverlayGet(b, at, x, BOOT_CPUID);
    OverlayGet(b, at, x, SIZE_STRINGS);
    OverlayGet(b, at, x, SIZE_STRUCT);
  }

  /** The memmove of the splice and the two header stores behind it. */
  method ShiftTail(a: array<byte>, p: int, n: int, m: int, e: int, size: u32, strings: u32)
    requires HEADER <= p && 0 <= n && 0 <= m && p + n <= e <= a.Length && e - n + m <= a.Length
    modifies a
    ensures var b1 := Overlay(old(a[..]), p + m, old(a[..])[p + n..e]);
            a[..] == Overlay(Overlay(b1, SIZE_STRUCT, Word(size)), OFF_STRINGS, Word(strings))
  {
    hide Overlay, Word;
    ghost var b := a[..];
    assert p + n + (e - p - n) == e;
    MoveWithin(a, p + m, p + n, e - p - n);
    assert a[..] == Overlay(b, p + m, b[p + n..e]);
    Store32(a, SIZE_STRUCT, size);
    Store32(a, OFF_STRINGS, strings);
  }

  /**
  `_fdt_splice_struct`, with `_fdt_splice` inlined.  The offset may lie in front of the structure block,
  which nothing in the source tests.
  */
  method FdtSpliceStruct(a: array<byte>, k: int, oldlen: int, newlen: int) returns (err: int)
    requires InOrder(a[..]) && HEADER <= OffStruct(a[..]) + k
    requires 0 <= newlen && 0 <= oldlen <= SizeStruct(a[..]) && k + oldlen <= SizeStruct(a[..])
    modifies a
    ensures err == 0 || (err == NOSPACE && a[..] == old(a[..]))
    ensures err == 0 <==> old(Room(a[..], newlen - oldlen))
    ensures err == 0 <==> old(OffStrings(a[..]) + SizeStrings(a[..]) - oldlen + newlen <= TotalSize(a[..]))
    ensures err == 0 ==> a[..] == old(SplicedBuffer(a[..], k, oldlen, newlen))
    ensures err == 0 && k >= 0 ==> Respliced(old(a[..]), a[..], k, oldlen, newlen)
    ensures err == 0 && k >= 0 && oldlen <= newlen ==> Respliced(old(a[..]), a[..], k + oldlen, 0, newlen - oldlen)
  {
    hide Get32, Reservations, Respliced, Overlay, Word;
    ghost var b := a[..];
    var offStruct := Load32(a[..], OFF_STRUCT);
    var sizeStruct := Load32(a[..], SIZE_STRUCT);
    var offStrings := Load32(a[..], OFF_STRINGS);
    var sizeStrings := Load32(a[..], SIZE_STRINGS);
    var total := Load32(a[..], TOTALSIZE);
    var p, end := offStruct + k, offStrings + sizeStrings;
    if p + oldlen > end {
      return BADOFFSET;
    }
    if end - oldlen + newlen > total {
      return NOSPACE;
    }
    ShiftTail(a, p, oldlen, newlen, end, sizeStruct - oldlen + newlen, offStrings - oldlen + newlen);
    assert a[..] == SplicedBuffer(b, k, oldlen, newlen);
    if k >= 0 { SplicedBufferIs(b, k, oldlen, newlen); }
    if k >= 0 && oldlen <= newlen { GrownBufferIs(b, k, oldlen, newlen); }
    return 0;
  }

  /** The items of the node at `p`, as the tree has them. */
  ghost function BodyOf(b: seq<byte>, p: Pos, o: int): Content
    requires NodeAt(b, p, o)
  {
    NamedAt(Stored(b), Strings(b), p);
    Meaning(At(Stored(b), p).body, Strings(b))
  }

  /** The tree with those items replaced by `c`, and nothing else changed. */
  ghost function WithBody(b: seq<byte>, p: Pos, o: int, c: Content): Content
    requires NodeAt(b, p, o)
  {
    NamedAt(Stored(b), Strings(b), p);
    MeaningAt(Stored(b), Strings(b), p);
    EditBody(TreeOf(b), Place(Stored(b), p), c)
  }

  /** A blob whose stored forest differs from another's in one node's items means the tree edited there. */
  lemma BodyEdited(b: seq<byte>, c: seq<byte>, p: Pos, o: int, body: Forest)
    requires NodeAt(b, p, o) && Readable(c) && Strings(c) == Strings(b) && Named(body, Strings(b))
    requires var x := At(Stored(b), p); Stored(c) == Graft(Stored(b), p, Node(x.name, body, x.rest))
    ensures TreeOf(c) == WithBody(b, p, o, Meaning(body, Strings(b)))
  {
    hide Decode;
    var f, t := Stored(b), Strings(b);
    NamedAt(f, t, p);
    MeaningAt(f, t, p);
    var x := At(f, p);
    MeaningGraft(f, t, p, Node(x.name, body, x.rest));
  }

  /** Regrafting a found property with another value updates the tree's first property of that name. */
  lemma {:induction false} UpdateMeans(f: Forest, t: seq<byte>, name: seq<byte>, val: seq<byte>)
    requires Named(f, t) && FindProp(f, t, name).Some?
    ensures var q := FindProp(f, t, name).value;
            && IsProp(f, q) && Has(Meaning(f, t), name)
            && var g := Graft(f, q, Leaf(Prop(At(f, q).item.nameoff, val), At(f, q).rest));
            Named(g, t) && Meaning(g, t) == Update(Meaning(f, t), name, val)
    decreases f
  {
    FindMeans(f, t, name);
    var q := FindProp(f, t, name).value;
    if q.Past? { UpdateMeans(f.rest, t, name, val); }
  }

  lemma {:induction false} RemoveMeans(f: Forest, t: seq<byte>, name: seq<byte>)
    requires Named(f, t) && FindProp(f, t, name).Some?
    ensures var q := FindProp(f, t, name).value;
            && IsProp(f, q) && Has(Meaning(f, t), name)
            && var g := Graft(f, q, At(f, q).rest);
            Named(g, t) && Meaning(g, t) == Remove(Meaning(f, t), name)
    decreases f
  {
    FindMeans(f, t, name);
    var q := FindProp(f, t, name).value;
    if q.Past? { RemoveMeans(f.rest, t, name); }
  }

  /** Where a property of the node at `p` stands in the whole forest. */
  lemma PropPlace(b: seq<byte>, p: Pos, o: int, q: Pos)
    requires NodeAt(b, p, o) && Valid(At(Stored(b), p).body, q)
    ensures var x, r := At(Stored(b), p), PropPos(p, q);
            && Valid(Stored(b), r) && At(Stored(b), r) == At(x.body, q)
            && Off(Stored(b), r) == o + TokenLen(Begin(x.name)) + Off(x.body, q)
            && forall g :: Graft(Stored(b), r, g) == Graft(Stored(b), p, Node(x.name, Graft(x.body, q, g), x.rest))
  {
    hide Decode, Named, Off;
    var f := Stored(b);
    JoinAt(f, p, Into(q));
    OffSplit(At(f, p), Into(q));
    forall g
      ensures Graft(f, PropPos(p, q), g)
              == Graft(f, p, Node(At(f, p).name, Graft(At(f, p).body, q, g), At(f, p).rest)) {
      JoinGraft(f, p, Into(q), g);
    }
  }

  lemma RootedGraft(f: Forest, p: Pos, g: Forest)
    requires Rooted(f) && Valid(f, p) && At(f, p).Node? && g.Node? && (p.Here? ==> g.rest == f.rest)
    ensures Rooted(Graft(f, p, g))
  {
    if p.Past? { NopsHoldNoNode(f.rest, p.next); }
  }

  /** A property token with a new value has been written over the one found in the node at `p`. */
  lemma ResizedMeans(b: seq<byte>, c: seq<byte>, p: Pos, o: int, name: seq<byte>, val: seq<byte>)
    requires WellFormed(b) && NodeAt(b, p, o) && Sought(b, p, name).Some?
    requires var x := At(Stored(b), p);
             var q := Sought(b, p, name).value;
             && IsProp(x.body, q)
             && var k, no := o + TokenLen(Begin(x.name)) + Off(x.body, q), At(x.body, q).item.nameoff;
             && Respliced(b, c, k, TokenLen(At(x.body, q).item), TokenLen(Prop(no, val)))
             && BlocksFit(c) && Reads(Struct(c), k, Cons(Prop(no, val), Nil))
    ensures WellFormed(c) && Reserved(c) == Reserved(b) && Strings(c) == Strings(b)
    ensures Has(BodyOf(b, p, o), name) && TreeOf(c) == WithBody(b, p, o, Update(BodyOf(b, p, o), name, val))
  {
    hide Decode, Respliced, Reads, Off, FindProp, TokenLen, Reservations;
    var f, t := Stored(b), Strings(b);
    var x, q := At(f, p), Sought(b, p, name).value;
    var y := At(x.body, q);
    var g := Leaf(Prop(y.item.nameoff, val), y.rest);
    PropPlace(b, p, o, q);
    NamedAt(f, t, p);
    NamedAt(x.body, t, q);
    UpdateMeans(x.body, t, name, val);
    var body := Graft(x.body, q, g);
    RootedGraft(f, p, Node(x.name, body, x.rest));
    OneToken(y, g);
    EditMeans(b, c, PropPos(p, q), Cons(y.item, Nil), Cons(g.item, Nil), Flat(y.rest), g);
    ResplicedBlocks(b, c, Off(f, PropPos(p, q)), TokenLen(y.item), TokenLen(g.item));
    BodyEdited(b, c, p, o, body);
  }

  lemma OneToken(y: Forest, g: Forest)
    requires y.Leaf? && g.Leaf?
    ensures Flat(y) == Append(Cons(y.item, Nil), Flat(y.rest)) && Len(Cons(y.item, Nil)) == TokenLen(y.item)
    ensures Flat(g) == Append(Cons(g.item, Nil), Flat(g.rest)) && Len(Cons(g.item, Nil)) == TokenLen(g.item)
  {
  }

  /** `c` means what `b` means. */
  ghost predicate SameMeaning(b: seq<byte>, c: seq<byte>) {
    && WellFormed(b) && WellFormed(c) && |c| == |b|
    && Stored(c) == Stored(b) && TreeOf(c) == TreeOf(b) && Reserved(c) == Reserved(b)
  }

  lemma SameSelf(b: seq<byte>)
    requires WellFormed(b)
    ensures SameMeaning(b, b)
  {
  }

  lemma SpelledString(t: seq<byte>, i: int, s: seq<byte>)
    requires NulFree(s) && Spells(t, i, s + [0])
    ensures i < |t| && CString(t, i) == Some(s)
  {
    var x := s + [0];
    assert forall k {:trigger t[k]} :: i <= k < i + |s| ==> t[k] == x[k - i];
    assert x[|s|] == t[i + |s|];
    NulFromIs(t, i, i + |s|);
    assert t[i..i + |s|] == s;
  }

  /** The string stands in the block `t`, terminator included; it may be the end of a longer one. */
  ghost predicate HasString(t: seq<byte>, s: seq<byte>) {
    exists j :: Spells(t, j, s + [0])
  }

  /** A terminated string stands there exactly when one can be read from somewhere. */
  lemma HasStringIs(t: seq<byte>, s: seq<byte>)
    requires NulFree(s)
    ensures HasString(t, s) <==> exists j :: CString(t, j) == Some(s)
  {
    if j :| CString(t, j) == Some(s) {
      var x := s + [0];
      assert forall k {:trigger x[k]} :: 0 <= k < |x| ==> t[j + k] == x[k];
      assert Spells(t, j, x);
    }
    if j :| Spells(t, j, s + [0]) {
      SpelledString(t, j, s);
    }
  }

  /** `_fdt_find_string`: the first place where the string, terminator included, already stands. */
  method FdtFindString(t: seq<byte>, s: seq<byte>) returns (i: int)
    requires NulFree(s)
    ensures i >= 0 ==> i < |t| && CString(t, i) == Some(s)
    ensures i >= 0 <==> HasString(t, s)
  {
    var x := s + [0];
    i := 0;
    while i + |x| <= |t|
      invariant 0 <= i && forall j :: 0 <= j < i ==> !Spells(t, j, x)
    {
      if t[i..i + |x|] == x {
        assert forall k {:trigger x[k]} :: 0 <= k < |x| ==> x[k] == t[i..i + |x|][k] == t[i + k];
        assert Spells(t, i, x);
        SpelledString(t, i, s);
        return;
      }
      if Spells(t, i, x) { SliceIs(t, i, x); }
      i := i + 1;
    }
    i := -1;
  }

  /** The buffer after a string has been put behind the strings block. */
  ghost function StringAdded(b: seq<byte>, x: seq<byte>): seq<byte>
    requires InOrder(b) && OffStrings(b) + SizeStrings(b) + |x| <= TotalSize(b)
  {
    Overlay(Overlay(b, SIZE_STRINGS, Word(SizeStrings(b) + |x|)), OffStrings(b) + SizeStrings(b), x)
  }

  lemma SizeStored(b: seq<byte>, v: u32)
    requires Buffer(b)
    ensures var c := Overlay(b, SIZE_STRINGS, Word(v));
            && |c| == |b| && SizeStrings(c) == v && SameHeader(b, c) && Moved(b, HEADER, |b|, c, 0)
            && SizeStruct(c) == SizeStruct(b) && OffStrings(c) == OffStrings(b)
  {
    hide Get32, Moved, Overlay;
    var w := Word(v);
    OverlayWord(b, SIZE_STRINGS, v);
    OverlayMoved(b, SIZE_STRINGS, w, HEADER, |b|);
    OverlayGet(b, SIZE_STRINGS, w, MAGIC);
    OverlayGet(b, SIZE_STRINGS, w, TOTALSIZE);
    OverlayGet(b, SIZE_STRINGS, w, OFF_STRUCT);
    OverlayGet(b, SIZE_STRINGS, w, OFF_STRINGS);
    OverlayGet(b, SIZE_STRINGS, w, OFF_RSVMAP);
    OverlayGet(b, SIZE_STRINGS, w, VERSION);
    OverlayGet(b, SIZE_STRINGS, w, LAST_COMP);
    OverlayGet(b, SIZE_STRINGS, w, BOOT_CPUID);
    OverlayGet(b, SIZE_STRINGS, w, SIZE_STRUCT);
  }

  /** What the added string leaves in place. */
  ghost predicate Grown(b: seq<byte>, c: seq<byte>, x: seq<byte>) {
    && InOrder(b) && SameHeader(b, c) && SizeStruct(c) == SizeStruct(b) && OffStrings(c) == OffStrings(b)
    && SizeStrings(c) == SizeStrings(b) + |x| && OffStrings(b) + SizeStrings(b) + |x| <= TotalSize(b)
    && Moved(b, HEADER, OffStrings(b) + SizeStrings(b), c, 0) && Spells(c, OffStrings(b) + SizeStrings(b), x)
  }

  lemma StringAddedGrown(b: seq<byte>, x: seq<byte>)
    requires InOrder(b) && OffStrings(b) + SizeStrings(b) + |x| <= TotalSize(b)
    ensures Grown(b, StringAdded(b, x), x)
  {
    hide Get32, Moved, Overlay, Reservations, Word, Spells;
    var e := OffStrings(b) + SizeStrings(b);
    var b1 := Overlay(b, SIZE_STRINGS, Word(SizeStrings(b) + |x|));
    var c := Overlay(b1, e, x);
    SizeStored(b, SizeStrings(b) + |x|);
    HeaderKept(b1, e, x);
    OverlayMoved(b1, e, x, HEADER, e);
    SubMoved(b, HEADER, |b|, b1, 0, HEADER, e);
    MovedThen(b, HEADER, e, b1, 0, c, 0);
    OverlaySpells(b1, e, x);
  }

  lemma GrownBlocks(b: seq<byte>, c: seq<byte>, x: seq<byte>)
    requires Grown(b, c, x)
    ensures InOrder(c) && BlocksFit(b) && BlocksFit(c) && Reserved(c) == Reserved(b) && Struct(c) == Struct(b)
  {
    hide Get32, Moved, Reservations, Spells;
    var e := OffStrings(b) + SizeStrings(b);
    MovedReservations(b, HEADER, e, c, 0, OffRsv(b));
    SubMoved(b, HEADER, e, c, 0, OffStruct(b), OffStruct(b) + SizeStruct(b));
    SliceEqual(b, OffStruct(b), OffStruct(b) + SizeStruct(b), c, 0);
  }

  lemma StringsAfter(b: seq<byte>, c: seq<byte>, x: seq<byte>)
    requires BlocksFit(b) && BlocksFit(c) && OffStrings(c) == OffStrings(b) && SizeStrings(c) == SizeStrings(b) + |x|
    requires HEADER <= OffStrings(b)
    requires Moved(b, HEADER, OffStrings(b) + SizeStrings(b), c, 0) && Spells(c, OffStrings(b) + SizeStrings(b), x)
    ensures |Strings(b)| == SizeStrings(b) && |Strings(c)| == SizeStrings(b) + |x|
    ensures Strings(c)[..SizeStrings(b)] == Strings(b) && Spells(Strings(c), SizeStrings(b), x)
  {
    hide Get32;
    var t, u := Strings(b), Strings(c);
    forall i | 0 <= i < |t| ensures u[i] == t[i] {
      assert b[OffStrings(b) + i] == t[i];
    }
  }

  lemma StringsJoined(b: seq<byte>, c: seq<byte>, x: seq<byte>)
    requires Grown(b, c, x)
    ensures BlocksFit(b) && BlocksFit(c) && Strings(c) == Strings(b) + x
  {
    hide Get32, Moved, Reservations;
    GrownBlocks(b, c, x);
    StringsAfter(b, c, x);
    var t, u := Strings(b), Strings(c);
    forall i | 0 <= i < |u| ensures u[i] == (t + x)[i] {
      if i < |t| { assert u[..|t|][i] == t[i]; } else { assert u[|t| + (i - |t|)] == x[i - |t|]; }
    }
  }

  lemma StringAddedMeans(b: seq<byte>, s: seq<byte>)
    requires WellFormed(b) && NulFree(s) && OffStrings(b) + SizeStrings(b) + |s| + 1 <= TotalSize(b)
    ensures var c := StringAdded(b, s + [0]);
            SameMeaning(b, c) && Struct(c) == Struct(b) && CString(Strings(c), SizeStrings(b)) == Some(s)
  {
    hide Decode, StringAdded, Reservations, Get32, Spells, Moved, Rooted, Struct, Strings;
    var x := s + [0];
    var c := StringAdded(b, x);
    StringAddedGrown(b, x);
    GrownBlocks(b, c, x);
    StringsAfter(b, c, x);
    SpelledString(Strings(c), SizeStrings(b), s);
    MeaningGrows(Stored(b), Strings(b), Strings(c));
  }

  /** The bytes that the strings block must grow by to hold `s`. */
  ghost function StringNeed(b: seq<byte>, s: seq<byte>): int
    requires BlocksFit(b)
  {
    if HasString(Strings(b), s) then 0 else |s| + 1
  }

  /** `_fdt_find_add_string`: the offset of the string, which is added behind the others when it is new. */
  method FdtFindAddString(a: array<byte>, s: seq<byte>) returns (r: int)
    requires WellFormed(a[..]) && NulFree(s) && a.Length + |s| + 1 < INT_LIMIT
    modifies a
    ensures SameMeaning(old(a[..]), a[..]) && Struct(a[..]) == old(Struct(a[..]))
    ensures r >= 0 ==> r < INT_LIMIT && CString(Strings(a[..]), r) == Some(s)
    ensures r < 0 ==> r == NOSPACE && a[..] == old(a[..])
    ensures r < 0 <==> old(!Room(a[..], StringNeed(a[..], s)))
    ensures r >= 0 ==> forall n :: Room(a[..], n) <==> old(Room(a[..], StringNeed(a[..], s) + n))
    ensures (exists j :: CString(old(Strings(a[..])), j) == Some(s)) ==> r >= 0 && a[..] == old(a[..])
    ensures (forall j :: CString(old(Strings(a[..])), j) != Some(s)) ==>
              && (r < 0 <==> old(OffStrings(a[..]) + SizeStrings(a[..]) + |s| + 1 > TotalSize(a[..])))
              && (r >= 0 ==> Strings(a[..]) == old(Strings(a[..])) + s + [0])
  {
    hide Decode, Named, Rooted, Get32, Reservations, Meaning, CString, Overlay, Word, Struct, Strings, SameMeaning,
         Moved, Spells;
    ghost var b := a[..];
    SameSelf(b);
    HasStringIs(Strings(b), s);
    var t := LoadStrings(a[..]);
    r := FdtFindString(t, s);
    if r >= 0 {
      return;
    }
    var offStrings := Load32(a[..], OFF_STRINGS);
    var sizeStrings := Load32(a[..], SIZE_STRINGS);
    var total := Load32(a[..], TOTALSIZE);
    var len := |s| + 1;
    if offStrings + sizeStrings + len > total {
      return NOSPACE;
    }
    Store32(a, SIZE_STRINGS, sizeStrings + len);
    CopyIn(a, offStrings + sizeStrings, s + [0]);
    StringAddedMeans(b, s);
    StringAddedGrown(b, s + [0]);
    assert a[..] == StringAdded(b, s + [0]);
    StringsJoined(b, a[..], s + [0]);
    return sizeStrings;
  }

  /** Three stores into a fresh gap make the header of a property. */
  lemma HeaderStored(b: seq<byte>, c: seq<byte>, off: int, n: int, no: u32, len: int)
    requires 0 <= len < INT_LIMIT && Respliced(b, c, off, n, 12 + Align4(len))
    ensures var at := OffStruct(b) + off;
            var d := Overlay(Overlay(Overlay(c, at, Word(PROP)), at + 8, Word(no)), at + 4, Word(len));
            PropOpen(b, d, off, n, no, len)
  {
    hide Get32, Respliced, Overlay, Word;
    var m := 12 + Align4(len);
    ResplicedRoom(b, c, off, n, m);
    var at := OffStruct(b) + off;
    var c1 := Overlay(c, at, Word(PROP));
    var c2 := Overlay(c1, at + 8, Word(no));
    var d := Overlay(c2, at + 4, Word(len));
    WriteGap(b, c, off, n, m, at, Word(PROP));
    WriteGap(b, c1, off, n, m, at + 8, Word(no));
    WriteGap(b, c2, off, n, m, at + 4, Word(len));
    OverlayWord(c, at, PROP);
    OverlayGet(c1, at + 8, Word(no), at);
    OverlayGet(c2, at + 4, Word(len), at);
    OverlayWord(c1, at + 8, no);
    OverlayGet(c2, at + 4, Word(len), at + 8);
    OverlayWord(c2, at + 4, len);
  }

  lemma ResplicedRoom(b: seq<byte>, c: seq<byte>, k: int, n: int, m: int)
    requires Respliced(b, c, k, n, m)
    ensures Buffer(b) && HEADER <= OffStruct(b) && |c| == |b| && 0 <= k && 0 <= n && 0 <= m
    ensures OffStruct(b) + k + m <= |c| && OffStruct(c) == OffStruct(b)
  {
    hide Get32, Moved, Reservations;
  }

  /** After the value has been resized, the length cell is all that is left of the header to write. */
  lemma LengthStored(b: seq<byte>, c: seq<byte>, off: int, no: u32, v: seq<byte>, len: int)
    requires BlocksFit(b) && TokenAt(Struct(b), off, Prop(no, v))
    requires 0 <= len < INT_LIMIT && Respliced(b, c, off + 12, Align4(|v|), Align4(len))
    ensures PropOpen(b, Overlay(c, OffStruct(b) + off + 4, Word(len)), off, TokenLen(Prop(no, v)), no, len)
  {
    hide Get32, Overlay, Word, Moved, Reservations;
    var os := OffStruct(b);
    var at := os + off;
    StructGet(b, off);
    StructGet(b, off + 8);
    MovedGet(b, HEADER, at + 12, c, 0, at);
    MovedGet(b, HEADER, at + 12, c, 0, at + 8);
    Widen(b, c, off + 12, Align4(|v|), Align4(len), 12);
    var m := 12 + Align4(len);
    WriteGap(b, c, off, 12 + Align4(|v|), m, at + 4, Word(len));
    OverlayWord(c, at + 4, len);
    OverlayGet(c, at + 4, Word(len), at);
    OverlayGet(c, at + 4, Word(len), at + 8);
  }

  /** `_fdt_resize_property`. */
  method FdtResizeProperty(a: array<byte>, nodeoffset: int, name: seq<byte>, len: int, ghost p: Pos)
    returns (err: int, prop: int)
    requires WellFormed(a[..]) && 0 <= len && a.Length + len < INT_LIMIT
    requires CheckNode(Struct(a[..]), nodeoffset) >= 0 ==> NodeAt(a[..], p, nodeoffset)
    modifies a
    ensures err != 0 ==> a[..] == old(a[..])
    ensures old(CheckNode(Struct(a[..]), nodeoffset)) < 0 ==> err == old(CheckNode(Struct(a[..]), nodeoffset))
    ensures old(CheckNode(Struct(a[..]), nodeoffset)) >= 0 ==>
              match old(Sought(a[..], p, name))
              case None => err == NOTFOUND
              case Some(q) =>
                var x := old(At(Stored(a[..]), p));
                && IsProp(x.body, q)
                && err == (if old(Room(a[..], Align4(len) - Align4(|At(x.body, q).item.value|))) then 0 else NOSPACE)
                && (err == 0 ==>
                   && prop == nodeoffset + TokenLen(Begin(x.name)) + Off(x.body, q)
                   && PropOpen(old(a[..]), a[..], prop, TokenLen(At(x.body, q).item), At(x.body, q).item.nameoff, len))
  {
    hide Decode, Named, Rooted, Get32, Reservations, Respliced, Off, Spells, NextTag, FindProp, Overlay, Word, Sought;
    hide SplicedBuffer, PropOpen, Moved;
    ghost var b := a[..];
    var oldlen;
    prop, oldlen := FdtGetProperty(a[..], nodeoffset, name, p);
    if prop < 0 {
      return prop, prop;
    }
    ghost var q := Sought(b, p, name).value;
    ghost var item := At(At(Stored(b), p).body, q).item;
    err := FdtSpliceStruct(a, prop + 12, TagAlign(oldlen), TagAlign(len));
    if err != 0 {
      return;
    }
    LengthStored(b, a[..], prop, item.nameoff, item.value, len);
    ResplicedRoom(b, a[..], prop + 12, Align4(oldlen), Align4(len));
    var offStruct := Load32(a[..], OFF_STRUCT);
    Store32(a, offStruct + prop + 4, len);
  }

  lemma NeedMore(b: seq<byte>, m: int, n: int)
    requires Buffer(b) && n >= 0
    ensures Room(b, m + n) ==> Room(b, m)
  {
    hide Get32;
  }

  /** The splice of `_fdt_add_property` and the three stores of the property's header. */
  method OpenProperty(a: array<byte>, next: int, namestroff: int, len: int) returns (err: int)
    requires InOrder(a[..]) && 0 <= next <= SizeStruct(a[..]) && 0 <= len && a.Length + len + 20 < INT_LIMIT
    requires 0 <= namestroff < INT_LIMIT
    modifies a
    ensures err == if old(Room(a[..], 12 + Align4(len))) then 0 else NOSPACE
    ensures err != 0 ==> a[..] == old(a[..])
    ensures err == 0 ==> PropOpen(old(a[..]), a[..], next, 0, namestroff, len)
  {
    hide Get32, Reservations, Respliced, Overlay, Word, PropOpen, Align4, SplicedBuffer;
    ghost var b := a[..];
    err := FdtSpliceStruct(a, next, 0, 12 + TagAlign(len));
    if err != 0 {
      return;
    }
    HeaderStored(b, a[..], next, 0, namestroff, len);
    ResplicedRoom(b, a[..], next, 0, 12 + Align4(len));
    var offStruct := Load32(a[..], OFF_STRUCT);
    Store32(a, offStruct + next, PROP);
    Store32(a, offStruct + next + 8, namestroff);
    Store32(a, offStruct + next + 4, len);
  }

  /** `_fdt_add_property`. */
  method FdtAddProperty(a: array<byte>, nodeoffset: int, name: seq<byte>, len: int, ghost p: Pos)
    returns (err: int, prop: int, ghost b1: seq<byte>, ghost no: u32)
    requires WellFormed(a[..]) && NulFree(name) && 0 <= len && a.Length + |name| + len + 20 < INT_LIMIT
    requires CheckNode(Struct(a[..]), nodeoffset) >= 0 ==> NodeAt(a[..], p, nodeoffset)
    modifies a
    ensures err != 0 ==> SameMeaning(old(a[..]), a[..])
    ensures old(CheckNode(Struct(a[..]), nodeoffset)) < 0 ==> err == old(CheckNode(Struct(a[..]), nodeoffset))
    ensures old(CheckNode(Struct(a[..]), nodeoffset)) >= 0 ==>
              err == if old(Room(a[..], StringNeed(a[..], name) + 12 + Align4(len))) then 0 else NOSPACE
    ensures err == 0 ==>
              && old(NodeAt(a[..], p, nodeoffset)) && SameMeaning(old(a[..]), b1)
              && CString(Strings(b1), no) == Some(name)
              && prop == nodeoffset + TokenLen(Begin(old(At(Stored(a[..]), p)).name))
              && PropOpen(b1, a[..], prop, 0, no, len)
    ensures err == 0 && (exists j :: CString(old(Strings(a[..])), j) == Some(name)) ==> b1 == old(a[..])
  {
    hide Decode, Named, Rooted, Get32, Reservations, Respliced, Off, Spells, NextTag, Meaning, CString, Overlay, Word,
         PropOpen, Moved, Struct, Strings, TokenLen, Align4, At, StringNeed, SplicedBuffer, HasString;
    b1, no, prop := a[..], 0, 0;
    SameSelf(a[..]);
    var s := LoadStruct(a[..]);
    var next := FdtCheckNodeOffset(s, nodeoffset);
    if next < 0 {
      return next, 0, b1, no;
    }
    NodeFits(a[..], p, nodeoffset);
    ghost var b0, need := a[..], StringNeed(a[..], name);
    NeedMore(b0, need, 12 + Align4(len));
    var namestroff := FdtFindAddString(a, name);
    assert namestroff >= 0 ==> (Room(a[..], 12 + Align4(len)) <==> Room(b0, need + (12 + Align4(len))));
    if namestroff < 0 {
      return namestroff, 0, b1, no;
    }
    b1, no, prop := a[..], namestroff, next;
    err := OpenProperty(a, next, namestroff, len);
  }

  /** A property token has been written in front of the items of the node at `p`. */
  lemma InsertedMeans(b: seq<byte>, c: seq<byte>, p: Pos, o: int, no: u32, name: seq<byte>, val: seq<byte>)
    requires WellFormed(b) && NodeAt(b, p, o) && CString(Strings(b), no) == Some(name)
    requires var k := o + TokenLen(Begin(At(Stored(b), p).name));
             && Respliced(b, c, k, 0, TokenLen(Prop(no, val)))
             && BlocksFit(c) && Reads(Struct(c), k, Cons(Prop(no, val), Nil))
    ensures WellFormed(c) && Reserved(c) == Reserved(b) && Strings(c) == Strings(b)
    ensures TreeOf(c) == WithBody(b, p, o, Property(name, val, BodyOf(b, p, o)))
  {
    hide Decode, Respliced, Reads, Off, TokenLen, Reservations, CString;
    var f, t := Stored(b), Strings(b);
    var x := At(f, p);
    var g := Leaf(Prop(no, val), x.body);
    PropPlace(b, p, o, Here);
    HereOff(x.body);
    NamedAt(f, t, p);
    RootedGraft(f, p, Node(x.name, g, x.rest));
    OneToken(g, g);
    NilLen();
    EditMeans(b, c, PropPos(p, Here), Nil, Cons(g.item, Nil), Flat(x.body), g);
    ResplicedBlocks(b, c, Off(f, PropPos(p, Here)), 0, TokenLen(g.item));
    BodyEdited(b, c, p, o, g);
  }

  lemma NilLen()
    ensures Len(Nil) == 0 && forall l :: Append(Nil, l) == l
  {
  }

  /** Two blobs that mean the same have the same node places, contents and edits. */
  lemma SameEdits(b: seq<byte>, c: seq<byte>, p: Pos, o: int, d: Content)
    requires SameMeaning(b, c) && NodeAt(b, p, o)
    ensures NodeAt(c, p, o) && BodyOf(c, p, o) == BodyOf(b, p, o) && WithBody(c, p, o, d) == WithBody(b, p, o, d)
  {
    hide Decode, Replace;
    NamedAt(Stored(b), Strings(b), p);
    NamedAt(Stored(c), Strings(c), p);
    MeaningAt(Stored(b), Strings(b), p);
    MeaningAt(Stored(c), Strings(c), p);
  }

  lemma CheckedSame(b: seq<byte>)
    requires WellFormed(b)
    ensures RwCheck(b) == 0 && SameMeaning(b, Checked(b)) && Struct(Checked(b)) == Struct(b)
            && Strings(Checked(b)) == Strings(b)
  {
    CheckedMeans(b);
  }

  /** The value's bytes of a property that is found, 0 for one that is not. */
  ghost function Held(b: seq<byte>, p: Pos, o: int, name: seq<byte>): nat
    requires NodeAt(b, p, o)
  {
    match Sought(b, p, name)
    case None => 0
    case Some(q) => if IsProp(At(Stored(b), p).body, q) then |At(At(Stored(b), p).body, q).item.value| else 0
  }

  /**
  The bytes that a value of `len` bytes takes: the difference to the old value where the property is
  present, else a property header, the value and the name if the strings block does not hold it yet.
  */
  ghost function PropNeed(b: seq<byte>, p: Pos, o: int, name: seq<byte>, len: int): int
    requires NodeAt(b, p, o)
  {
    if Sought(b, p, name).Some? then Align4(len) - Align4(Held(b, p, o, name))
    else StringNeed(b, name) + 12 + Align4(len)
  }

  lemma FoundValue(b: seq<byte>, p: Pos, o: int, name: seq<byte>)
    requires NodeAt(b, p, o)
    ensures Sought(b, p, name).Some? <==> Has(BodyOf(b, p, o), name)
    ensures Sought(b, p, name).Some? ==>
              && IsProp(At(Stored(b), p).body, Sought(b, p, name).value)
              && Lookup(BodyOf(b, p, o), name) == At(At(Stored(b), p).body, Sought(b, p, name).value).item.value
  {
    NamedAt(Stored(b), Strings(b), p);
    FindMeans(At(Stored(b), p).body, Strings(b), name);
  }

  /** The need, case by case: the property is there, or its name is stored already, or neither. */
  lemma NeedPlainly(b: seq<byte>, p: Pos, o: int, name: seq<byte>, len: int)
    requires NodeAt(b, p, o) && NulFree(name)
    ensures var c, e, fits := BodyOf(b, p, o), OffStrings(b) + SizeStrings(b), Room(b, PropNeed(b, p, o, name, len));
            && (Has(c, name) ==> (fits <==> e + Align4(len) - Align4(|Lookup(c, name)|) <= TotalSize(b)))
            && (!Has(c, name) && (exists j :: CString(Strings(b), j) == Some(name)) ==>
                  (fits <==> e + 12 + Align4(len) <= TotalSize(b)))
            && (!Has(c, name) && (forall j :: CString(Strings(b), j) != Some(name)) ==>
                  (fits <==> e + |name| + 1 + 12 + Align4(len) <= TotalSize(b)))
    ensures Held(b, p, o, name) == if Has(BodyOf(b, p, o), name) then |Lookup(BodyOf(b, p, o), name)| else 0
  {
    hide Decode, Get32, Sought, BodyOf, CString, HasString, Named, Rooted, Align4, Struct, Strings;
    HasStringIs(Strings(b), name);
    FoundValue(b, p, o, name);
  }

  /** Some property of the tree bears the name. */
  predicate Mentions(c: Content, name: seq<byte>) {
    match c
    case Done => false
    case Property(n, _, r) => n == name || Mentions(r, name)
    case Subnode(_, b, r) => Mentions(b, name) || Mentions(r, name)
  }

  /** Then the strings block holds it. */
  lemma {:induction false} MentionsStored(f: Forest, t: seq<byte>, name: seq<byte>)
    requires Named(f, t) && Mentions(Meaning(f, t), name)
    ensures exists j :: CString(t, j) == Some(name)
    decreases f
  {
    hide CString;
    match f
    case Stop =>
    case Leaf(k, r) => if !(k.Prop? && CString(t, k.nameoff).value == name) { MentionsStored(r, t, name); }
    case Node(_, b, r) =>
      if Mentions(Meaning(b, t), name) { MentionsStored(b, t, name); } else { MentionsStored(r, t, name); }
  }

  lemma TreeMentions(b: seq<byte>, name: seq<byte>)
    requires Readable(b)
    ensures Mentions(TreeOf(b), name) ==> exists j :: CString(Strings(b), j) == Some(name)
  {
    if Mentions(TreeOf(b), name) { MentionsStored(Stored(b), Strings(b), name); }
  }

  /** The header check changes nothing that the room depends on. */
  lemma CheckedNeed(b: seq<byte>, p: Pos, o: int, name: seq<byte>, len: int)
    requires WellFormed(b) && NodeAt(b, p, o)
    ensures WellFormed(Checked(b)) && NodeAt(Checked(b), p, o)
    ensures Sought(Checked(b), p, name) == Sought(b, p, name) && StringNeed(Checked(b), name) == StringNeed(b, name)
    ensures Held(Checked(b), p, o, name) == Held(b, p, o, name)
    ensures PropNeed(Checked(b), p, o, name, len) == PropNeed(b, p, o, name, len)
    ensures forall n :: Room(Checked(b), n) <==> Room(b, n)
  {
    hide Decode, Get32, Checked, RwCheck, Reservations, FindProp, HasString, Moved, Named, Rooted;
    CheckedSame(b);
    CheckedFrame(b);
  }

  /**
  `fdt_setprop`.  On success the tree differs in the one property: its value is replaced, or the property
  is added in front of the node's items.  On any error the tree is what it was.
  */
  method FdtSetProp(a: array<byte>, nodeoffset: int, name: seq<byte>, val: seq<byte>, ghost p: Pos) returns (err: int)
    requires WellFormed(a[..]) && NulFree(name) && a.Length + |name| + |val| + 20 < INT_LIMIT
    requires CheckNode(Struct(a[..]), nodeoffset) >= 0 ==> NodeAt(a[..], p, nodeoffset)
    modifies a
    ensures WellFormed(a[..]) && Reserved(a[..]) == old(Reserved(a[..]))
    ensures old(CheckNode(Struct(a[..]), nodeoffset)) < 0 ==> err == old(CheckNode(Struct(a[..]), nodeoffset))
    ensures old(CheckNode(Struct(a[..]), nodeoffset)) >= 0 ==>
              err == if old(Room(a[..], PropNeed(a[..], p, nodeoffset, name, |val|))) then 0 else NOSPACE
    ensures err == 0 ==>
              && old(NodeAt(a[..], p, nodeoffset))
              && var c := old(BodyOf(a[..], p, nodeoffset));
              TreeOf(a[..]) == old(WithBody(a[..], p, nodeoffset,
                                            if Has(c, name) then Update(c, name, val) else Property(name, val, c)))
    ensures err != 0 ==> TreeOf(a[..]) == old(TreeOf(a[..]))
    ensures old(CheckNode(Struct(a[..]), nodeoffset)) >= 0 ==>
              var c, t := old(BodyOf(a[..], p, nodeoffset)), old(Strings(a[..]));
              var free := old(TotalSize(a[..]) - OffStrings(a[..]) - SizeStrings(a[..]));
              && (Has(c, name) ==> (err == 0 <==> Align4(|val|) - Align4(|Lookup(c, name)|) <= free))
              && (!Has(c, name) && (exists j :: CString(t, j) == Some(name)) ==>
                    (err == 0 <==> 12 + Align4(|val|) <= free))
              && (!Has(c, name) && (forall j :: CString(t, j) != Some(name)) ==>
                    (err == 0 <==> |name| + 1 + 12 + Align4(|val|) <= free))
              && (!Has(c, name) && old(Mentions(TreeOf(a[..]), name)) && 12 + Align4(|val|) <= free ==>
                    err == 0 && Strings(a[..]) == t)
              && (err == 0 && (Has(c, name) || exists j :: CString(t, j) == Some(name)) ==> Strings(a[..]) == t)
  {
    hide Decode, Named, Rooted, Get32, Reservations, Respliced, Off, Reads, Meaning, CString, Overlay, Word, Moved,
         WithBody, BodyOf, Sought, InOrder, CheckNode, PropOpen, Struct, Strings, TokenLen, Align4, At, RwCheck,
         Checked, StringNeed, Room;
    ghost var b := a[..];
    CheckedSame(b);
    err := FdtRwCheckHeader(a);
    if err != 0 {
      return;
    }
    ghost var c := a[..];
    if CheckNode(Struct(b), nodeoffset) >= 0 {
      SameEdits(b, c, p, nodeoffset, Assign(BodyOf(b, p, nodeoffset), name, val));
      FoundValue(c, p, nodeoffset, name);
      CheckedNeed(b, p, nodeoffset, name, |val|);
      NeedPlainly(b, p, nodeoffset, name, |val|);
      TreeMentions(b, name);
    }
    var prop;
    ghost var base, no, n := c, 0, 0;
    err, prop := FdtResizeProperty(a, nodeoffset, name, |val|, p);
    if err == 0 {
      n := TokenLen(At(At(Stored(c), p).body, Sought(c, p, name).value).item);
      no := At(At(Stored(c), p).body, Sought(c, p, name).value).item.nameoff;
    }
    if err == NOTFOUND {
      err, prop, base, no := FdtAddProperty(a, nodeoffset, name, |val|, p);
      if err == 0 { SameEdits(c, base, p, nodeoffset, Assign(BodyOf(c, p, nodeoffset), name, val)); }
    }
    if err != 0 {
      return;
    }
    FillProp(base, a[..], prop, n, no, val);
    PropRoom(base, a[..], prop, n, no, val);
    var offStruct := Load32(a[..], OFF_STRUCT);
    CopyIn(a, offStruct + prop + 12, val);
    if Sought(c, p, name).Some? {
      ResizedMeans(base, a[..], p, nodeoffset, name, val);
    } else {
      InsertedMeans(base, a[..], p, nodeoffset, no, name, val);
    }
  }

  lemma PropRoom(b: seq<byte>, c: seq<byte>, off: int, n: int, no: u32, val: seq<byte>)
    requires PropOpen(b, c, off, n, no, |val|)
    ensures Buffer(b) && Buffer(c) && OffStruct(c) == OffStruct(b) && 0 <= off && OffStruct(b) + off + 12 + |val| <= |c|
  {
    hide Get32, Moved, Reservations;
  }
}
