/**
The sequential writer of fdt_sw.c.  The structure block grows up behind the reservation block, the
strings block grows down from the end of the buffer, and property names are stored as negative offsets
from the end until the blob is finished.
*/
module Writer {
  import opened Words
  import opened Tokens
  import opened Tokenizer
  import opened Blob
  import opened Splice
  import opened Edit
  import opened Repack

  /** Where the reservation block starts: the header size rounded up to a multiple of 16. */
  const RSV_START := 48

  const WRAP := 0x1_0000_0000

  /** A stored name offset as it reads from the start of a strings block of `z` bytes: 32-bit addition. */
  function FromStart(no: u32, z: nat): u32 {
    (no + z) % WRAP
  }

  /** Every stored name offset, counted from the end of `t`, points at a terminated string of `t`. */
  ghost predicate TokensNamed(l: Tokens, t: seq<byte>) {
    l.Cons? ==> (l.head.Prop? ==> CString(t, FromStart(l.head.nameoff, |t|)).Some?) && TokensNamed(l.tail, t)
  }

  /** The strings block while it grows at the end of the buffer. */
  ghost function Tail(b: seq<byte>): (t: seq<byte>)
    requires Buffer(b) && SizeStrings(b) <= |b|
    ensures |t| == SizeStrings(b)
  {
    b[|b| - SizeStrings(b)..]
  }

  ghost predicate SwHeader(b: seq<byte>, os: int, n: int, z: int) {
    && Buffer(b) && Get32(b, MAGIC) == SW_MAGIC && TotalSize(b) == |b| && OffRsv(b) == RSV_START
    && Version(b) == LAST_VERSION
    && Get32(b, LAST_COMP) == FIRST_VERSION && OffStruct(b) == os && SizeStruct(b) == n && SizeStrings(b) == z
  }

  /** An entry of size zero ends the list for every reader. */
  predicate Sized(e: Reservation) {
    !(e.sizeHi == 0 && e.sizeLo == 0)
  }

  /** Every entry is read back. */
  ghost predicate AllSized(rs: seq<Reservation>) {
    forall i :: 0 <= i < |rs| ==> Sized(rs[i])
  }

  /** The entries that are read back: those before the first of size zero. */
  ghost function Heeded(rs: seq<Reservation>): (h: seq<Reservation>)
    ensures |h| <= |rs| && h == rs[..|h|] && AllSized(h) && (|h| < |rs| ==> !Sized(rs[|h|]))
  {
    if rs == [] || !Sized(rs[0]) then [] else [rs[0]] + Heeded(rs[1..])
  }

  lemma HeededAll(rs: seq<Reservation>)
    ensures Heeded(rs) == rs <==> AllSized(rs)
  {
    var h := Heeded(rs);
    if AllSized(rs) {
      assert |h| == |rs| && rs[..|rs|] == rs;
    }
  }

  /** Where the structure block of a blob with the stored entries `rs` starts. */
  function StructAt(rs: seq<Reservation>): int {
    RSV_START + RsvSize(rs)
  }

  /**
  A blob under construction: the reservation entries `rs`, then the tokens `l` and `gap` bytes that have been claimed
  but not filled, and the strings at the far end.  The two blocks do not meet.
  */
  ghost predicate Growing(b: seq<byte>, l: Tokens, rs: seq<Reservation>, gap: int) {
    && gap >= 0 && Buffer(b) && SizeStrings(b) <= |b|
    && SwHeader(b, StructAt(rs), Len(l) + gap, SizeStrings(b))
    && StructAt(rs) + Len(l) + gap + SizeStrings(b) <= |b|
    && Reservations(b, RSV_START) == Some(Heeded(rs))
    && Reads(b, StructAt(rs), l) && TokensNamed(l, Tail(b))
  }

  /** Everything written has been filled in. */
  ghost predicate Written(b: seq<byte>, l: Tokens, rs: seq<Reservation>) {
    Growing(b, l, rs, 0)
  }

  /** The two blocks lie inside the buffer and do not overlap. */
  lemma BlocksApart(b: seq<byte>, l: Tokens, rs: seq<Reservation>)
    requires Written(b, l, rs)
    ensures HEADER <= OffStruct(b) && OffStruct(b) + SizeStruct(b) <= |b| - SizeStrings(b) <= |b| == TotalSize(b)
  {
    hide Get32, Reads, TokensNamed, Reservations;
  }

  /** What holds of everything below `lo` and above `hi` holds still after a change in between. */
  lemma GrowingKept(b: seq<byte>, c: seq<byte>, l: Tokens, rs: seq<Reservation>, gap: int, n: int)
    requires Growing(b, l, rs, gap) && n >= 0 && |c| == |b|
    requires SwHeader(c, StructAt(rs), Len(l) + n, SizeStrings(b)) && StructAt(rs) + Len(l) + n + SizeStrings(b) <= |b|
    requires Moved(b, HEADER, StructAt(rs) + Len(l), c, 0) && Moved(b, |b| - SizeStrings(b), |b|, c, 0)
    ensures Growing(c, l, rs, n) && Tail(c) == Tail(b)
  {
    hide Get32, Moved, Reads, TokensNamed, Reservations;
    MovedReservations(b, HEADER, StructAt(rs) + Len(l), c, 0, RSV_START);
    MovedReads(b, HEADER, StructAt(rs) + Len(l), c, 0, l, StructAt(rs));
    SliceEqual(b, |b| - SizeStrings(b), |b|, c, 0);
    TailSlice(b);
    TailSlice(c);
  }

  lemma TailSlice(b: seq<byte>)
    requires Buffer(b) && SizeStrings(b) <= |b|
    ensures Tail(b) == b[|b| - SizeStrings(b)..|b|]
  {
    hide Get32;
  }

  /** Writing into the claimed gap. */
  lemma GapWrite(b: seq<byte>, l: Tokens, rs: seq<Reservation>, gap: int, at: int, x: seq<byte>)
    requires Growing(b, l, rs, gap) && StructAt(rs) + Len(l) <= at && at + |x| <= StructAt(rs) + Len(l) + gap
    ensures Growing(Overlay(b, at, x), l, rs, gap) && Tail(Overlay(b, at, x)) == Tail(b)
  {
    hide Get32, Moved, Reads, TokensNamed, Reservations, Overlay;
    var c := Overlay(b, at, x);
    HeaderKept(b, at, x);
    OverlayMoved(b, at, x, HEADER, StructAt(rs) + Len(l));
    OverlayMoved(b, at, x, |b| - SizeStrings(b), |b|);
    GrowingKept(b, c, l, rs, gap, gap);
  }

  lemma {:induction false} NamedAppend(a: Tokens, b: Tokens, t: seq<byte>)
    ensures TokensNamed(Append(a, b), t) <==> TokensNamed(a, t) && TokensNamed(b, t)
    decreases a
  {
    if a.Cons? { NamedAppend(a.tail, b, t); }
  }

  /** The list with one more token. */
  function Then(l: Tokens, t: Token): Tokens {
    Append(l, Cons(t, Nil))
  }

  /** A token that fills the gap is written. */
  lemma GapFilled(b: seq<byte>, l: Tokens, rs: seq<Reservation>, t: Token)
    requires Growing(b, l, rs, TokenLen(t)) && TokenAt(b, StructAt(rs) + Len(l), t)
    requires t.Prop? ==> CString(Tail(b), FromStart(t.nameoff, SizeStrings(b))).Some?
    ensures Written(b, Then(l, t), rs)
  {
    hide Get32, TokenAt, TokenLen, Reservations, CString, Reads, Len, Append, TokensNamed;
    var k := Cons(t, Nil);
    OneRead(b, StructAt(rs) + Len(l), t);
    ReadsAppend(b, StructAt(rs), l, k);
    LenAppend(l, k);
    OneNamed(t, Tail(b));
    NamedAppend(l, k, Tail(b));
  }

  lemma OneNamed(t: Token, z: seq<byte>)
    requires t.Prop? ==> CString(z, FromStart(t.nameoff, |z|)).Some?
    ensures TokensNamed(Cons(t, Nil), z)
  {
  }

  lemma GapBound(b: seq<byte>, l: Tokens, rs: seq<Reservation>, gap: int)
    requires Growing(b, l, rs, gap)
    ensures 0 <= StructAt(rs) + Len(l) + gap <= |b|
  {
    hide Get32, Reads, TokensNamed, Reservations;
  }

  /** One header store while the blob grows. */
  lemma HeaderStoredAt(b: seq<byte>, c: seq<byte>, x: int)
    requires Buffer(b) && Confined(b, c, 0, 0, 0) && Others(b, c, 0, x)
             && (x == SIZE_STRUCT || x == SIZE_STRINGS || x == OFF_STRUCT)
    ensures |c| == |b| && Moved(b, HEADER, |b|, c, 0)
    ensures forall os, n, z :: SwHeader(b, os, n, z) ==>
              SwHeader(c, if x == OFF_STRUCT then OffStruct(c) else os, if x == SIZE_STRUCT then SizeStruct(c) else n,
                       if x == SIZE_STRINGS then SizeStrings(c) else z)
  {
    hide Get32;
    assert SameCell(b, c, 0, MAGIC) && SameCell(b, c, 0, TOTALSIZE) && SameCell(b, c, 0, OFF_RSVMAP)
           && SameCell(b, c, 0, VERSION);
    assert SameCell(b, c, 0, LAST_COMP);
    if x != SIZE_STRUCT { assert SameCell(b, c, 0, SIZE_STRUCT); }
    if x != SIZE_STRINGS { assert SameCell(b, c, 0, SIZE_STRINGS); }
    if x != OFF_STRUCT { assert SameCell(b, c, 0, OFF_STRUCT); }
  }

  /** `_fdt_grab_space`: claims `len` bytes of structure block, or fails and changes nothing. */
  method FdtGrabSpace(a: array<byte>, len: int, ghost l: Tokens, ghost rs: seq<Reservation>) returns (offset: int)
    requires Written(a[..], l, rs) && 0 <= len < INT_LIMIT
    modifies a
    ensures offset == if old(StructAt(rs) + Len(l) + len + SizeStrings(a[..]) <= a.Length) then Len(l) else -1
    ensures offset < 0 ==> a[..] == old(a[..])
    ensures offset >= 0 ==>
              Growing(a[..], l, rs, len) && Tail(a[..]) == old(Tail(a[..]))
              && SizeStrings(a[..]) == old(SizeStrings(a[..]))
  {
    hide Get32, Reads, TokensNamed, Reservations, Moved, Confined, Others;
    ghost var b := a[..];
    offset := Load32(a[..], SIZE_STRUCT);
    var total := Load32(a[..], TOTALSIZE);
    var offStruct := Load32(a[..], OFF_STRUCT);
    var sizeStrings := Load32(a[..], SIZE_STRINGS);
    var spaceleft := total - offStruct - sizeStrings;
    if offset + len > spaceleft {
      return -1;
    }
    StoreCell(a, 0, SIZE_STRUCT, offset + len);
    HeaderStoredAt(b, a[..], SIZE_STRUCT);
    SubMoved(b, HEADER, |b|, a[..], 0, HEADER, StructAt(rs) + Len(l));
    SubMoved(b, HEADER, |b|, a[..], 0, |b| - SizeStrings(b), |b|);
    GrowingKept(b, a[..], l, rs, 0, len);
  }

  /** `_fdt_sw_check_header`. */
  method FdtSwCheckHeader(b: seq<byte>) returns (err: int)
    requires Buffer(b)
    ensures err == if Get32(b, MAGIC) == SW_MAGIC then 0 else BADMAGIC
  {
    var magic := Load32(b, MAGIC);
    return if magic == SW_MAGIC then 0 else BADMAGIC;
  }

  /** `fdt_begin_node`. */
  method FdtBeginNode(a: array<byte>, name: seq<byte>, ghost l: Tokens, ghost rs: seq<Reservation>) returns (err: int)
    requires Written(a[..], l, rs) && NulFree(name) && |name| + 12 < INT_LIMIT
    modifies a
    ensures err == if old(StructAt(rs) + Len(l) + TokenLen(Begin(name)) + SizeStrings(a[..]) <= a.Length)
                   then 0 else NOSPACE
    ensures err != 0 ==> a[..] == old(a[..])
    ensures err == 0 ==> Written(a[..], Then(l, Begin(name)), rs) && Tail(a[..]) == old(Tail(a[..]))
  {
    hide Get32, Reads, TokensNamed, Reservations, Moved, Overlay, Word, Len, Align4;
    err := FdtSwCheckHeader(a[..]);
    if err != 0 {
      return;
    }
    var n := 4 + TagAlign(|name| + 1);
    var offset := FdtGrabSpace(a, n, l, rs);
    if offset < 0 {
      return NOSPACE;
    }
    ghost var c := a[..];
    ghost var p := StructAt(rs) + Len(l);
    var at := Load32(a[..], OFF_STRUCT);
    at := at + offset;
    GapBound(c, l, rs, n);
    GapWrite(c, l, rs, n, p, Word(BEGIN_NODE));
    Store32(a, at, BEGIN_NODE);
    GapWrite(a[..], l, rs, n, p + 4, name + [0]);
    BeginStored(c, p, name);
    CopyIn(a, at + 4, name + [0]);
    GapFilled(a[..], l, rs, Begin(name));
  }

  lemma BeginStored(c: seq<byte>, p: int, name: seq<byte>)
    requires 0 <= p && p + TokenLen(Begin(name)) <= |c| && NulFree(name)
    ensures TokenAt(Overlay(Overlay(c, p, Word(BEGIN_NODE)), p + 4, name + [0]), p, Begin(name))
  {
    hide Get32, Word;
    var c1 := Overlay(c, p, Word(BEGIN_NODE));
    var x := name + [0];
    var d := Overlay(c1, p + 4, x);
    OverlayWord(c, p, BEGIN_NODE);
    OverlayGet(c1, p + 4, x, p);
    assert Spells(d, p + 4, name) && d[p + 4 + |name|] == 0;
  }

  /** `fdt_end_node`. */
  method FdtEndNode(a: array<byte>, ghost l: Tokens, ghost rs: seq<Reservation>) returns (err: int)
    requires Written(a[..], l, rs)
    modifies a
    ensures err == if old(StructAt(rs) + Len(l) + 4 + SizeStrings(a[..]) <= a.Length) then 0 else NOSPACE
    ensures err != 0 ==> a[..] == old(a[..])
    ensures err == 0 ==> Written(a[..], Then(l, Close), rs) && Tail(a[..]) == old(Tail(a[..]))
  {
    hide Get32, Reads, TokensNamed, Reservations, Moved, Overlay, Word, Len;
    err := FdtSwCheckHeader(a[..]);
    if err != 0 {
      return;
    }
    var offset := FdtGrabSpace(a, 4, l, rs);
    if offset < 0 {
      return NOSPACE;
    }
    ghost var c := a[..];
    ghost var p := StructAt(rs) + Len(l);
    var at := Load32(a[..], OFF_STRUCT);
    GapBound(c, l, rs, 4);
    GapWrite(c, l, rs, 4, p, Word(END_NODE));
    OverlayWord(c, p, END_NODE);
    Store32(a, at + offset, END_NODE);
    GapFilled(a[..], l, rs, Close);
  }

  /** `u` ends with `t`. */
  ghost predicate Suffix(t: seq<byte>, u: seq<byte>) {
    |t| <= |u| < INT_LIMIT && Moved(t, 0, |t|, u, |u| - |t|)
  }

  /** A name offset counted from the end means the same string when strings are added in front. */
  lemma EndString(t: seq<byte>, u: seq<byte>, no: u32)
    requires Suffix(t, u) && CString(t, FromStart(no, |t|)).Some?
    ensures CString(u, FromStart(no, |u|)) == CString(t, FromStart(no, |t|))
  {
    var i, d := FromStart(no, |t|), |u| - |t|;
    WrapOffset(no, |t|, |u|);
    var z := NulFrom(t, i);
    forall k | i + d <= k < z + d ensures u[k] != 0 {
      assert t[k - d] == u[k - d + d];
    }
    assert u[z + d] == t[z];
    NulFromIs(u, i + d, z + d);
    SubMoved(t, 0, |t|, u, d, i, z);
    SliceEqual(t, i, z, u, d);
  }

  lemma WrapOffset(no: u32, z: nat, y: nat)
    requires z <= y < INT_LIMIT && FromStart(no, z) < z
    ensures FromStart(no, y) == FromStart(no, z) + (y - z)
  {
  }

  lemma {:induction false} NamedGrows(l: Tokens, t: seq<byte>, u: seq<byte>)
    requires TokensNamed(l, t) && Suffix(t, u)
    ensures TokensNamed(l, u)
    decreases l
  {
    hide Suffix;
    if l.Cons? {
      if l.head.Prop? { EndString(t, u, l.head.nameoff); }
      NamedGrows(l.tail, t, u);
    }
  }

  lemma SuffixSelf(t: seq<byte>)
    requires |t| < INT_LIMIT
    ensures Suffix(t, t)
  {
  }

  lemma SuffixThen(t: seq<byte>, u: seq<byte>, v: seq<byte>)
    requires Suffix(t, u) && Suffix(u, v)
    ensures Suffix(t, v)
  {
    SubMoved(u, 0, |u|, v, |v| - |u|, |u| - |t|, |u|);
    MovedThen(t, 0, |t|, u, |u| - |t|, v, |v| - |u|);
  }

  /**
  The test by which the writer decides that a string of `len` bytes still fits below `z` bytes of strings
  and above the structure block that ends at `top`.  The sum is 32-bit unsigned.
  */
  function RoomTest(total: nat, z: nat, len: nat, top: nat): bool {
    (total - z - len) % WRAP >= top
  }

  /** The test is right unless the strings alone exceed the buffer: then it wraps and always passes. */
  lemma RoomTestExact(total: nat, z: nat, len: nat, top: nat)
    requires top + z <= total < INT_LIMIT && len < INT_LIMIT
    ensures RoomTest(total, z, len, top) <==> top + z + len <= total || z + len > total
  {
    var x := total - z - len;
    if x < 0 { assert x % WRAP == x + WRAP; }
  }

  /** A buffer of 100 bytes with nothing in it takes a name of 200 bytes, which would be written before the buffer. */
  lemma RoomTestWraps()
    ensures RoomTest(100, 0, 200, 64) && !(64 + 0 + 200 <= 100)
  {
    RoomTestExact(100, 0, 200, 64);
  }

  /** The string in front of the others, counted in. */
  lemma StringFront(b: seq<byte>, d: seq<byte>, l: Tokens, rs: seq<Reservation>, s: seq<byte>)
    requires Written(b, l, rs) && NulFree(s) && |d| == |b| && StructAt(rs) + Len(l) + SizeStrings(b) + |s| + 1 <= |b|
    requires SwHeader(d, StructAt(rs), Len(l), SizeStrings(b) + |s| + 1)
    requires Moved(b, HEADER, StructAt(rs) + Len(l), d, 0) && Moved(b, |b| - SizeStrings(b), |b|, d, 0)
    requires Spells(d, |b| - SizeStrings(b) - |s| - 1, s + [0])
    ensures Written(d, l, rs) && Suffix(Tail(b), Tail(d)) && Tail(d) == s + [0] + Tail(b)
            && CString(Tail(d), 0) == Some(s)
  {
    hide Get32, Reads, TokensNamed, Reservations, Moved, Spells;
    MovedReservations(b, HEADER, StructAt(rs) + Len(l), d, 0, RSV_START);
    MovedReads(b, HEADER, StructAt(rs) + Len(l), d, 0, l, StructAt(rs));
    TailGrown(b, d, SizeStrings(b), SizeStrings(d), s);
    NamedGrows(l, Tail(b), Tail(d));
  }

  lemma TailGrown(b: seq<byte>, d: seq<byte>, z: int, y: int, s: seq<byte>)
    requires Buffer(b) && Buffer(d) && |d| == |b| && z == SizeStrings(b) && y == SizeStrings(d) == z + |s| + 1 <= |b|
             && NulFree(s)
    requires Moved(b, |b| - z, |b|, d, 0) && Spells(d, |b| - y, s + [0])
    ensures Suffix(Tail(b), Tail(d)) && Tail(d) == s + [0] + Tail(b) && CString(Tail(d), 0) == Some(s)
  {
    hide Get32;
    var t, u, x := Tail(b), Tail(d), s + [0];
    forall i {:trigger t[i]} | 0 <= i < |t| ensures u[i + (|u| - |t|)] == t[i] {
      assert b[|b| - z + i] == t[i];
    }
    forall k {:trigger x[k]} | 0 <= k < |x| ensures u[0 + k] == x[k] {
      assert d[|b| - y + k] == x[k];
    }
    SpelledString(u, 0, s);
    assert |u| == |x| + |t|;
    forall i | 0 <= i < |u| ensures u[i] == (x + t)[i] {
      if i < |x| {
        assert u[0 + i] == x[i] == (x + t)[i];
      } else {
        assert t[i - |x|] == u[i - |x| + (|u| - |t|)] && (x + t)[i] == t[i - |x|];
      }
    }
  }

  /** The strings once `s` has been put: unchanged if they hold it already. */
  ghost function Put(t: seq<byte>, s: seq<byte>): seq<byte> {
    if HasString(t, s) then t else s + [0] + t
  }

  /** The name is new, and with it the strings would be longer than the buffer. */
  ghost predicate Strays(b: seq<byte>, s: seq<byte>)
    requires Buffer(b) && SizeStrings(b) <= |b|
  {
    !HasString(Tail(b), s) && SizeStrings(b) + |s| + 1 > |b|
  }

  /** Where a string is copied to, from the start of the buffer, if it is copied at all. */
  ghost function CopyPlace(b: seq<byte>, s: seq<byte>): Option<int>
    requires Buffer(b) && SizeStrings(b) <= |b|
  {
    if HasString(Tail(b), s) || !RoomTest(|b|, SizeStrings(b), |s| + 1, OffStruct(b) + SizeStruct(b)) then None
    else Some(|b| - SizeStrings(b) - |s| - 1)
  }

  /**
  The copy goes in front of the buffer exactly when the name strays, and else above the structure block.  A
  copy that begins in front of the buffer ends behind all that has been written, header included.
  */
  lemma StraysExactly(b: seq<byte>, l: Tokens, rs: seq<Reservation>, s: seq<byte>)
    requires Written(b, l, rs) && |s| + 1 < INT_LIMIT
    ensures CopyPlace(b, s).Some? && CopyPlace(b, s).value < 0 <==> Strays(b, s)
    ensures CopyPlace(b, s).Some? && !Strays(b, s) ==> StructAt(rs) + Len(l) <= CopyPlace(b, s).value
    ensures Strays(b, s) ==> CopyPlace(b, s).value + |s| + 1 >= StructAt(rs) + Len(l) > HEADER
    ensures CopyPlace(b, s).None? <==>
            || HasString(Tail(b), s)
            || StructAt(rs) + Len(l) + SizeStrings(b) + |s| + 1 > |b| >= SizeStrings(b) + |s| + 1
  {
    hide Get32, Reads, TokensNamed, Reservations, Tail, HasString, RoomTest;
    RoomTestExact(|b|, SizeStrings(b), |s| + 1, StructAt(rs) + Len(l));
  }

  /** The part of `_fdt_find_add_string` before the copy: the result, and where to copy to. */
  method PlaceString(a: array<byte>, s: seq<byte>, ghost l: Tokens, ghost rs: seq<Reservation>)
    returns (r: int, at: Option<int>)
    requires Written(a[..], l, rs) && NulFree(s) && |s| + 1 < INT_LIMIT
    ensures at == CopyPlace(a[..], s)
    ensures HasString(Tail(a[..]), s) ==>
              r < 0 <= SizeStrings(a[..]) + r && CString(Tail(a[..]), SizeStrings(a[..]) + r) == Some(s)
    ensures !HasString(Tail(a[..]), s) ==> r == if at.Some? then 0 - SizeStrings(a[..]) - |s| - 1 else 0
  {
    hide Get32, Reads, TokensNamed, Reservations, Len, CString, HasString, Tail;
    var total := Load32(a[..], TOTALSIZE);
    var strtabsize := Load32(a[..], SIZE_STRINGS);
    var len := |s| + 1;
    TailSlice(a[..]);
    assert a[total - strtabsize..total] == a[..][|a[..]| - strtabsize..|a[..]|];
    var p := FdtFindString(a[total - strtabsize..total], s);
    if p >= 0 {
      return p - strtabsize, None;
    }
    var offset := -strtabsize - len;
    var offStruct := Load32(a[..], OFF_STRUCT);
    var sizeStruct := Load32(a[..], SIZE_STRUCT);
    if (total + offset) % WRAP < offStruct + sizeStruct {
      return 0, None;
    }
    return offset, Some(total + offset);
  }

  /** `_fdt_find_add_string` of the writer: the negative offset of the string from the end, or 0 for lack of room. */
  method FdtFindAddString(a: array<byte>, s: seq<byte>, ghost l: Tokens, ghost rs: seq<Reservation>) returns (r: int)
    requires Written(a[..], l, rs) && NulFree(s) && |s| + 1 < INT_LIMIT && !Strays(a[..], s)
    modifies a
    ensures r <= 0 && (r == 0 ==> a[..] == old(a[..]))
    ensures Written(a[..], l, rs) && Suffix(old(Tail(a[..])), Tail(a[..]))
    ensures r < 0 ==> 0 <= SizeStrings(a[..]) + r && CString(Tail(a[..]), SizeStrings(a[..]) + r) == Some(s)
    ensures r == 0
            <==> old(!HasString(Tail(a[..]), s) && StructAt(rs) + Len(l) + SizeStrings(a[..]) + |s| + 1 > a.Length)
    ensures r < 0 ==> Tail(a[..]) == old(Put(Tail(a[..]), s))
  {
    hide Get32, Reads, TokensNamed, Reservations, Moved, Overlay, Word, Len, Suffix, CString, Spells, Confined,
         Others, HasString, CopyPlace, Strays;
    ghost var b := a[..];
    WrittenSized(b, l, rs);
    SuffixSelf(Tail(b));
    StraysExactly(b, l, rs, s);
    StraysNot(b, s);
    var place;
    r, place := PlaceString(a, s, l, rs);
    PlaceIs(b, s);
    if place.None? {
      return;
    }
    var at := place.value;
    var strtabsize := Load32(a[..], SIZE_STRINGS);
    CopyIn(a, at, s + [0]);
    ghost var c := a[..];
    HeaderKept(b, at, s + [0]);
    assert SwHeader(c, StructAt(rs), Len(l), strtabsize);
    StoreCell(a, 0, SIZE_STRINGS, strtabsize + (|s| + 1));
    ghost var d := a[..];
    HeaderStoredAt(c, d, SIZE_STRINGS);
    StringStored(b, c, d, StructAt(rs) + Len(l), at, s);
    StringFront(b, d, l, rs, s);
  }

  lemma WrittenSized(b: seq<byte>, l: Tokens, rs: seq<Reservation>)
    requires Written(b, l, rs)
    ensures Buffer(b) && SizeStrings(b) <= |b|
  {
    hide Get32, Reads, TokensNamed, Reservations;
  }

  lemma StraysNot(b: seq<byte>, s: seq<byte>)
    requires Buffer(b) && SizeStrings(b) <= |b| && !Strays(b, s)
    ensures HasString(Tail(b), s) || SizeStrings(b) + |s| + 1 <= |b|
  {
    hide Get32, HasString, Tail;
  }

  lemma PlaceIs(b: seq<byte>, s: seq<byte>)
    requires Buffer(b) && SizeStrings(b) <= |b|
    ensures CopyPlace(b, s).Some? ==> !HasString(Tail(b), s) && CopyPlace(b, s).value == |b| - SizeStrings(b) - |s| - 1
  {
    hide Get32, HasString, Tail, RoomTest;
  }

  lemma StringStored(b: seq<byte>, c: seq<byte>, d: seq<byte>, e: int, at: int, s: seq<byte>)
    requires HEADER <= e <= at && at + |s| + 1 <= |b| && c == Overlay(b, at, s + [0]) && Moved(c, HEADER, |c|, d, 0)
    ensures Moved(b, HEADER, e, d, 0) && Moved(b, at + |s| + 1, |b|, d, 0) && Spells(d, at, s + [0])
  {
    hide Moved, Overlay, Spells;
    var x := s + [0];
    OverlayMoved(b, at, x, HEADER, e);
    OverlayMoved(b, at, x, at + |x|, |b|);
    OverlaySpells(b, at, x);
    SubMoved(c, HEADER, |c|, d, 0, HEADER, e);
    SubMoved(c, HEADER, |c|, d, 0, at + |x|, |b|);
    MovedThen(b, HEADER, e, c, 0, d, 0);
    MovedThen(b, at + |x|, |b|, c, 0, d, 0);
    MovedSpells(c, HEADER, |c|, d, 0, at, x);
  }

  /** The four writes of a property into its gap. */
  lemma PropStored(c: seq<byte>, p: int, no: u32, val: seq<byte>)
    requires 0 <= p && p + TokenLen(Prop(no, val)) <= |c| && |val| < INT_LIMIT
    ensures var d := Overlay(Overlay(Overlay(Overlay(c, p, Word(PROP)), p + 8, Word(no)), p + 4, Word(|val|)), p + 12,
                             val);
            TokenAt(d, p, Prop(no, val))
  {
    hide Get32, Word, Overlay, Spells;
    var c1 := Overlay(c, p, Word(PROP));
    var c2 := Overlay(c1, p + 8, Word(no));
    var c3 := Overlay(c2, p + 4, Word(|val|));
    var d := Overlay(c3, p + 12, val);
    OverlayWord(c, p, PROP);
    OverlayGet(c1, p + 8, Word(no), p);
    OverlayGet(c2, p + 4, Word(|val|), p);
    OverlayGet(c3, p + 12, val, p);
    OverlayWord(c1, p + 8, no);
    OverlayGet(c2, p + 4, Word(|val|), p + 8);
    OverlayGet(c3, p + 12, val, p + 8);
    OverlayWord(c2, p + 4, |val|);
    OverlayGet(c3, p + 12, val, p + 4);
    OverlaySpells(c3, p + 12, val);
  }

  /** The writes of `fdt_property` into the space it has grabbed. */
  method FillProperty(a: array<byte>, at: int, nameoff: u32, val: seq<byte>, ghost l: Tokens,
                      ghost rs: seq<Reservation>)
    requires |val| + 16 < INT_LIMIT && Growing(a[..], l, rs, TokenLen(Prop(nameoff, val)))
             && at == StructAt(rs) + Len(l)
    requires CString(Tail(a[..]), FromStart(nameoff, SizeStrings(a[..]))).Some?
    modifies a
    ensures Written(a[..], Then(l, Prop(nameoff, val)), rs) && Tail(a[..]) == old(Tail(a[..]))
  {
    hide Get32, Reads, TokensNamed, Reservations, Moved, Overlay, Word, Len, CString, TokenAt, Growing, FromStart;
    ghost var t, n, c := Prop(nameoff, val), TokenLen(Prop(nameoff, val)), a[..];
    GapBound(c, l, rs, n);
    GapWrite(a[..], l, rs, n, at, Word(PROP));
    Store32(a, at, PROP);
    GapWrite(a[..], l, rs, n, at + 8, Word(nameoff));
    Store32(a, at + 8, nameoff);
    GapWrite(a[..], l, rs, n, at + 4, Word(|val|));
    Store32(a, at + 4, |val|);
    GapWrite(a[..], l, rs, n, at + 12, val);
    CopyIn(a, at + 12, val);
    PropStored(c, at, nameoff, val);
    GrowingOpen(a[..], l, rs, n);
    GrowingOpen(c, l, rs, n);
    TailGrows(a[..], c);
    GapFilled(a[..], l, rs, t);
  }

  lemma TailGrows(b: seq<byte>, c: seq<byte>)
    requires Buffer(b) && Buffer(c) && SizeStrings(b) <= |b| && SizeStrings(c) <= |c| && Tail(b) == Tail(c)
    ensures SizeStrings(b) == SizeStrings(c)
  {
  }

  /** `fdt_property`.  A failure may leave the name behind in the strings block, which changes no token. */
  method FdtProperty(a: array<byte>, name: seq<byte>, val: seq<byte>, ghost l: Tokens, ghost rs: seq<Reservation>)
    returns (err: int, ghost no: u32)
    requires Written(a[..], l, rs) && NulFree(name) && |name| + 1 < INT_LIMIT && |val| + 16 < INT_LIMIT
             && !Strays(a[..], name)
    modifies a
    ensures err == if old(StructAt(rs) + Len(l) + TokenLen(Prop(0, val)) + |Put(Tail(a[..]), name)| <= a.Length)
                   then 0 else NOSPACE
    ensures Written(a[..], if err == 0 then Then(l, Prop(no, val)) else l, rs)
    ensures Suffix(old(Tail(a[..])), Tail(a[..]))
    ensures Tail(a[..]) == old(if StructAt(rs) + Len(l) + |Put(Tail(a[..]), name)| <= a.Length
                               then Put(Tail(a[..]), name) else Tail(a[..]))
    ensures err == 0 ==> CString(Tail(a[..]), FromStart(no, SizeStrings(a[..]))) == Some(name)
  {
    hide Get32, Reads, TokensNamed, Reservations, Moved, Overlay, Word, Len, Suffix, CString, Align4, FromStart,
         Growing, HasString, Strays;
    no := 0;
    WrittenOpen(a[..], l, rs);
    SuffixSelf(Tail(a[..]));
    err := FdtSwCheckHeader(a[..]);
    if err != 0 {
      return;
    }
    var nameoff := FdtFindAddString(a, name, l, rs);
    if nameoff == 0 {
      return NOSPACE, no;
    }
    WrittenOpen(a[..], l, rs);
    var offset := FdtGrabSpace(a, 12 + TagAlign(|val|), l, rs);
    if offset < 0 {
      return NOSPACE, no;
    }
    no := nameoff + WRAP;
    StoredName(nameoff, SizeStrings(a[..]));
    GrowingOpen(a[..], l, rs, 12 + Align4(|val|));
    var at := Load32(a[..], OFF_STRUCT);
    FillProperty(a, at + offset, nameoff + WRAP, val, l, rs);
    return 0, no;
  }

  lemma StoredName(r: int, z: int)
    requires r < 0 <= z + r && z < INT_LIMIT
    ensures 0 <= r + WRAP < WRAP && FromStart(r + WRAP, z) == z + r
  {
  }

  lemma WrittenOpen(b: seq<byte>, l: Tokens, rs: seq<Reservation>)
    requires Written(b, l, rs)
    ensures Buffer(b) && Get32(b, MAGIC) == SW_MAGIC && SizeStrings(b) <= |b|
  {
    hide Get32, Reads, TokensNamed, Reservations;
  }

  lemma GrowingOpen(b: seq<byte>, l: Tokens, rs: seq<Reservation>, gap: int)
    requires Growing(b, l, rs, gap)
    ensures Buffer(b) && OffStruct(b) == StructAt(rs) && SizeStrings(b) <= |b|
  {
    hide Get32, Reads, TokensNamed, Reservations;
  }
}
