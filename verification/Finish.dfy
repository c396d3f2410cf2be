/** `fdt_finish`: the strings block is moved up against the structure block and every name offset relocated. */
module Finish {
  import opened Words
  import opened Tokens
  import opened Structure
  import opened Tokenizer
  import opened Walk
  import opened Blob
  import opened Queries
  import opened Splice
  import opened Edit
  import opened Repack
  import opened Writer

  function RelocToken(t: Token, z: nat): Token {
    if t.Prop? then Prop(FromStart(t.nameoff, z), t.value) else t
  }

  /** The tokens with every name offset counted from the start of the strings block. */
  function Reloc(l: Tokens, z: nat): Tokens {
    if l.Nil? then Nil else Cons(RelocToken(l.head, z), Reloc(l.tail, z))
  }

  function RelocForest(f: Forest, z: nat): Forest {
    match f
    case Stop => Stop
    case Leaf(t, r) => Leaf(RelocToken(t, z), RelocForest(r, z))
    case Node(n, b, r) => Node(n, RelocForest(b, z), RelocForest(r, z))
  }

  lemma {:induction false} RelocAppend(a: Tokens, b: Tokens, z: nat)
    ensures Reloc(Append(a, b), z) == Append(Reloc(a, z), Reloc(b, z))
    decreases a
  {
    if a.Cons? { RelocAppend(a.tail, b, z); }
  }

  lemma {:induction false} RelocFlat(f: Forest, z: nat)
    ensures Flat(RelocForest(f, z)) == Reloc(Flat(f), z)
    decreases f
  {
    match f
    case Stop =>
    case Leaf(t, r) => RelocFlat(r, z);
    case Node(n, b, r) =>
      RelocFlat(b, z);
      RelocFlat(r, z);
      RelocAppend(Flat(b), Cons(Close, Flat(r)), z);
  }

  lemma {:induction false} RelocLen(l: Tokens, z: nat)
    ensures Len(Reloc(l, z)) == Len(l)
    decreases l
  {
    if l.Cons? { RelocLen(l.tail, z); }
  }

  /** The blocks follow each other, `n` bytes of structure block and the strings `t`, and the header says so. */
  ghost predicate Laid(b: seq<byte>, rs: seq<Reservation>, n: int, t: seq<byte>) {
    && Buffer(b) && 0 <= n && OffRsv(b) == RSV_START && OffStruct(b) == StructAt(rs) && SizeStruct(b) == n
    && OffStrings(b) == StructAt(rs) + n
    && SizeStrings(b) == |t| && Version(b) == LAST_VERSION && Get32(b, LAST_COMP) == FIRST_VERSION
    && StructAt(rs) + n + |t| <= |b| && Reservations(b, RSV_START) == Some(Heeded(rs)) && Spells(b, StructAt(rs) + n, t)
  }

  lemma LaidFits(b: seq<byte>, rs: seq<Reservation>, n: int, t: seq<byte>)
    requires Laid(b, rs, n, t)
    ensures BlocksFit(b) && |Struct(b)| == n && OffStruct(b) == StructAt(rs) >= HEADER && SizeStrings(b) == |t|
            && |b| < INT_LIMIT
    ensures StructAt(rs) + n <= |b|
  {
    hide Get32, Spells, Reservations;
  }

  /** A store inside the structure block leaves the layout alone and changes that block there. */
  lemma StructWrite(b: seq<byte>, rs: seq<Reservation>, n: int, t: seq<byte>, o: int, x: seq<byte>)
    requires Laid(b, rs, n, t) && 0 <= o && o + |x| <= n
    ensures StructAt(rs) + o + |x| <= |b|
    ensures var c := Overlay(b, StructAt(rs) + o, x);
            Laid(c, rs, n, t) && BlocksFit(b) && BlocksFit(c) && Struct(c) == Overlay(Struct(b), o, x)
  {
    hide Get32, Reservations, Moved, Spells, Overlay;
    var at := StructAt(rs) + o;
    var c := Overlay(b, at, x);
    HeaderKept(b, at, x);
    OverlayMoved(b, at, x, 0, at);
    OverlayMoved(b, at, x, at + |x|, |b|);
    MovedReservations(b, 0, at, c, 0, RSV_START);
    MovedSpells(b, at + |x|, |b|, c, 0, StructAt(rs) + n, t);
    StructOverlay(b, at, x, StructAt(rs), n);
  }

  lemma StructOverlay(b: seq<byte>, at: int, x: seq<byte>, os: int, n: int)
    requires 0 <= os <= at && at + |x| <= os + n <= |b|
    ensures Overlay(b, at, x)[os..os + n] == Overlay(b[os..os + n], at - os, x)
  {
  }

  /** Relocating one name offset of a spelled block. */
  lemma RelocStep(s: seq<byte>, x: Tokens, no: u32, v: seq<byte>, rest: Tokens, w: u32)
    requires Spelled(s, 0, Append(x, Cons(Prop(no, v), rest)))
    ensures Len(x) + 12 <= |s|
    ensures Spelled(Overlay(s, Len(x) + 8, Word(w)), 0, Append(x, Cons(Prop(w, v), rest)))
  {
    hide Reads, Len, Append, Moved, Word, Overlay, Spelled;
    var o, n := Cons(Prop(no, v), Nil), Cons(Prop(w, v), Nil);
    PropInside(s, x, no, v, rest);
    ConsAppend(Prop(no, v), rest);
    ConsAppend(Prop(w, v), rest);
    var t := Overlay(s, Len(x) + 8, Word(w));
    PropRenamed(s, Len(x), no, v, w);
    OneRead(t, Len(x), Prop(w, v));
    OneRead(s, Len(x), Prop(no, v));
    OverlayMoved(s, Len(x) + 8, Word(w), 0, Len(x));
    SameLen(no, w, v);
    OverlayMoved(s, Len(x) + 8, Word(w), Len(x) + Len(o), |s|);
    SpliceSpelled(s, t, x, o, n, rest);
  }

  lemma SameLen(no: u32, w: u32, v: seq<byte>)
    ensures TokenLen(Prop(no, v)) == TokenLen(Prop(w, v)) >= 12
  {
  }

  lemma ConsAppend(t: Token, l: Tokens)
    ensures Append(Cons(t, Nil), l) == Cons(t, l)
  {
  }

  lemma PropInside(s: seq<byte>, x: Tokens, no: u32, v: seq<byte>, rest: Tokens)
    requires Spelled(s, 0, Append(x, Cons(Prop(no, v), rest)))
    ensures TokenAt(s, Len(x), Prop(no, v)) && Len(x) + TokenLen(Prop(no, v)) <= |s|
  {
    hide Get32, Len, Append;
    ReadsAppend(s, 0, x, Cons(Prop(no, v), rest));
  }

  lemma PropRenamed(s: seq<byte>, o: int, no: u32, v: seq<byte>, w: u32)
    requires TokenAt(s, o, Prop(no, v))
    ensures TokenAt(Overlay(s, o + 8, Word(w)), o, Prop(w, v))
  {
    hide Get32, Word, Overlay, Spells;
    var t := Overlay(s, o + 8, Word(w));
    OverlayWord(s, o + 8, w);
    OverlayGet(s, o + 8, Word(w), o);
    OverlayGet(s, o + 8, Word(w), o + 4);
    OverlayMoved(s, o + 8, Word(w), o + 12, |s|);
    MovedSpells(s, o + 12, |s|, t, 0, o + 12, v);
  }

  /** The walk of `fdt_finish`: each PROP is met once and its name offset counted from the start from then on. */
  method Relocate(a: array<byte>, ghost l: Tokens, ghost rs: seq<Reservation>, ghost t: seq<byte>)
    returns (nextoffset: int)
    requires Laid(a[..], rs, Len(l) + 4, t) && BlocksFit(a[..]) && Spelled(Struct(a[..]), 0, l)
    modifies a
    ensures nextoffset >= 0 && Laid(a[..], rs, Len(l) + 4, t) && BlocksFit(a[..])
            && Spelled(Struct(a[..]), 0, Reloc(l, |t|))
  {
    hide Laid, Spelled, Len, Append, NextTag, Overlay, Word, Reloc, FromStart, TokenLen, Get32, Struct, TagOf;
    ghost var done, rest, n := Nil, l, Len(l) + 4;
    StartWalk(l, |t|);
    var offset := 0;
    while true
      invariant Laid(a[..], rs, n, t) && BlocksFit(a[..])
      invariant l == Append(done, rest) && offset == Len(done) == Len(Reloc(done, |t|))
      invariant Spelled(Struct(a[..]), 0, Append(Reloc(done, |t|), rest))
      decreases rest
    {
      LaidFits(a[..], rs, n, t);
      ghost var x := Reloc(done, |t|);
      OnwardFrom(Struct(a[..]), x, rest);
      Advance(Struct(a[..]), offset, rest);
      var s := LoadStruct(a[..]);
      var tag;
      tag, nextoffset := FdtNextTag(s, offset);
      if rest.Nil? {
        EndWalk(done, x);
        assert tag == END;
      } else {
        TagIs(rest.head);
      }
      if tag == END {
        return;
      }
      ghost var head := rest.head;
      if tag == PROP {
        PropInside(Struct(a[..]), x, head.nameoff, head.value, rest.tail);
        NameCell(Struct(a[..]), offset, head.nameoff, head.value);
        var nameoff := Load32(s, offset + 8);
        var size := Load32(a[..], SIZE_STRINGS);
        var offStruct := Load32(a[..], OFF_STRUCT);
        var w := FromStart(nameoff, size);
        RelocStep(Struct(a[..]), x, head.nameoff, head.value, rest.tail, w);
        StructWrite(a[..], rs, n, t, offset + 8, Word(w));
        Store32(a, offStruct + offset + 8, w);
      }
      StepWalk(done, head, rest.tail, |t|);
      done := Then(done, head);
      rest := rest.tail;
      offset := nextoffset;
    }
  }

  lemma StartWalk(l: Tokens, z: nat)
    ensures Append(Nil, l) == l && Reloc(Nil, z) == Nil && Len(Nil) == 0
  {
  }

  lemma EndWalk(done: Tokens, x: Tokens)
    ensures Append(done, Nil) == done && Append(x, Nil) == x
  {
    AppendNil(done);
    AppendNil(x);
  }

  lemma TagIs(t: Token)
    ensures TagOf(t) != END && (TagOf(t) == PROP <==> t.Prop?)
  {
  }

  lemma StepWalk(done: Tokens, head: Token, rest: Tokens, z: nat)
    ensures Append(done, Cons(head, rest)) == Append(Then(done, head), rest)
    ensures Append(Reloc(done, z), Cons(RelocToken(head, z), rest)) == Append(Reloc(Then(done, head), z), rest)
    ensures Len(Then(done, head)) == Len(done) + TokenLen(head)
    ensures Len(Reloc(Then(done, head), z)) == Len(Then(done, head))
  {
    var k := Cons(head, Nil);
    AppendAssoc(done, k, rest);
    RelocAppend(done, k, z);
    AppendAssoc(Reloc(done, z), Reloc(k, z), rest);
    LenAppend(done, k);
    RelocLen(Then(done, head), z);
    ConsAppend(head, rest);
    ConsAppend(RelocToken(head, z), rest);
    assert Reloc(k, z) == Cons(RelocToken(head, z), Nil);
    assert Len(k) == TokenLen(head);
  }

  lemma NameCell(s: seq<byte>, o: int, no: u32, v: seq<byte>)
    requires TokenAt(s, o, Prop(no, v))
    ensures 0 <= o && o + 12 <= |s| && Get32(s, o + 8) == no
  {
    hide Get32;
  }

  lemma OnwardFrom(s: seq<byte>, x: Tokens, rest: Tokens)
    requires Spelled(s, 0, Append(x, rest))
    ensures Spelled(s, Len(x), rest) && Len(x) % 4 == 0
  {
    hide Get32, Reads;
    ReadsAppend(s, 0, x, rest);
    LenAppend(x, rest);
    LenAligned(x);
  }

  /** A complete blob: reservations `rs`, structure block spelling `l` relocated, strings `t`, nothing behind them. */
  ghost predicate Finished(b: seq<byte>, rs: seq<Reservation>, l: Tokens, t: seq<byte>) {
    && InOrder(b) && BlocksFit(b) && Get32(b, MAGIC) == FDT_MAGIC && Get32(b, LAST_COMP) <= LAST_VERSION
    && Version(b) == LAST_VERSION
    && TotalSize(b) == StructAt(rs) + Len(l) + 4 + |t| && Reserved(b) == Heeded(rs) && Strings(b) == t
    && Spelled(Struct(b), 0, Reloc(l, |t|))
  }

  /** The strings moved behind the terminated structure block, and their new offset stored. */
  lemma LaidOut(c: seq<byte>, m: seq<byte>, d: seq<byte>, l: Tokens, rs: seq<Reservation>)
    requires Growing(c, l, rs, 4) && TagAt(c, StructAt(rs) + Len(l), END) && |m| == |c|
    requires Moved(c, 0, StructAt(rs) + Len(l) + 4, m, 0)
    requires Moved(c, |c| - SizeStrings(c), |c|, m, StructAt(rs) + Len(l) + 4 - (|c| - SizeStrings(c)))
    requires Confined(m, d, 0, 0, 0) && Others(m, d, 0, OFF_STRINGS)
             && Get32(d, OFF_STRINGS) == StructAt(rs) + Len(l) + 4
    ensures Laid(d, rs, Len(l) + 4, Tail(c)) && BlocksFit(d) && Spelled(Struct(d), 0, l)
  {
    hide Get32, Reads, TokensNamed, Reservations, Moved, Others, Confined, Spells, Len, Tail;
    var p, z := StructAt(rs) + Len(l) + 4, SizeStrings(c);
    ConfinedMoved(m, d);
    LaidHeader(c, m, d, p);
    SubMoved(c, 0, p, m, 0, HEADER, p);
    SubMoved(m, HEADER, |m|, d, 0, HEADER, p);
    MovedThen(c, HEADER, p, m, 0, d, 0);
    SubMoved(m, HEADER, |m|, d, 0, p, p + z);
    MovedThen(c, |c| - z, |c|, m, p - (|c| - z), d, 0);
    MovedReservations(c, HEADER, p, d, 0, RSV_START);
    TailSpelled(c, d, p - (|c| - z));
    MovedStruct(c, d, l, rs, p);
  }

  lemma ConfinedMoved(m: seq<byte>, d: seq<byte>)
    requires Confined(m, d, 0, 0, 0) && HEADER <= |m|
    ensures |d| == |m| && Moved(m, HEADER, |m|, d, 0)
  {
  }

  lemma LaidHeader(c: seq<byte>, m: seq<byte>, d: seq<byte>, p: int)
    requires Buffer(c) && |m| == |c| == |d| && HEADER <= p && Moved(c, 0, p, m, 0) && Others(m, d, 0, OFF_STRINGS)
    ensures OffRsv(d) == OffRsv(c) && OffStruct(d) == OffStruct(c) && SizeStruct(d) == SizeStruct(c)
            && SizeStrings(d) == SizeStrings(c)
    ensures Version(d) == Version(c) && Get32(d, LAST_COMP) == Get32(c, LAST_COMP)
  {
    hide Get32, Moved;
    MovedGet(c, 0, p, m, 0, OFF_RSVMAP);
    MovedGet(c, 0, p, m, 0, OFF_STRUCT);
    MovedGet(c, 0, p, m, 0, SIZE_STRUCT);
    MovedGet(c, 0, p, m, 0, SIZE_STRINGS);
    MovedGet(c, 0, p, m, 0, VERSION);
    MovedGet(c, 0, p, m, 0, LAST_COMP);
    assert SameCell(m, d, 0, OFF_RSVMAP) && SameCell(m, d, 0, OFF_STRUCT) && SameCell(m, d, 0, SIZE_STRUCT);
    assert SameCell(m, d, 0, SIZE_STRINGS) && SameCell(m, d, 0, VERSION) && SameCell(m, d, 0, LAST_COMP);
  }

  lemma TailSpelled(c: seq<byte>, d: seq<byte>, k: int)
    requires Buffer(c) && SizeStrings(c) <= |c| && Moved(c, |c| - SizeStrings(c), |c|, d, k)
    ensures Spells(d, |c| - SizeStrings(c) + k, Tail(c))
  {
    hide Get32;
    var t, o := Tail(c), |c| - SizeStrings(c);
    forall i {:trigger t[i]} | 0 <= i < |t| ensures d[o + k + i] == t[i] {
      assert c[o + i] == t[i];
    }
  }

  lemma MovedStruct(c: seq<byte>, d: seq<byte>, l: Tokens, rs: seq<Reservation>, p: int)
    requires p == StructAt(rs) + Len(l) + 4 && Moved(c, HEADER, p, d, 0) && BlocksFit(d)
    requires Reads(c, StructAt(rs), l) && TagAt(c, StructAt(rs) + Len(l), END)
    requires OffStruct(d) == StructAt(rs) && SizeStruct(d) == Len(l) + 4
    ensures Spelled(Struct(d), 0, l)
  {
    hide Get32, Reads, Moved, Len;
    var os := StructAt(rs);
    SubMoved(c, HEADER, p, d, 0, os, p);
    SliceMoved(c, os, p, d, 0, 0, |c|, os, os + SizeStruct(d));
    assert c[0..|c|] == c;
    MovedReads(c, os, p, Struct(d), -os, l, os);
    MovedGet(c, os, p, Struct(d), -os, os + Len(l));
  }

  /** The last two header stores. */
  lemma FinishedIs(d: seq<byte>, e: seq<byte>, g: seq<byte>, rs: seq<Reservation>, l: Tokens, t: seq<byte>)
    requires Laid(d, rs, Len(l) + 4, t) && BlocksFit(d) && Spelled(Struct(d), 0, Reloc(l, |t|))
    requires Confined(d, e, 0, 0, 0) && Others(d, e, 0, TOTALSIZE)
             && Get32(e, TOTALSIZE) == StructAt(rs) + Len(l) + 4 + |t|
    requires Confined(e, g, 0, 0, 0) && Others(e, g, 0, MAGIC) && Get32(g, MAGIC) == FDT_MAGIC
    ensures Finished(g, rs, l, t)
  {
    hide Get32, Reservations, Moved, Others, Confined, Spells, Len, Spelled, Reloc;
    ConfinedMoved(d, e);
    ConfinedMoved(e, g);
    MovedThen(d, HEADER, |d|, e, 0, g, 0);
    FinalCells(d, e, g);
    var p := StructAt(rs) + Len(l) + 4;
    MovedReservations(d, HEADER, |d|, g, 0, RSV_START);
    SubMoved(d, HEADER, |d|, g, 0, StructAt(rs), p);
    SliceEqual(d, StructAt(rs), p, g, 0);
    MovedSpells(d, HEADER, |d|, g, 0, p, t);
    SliceIs(g, p, t);
  }

  lemma FinalCells(d: seq<byte>, e: seq<byte>, g: seq<byte>)
    requires Buffer(d) && |e| == |d| == |g| && Others(d, e, 0, TOTALSIZE) && Others(e, g, 0, MAGIC)
    ensures OffRsv(g) == OffRsv(d) && OffStruct(g) == OffStruct(d) && SizeStruct(g) == SizeStruct(d)
            && SizeStrings(g) == SizeStrings(d)
    ensures Version(g) == Version(d) && Get32(g, LAST_COMP) == Get32(d, LAST_COMP) && OffStrings(g) == OffStrings(d)
            && TotalSize(g) == TotalSize(e)
  {
    hide Get32;
    assert SameCell(d, e, 0, OFF_RSVMAP) && SameCell(d, e, 0, OFF_STRUCT) && SameCell(d, e, 0, SIZE_STRUCT)
           && SameCell(d, e, 0, SIZE_STRINGS);
    assert SameCell(d, e, 0, VERSION) && SameCell(d, e, 0, LAST_COMP) && SameCell(d, e, 0, OFF_STRINGS);
    assert SameCell(e, g, 0, OFF_RSVMAP) && SameCell(e, g, 0, OFF_STRUCT) && SameCell(e, g, 0, SIZE_STRUCT)
           && SameCell(e, g, 0, SIZE_STRINGS);
    assert SameCell(e, g, 0, VERSION) && SameCell(e, g, 0, LAST_COMP) && SameCell(e, g, 0, OFF_STRINGS)
           && SameCell(e, g, 0, TOTALSIZE);
  }

  /** The terminator and the move of the strings block. */
  method CloseBlocks(a: array<byte>, ghost l: Tokens, ghost rs: seq<Reservation>) returns (newstroffset: int)
    requires Growing(a[..], l, rs, 4)
    modifies a
    ensures newstroffset == StructAt(rs) + Len(l) + 4
    ensures Laid(a[..], rs, Len(l) + 4, old(Tail(a[..]))) && BlocksFit(a[..]) && Spelled(Struct(a[..]), 0, l)
  {
    hide Get32, Reads, TokensNamed, Reservations, Moved, Others, Confined, Len, Word, Overlay, Tail, Laid, Spelled,
         BlocksFit;
    ghost var b, p := a[..], StructAt(rs) + Len(l);
    GapBound(b, l, rs, 4);
    GapWrite(b, l, rs, 4, p, Word(END));
    OverlayWord(b, p, END);
    var offStruct := Load32(a[..], OFF_STRUCT);
    var sizeStruct := Load32(a[..], SIZE_STRUCT);
    Store32(a, offStruct + sizeStruct - 4, END);
    ghost var c := a[..];
    GrowingRoom(c, l, rs);
    var total := Load32(a[..], TOTALSIZE);
    var sizeStrings := Load32(a[..], SIZE_STRINGS);
    newstroffset := offStruct + sizeStruct;
    MoveWithin(a, newstroffset, total - sizeStrings, sizeStrings);
    ghost var m := a[..];
    assert m == Overlay(c, newstroffset, c[total - sizeStrings..total - sizeStrings + sizeStrings]);
    OverlayMoved(c, newstroffset, c[total - sizeStrings..total - sizeStrings + sizeStrings], 0, newstroffset);
    MovedTo(c, newstroffset, total - sizeStrings, sizeStrings);
    StoreCell(a, 0, OFF_STRINGS, newstroffset);
    LaidOut(c, m, a[..], l, rs);
  }

  lemma MovedTo(c: seq<byte>, dst: int, src: int, n: int)
    requires 0 <= n && 0 <= src && src + n <= |c| && 0 <= dst && dst + n <= |c|
    ensures Moved(c, src, src + n, Overlay(c, dst, c[src..src + n]), dst - src)
  {
    ShiftTo(c, dst, src, n, Overlay(c, dst, c[src..src + n]));
  }

  lemma GrowingRoom(b: seq<byte>, l: Tokens, rs: seq<Reservation>)
    requires Growing(b, l, rs, 4)
    ensures Buffer(b) && OffStruct(b) == StructAt(rs) && SizeStruct(b) == Len(l) + 4 && TotalSize(b) == |b|
    ensures StructAt(rs) + Len(l) + 4 + SizeStrings(b) <= |b|
  {
    hide Get32, Reads, TokensNamed, Reservations;
  }

  /** `fdt_finish`. */
  method FdtFinish(a: array<byte>, ghost l: Tokens, ghost rs: seq<Reservation>) returns (err: int)
    requires Written(a[..], l, rs)
    modifies a
    ensures err == if old(StructAt(rs) + Len(l) + 4 + SizeStrings(a[..]) <= a.Length) then 0 else NOSPACE
    ensures err != 0 ==> a[..] == old(a[..])
    ensures err == 0 ==> Finished(a[..], rs, l, old(Tail(a[..])))
  {
    hide Get32, Reads, TokensNamed, Reservations, Others, Confined, Len, Tail, Laid, Spelled, Finished, Growing,
         Struct, Reloc;
    WrittenOpen(a[..], l, rs);
    err := FdtSwCheckHeader(a[..]);
    if err != 0 {
      return;
    }
    ghost var t := Tail(a[..]);
    var offset := FdtGrabSpace(a, 4, l, rs);
    if offset < 0 {
      return NOSPACE;
    }
    var newstroffset := CloseBlocks(a, l, rs);
    var nextoffset := Relocate(a, l, rs, t);
    if nextoffset < 0 {
      return nextoffset;
    }
    ghost var d := a[..];
    LaidFits(d, rs, Len(l) + 4, t);
    LaidTotal(d, rs, Len(l) + 4, t);
    var sizeStrings := Load32(a[..], SIZE_STRINGS);
    StoreCell(a, 0, TOTALSIZE, newstroffset + sizeStrings);
    ghost var e := a[..];
    StoreCell(a, 0, MAGIC, FDT_MAGIC);
    FinishedIs(d, e, a[..], rs, l, t);
    return 0;
  }

  lemma LaidTotal(b: seq<byte>, rs: seq<Reservation>, n: int, t: seq<byte>)
    requires Laid(b, rs, n, t)
    ensures 0 <= StructAt(rs) + n + |t| <= |b|
  {
    hide Get32, Reservations, Spells;
  }
}
