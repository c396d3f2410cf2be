/** Starting a blob with the sequential writer: creating it and its reservation block. */
module Builder {
  import opened Words
  import opened Tokens
  import opened Tokenizer
  import opened Blob
  import opened Splice
  import opened Edit
  import opened Subnodes
  import opened Repack
  import opened Writer

  /** The reservation entries `rs` stand one after the other. */
  ghost predicate EntriesAt(b: seq<byte>, rs: seq<Reservation>) {
    forall i :: 0 <= i < |rs| ==> EntryIs(b, i, rs[i])
  }

  ghost predicate EntryIs(b: seq<byte>, i: int, e: Reservation) {
    0 <= i && RSV_START + 16 * i + 16 <= |b| && EntryAt(b, RSV_START + 16 * i) == e
  }

  /** A blob whose reservation block is still being written. */
  ghost predicate Reserving(b: seq<byte>, rs: seq<Reservation>) {
    SwHeader(b, RSV_START + 16 * |rs|, 0, 0) && EntriesAt(b, rs)
  }

  lemma ZeroCell(b: seq<byte>, i: int)
    requires 0 <= i && i + 4 <= |b| && b[i] == 0 && b[i + 1] == 0 && b[i + 2] == 0 && b[i + 3] == 0
    ensures Get32(b, i) == 0
  {
    CellExists(b, i);
    CellUnique(b, i, Value(b[i], b[i + 1], b[i + 2], b[i + 3]));
  }

  /** `fdt_create`, which takes the whole buffer. */
  method FdtCreate(a: array<byte>) returns (err: int)
    requires a.Length < INT_LIMIT
    modifies a
    ensures err == if a.Length < HEADER then NOSPACE else 0
    ensures err != 0 ==> a[..] == old(a[..])
    ensures err == 0 ==> Reserving(a[..], [])
  {
    hide Get32, Confined, Others, Overlay;
    if a.Length < HEADER {
      return NOSPACE;
    }
    CopyIn(a, 0, Zeros(a.Length));
    ghost var m0 := a[..];
    AllZero(m0);
    StoreCell(a, 0, MAGIC, SW_MAGIC);
    ghost var m1 := a[..];
    StoreCell(a, 0, VERSION, LAST_VERSION);
    ghost var m2 := a[..];
    StoreCell(a, 0, LAST_COMP, FIRST_VERSION);
    ghost var m3 := a[..];
    StoreCell(a, 0, TOTALSIZE, a.Length);
    ghost var m4 := a[..];
    StoreCell(a, 0, OFF_RSVMAP, RSV_START);
    ghost var m5 := a[..];
    var offRsv := Load32(a[..], OFF_RSVMAP);
    StoreCell(a, 0, OFF_STRUCT, offRsv);
    ghost var m6 := a[..];
    StoreCell(a, 0, OFF_STRINGS, a.Length);
    CreatedCells(m0, m1, m2, m3, m4, m5, m6, a[..]);
    return 0;
  }

  lemma AllZero(b: seq<byte>)
    requires Buffer(b) && b == Overlay(b, 0, Zeros(|b|))
    ensures SizeStruct(b) == 0 && SizeStrings(b) == 0
  {
    hide Get32;
    ZeroCell(b, SIZE_STRUCT);
    ZeroCell(b, SIZE_STRINGS);
  }

  lemma CreatedCells(m0: seq<byte>, m1: seq<byte>, m2: seq<byte>, m3: seq<byte>, m4: seq<byte>, m5: seq<byte>,
                     m6: seq<byte>, m7: seq<byte>)
    requires Others(m0, m1, 0, MAGIC) && Others(m1, m2, 0, VERSION) && Others(m2, m3, 0, LAST_COMP)
             && Others(m3, m4, 0, TOTALSIZE)
    requires Others(m4, m5, 0, OFF_RSVMAP) && Others(m5, m6, 0, OFF_STRUCT) && Others(m6, m7, 0, OFF_STRINGS)
    ensures SameCell(m0, m7, 0, SIZE_STRUCT) && SameCell(m0, m7, 0, SIZE_STRINGS) && SameCell(m1, m7, 0, MAGIC)
            && SameCell(m2, m7, 0, VERSION)
    ensures SameCell(m3, m7, 0, LAST_COMP) && SameCell(m4, m7, 0, TOTALSIZE) && SameCell(m5, m7, 0, OFF_RSVMAP)
            && SameCell(m6, m7, 0, OFF_STRUCT)
  {
    hide Get32;
    forall z | z == SIZE_STRUCT || z == SIZE_STRINGS ensures SameCell(m0, m7, 0, z) {
      assert SameCell(m0, m1, 0, z) && SameCell(m1, m2, 0, z) && SameCell(m2, m3, 0, z) && SameCell(m3, m4, 0, z);
      assert SameCell(m4, m5, 0, z) && SameCell(m5, m6, 0, z) && SameCell(m6, m7, 0, z);
    }
    assert SameCell(m1, m2, 0, MAGIC) && SameCell(m2, m3, 0, MAGIC) && SameCell(m3, m4, 0, MAGIC)
           && SameCell(m4, m5, 0, MAGIC) && SameCell(m5, m6, 0, MAGIC) && SameCell(m6, m7, 0, MAGIC);
    assert SameCell(m2, m3, 0, VERSION) && SameCell(m3, m4, 0, VERSION) && SameCell(m4, m5, 0, VERSION)
           && SameCell(m5, m6, 0, VERSION) && SameCell(m6, m7, 0, VERSION);
    assert SameCell(m3, m4, 0, LAST_COMP) && SameCell(m4, m5, 0, LAST_COMP) && SameCell(m5, m6, 0, LAST_COMP)
           && SameCell(m6, m7, 0, LAST_COMP);
    assert SameCell(m4, m5, 0, TOTALSIZE) && SameCell(m5, m6, 0, TOTALSIZE) && SameCell(m6, m7, 0, TOTALSIZE);
    assert SameCell(m5, m6, 0, OFF_RSVMAP) && SameCell(m6, m7, 0, OFF_RSVMAP);
    assert SameCell(m6, m7, 0, OFF_STRUCT);
  }

  ghost function EntryWritten(b: seq<byte>, o: int, e: Reservation): seq<byte>
    requires 0 <= o && o + 16 <= |b|
  {
    Overlay(Overlay(Overlay(Overlay(b, o, Word(e.addrHi)), o + 4, Word(e.addrLo)), o + 8, Word(e.sizeHi)), o + 12,
            Word(e.sizeLo))
  }

  lemma EntryStored(b: seq<byte>, o: int, e: Reservation)
    requires 0 <= o && o + 16 <= |b|
    ensures EntryAt(EntryWritten(b, o, e), o) == e
  {
    hide Get32, Word, Overlay;
    var b1 := Overlay(b, o, Word(e.addrHi));
    var b2 := Overlay(b1, o + 4, Word(e.addrLo));
    var b3 := Overlay(b2, o + 8, Word(e.sizeHi));
    var c := Overlay(b3, o + 12, Word(e.sizeLo));
    OverlayWord(b, o, e.addrHi);
    OverlayGet(b1, o + 4, Word(e.addrLo), o);
    OverlayGet(b2, o + 8, Word(e.sizeHi), o);
    OverlayGet(b3, o + 12, Word(e.sizeLo), o);
    OverlayWord(b1, o + 4, e.addrLo);
    OverlayGet(b2, o + 8, Word(e.sizeHi), o + 4);
    OverlayGet(b3, o + 12, Word(e.sizeLo), o + 4);
    OverlayWord(b2, o + 8, e.sizeHi);
    OverlayGet(b3, o + 12, Word(e.sizeLo), o + 8);
    OverlayWord(b3, o + 12, e.sizeLo);
  }

  lemma EntryAround(b: seq<byte>, o: int, e: Reservation)
    requires 0 <= o && o + 16 <= |b|
    ensures Moved(b, 0, o, EntryWritten(b, o, e), 0)
  {
    hide Word;
  }

  lemma EntriesGrow(b: seq<byte>, c: seq<byte>, d: seq<byte>, rs: seq<Reservation>, e: Reservation)
    requires EntriesAt(b, rs) && |c| == |b| && RSV_START + 16 * |rs| + 16 <= |b|
    requires Moved(b, 0, RSV_START + 16 * |rs|, c, 0) && EntryAt(c, RSV_START + 16 * |rs|) == e
    requires Moved(c, HEADER, |c|, d, 0) && |d| == |c|
    ensures EntriesAt(d, rs + [e])
  {
    hide Get32, Moved;
    forall i | 0 <= i < |rs + [e]| ensures EntryIs(d, i, (rs + [e])[i]) {
      MovedEntry(c, HEADER, |c|, d, 0, RSV_START + 16 * i);
      if i < |rs| {
        assert EntryIs(b, i, rs[i]);
        MovedEntry(b, 0, RSV_START + 16 * |rs|, c, 0, RSV_START + 16 * i);
      }
    }
  }

  /** `fdt_add_reservemap_entry`. */
  method FdtAddReservemapEntry(a: array<byte>, e: Reservation, ghost rs: seq<Reservation>) returns (err: int)
    requires Buffer(a[..]) && Get32(a[..], MAGIC) == SW_MAGIC && (SizeStruct(a[..]) == 0 ==> Reserving(a[..], rs))
    modifies a
    ensures err == if old(SizeStruct(a[..])) != 0 then BADSTATE
                   else if RSV_START + 16 * |rs| + 16 > a.Length then NOSPACE else 0
    ensures err != 0 ==> a[..] == old(a[..])
    ensures err == 0 ==> Reserving(a[..], rs + [e])
  {
    hide Get32, Word, Overlay, Moved, Confined, Others, EntriesAt;
    ghost var b := a[..];
    err := FdtSwCheckHeader(a[..]);
    if err != 0 {
      return;
    }
    var size := Load32(a[..], SIZE_STRUCT);
    if size != 0 {
      return BADSTATE;
    }
    var offset: int := Load32(a[..], OFF_STRUCT);
    var total := Load32(a[..], TOTALSIZE);
    if offset + 16 > total {
      return NOSPACE;
    }
    Store32(a, offset, e.addrHi);
    Store32(a, offset + 4, e.addrLo);
    Store32(a, offset + 8, e.sizeHi);
    Store32(a, offset + 12, e.sizeLo);
    ghost var c := a[..];
    assert c == EntryWritten(b, offset, e);
    EntryStored(b, offset, e);
    EntryAround(b, offset, e);
    EntryHeader(b, offset, e);
    StoreCell(a, 0, OFF_STRUCT, offset + 16);
    HeaderStoredAt(c, a[..], OFF_STRUCT);
    assert SwHeader(c, RSV_START + 16 * |rs|, 0, 0);
    EntriesGrow(b, c, a[..], rs, e);
    return 0;
  }

  lemma EntryHeader(b: seq<byte>, o: int, e: Reservation)
    requires Buffer(b) && HEADER <= o && o + 16 <= |b|
    ensures forall os, n, z :: SwHeader(b, os, n, z) ==> SwHeader(EntryWritten(b, o, e), os, n, z)
  {
    hide Get32, Word, Overlay;
    var b1 := Overlay(b, o, Word(e.addrHi));
    var b2 := Overlay(b1, o + 4, Word(e.addrLo));
    var b3 := Overlay(b2, o + 8, Word(e.sizeHi));
    HeaderKept(b, o, Word(e.addrHi));
    HeaderKept(b1, o + 4, Word(e.addrLo));
    HeaderKept(b2, o + 8, Word(e.sizeHi));
    HeaderKept(b3, o + 12, Word(e.sizeLo));
  }

  const LAST_ENTRY := Reservation(0, 0, 0, 0)

  lemma {:induction false} EntriesRead(b: seq<byte>, rs: seq<Reservation>, i: nat)
    requires EntriesAt(b, rs + [LAST_ENTRY]) && i <= |rs|
    ensures Reservations(b, RSV_START + 16 * i) == Some(Heeded(rs[i..]))
    decreases |rs| - i
  {
    hide Get32;
    assert EntryIs(b, i, (rs + [LAST_ENTRY])[i]);
    if i < |rs| {
      assert rs[i..][0] == rs[i] && rs[i..][1..] == rs[i + 1..];
      EntriesRead(b, rs, i + 1);
    }
  }

  /** `fdt_finish_reservemap`. */
  method FdtFinishReservemap(a: array<byte>, ghost rs: seq<Reservation>) returns (err: int)
    requires Reserving(a[..], rs)
    modifies a
    ensures err == if StructAt(rs) > a.Length then NOSPACE else 0
    ensures err != 0 ==> a[..] == old(a[..])
    ensures err == 0 ==> Written(a[..], Nil, rs) && Tail(a[..]) == []
  {
    hide Get32, EntriesAt;
    err := FdtAddReservemapEntry(a, LAST_ENTRY, rs);
    if err == 0 {
      EntriesRead(a[..], rs, 0);
      assert rs[0..] == rs;
    }
  }
}
