/** The blob: header, memory reservation block, structure block and strings block in one buffer. */
module Blob {
  import opened Words
  import opened Tokens
  import opened Structure
  import opened Tokenizer
  import opened Tree

  const FDT_MAGIC: u32 := 0xd00d_feed
  const SW_MAGIC: u32 := 0x2ff2_0112
  const FIRST_VERSION := 0x10
  const LAST_VERSION := 0x11

  const HEADER := 40
  const MAGIC := 0
  const TOTALSIZE := 4
  const OFF_STRUCT := 8
  const OFF_STRINGS := 12
  const OFF_RSVMAP := 16
  const VERSION := 20
  const LAST_COMP := 24
  const BOOT_CPUID := 28
  const SIZE_STRINGS := 32
  const SIZE_STRUCT := 36

  /** A buffer with room for a header, whose size is a C `int`. */
  ghost predicate Buffer(b: seq<byte>) {
    HEADER <= |b| < INT_LIMIT
  }

  ghost function TotalSize(b: seq<byte>): u32 requires Buffer(b) { Get32(b, TOTALSIZE) }
  ghost function OffStruct(b: seq<byte>): u32 requires Buffer(b) { Get32(b, OFF_STRUCT) }
  ghost function OffStrings(b: seq<byte>): u32 requires Buffer(b) { Get32(b, OFF_STRINGS) }
  ghost function OffRsv(b: seq<byte>): u32 requires Buffer(b) { Get32(b, OFF_RSVMAP) }
  ghost function Version(b: seq<byte>): u32 requires Buffer(b) { Get32(b, VERSION) }
  ghost function SizeStrings(b: seq<byte>): u32 requires Buffer(b) { Get32(b, SIZE_STRINGS) }
  ghost function SizeStruct(b: seq<byte>): u32 requires Buffer(b) { Get32(b, SIZE_STRUCT) }

  /** `fdt_check_header`. */
  ghost function CheckHeader(b: seq<byte>): int
    requires Buffer(b)
  {
    if Get32(b, MAGIC) == FDT_MAGIC then
      if Version(b) < FIRST_VERSION || Get32(b, LAST_COMP) > LAST_VERSION then BADVERSION else 0
    else if Get32(b, MAGIC) == SW_MAGIC then
      if SizeStruct(b) == 0 then BADSTATE else 0
    else BADMAGIC
  }

  /** Each answer of the check by the header cells. */
  lemma HeaderPlainly(b: seq<byte>)
    requires Buffer(b)
    ensures var err := CheckHeader(b);
            && (err == BADMAGIC <==> Get32(b, 0) != 0xd00d_feed && Get32(b, 0) != 0x2ff2_0112)
            && (err == BADSTATE <==> Get32(b, 0) == 0x2ff2_0112 && Get32(b, 36) == 0)
            && (err == BADVERSION <==> Get32(b, 0) == 0xd00d_feed && (Get32(b, 20) < 16 || Get32(b, 24) > 17))
            && (err == 0 || err == BADMAGIC || err == BADSTATE || err == BADVERSION)
  {
    hide Get32;
  }

  /** `fdt_check_header`. */
  method FdtCheckHeader(b: seq<byte>) returns (err: int)
    requires Buffer(b)
    ensures err == CheckHeader(b)
  {
    var magic := Load32(b, MAGIC);
    var version := Load32(b, VERSION);
    var lastComp := Load32(b, LAST_COMP);
    var sizeStruct := Load32(b, SIZE_STRUCT);
    if magic == FDT_MAGIC {
      if version < FIRST_VERSION || lastComp > LAST_VERSION {
        return BADVERSION;
      }
    } else if magic == SW_MAGIC {
      if sizeStruct == 0 {
        return BADSTATE;
      }
    } else {
      return BADMAGIC;
    }
    return 0;
  }

  /** One 16-byte reservation entry: the cells of its 64-bit address and size. */
  datatype Reservation = Reservation(addrHi: u32, addrLo: u32, sizeHi: u32, sizeLo: u32)

  ghost function EntryAt(b: seq<byte>, o: int): Reservation
    requires 0 <= o && o + 16 <= |b|
  {
    Reservation(Get32(b, o), Get32(b, o + 4), Get32(b, o + 8), Get32(b, o + 12))
  }

  /** The reservations from `o` up to the first entry of size zero. */
  ghost function Reservations(b: seq<byte>, o: int): Option<seq<Reservation>>
    decreases |b| - o
  {
    if o < 0 || o + 16 > |b| then None
    else if EntryAt(b, o).sizeHi == 0 && EntryAt(b, o).sizeLo == 0 then Some([])
    else
      match Reservations(b, o + 16)
      case Some(r) => Some([EntryAt(b, o)] + r)
      case None => None
  }

  /** Bytes of a reservation list with its terminator: `(fdt_num_mem_rsv + 1) * 16`. */
  function RsvSize(r: seq<Reservation>): nat {
    16 * (|r| + 1)
  }

  lemma {:induction false} ReservationsFit(b: seq<byte>, o: int)
    requires Reservations(b, o).Some?
    ensures 0 <= o && o + RsvSize(Reservations(b, o).value) <= |b|
    decreases |b| - o
  {
    if !(EntryAt(b, o).sizeHi == 0 && EntryAt(b, o).sizeLo == 0) {
      ReservationsFit(b, o + 16);
    }
  }

  lemma MovedEntry(s: seq<byte>, o: int, e: int, t: seq<byte>, d: int, i: int)
    requires Moved(s, o, e, t, d) && o <= i && i + 16 <= e
    ensures EntryAt(t, i + d) == EntryAt(s, i)
  {
    MovedGet(s, o, e, t, d, i);
    MovedGet(s, o, e, t, d, i + 4);
    MovedGet(s, o, e, t, d, i + 8);
    MovedGet(s, o, e, t, d, i + 12);
  }

  /** A moved reservation block lists the same reservations. */
  lemma {:induction false} MovedReservations(s: seq<byte>, o: int, e: int, t: seq<byte>, d: int, i: int)
    requires Reservations(s, i).Some? && Moved(s, o, e, t, d) && o <= i
    requires i + RsvSize(Reservations(s, i).value) <= e
    ensures Reservations(t, i + d) == Reservations(s, i)
    decreases |s| - i
  {
    hide Moved;
    assert i + 16 <= e;
    MovedEntry(s, o, e, t, d, i);
    assert 0 <= i + d && i + d + 16 <= |t| by { MovedBounds(s, o, e, t, d); }
    if !(EntryAt(s, i).sizeHi == 0 && EntryAt(s, i).sizeLo == 0) {
      MovedReservations(s, o, e, t, d, i + 16);
    }
  }

  lemma MovedBounds(s: seq<byte>, o: int, e: int, t: seq<byte>, d: int)
    requires Moved(s, o, e, t, d)
    ensures 0 <= o <= e <= |s| && 0 <= o + d && e + d <= |t|
  {
  }

  /** The blocks lie in the buffer one after the other: reservations, structure, strings. */
  ghost predicate InOrder(b: seq<byte>) {
    && Buffer(b)
    && Reservations(b, OffRsv(b)).Some?
    && HEADER <= OffRsv(b)
    && OffRsv(b) + RsvSize(Reservations(b, OffRsv(b)).value) <= OffStruct(b)
    && OffStruct(b) + SizeStruct(b) <= OffStrings(b)
    && OffStrings(b) + SizeStrings(b) <= TotalSize(b) <= |b|
  }

  /** There is room for `n` more bytes behind the strings block. */
  ghost predicate Room(b: seq<byte>, n: int)
    requires Buffer(b)
  {
    OffStrings(b) + SizeStrings(b) + n <= TotalSize(b)
  }

  ghost predicate BlocksFit(b: seq<byte>) {
    Buffer(b) && OffStruct(b) + SizeStruct(b) <= |b| && OffStrings(b) + SizeStrings(b) <= |b|
  }

  ghost function Struct(b: seq<byte>): (s: seq<byte>)
    requires BlocksFit(b)
    ensures |s| == SizeStruct(b) < INT_LIMIT
  {
    b[OffStruct(b)..OffStruct(b) + SizeStruct(b)]
  }

  ghost function Strings(b: seq<byte>): (s: seq<byte>)
    requires BlocksFit(b)
    ensures |s| == SizeStrings(b) < INT_LIMIT
  {
    b[OffStrings(b)..OffStrings(b) + SizeStrings(b)]
  }

  ghost predicate OnlyNops(f: Forest) {
    f.Stop? || (f.Leaf? && f.item.Nop? && OnlyNops(f.rest))
  }

  /** One root node at structure offset 0, followed at most by NOPs. */
  ghost predicate Rooted(f: Forest) {
    f.Node? && OnlyNops(f.rest)
  }

  /** Version 17 or later; the structure block spells a rooted forest whose property names resolve. */
  ghost predicate Readable(b: seq<byte>) {
    && BlocksFit(b) && Version(b) >= 17
    && Decode(Struct(b)).Some?
    && Rooted(Decode(Struct(b)).value)
    && Named(Decode(Struct(b)).value, Strings(b))
  }

  ghost function Stored(b: seq<byte>): Forest
    requires Readable(b)
  {
    Decode(Struct(b)).value
  }

  /** The device tree that the blob means. */
  ghost function TreeOf(b: seq<byte>): Content
    requires Readable(b)
  {
    Meaning(Stored(b), Strings(b))
  }

  /** A complete version 17 blob with its blocks in order. */
  ghost predicate WellFormed(b: seq<byte>) {
    && InOrder(b)
    && Get32(b, MAGIC) == FDT_MAGIC && Get32(b, LAST_COMP) <= LAST_VERSION
    && Readable(b)
  }

  ghost function Reserved(b: seq<byte>): seq<Reservation>
    requires InOrder(b)
  {
    Reservations(b, OffRsv(b)).value
  }

  /** `p` is the place of a node, and `o` its structure offset. */
  ghost predicate NodeAt(b: seq<byte>, p: Pos, o: int) {
    Readable(b) && Valid(Stored(b), p) && At(Stored(b), p).Node? && o == Off(Stored(b), p)
  }

  /** What a readable block spells, in the form the tokenizer walks it. */
  lemma StoredSpelled(b: seq<byte>)
    requires Readable(b)
    ensures Spelled(Struct(b), 0, Flat(Stored(b)))
  {
    DecodeExact(Struct(b), Stored(b));
  }

  /** How to show that a blob is readable: exhibit the forest that it spells. */
  lemma ReadableFrom(b: seq<byte>, f: Forest)
    requires BlocksFit(b) && Version(b) >= 17 && Spelled(Struct(b), 0, Flat(f)) && Rooted(f) && Named(f, Strings(b))
    ensures Readable(b) && Stored(b) == f
  {
    hide Decode, Spelled, Flat, Named, Rooted;
    DecodeExact(Struct(b), f);
  }

  /** The tokens from a place to the end of the block. */
  ghost function Onward(f: Forest, p: Pos): Tokens
    requires Valid(f, p)
  {
    Append(Flat(At(f, p)), After(f, p))
  }

  lemma OnwardSpelled(b: seq<byte>, p: Pos)
    requires Readable(b) && Valid(Stored(b), p)
    ensures Spelled(Struct(b), Off(Stored(b), p), Onward(Stored(b), p)) && Off(Stored(b), p) % 4 == 0
  {
    hide Decode, Named, Rooted, Get32, TokenAt, Flat, After, Before, TokenLen;
    var f, s := Stored(b), Struct(b);
    StoredSpelled(b);
    FlatAt(f, p);
    ReadsAppend(s, 0, Before(f, p), Onward(f, p));
    LenAppend(Before(f, p), Onward(f, p));
    LenAligned(Before(f, p));
  }
}
