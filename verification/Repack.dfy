/**
`_fdt_packblocks` and `fdt_pack`, and what carrying the blocks of a blob over means.  One array is the
memory; the blob and the destination buffer are address ranges in it, which may overlap.
*/
module Repack {
  import opened Words
  import opened Tokens
  import opened Structure
  import opened Tokenizer
  import opened Tree
  import opened Blob
  import opened Splice
  import opened Edit

  /** `fdt_num_mem_rsv`. */
  method FdtNumMemRsv(b: seq<byte>) returns (n: int)
    requires Buffer(b) && Reservations(b, OffRsv(b)).Some?
    ensures n == |Reservations(b, OffRsv(b)).value|
    ensures 0 <= n && OffRsv(b) + 16 * n + 16 <= |b|
    ensures Get32(b, OffRsv(b) + 16 * n + 8) == 0 && Get32(b, OffRsv(b) + 16 * n + 12) == 0
    ensures forall k :: 0 <= k < n ==>
              Get32(b, OffRsv(b) + 16 * k + 8) != 0 || Get32(b, OffRsv(b) + 16 * k + 12) != 0
  {
    hide Get32;
    var off := Load32(b, OFF_RSVMAP);
    n := 0;
    while true
      invariant n >= 0 && Reservations(b, off + 16 * n).Some?
      invariant |Reservations(b, off).value| == n + |Reservations(b, off + 16 * n).value|
      invariant forall k :: 0 <= k < n ==>
        off + 16 * k + 16 <= |b| && (Get32(b, off + 16 * k + 8) != 0 || Get32(b, off + 16 * k + 12) != 0)
      decreases |b| - 16 * n
    {
      var hi := Load32(b, off + 16 * n + 8);
      var lo := Load32(b, off + 16 * n + 12);
      if hi == 0 && lo == 0 {
        return;
      }
      n := n + 1;
    }
  }

  /** The strings block, which every version locates the same way. */
  ghost function StringsOf(b: seq<byte>): seq<byte>
    requires Buffer(b) && OffStrings(b) + SizeStrings(b) <= |b|
  {
    b[OffStrings(b)..OffStrings(b) + SizeStrings(b)]
  }

  /** From the start of the structure block to the end of the buffer. */
  ghost function StructOnward(b: seq<byte>): seq<byte>
    requires Buffer(b) && OffStruct(b) <= |b|
  {
    b[OffStruct(b)..]
  }

  /** A complete blob of version 16 or later, with its blocks in any order, that stores the forest `f`. */
  ghost predicate Opens(b: seq<byte>, f: Forest) {
    && Buffer(b) && TotalSize(b) <= |b|
    && Get32(b, MAGIC) == FDT_MAGIC && CheckHeader(b) == 0
    && Reservations(b, OffRsv(b)).Some?
    && OffStruct(b) + Size(f) + 4 <= |b| && OffStrings(b) + SizeStrings(b) <= |b|
    && Reads(StructOnward(b), 0, Flat(f)) && TagAt(StructOnward(b), Size(f), END)
    && (Version(b) >= 17 ==> SizeStruct(b) == Size(f) + 4)
    && Rooted(f) && Named(f, StringsOf(b))
  }

  /** The loop that finds the size of a version 16 structure block. */
  method StructSize(w: seq<byte>, ghost f: Forest) returns (size: int)
    requires |w| < INT_LIMIT && Reads(w, 0, Flat(f)) && TagAt(w, Size(f), END)
    ensures size == Size(f) + 4
  {
    hide NextTag, TokenAt, TagAt, TokenLen;
    size := 0;
    ghost var l := Flat(f);
    while true
      invariant Reads(w, size, l) && size % 4 == 0 && size + Len(l) == Size(f)
      decreases l
    {
      var tag, next;
      if l.Nil? {
        NextTagOnEnd(w, size);
      } else {
        NextTagOnToken(w, size, l.head);
        TokenAligned(size, l.head);
      }
      tag, next := FdtNextTag(w, size);
      size := next;
      if tag == END {
        return;
      }
      l := l.tail;
    }
  }

  /** `c` holds the blocks of `b`, `rsv` and `st` bytes of the first two, one after the other where its header says. */
  ghost predicate Carried(b: seq<byte>, c: seq<byte>, rsv: int, st: int) {
    && Buffer(b) && Buffer(c) && rsv >= 0 && st >= 0
    && HEADER <= OffRsv(c) && OffRsv(c) + rsv <= OffStruct(c) && SizeStruct(c) == st
    && OffStruct(c) + st <= OffStrings(c) && SizeStrings(c) == SizeStrings(b)
    && Moved(b, OffRsv(b), OffRsv(b) + rsv, c, OffRsv(c) - OffRsv(b))
    && Moved(b, OffStruct(b), OffStruct(b) + st, c, OffStruct(c) - OffStruct(b))
    && Moved(b, OffStrings(b), OffStrings(b) + SizeStrings(b), c, OffStrings(c) - OffStrings(b))
  }

  ghost function RsvBytes(b: seq<byte>): int
    requires Buffer(b) && Reservations(b, OffRsv(b)).Some?
  {
    RsvSize(Reservations(b, OffRsv(b)).value)
  }

  /** The other header cells are fit for use. */
  ghost predicate Usable(c: seq<byte>) {
    && Buffer(c) && Get32(c, MAGIC) == FDT_MAGIC && Get32(c, LAST_COMP) <= LAST_VERSION && Version(c) >= 17
    && OffStrings(c) + SizeStrings(c) <= TotalSize(c) <= |c|
  }

  /** Carrying the blocks over keeps the tree and the reservations, whatever the order of the blocks was. */
  lemma CarriedMeans(b: seq<byte>, c: seq<byte>, f: Forest)
    requires Opens(b, f) && Carried(b, c, RsvBytes(b), Size(f) + 4) && Usable(c)
    ensures WellFormed(c) && Stored(c) == f && TreeOf(c) == Meaning(f, StringsOf(b))
    ensures Reserved(c) == Reservations(b, OffRsv(b)).value
  {
    hide Moved, Reservations, Get32, Decode, Reads, Flat, Size, Named, Rooted, Meaning, Struct, CheckHeader;
    var rsv := RsvBytes(b);
    CarriedFits(b, c, rsv, Size(f) + 4);
    MovedReservations(b, OffRsv(b), OffRsv(b) + rsv, c, OffRsv(c) - OffRsv(b), OffRsv(b));
    CarriedStruct(b, c, f, rsv);
    SliceEqual(b, OffStrings(b), OffStrings(b) + SizeStrings(b), c, OffStrings(c) - OffStrings(b));
    ReadableFrom(c, f);
  }

  lemma CarriedFits(b: seq<byte>, c: seq<byte>, rsv: int, st: int)
    requires Carried(b, c, rsv, st)
    ensures OffStrings(c) + SizeStrings(b) <= |c|
  {
    hide Get32;
  }

  lemma CarriedStruct(b: seq<byte>, c: seq<byte>, f: Forest, rsv: int)
    requires Opens(b, f) && Carried(b, c, rsv, Size(f) + 4) && BlocksFit(c)
    ensures Spelled(Struct(c), 0, Flat(f))
  {
    hide Moved, Reservations, Get32, Reads, Flat, Named, Rooted, CheckHeader;
    var s, st, o := StructOnward(b), Size(f) + 4, OffStruct(b);
    var at := OffStruct(c);
    SliceMoved(b, o, o + st, c, at - o, o, |b|, at, at + st);
    assert Moved(s, 0, st, Struct(c), 0) by {
      assert b[o..|b|] == s && at - o + o - at == 0;
    }
    MovedReads(s, 0, st, Struct(c), 0, Flat(f), 0);
    MovedGet(s, 0, st, Struct(c), 0, Size(f));
  }

  /** Every well-formed blob opens, as the forest it stores. */
  lemma WellFormedOpens(b: seq<byte>)
    requires WellFormed(b)
    ensures Opens(b, Stored(b)) && StringsOf(b) == Strings(b) && TreeOf(b) == Meaning(Stored(b), StringsOf(b))
  {
    hide Moved, Reservations, Get32, Decode, Reads, Flat, Named, Rooted, Meaning;
    var f := Stored(b);
    StoredSpelled(b);
    StructPrefix(b, f);
  }

  lemma StructPrefix(b: seq<byte>, f: Forest)
    requires BlocksFit(b) && Spelled(Struct(b), 0, Flat(f))
    ensures SizeStruct(b) == Size(f) + 4 && Reads(StructOnward(b), 0, Flat(f)) && TagAt(StructOnward(b), Size(f), END)
  {
    hide Get32, Reads, Flat;
    var s, w := Struct(b), StructOnward(b);
    assert Moved(s, 0, |s|, w, 0);
    MovedReads(s, 0, |s|, w, 0, Flat(f), 0);
    MovedGet(s, 0, |s|, w, 0, Size(f));
  }

  lemma {:induction false} ReservationsAt(b: seq<byte>)
    requires Buffer(b) && Reservations(b, OffRsv(b)).Some?
    ensures OffRsv(b) + RsvBytes(b) <= |b|
  {
    ReservationsFit(b, OffRsv(b));
  }

  ghost predicate Apart(lo1: int, hi1: int, lo2: int, hi2: int) {
    hi1 <= lo2 || hi2 <= lo1
  }

  /** Nothing but the header at `to` and the range `[lo..hi)` has changed from `m` to `m1`. */
  ghost predicate Confined(m: seq<byte>, m1: seq<byte>, to: int, lo: int, hi: int) {
    |m1| == |m| && forall i {:trigger m1[i]} :: 0 <= i < |m| && !(to <= i < to + HEADER) && !(lo <= i < hi) ==>
      m1[i] == m[i]
  }

  /** A block that the change does not touch stays what it was, wherever it had been moved. */
  lemma Kept(m0: seq<byte>, o: int, e: int, d: int, m: seq<byte>, m1: seq<byte>, to: int, lo: int, hi: int)
    requires Moved(m0, o, e, m, d) && Confined(m, m1, to, lo, hi)
    requires Apart(o + d, e + d, to, to + HEADER) && Apart(o + d, e + d, lo, hi)
    ensures Moved(m0, o, e, m1, d)
  {
  }

  /** A header cell at `h` that the change does not touch. */
  lemma KeptCell(m: seq<byte>, m1: seq<byte>, to: int, lo: int, hi: int, i: int)
    requires Confined(m, m1, to, lo, hi) && 0 <= i && i + 4 <= |m|
    requires Apart(i, i + 4, to, to + HEADER) && Apart(i, i + 4, lo, hi)
    ensures Get32(m1, i) == Get32(m, i)
  {
    CellsAgree(m1, i, m, i);
  }

  ghost predicate SameCell(m: seq<byte>, r: seq<byte>, to: int, z: int) {
    0 <= to + z && to + z + 4 <= |m| == |r| && Get32(r, to + z) == Get32(m, to + z)
  }

  /** The header cells at `to` other than `x` are unchanged. */
  ghost predicate Others(m: seq<byte>, r: seq<byte>, to: int, x: int) {
    forall z :: 0 <= z <= HEADER - 4 && (z + 4 <= x || x + 4 <= z) ==> SameCell(m, r, to, z)
  }

  lemma ShiftTo(m: seq<byte>, dst: int, src: int, n: int, r: seq<byte>)
    requires 0 <= n && 0 <= src && src + n <= |m| && 0 <= dst && dst + n <= |m| == |r|
    requires forall i {:trigger r[i]} :: dst <= i < dst + n ==> r[i] == m[src..src + n][i - dst]
    ensures Moved(m, src, src + n, r, dst - src)
  {
    forall i {:trigger m[i]} | src <= i < src + n ensures r[i + (dst - src)] == m[i] {
      assert r[i + (dst - src)] == m[src..src + n][i - src];
    }
  }

  /** A header store at `to`. */
  method StoreCell(mem: array<byte>, to: int, x: int, v: u32)
    requires 0 <= to && to + HEADER <= mem.Length && 0 <= x <= HEADER - 4
    modifies mem
    ensures Confined(old(mem[..]), mem[..], to, to, to)
    ensures Get32(mem[..], to + x) == v && Others(old(mem[..]), mem[..], to, x)
  {
    hide Get32, Word;
    ghost var m := mem[..];
    Store32(mem, to + x, v);
    OverlayWord(m, to + x, v);
    forall z | 0 <= z <= HEADER - 4 && (z + 4 <= x || x + 4 <= z) ensures SameCell(m, mem[..], to, z) {
      OverlayGet(m, to + x, Word(v), to + z);
    }
  }

  /** One block moved behind the header at `to`, and one header store. */
  method PackBlock(mem: array<byte>, to: int, dst: int, src: int, n: int, x: int, v: u32)
    requires 0 <= to && to + HEADER <= dst && dst + n <= mem.Length && 0 <= n && 0 <= src && src + n <= mem.Length
             && 0 <= x <= HEADER - 4
    modifies mem
    ensures Confined(old(mem[..]), mem[..], to, dst, dst + n) && Moved(old(mem[..]), src, src + n, mem[..], dst - src)
    ensures Get32(mem[..], to + x) == v && Others(old(mem[..]), mem[..], to, x)
  {
    hide Get32, Word, Moved, Others;
    ghost var m := mem[..];
    MoveWithin(mem, dst, src, n);
    ghost var m1 := mem[..];
    assert m1 == Overlay(m, dst, m[src..src + n]);
    ShiftTo(m, dst, src, n, m1);
    StoreCell(mem, to, x, v);
    ghost var r := mem[..];
    Kept(m, src, src + n, dst - src, m1, r, to, to, to);
    OthersThen(m, m1, r, to, dst, n, x);
  }

  lemma OthersThen(m: seq<byte>, m1: seq<byte>, r: seq<byte>, to: int, dst: int, n: int, x: int)
    requires 0 <= to && to + HEADER <= dst && 0 <= n && dst + n <= |m| == |m1| && Others(m1, r, to, x)
    requires forall i {:trigger m1[i]} :: 0 <= i < dst ==> m1[i] == m[i]
    ensures Others(m, r, to, x)
  {
    hide Get32;
    forall z | 0 <= z <= HEADER - 4 && (z + 4 <= x || x + 4 <= z) ensures SameCell(m, r, to, z) {
      assert SameCell(m1, r, to, z);
      CellsAgree(m1, to + z, m, to + z);
    }
  }

  /** Where the blocks of a blob lie, as its header says. */
  datatype Layout = Layout(rsv: int, struct: int, strings: int, size: int)

  ghost function LayoutOf(b: seq<byte>): Layout
    requires Buffer(b)
  {
    Layout(OffRsv(b), OffStruct(b), OffStrings(b), SizeStrings(b))
  }

  ghost predicate LayoutAt(m: seq<byte>, from: int, y: Layout) {
    && 0 <= from && from + HEADER <= |m|
    && Get32(m, from + OFF_RSVMAP) == y.rsv && Get32(m, from + OFF_STRUCT) == y.struct
    && Get32(m, from + OFF_STRINGS) == y.strings && Get32(m, from + SIZE_STRINGS) == y.size
  }

  /** Packed size of the blob. */
  function PackedSize(y: Layout, rsv: int, st: int): int {
    HEADER + rsv + st + y.size
  }

  /**
  What `_fdt_packblocks` demands of the two places: they are apart, or they are the same and the blocks
  are in order, so that each block is still whole when its turn comes.
  */
  ghost predicate Clear(m: seq<byte>, from: int, to: int, n: int, rsv: int, st: int, y: Layout) {
    && 0 <= from && HEADER <= n && from + n <= |m| && 0 <= rsv && 0 <= st && 0 <= y.size
    && 0 <= y.rsv && y.rsv + rsv <= n && 0 <= y.struct && y.struct + st <= n && 0 <= y.strings
    && y.strings + y.size <= n
    && PackedSize(y, rsv, st) < INT_LIMIT && 0 <= to && to + PackedSize(y, rsv, st) <= |m|
    && (Apart(from, from + n, to, to + PackedSize(y, rsv, st)) ||
        (from == to && HEADER <= y.rsv && y.rsv + rsv <= y.struct && y.struct + st <= y.strings))
  }

  /** The blocks found at `from` stand packed behind the header at `to`, which says so. */
  ghost predicate BlocksAt(m0: seq<byte>, m: seq<byte>, from: int, to: int, rsv: int, st: int, y: Layout) {
    && |m| == |m0| && LayoutAt(m, to, Layout(HEADER, HEADER + rsv, HEADER + rsv + st, y.size))
    && Get32(m, to + SIZE_STRUCT) == st
    && Moved(m0, from + y.rsv, from + y.rsv + rsv, m, to + HEADER - from - y.rsv)
    && Moved(m0, from + y.struct, from + y.struct + st, m, to + HEADER + rsv - from - y.struct)
    && Moved(m0, from + y.strings, from + y.strings + y.size, m, to + HEADER + rsv + st - from - y.strings)
  }

  /** The packed blob stands at `to`; the other header cells there and all bytes around it are as they were. */
  ghost predicate PackedAt(m0: seq<byte>, m: seq<byte>, from: int, to: int, rsv: int, st: int, y: Layout) {
    && BlocksAt(m0, m, from, to, rsv, st, y)
    && SameCell(m0, m, to, MAGIC) && SameCell(m0, m, to, TOTALSIZE) && SameCell(m0, m, to, VERSION)
    && SameCell(m0, m, to, LAST_COMP) && SameCell(m0, m, to, BOOT_CPUID)
    && Confined(m0, m, to, to + HEADER, to + PackedSize(y, rsv, st))
  }

  /** A header cell of the source, read after a step of the packing that sets the cell `x` of the destination. */
  lemma SourceCell(m: seq<byte>, m1: seq<byte>, from: int, to: int, lo: int, hi: int, x: int, z: int)
    requires Confined(m, m1, to, lo, hi) && Others(m, m1, to, x) && 0 <= to && to + HEADER <= |m|
    requires 0 <= from && from + HEADER <= |m| && 0 <= z <= HEADER - 4 && (z + 4 <= x || x + 4 <= z)
    requires from == to || (Apart(from, from + HEADER, to, to + HEADER) && Apart(from, from + HEADER, lo, hi))
    ensures Get32(m1, from + z) == Get32(m, from + z)
  {
    hide Get32;
    if from == to {
      assert SameCell(m, m1, to, z);
    } else {
      KeptCell(m, m1, to, lo, hi, from + z);
    }
  }

  lemma ConfinedThen(m: seq<byte>, m1: seq<byte>, m2: seq<byte>, to: int, lo: int, hi: int, lo1: int, hi1: int,
                     a: int, e: int)
    requires Confined(m, m1, to, lo, hi) && Confined(m1, m2, to, lo1, hi1)
    requires ((a <= lo && hi <= e) || lo >= hi) && ((a <= lo1 && hi1 <= e) || lo1 >= hi1)
    ensures Confined(m, m2, to, a, e)
  {
    forall i {:trigger m2[i]} | 0 <= i < |m| && !(to <= i < to + HEADER) && !(a <= i < e) ensures m2[i] == m[i] {
      assert m2[i] == m1[i];
    }
  }

  /** The three block moves, in order: what each left in place for the next. */
  lemma PackedRsv(m0: seq<byte>, m1: seq<byte>, m2: seq<byte>, m3: seq<byte>, m4: seq<byte>, m5: seq<byte>,
                  from: int, to: int, n: int, rsv: int, st: int, y: Layout)
    requires Clear(m0, from, to, n, rsv, st, y)
    requires Moved(m0, from + y.rsv, from + y.rsv + rsv, m1, to + HEADER - from - y.rsv)
    requires Confined(m1, m2, to, to + HEADER + rsv, to + HEADER + rsv + st) && Confined(m2, m3, to, to, to)
    requires Confined(m3, m4, to, to + HEADER + rsv + st, to + PackedSize(y, rsv, st)) && Confined(m4, m5, to, to, to)
    ensures Moved(m0, from + y.rsv, from + y.rsv + rsv, m5, to + HEADER - from - y.rsv)
  {
    hide Moved, Confined;
    var p, q, e, d := HEADER + rsv, HEADER + rsv + st, to + PackedSize(y, rsv, st), to + HEADER - from - y.rsv;
    var lo, hi := from + y.rsv, from + y.rsv + rsv;
    Kept(m0, lo, hi, d, m1, m2, to, to + p, to + q);
    Kept(m0, lo, hi, d, m2, m3, to, to, to);
    Kept(m0, lo, hi, d, m3, m4, to, to + q, e);
    Kept(m0, lo, hi, d, m4, m5, to, to, to);
  }

  lemma PackedMid(m0: seq<byte>, m1: seq<byte>, m2: seq<byte>, m3: seq<byte>, m4: seq<byte>, m5: seq<byte>,
                  from: int, to: int, n: int, rsv: int, st: int, y: Layout)
    requires Clear(m0, from, to, n, rsv, st, y)
    requires Confined(m0, m1, to, to + HEADER, to + HEADER + rsv) && Confined(m2, m3, to, to, to)
    requires Moved(m1, from + y.struct, from + y.struct + st, m2, to + HEADER + rsv - from - y.struct)
    requires Confined(m3, m4, to, to + HEADER + rsv + st, to + PackedSize(y, rsv, st)) && Confined(m4, m5, to, to, to)
    ensures Moved(m0, from + y.struct, from + y.struct + st, m5, to + HEADER + rsv - from - y.struct)
  {
    hide Moved, Confined;
    var p, q, e, d := HEADER + rsv, HEADER + rsv + st, to + PackedSize(y, rsv, st), to + HEADER + rsv - from - y.struct;
    var lo, hi := from + y.struct, from + y.struct + st;
    MovedSelf(m0, lo, hi);
    Kept(m0, lo, hi, 0, m0, m1, to, to + HEADER, to + p);
    MovedThen(m0, lo, hi, m1, 0, m2, d);
    Kept(m0, lo, hi, d, m2, m3, to, to, to);
    Kept(m0, lo, hi, d, m3, m4, to, to + q, e);
    Kept(m0, lo, hi, d, m4, m5, to, to, to);
  }

  lemma PackedLast(m0: seq<byte>, m1: seq<byte>, m2: seq<byte>, m3: seq<byte>, m4: seq<byte>, m5: seq<byte>,
                   from: int, to: int, n: int, rsv: int, st: int, y: Layout)
    requires Clear(m0, from, to, n, rsv, st, y)
    requires Confined(m0, m1, to, to + HEADER, to + HEADER + rsv)
             && Confined(m1, m2, to, to + HEADER + rsv, to + HEADER + rsv + st)
    requires Confined(m2, m3, to, to, to) && Confined(m4, m5, to, to, to)
    requires Moved(m3, from + y.strings, from + y.strings + y.size, m4, to + HEADER + rsv + st - from - y.strings)
    ensures Moved(m0, from + y.strings, from + y.strings + y.size, m5, to + HEADER + rsv + st - from - y.strings)
  {
    hide Moved, Confined;
    var p, q, d := HEADER + rsv, HEADER + rsv + st, to + HEADER + rsv + st - from - y.strings;
    var lo, hi := from + y.strings, from + y.strings + y.size;
    MovedSelf(m0, lo, hi);
    Kept(m0, lo, hi, 0, m0, m1, to, to + HEADER, to + p);
    Kept(m0, lo, hi, 0, m1, m2, to, to + p, to + q);
    Kept(m0, lo, hi, 0, m2, m3, to, to, to);
    MovedThen(m0, lo, hi, m3, 0, m4, d);
    Kept(m0, lo, hi, d, m4, m5, to, to, to);
  }

  lemma PackedFrame(m0: seq<byte>, m1: seq<byte>, m2: seq<byte>, m3: seq<byte>, m4: seq<byte>, m5: seq<byte>, to: int,
                    p: int, q: int, e: int)
    requires HEADER <= p <= q && to + q <= e
    requires Confined(m0, m1, to, to + HEADER, to + p) && Confined(m1, m2, to, to + p, to + q)
             && Confined(m2, m3, to, to, to)
    requires Confined(m3, m4, to, to + q, e) && Confined(m4, m5, to, to, to)
    ensures Confined(m0, m5, to, to + HEADER, e)
  {
    hide Confined;
    ConfinedThen(m0, m1, m2, to, to + HEADER, to + p, to + p, to + q, to + HEADER, e);
    ConfinedThen(m0, m2, m3, to, to + HEADER, e, to, to, to + HEADER, e);
    ConfinedThen(m0, m3, m4, to, to + HEADER, e, to + q, e, to + HEADER, e);
    ConfinedThen(m0, m4, m5, to, to + HEADER, e, to, to, to + HEADER, e);
  }

  /** `_fdt_packblocks`. */
  method FdtPackBlocks(mem: array<byte>, from: int, to: int, rsv: int, st: int, ghost n: int, ghost y: Layout)
    requires Clear(mem[..], from, to, n, rsv, st, y) && LayoutAt(mem[..], from, y)
    modifies mem
    ensures PackedAt(old(mem[..]), mem[..], from, to, rsv, st, y)
  {
    hide Get32, Moved, Confined, Others;
    ghost var m0 := mem[..];
    var p, q := HEADER + rsv, HEADER + rsv + st;
    ghost var e := to + q + y.size;
    var offRsv := Load32(mem[..], from + OFF_RSVMAP);
    PackBlock(mem, to, to + HEADER, from + offRsv, rsv, OFF_RSVMAP, HEADER);
    ghost var m1 := mem[..];
    SourceCell(m0, m1, from, to, to + HEADER, to + p, OFF_RSVMAP, OFF_STRUCT);
    SourceCell(m0, m1, from, to, to + HEADER, to + p, OFF_RSVMAP, OFF_STRINGS);
    SourceCell(m0, m1, from, to, to + HEADER, to + p, OFF_RSVMAP, SIZE_STRINGS);

    var offStruct := Load32(mem[..], from + OFF_STRUCT);
    PackBlock(mem, to, to + p, from + offStruct, st, OFF_STRUCT, p);
    ghost var m2 := mem[..];
    SourceCell(m1, m2, from, to, to + p, to + q, OFF_STRUCT, OFF_STRINGS);
    SourceCell(m1, m2, from, to, to + p, to + q, OFF_STRUCT, SIZE_STRINGS);
    StoreCell(mem, to, SIZE_STRUCT, st);
    ghost var m3 := mem[..];
    SourceCell(m2, m3, from, to, to, to, SIZE_STRUCT, OFF_STRINGS);
    SourceCell(m2, m3, from, to, to, to, SIZE_STRUCT, SIZE_STRINGS);

    var offStrings := Load32(mem[..], from + OFF_STRINGS);
    var sizeStrings := Load32(mem[..], from + SIZE_STRINGS);
    PackBlock(mem, to, to + q, from + offStrings, sizeStrings, OFF_STRINGS, q);
    ghost var m4 := mem[..];
    SourceCell(m3, m4, from, to, to + q, e, OFF_STRINGS, SIZE_STRINGS);
    sizeStrings := Load32(mem[..], from + SIZE_STRINGS);
    StoreCell(mem, to, SIZE_STRINGS, sizeStrings);
    ghost var m5 := mem[..];
    PackedRsv(m0, m1, m2, m3, m4, m5, from, to, n, rsv, st, y);
    PackedMid(m0, m1, m2, m3, m4, m5, from, to, n, rsv, st, y);
    PackedLast(m0, m1, m2, m3, m4, m5, from, to, n, rsv, st, y);
    PackedFrame(m0, m1, m2, m3, m4, m5, to, p, q, e);
    PackedCells(m0, m1, m2, m3, m4, m5, to);
  }

  /** The header cells at `to` through the five steps. */
  lemma PackedCells(m0: seq<byte>, m1: seq<byte>, m2: seq<byte>, m3: seq<byte>, m4: seq<byte>, m5: seq<byte>, to: int)
    requires Others(m0, m1, to, OFF_RSVMAP) && Others(m1, m2, to, OFF_STRUCT) && Others(m2, m3, to, SIZE_STRUCT)
    requires Others(m3, m4, to, OFF_STRINGS) && Others(m4, m5, to, SIZE_STRINGS)
    ensures SameCell(m0, m5, to, MAGIC) && SameCell(m0, m5, to, TOTALSIZE) && SameCell(m0, m5, to, VERSION)
    ensures SameCell(m0, m5, to, LAST_COMP) && SameCell(m0, m5, to, BOOT_CPUID)
    ensures SameCell(m1, m5, to, OFF_RSVMAP) && SameCell(m2, m5, to, OFF_STRUCT) && SameCell(m3, m5, to, SIZE_STRUCT)
    ensures SameCell(m4, m5, to, OFF_STRINGS)
  {
    hide Get32;
    forall z | z == MAGIC || z == TOTALSIZE || z == VERSION || z == LAST_COMP || z == BOOT_CPUID
      ensures SameCell(m0, m5, to, z) {
      assert SameCell(m0, m1, to, z) && SameCell(m1, m2, to, z) && SameCell(m2, m3, to, z) && SameCell(m3, m4, to, z)
             && SameCell(m4, m5, to, z);
    }
    assert SameCell(m1, m2, to, OFF_RSVMAP) && SameCell(m2, m3, to, OFF_RSVMAP) && SameCell(m3, m4, to, OFF_RSVMAP)
           && SameCell(m4, m5, to, OFF_RSVMAP);
    assert SameCell(m2, m3, to, OFF_STRUCT) && SameCell(m3, m4, to, OFF_STRUCT) && SameCell(m4, m5, to, OFF_STRUCT);
    assert SameCell(m3, m4, to, SIZE_STRUCT) && SameCell(m4, m5, to, SIZE_STRUCT);
    assert SameCell(m4, m5, to, OFF_STRINGS);
  }

  lemma WindowGet(m: seq<byte>, from: int, n: int, i: int)
    requires 0 <= from && 0 <= i && i + 4 <= n && from + n <= |m|
    ensures Get32(m[from..from + n], i) == Get32(m, from + i)
  {
    CellsAgree(m[from..from + n], i, m, from + i);
  }

  ghost predicate FreeCell(x: int) {
    x == MAGIC || x == TOTALSIZE || x == VERSION || x == LAST_COMP || x == BOOT_CPUID
  }

  /** Storing one of the other header cells leaves the packed blocks in place. */
  lemma BlocksStored(m0: seq<byte>, m: seq<byte>, m1: seq<byte>, from: int, to: int, rsv: int, st: int, y: Layout,
                     x: int)
    requires BlocksAt(m0, m, from, to, rsv, st, y) && FreeCell(x) && 0 <= rsv && 0 <= st && 0 <= y.size
    requires Confined(m, m1, to, to, to) && Others(m, m1, to, x)
    ensures BlocksAt(m0, m1, from, to, rsv, st, y)
  {
    hide Get32, Moved, Confined;
    assert |m1| == |m| by { ConfinedLength(m, m1, to, to, to); }
    assert SameCell(m, m1, to, OFF_RSVMAP) && SameCell(m, m1, to, OFF_STRUCT) && SameCell(m, m1, to, OFF_STRINGS);
    assert SameCell(m, m1, to, SIZE_STRINGS) && SameCell(m, m1, to, SIZE_STRUCT);
    Kept(m0, from + y.rsv, from + y.rsv + rsv, to + HEADER - from - y.rsv, m, m1, to, to, to);
    Kept(m0, from + y.struct, from + y.struct + st, to + HEADER + rsv - from - y.struct, m, m1, to, to, to);
    Kept(m0, from + y.strings, from + y.strings + y.size, to + HEADER + rsv + st - from - y.strings, m, m1, to, to, to);
  }

  lemma ConfinedLength(m: seq<byte>, m1: seq<byte>, to: int, lo: int, hi: int)
    requires Confined(m, m1, to, lo, hi)
    ensures |m1| == |m|
  {
  }

  /** The packed blob may be moved as a whole. */
  lemma BlocksShifted(m0: seq<byte>, m: seq<byte>, m1: seq<byte>, from: int, tmp: int, to: int, rsv: int, st: int,
                      y: Layout)
    requires BlocksAt(m0, m, from, tmp, rsv, st, y) && 0 <= rsv && 0 <= st && 0 <= y.size && |m1| == |m| && 0 <= to
    requires Moved(m, tmp, tmp + PackedSize(y, rsv, st), m1, to - tmp)
    ensures BlocksAt(m0, m1, from, to, rsv, st, y)
  {
    hide Get32, Moved;
    var e, d := tmp + PackedSize(y, rsv, st), to - tmp;
    MovedBounds(m, tmp, e, m1, d);
    MovedGet(m, tmp, e, m1, d, tmp + OFF_RSVMAP);
    MovedGet(m, tmp, e, m1, d, tmp + OFF_STRUCT);
    MovedGet(m, tmp, e, m1, d, tmp + OFF_STRINGS);
    MovedGet(m, tmp, e, m1, d, tmp + SIZE_STRINGS);
    MovedGet(m, tmp, e, m1, d, tmp + SIZE_STRUCT);
    var p, q := tmp + HEADER + rsv, tmp + HEADER + rsv + st;
    SubMoved(m, tmp, e, m1, d, tmp + HEADER, p);
    SubMoved(m, tmp, e, m1, d, p, q);
    SubMoved(m, tmp, e, m1, d, q, e);
    MovedThen(m0, from + y.rsv, from + y.rsv + rsv, m, tmp + HEADER - from - y.rsv, m1, d);
    MovedThen(m0, from + y.struct, from + y.struct + st, m, p - from - y.struct, m1, d);
    MovedThen(m0, from + y.strings, from + y.strings + y.size, m, q - from - y.strings, m1, d);
  }

  /** Seen through windows on the two places, the packed blocks are carried over. */
  lemma BlocksWindow(m0: seq<byte>, m: seq<byte>, from: int, n: int, to: int, k: int, rsv: int, st: int, y: Layout)
    requires 0 <= from && HEADER <= n < INT_LIMIT && from + n <= |m0| && 0 <= to && to + k <= |m| && k < INT_LIMIT
    requires y.rsv + rsv <= n && y.struct + st <= n && y.strings + y.size <= n
    requires 0 <= rsv && 0 <= st && 0 <= y.rsv && 0 <= y.struct && 0 <= y.strings && 0 <= y.size
             && PackedSize(y, rsv, st) <= k
    requires LayoutOf(m0[from..from + n]) == y && BlocksAt(m0, m, from, to, rsv, st, y)
    ensures Carried(m0[from..from + n], m[to..to + k], rsv, st)
  {
    hide Get32, Moved;
    WindowGet(m, to, k, OFF_RSVMAP);
    WindowGet(m, to, k, OFF_STRUCT);
    WindowGet(m, to, k, OFF_STRINGS);
    WindowGet(m, to, k, SIZE_STRINGS);
    WindowGet(m, to, k, SIZE_STRUCT);
    SliceMoved(m0, from + y.rsv, from + y.rsv + rsv, m, to + HEADER - from - y.rsv, from, from + n, to, to + k);
    SliceMoved(m0, from + y.struct, from + y.struct + st, m, to + HEADER + rsv - from - y.struct, from, from + n, to,
               to + k);
    SliceMoved(m0, from + y.strings, from + y.strings + y.size, m, to + HEADER + rsv + st - from - y.strings, from,
               from + n, to, to + k);
  }

  /** The blocks follow the header without gaps, and nothing follows them. */
  ghost predicate Tight(b: seq<byte>) {
    && InOrder(b) && OffRsv(b) == HEADER && OffStruct(b) == HEADER + RsvSize(Reserved(b))
    && OffStrings(b) == OffStruct(b) + SizeStruct(b) && TotalSize(b) == OffStrings(b) + SizeStrings(b)
  }

  /** A header check, then the blocks packed in place, then the total size. */
  lemma PackedInPlace(b: seq<byte>, m: seq<byte>, c: seq<byte>)
    requires WellFormed(b) && |m| == |b| && PackedAt(b, m, 0, 0, RsvSize(Reserved(b)), SizeStruct(b), LayoutOf(b))
    requires Confined(m, c, 0, 0, 0) && Others(m, c, 0, TOTALSIZE)
    requires |c| == |b| && Get32(c, TOTALSIZE) == Get32(m, OFF_STRINGS) + Get32(m, SIZE_STRINGS)
    ensures WellFormed(c) && Stored(c) == Stored(b) && TreeOf(c) == TreeOf(b) && Reserved(c) == Reserved(b)
    ensures Tight(c) && TotalSize(c) == HEADER + RsvSize(Reserved(b)) + SizeStruct(b) + SizeStrings(b)
    ensures Version(c) == Version(b)
  {
    hide Decode, Get32, Moved, Confined, Reservations, Others, Named, Rooted, Meaning, Struct, Strings;
    var rsv, st, y := RsvSize(Reserved(b)), SizeStruct(b), LayoutOf(b);
    WellFormedOpens(b);
    OpensSize(b);
    BlocksStored(b, m, c, 0, 0, rsv, st, y, TOTALSIZE);
    WholeWindow(b);
    WholeWindow(c);
    BlocksWindow(b, c, 0, |b|, 0, |c|, rsv, st, y);
    HeaderCells(b, m, c);
    CarriedMeans(b, c, Stored(b));
  }

  lemma OpensSize(b: seq<byte>)
    requires WellFormed(b) && Opens(b, Stored(b))
    ensures SizeStruct(b) == Size(Stored(b)) + 4
  {
  }

  lemma WholeWindow(b: seq<byte>)
    ensures b[0..0 + |b|] == b
  {
  }

  lemma HeaderCells(b: seq<byte>, m: seq<byte>, c: seq<byte>)
    requires SameCell(b, m, 0, MAGIC) && SameCell(b, m, 0, VERSION) && SameCell(b, m, 0, LAST_COMP)
             && SameCell(b, m, 0, BOOT_CPUID)
    requires Others(m, c, 0, TOTALSIZE)
    ensures SameCell(b, c, 0, MAGIC) && SameCell(b, c, 0, VERSION) && SameCell(b, c, 0, LAST_COMP)
            && SameCell(b, c, 0, BOOT_CPUID)
    ensures SameCell(m, c, 0, OFF_STRINGS) && SameCell(m, c, 0, SIZE_STRINGS)
  {
    hide Get32;
    assert SameCell(m, c, 0, MAGIC) && SameCell(m, c, 0, VERSION) && SameCell(m, c, 0, LAST_COMP)
           && SameCell(m, c, 0, BOOT_CPUID);
    assert SameCell(m, c, 0, OFF_STRINGS) && SameCell(m, c, 0, SIZE_STRINGS);
  }

  /** `fdt_pack`. */
  method FdtPack(a: array<byte>) returns (err: int)
    requires Buffer(a[..]) && (RwCheck(a[..]) == 0 ==> WellFormed(a[..]))
    modifies a
    ensures err == old(RwCheck(a[..])) && (err != 0 ==> a[..] == old(a[..]))
    ensures err == 0 && old(Tight(a[..]) && Version(a[..]) == 17) ==> a[..] == old(a[..])
    ensures err == 0 ==>
              && WellFormed(a[..]) && Tight(a[..]) && Version(a[..]) == 17
              && Stored(a[..]) == old(Stored(a[..])) && TreeOf(a[..]) == old(TreeOf(a[..]))
              && Reserved(a[..]) == old(Reserved(a[..]))
              && TotalSize(a[..]) == old(HEADER + RsvSize(Reserved(a[..])) + SizeStruct(a[..]) + SizeStrings(a[..]))
  {
    hide Decode, Get32, Moved, Confined, Reservations, Others, Named, Rooted, Meaning, Struct, Strings, RwCheck,
         Checked, CheckHeader;
    ghost var b0 := a[..];
    err := FdtRwCheckHeader(a);
    if err != 0 {
      CheckFails(b0);
      return;
    }
    CheckedMeans(b0);
    CheckedFrame(b0);
    ghost var b := a[..];
    var rsv := FdtNumMemRsv(a[..]);
    rsv := (rsv + 1) * 16;
    var st := Load32(a[..], SIZE_STRUCT);
    FdtPackBlocks(a, 0, 0, rsv, st, a.Length, LayoutOf(b));
    ghost var m := a[..];
    var offStrings := Load32(a[..], OFF_STRINGS);
    var sizeStrings := Load32(a[..], SIZE_STRINGS);
    StoreCell(a, 0, TOTALSIZE, offStrings + sizeStrings);
    PackedInPlace(b, m, a[..]);
    if Tight(b0) && Version(b0) == 17 {
      CheckIdle(b0);
      PackedAgain(b, m, a[..]);
    }
  }

  lemma CheckIdle(b: seq<byte>)
    requires Buffer(b) && Version(b) == 17
    ensures Checked(b) == b
  {
  }

  /** Equal cells are equal bytes. */
  lemma CellBytes(s: seq<byte>, i: int, t: seq<byte>, j: int)
    requires 0 <= i && i + 4 <= |s| && 0 <= j && j + 4 <= |t| && Get32(s, i) == Get32(t, j)
    ensures s[i] == t[j] && s[i + 1] == t[j + 1] && s[i + 2] == t[j + 2] && s[i + 3] == t[j + 3]
  {
    var v := Get32(s, i);
    assert s[i + 0] == Digit(v, 0) == t[j + 0] && s[i + 1] == Digit(v, 1) == t[j + 1];
    assert s[i + 2] == Digit(v, 2) == t[j + 2] && s[i + 3] == Digit(v, 3) == t[j + 3];
  }

  lemma HeaderBytes(b: seq<byte>, c: seq<byte>)
    requires SameHeader(b, c) && OffStrings(c) == OffStrings(b) && SizeStrings(c) == SizeStrings(b)
             && SizeStruct(c) == SizeStruct(b)
    ensures forall i :: 0 <= i < HEADER ==> c[i] == b[i]
  {
    hide Get32;
    CellBytes(b, MAGIC, c, MAGIC);
    CellBytes(b, TOTALSIZE, c, TOTALSIZE);
    CellBytes(b, OFF_STRUCT, c, OFF_STRUCT);
    CellBytes(b, OFF_STRINGS, c, OFF_STRINGS);
    CellBytes(b, OFF_RSVMAP, c, OFF_RSVMAP);
    CellBytes(b, VERSION, c, VERSION);
    CellBytes(b, LAST_COMP, c, LAST_COMP);
    CellBytes(b, BOOT_CPUID, c, BOOT_CPUID);
    CellBytes(b, SIZE_STRINGS, c, SIZE_STRINGS);
    CellBytes(b, SIZE_STRUCT, c, SIZE_STRUCT);
  }

  /** Packing a packed blob changes no byte. */
  lemma PackedAgain(b: seq<byte>, m: seq<byte>, c: seq<byte>)
    requires Tight(b) && |m| == |b| && PackedAt(b, m, 0, 0, RsvSize(Reserved(b)), SizeStruct(b), LayoutOf(b))
    requires Confined(m, c, 0, 0, 0) && Others(m, c, 0, TOTALSIZE)
    requires |c| == |b| && Get32(c, TOTALSIZE) == Get32(m, OFF_STRINGS) + Get32(m, SIZE_STRINGS)
    ensures c == b
  {
    hide Get32, Reservations, Others, Confined, Moved;
    var rsv, st, y := RsvSize(Reserved(b)), SizeStruct(b), LayoutOf(b);
    HeaderCells(b, m, c);
    BlocksStored(b, m, c, 0, 0, rsv, st, y, TOTALSIZE);
    HeaderBytes(b, c);
    ConfinedThen(b, m, c, 0, HEADER, TotalSize(b), 0, 0, HEADER, TotalSize(b));
    BytesEqual(b, c, OffStruct(b), OffStrings(b), TotalSize(b));
  }

  lemma BytesEqual(b: seq<byte>, c: seq<byte>, p: int, q: int, e: int)
    requires HEADER <= p <= q <= e && |c| == |b| && forall i :: 0 <= i < HEADER <= |b| ==> c[i] == b[i]
    requires Moved(b, HEADER, p, c, 0) && Moved(b, p, q, c, 0) && Moved(b, q, e, c, 0) && Confined(b, c, 0, HEADER, e)
    ensures c == b
  {
    forall i | 0 <= i < |b| ensures c[i] == b[i] {
    }
  }

  lemma CheckFails(b: seq<byte>)
    requires Buffer(b) && RwCheck(b) != 0
    ensures Checked(b) == b
  {
  }
}
