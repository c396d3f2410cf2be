/** `fdt_move` and `fdt_open_into`: any supported blob becomes an editable one, in a buffer that may overlap it. */
module OpenInto {
  import opened Words
  import opened Tokens
  import opened Structure
  import opened Tokenizer
  import opened Tree
  import opened Blob
  import opened Splice
  import opened Edit
  import opened Repack

  /** A header seen through a longer window is the same header. */
  lemma HeaderWindow(m: seq<byte>, from: int, n: int)
    requires 0 <= from && HEADER <= n < INT_LIMIT && from + n <= |m|
    ensures CheckHeader(m[from..from + HEADER]) == CheckHeader(m[from..from + n])
    ensures Get32(m, from + TOTALSIZE) == TotalSize(m[from..from + n])
  {
    hide Get32;
    var h, b := m[from..from + HEADER], m[from..from + n];
    WindowGet(m, from, HEADER, MAGIC);
    WindowGet(m, from, HEADER, VERSION);
    WindowGet(m, from, HEADER, LAST_COMP);
    WindowGet(m, from, HEADER, SIZE_STRUCT);
    WindowGet(m, from, n, MAGIC);
    WindowGet(m, from, n, VERSION);
    WindowGet(m, from, n, LAST_COMP);
    WindowGet(m, from, n, SIZE_STRUCT);
    WindowGet(m, from, n, TOTALSIZE);
  }

  /** No byte outside `[lo..hi)` has changed. */
  ghost predicate Outside(m: seq<byte>, m1: seq<byte>, lo: int, hi: int) {
    |m1| == |m| && forall i {:trigger m1[i]} :: 0 <= i < |m| && !(lo <= i < hi) ==> m1[i] == m[i]
  }

  lemma ConfinedOutside(m: seq<byte>, m1: seq<byte>, to: int, a: int, e: int, lo: int, hi: int)
    requires Confined(m, m1, to, a, e) && lo <= to && to + HEADER <= hi && (a >= e || (lo <= a && e <= hi))
    ensures Outside(m, m1, lo, hi)
  {
  }

  lemma OutsideThen(m: seq<byte>, m1: seq<byte>, m2: seq<byte>, lo: int, hi: int)
    requires Outside(m, m1, lo, hi) && Outside(m1, m2, lo, hi)
    ensures Outside(m, m2, lo, hi)
  {
    forall i {:trigger m2[i]} | 0 <= i < |m| && !(lo <= i < hi) ensures m2[i] == m[i] {
      assert m2[i] == m1[i];
    }
  }

  /** `fdt_move`. */
  method FdtMove(mem: array<byte>, fdt: int, buf: int, bufsize: int, ghost n: int) returns (err: int)
    requires 0 <= fdt && HEADER <= n < INT_LIMIT && fdt + n <= mem.Length
    requires 0 <= buf && 0 <= bufsize && buf + bufsize <= mem.Length
    requires CheckHeader(mem[fdt..fdt + n]) == 0 ==> TotalSize(mem[fdt..fdt + n]) == n
    modifies mem
    ensures old(CheckHeader(mem[fdt..fdt + n])) != 0 ==> err == old(CheckHeader(mem[fdt..fdt + n]))
    ensures old(CheckHeader(mem[fdt..fdt + n])) == 0 ==> err == if n > bufsize then NOSPACE else 0
    ensures err != 0 ==> mem[..] == old(mem[..])
    ensures err == 0 ==>
              Moved(old(mem[..]), fdt, fdt + n, mem[..], buf - fdt)
              && Outside(old(mem[..]), mem[..], buf, buf + bufsize)
  {
    hide Get32, CheckHeader, Moved;
    ghost var m := mem[..];
    HeaderWindow(m, fdt, n);
    assert mem[fdt..fdt + n] == m[fdt..fdt + n] && mem[fdt..fdt + HEADER] == m[fdt..fdt + HEADER];
    err := FdtCheckHeader(mem[fdt..fdt + HEADER]);
    if err != 0 {
      return;
    }
    var total := Load32(mem[..], fdt + TOTALSIZE);
    if total > bufsize {
      return NOSPACE;
    }
    MoveWithin(mem, buf, fdt, total);
    ShiftTo(m, buf, fdt, total, mem[..]);
  }

  lemma UsableWindow(m: seq<byte>, to: int, k: int)
    requires 0 <= to && HEADER <= k < INT_LIMIT && to + k <= |m|
    requires Get32(m, to + MAGIC) == FDT_MAGIC && Get32(m, to + LAST_COMP) <= LAST_VERSION
             && Get32(m, to + VERSION) == 17
    requires Get32(m, to + TOTALSIZE) == k && Get32(m, to + OFF_STRINGS) + Get32(m, to + SIZE_STRINGS) <= k
    ensures Usable(m[to..to + k]) && TotalSize(m[to..to + k]) == k && Version(m[to..to + k]) == 17
    ensures Get32(m[to..to + k], BOOT_CPUID) == Get32(m, to + BOOT_CPUID)
  {
    hide Get32;
    WindowGet(m, to, k, MAGIC);
    WindowGet(m, to, k, LAST_COMP);
    WindowGet(m, to, k, VERSION);
    WindowGet(m, to, k, TOTALSIZE);
    WindowGet(m, to, k, OFF_STRINGS);
    WindowGet(m, to, k, SIZE_STRINGS);
    WindowGet(m, to, k, BOOT_CPUID);
  }

  /** A blob that was moved as a whole carries its blocks over. */
  lemma MovedWindow(m0: seq<byte>, m: seq<byte>, from: int, n: int, to: int, k: int, rsv: int, st: int, y: Layout)
    requires 0 <= from && HEADER <= n < INT_LIMIT && from + n <= |m0| && 0 <= to && n <= k < INT_LIMIT && to + k <= |m|
    requires LayoutOf(m0[from..from + n]) == y && LayoutAt(m, to, y) && Get32(m, to + SIZE_STRUCT) == st
    requires 0 <= rsv && 0 <= st && HEADER <= y.rsv && y.rsv + rsv <= y.struct && y.struct + st <= y.strings
             && y.strings + y.size <= n
    requires Moved(m0, from + HEADER, from + n, m, to - from)
    ensures Carried(m0[from..from + n], m[to..to + k], rsv, st)
  {
    hide Get32, Moved;
    var b, c := m0[from..from + n], m[to..to + k];
    WindowGet(m, to, k, OFF_RSVMAP);
    WindowGet(m, to, k, OFF_STRUCT);
    WindowGet(m, to, k, OFF_STRINGS);
    WindowGet(m, to, k, SIZE_STRINGS);
    WindowGet(m, to, k, SIZE_STRUCT);
    SliceMoved(m0, from + HEADER, from + n, m, to - from, from, from + n, to, to + k);
    assert Moved(b, HEADER, n, c, 0) by {
      assert from + HEADER - from == HEADER && from + n - from == n && to - from + from - to == 0;
    }
    SubMoved(b, HEADER, n, c, 0, y.rsv, y.rsv + rsv);
    SubMoved(b, HEADER, n, c, 0, y.struct, y.struct + st);
    SubMoved(b, HEADER, n, c, 0, y.strings, y.strings + y.size);
  }

  /** What a finished copy at `to` amounts to. */
  lemma Opened(m0: seq<byte>, m: seq<byte>, from: int, n: int, to: int, k: int, f: Forest)
    requires 0 <= from && HEADER <= n < INT_LIMIT && from + n <= |m0| && 0 <= to && HEADER <= k < INT_LIMIT
             && to + k <= |m|
    requires Opens(m0[from..from + n], f)
    requires Carried(m0[from..from + n], m[to..to + k], RsvBytes(m0[from..from + n]), Size(f) + 4)
    requires Usable(m[to..to + k])
    ensures var b, c := m0[from..from + n], m[to..to + k];
            && WellFormed(c) && Stored(c) == f && TreeOf(c) == Meaning(f, StringsOf(b))
            && Reserved(c) == Reservations(b, OffRsv(b)).value
  {
    CarriedMeans(m0[from..from + n], m[to..to + k], f);
  }

  /** `c`, of size `k`, is an editable version 17 blob with the tree and the reservations of `b`. */
  ghost predicate OpenedAs(b: seq<byte>, c: seq<byte>, f: Forest, k: int)
    requires Opens(b, f)
  {
    && WellFormed(c) && Stored(c) == f && TreeOf(c) == Meaning(f, StringsOf(b))
    && Reserved(c) == Reservations(b, OffRsv(b)).value
    && TotalSize(c) == k == |c| && Version(c) == 17
  }

  /** The blob fits where `fdt_open_into` wants to put it. */
  ghost predicate HasRoom(b: seq<byte>, f: Forest, fdt: int, buf: int, bufsize: int)
    requires Opens(b, f)
  {
    var size := PackedSize(LayoutOf(b), RsvBytes(b), Size(f) + 4);
    if !Misordered(b, RsvBytes(b), Size(f) + 4) then |b| <= bufsize
    else size <= bufsize && (Apart(buf, buf + size, fdt, fdt + |b|) || fdt + |b| + size <= buf + bufsize)
  }

  /** The size of the result: header, reservations with their terminator, structure with END, strings. */
  ghost function NewSize(b: seq<byte>, f: Forest): int
    requires Opens(b, f)
  {
    40 + 16 * (|Reservations(b, OffRsv(b)).value| + 1) + (Size(f) + 4) + SizeStrings(b)
  }

  /** The blocks of the blob lie one behind the other, without overlap. */
  ghost predicate InLine(b: seq<byte>, f: Forest)
    requires Opens(b, f)
  {
    && 40 <= OffRsv(b) && OffRsv(b) + 16 * (|Reservations(b, OffRsv(b)).value| + 1) <= OffStruct(b)
    && OffStruct(b) + (Size(f) + 4) <= OffStrings(b) && OffStrings(b) + SizeStrings(b) <= |b|
  }

  /** What room is: for the blob itself, or for the result beside the old blob, or behind it in the buffer. */
  lemma RoomWritten(b: seq<byte>, f: Forest, fdt: int, buf: int, bufsize: int)
    requires Opens(b, f) && TotalSize(b) == |b|
    ensures InLine(b, f) ==> (HasRoom(b, f, fdt, buf, bufsize) <==> |b| <= bufsize)
    ensures !InLine(b, f) ==>
              (HasRoom(b, f, fdt, buf, bufsize) <==>
               && NewSize(b, f) <= bufsize
               && (|| buf + NewSize(b, f) <= fdt
                   || fdt + |b| <= buf
                   || fdt + |b| + NewSize(b, f) <= buf + bufsize))
  {
    hide Get32, Reads, Flat, Size, Named, Rooted, CheckHeader, Reservations, Misordered;
    InOrderLayout(b, f);
  }

  /** The header cells of a moved blob. */
  lemma MovedCells(m0: seq<byte>, from: int, n: int, m: seq<byte>, to: int)
    requires Moved(m0, from, from + n, m, to - from) && HEADER <= n < INT_LIMIT && 0 <= from && from + n <= |m0|
    ensures 0 <= to && to + HEADER <= |m|
    ensures var b := m0[from..from + n];
            && LayoutAt(m, to, LayoutOf(b)) && Get32(m, to + MAGIC) == Get32(b, MAGIC)
            && Get32(m, to + LAST_COMP) == Get32(b, LAST_COMP) && Get32(m, to + BOOT_CPUID) == Get32(b, BOOT_CPUID)
  {
    hide Get32, Moved;
    MovedBounds(m0, from, from + n, m, to - from);
    MovedCell(m0, from, n, m, to, OFF_RSVMAP);
    MovedCell(m0, from, n, m, to, OFF_STRUCT);
    MovedCell(m0, from, n, m, to, OFF_STRINGS);
    MovedCell(m0, from, n, m, to, SIZE_STRINGS);
    MovedCell(m0, from, n, m, to, MAGIC);
    MovedCell(m0, from, n, m, to, LAST_COMP);
    MovedCell(m0, from, n, m, to, BOOT_CPUID);
  }

  lemma MovedCell(m0: seq<byte>, from: int, n: int, m: seq<byte>, to: int, z: int)
    requires Moved(m0, from, from + n, m, to - from) && HEADER <= n && 0 <= from && from + n <= |m0|
             && 0 <= z <= HEADER - 4
    ensures 0 <= to && to + HEADER <= |m| && Get32(m, to + z) == Get32(m0[from..from + n], z)
  {
    MovedGet(m0, from, from + n, m, to - from, from + z);
    WindowGet(m0, from, n, z);
  }

  /** `OpenedAs`, written out. */
  lemma OpenedPlainly(b: seq<byte>, c: seq<byte>, f: Forest, k: int)
    requires Opens(b, f) && OpenedAs(b, c, f, k)
    ensures WellFormed(c) && TreeOf(c) == Meaning(f, StringsOf(b))
    ensures Reserved(c) == Reservations(b, OffRsv(b)).value && TotalSize(c) == k && Version(c) == 17
  {
    hide Get32, Reads, Flat, Size, Named, Rooted, CheckHeader, Reservations, Decode, Meaning;
  }

  /** The last three stores when the blob was already in order. */
  method Finish(mem: array<byte>, fdt: int, buf: int, bufsize: int, st: int, ghost m0: seq<byte>, ghost n: int,
                ghost f: Forest)
    requires 0 <= fdt && HEADER <= n <= bufsize < INT_LIMIT && fdt + n <= |m0| == mem.Length
    requires 0 <= buf && buf + bufsize <= mem.Length
    requires Opens(m0[fdt..fdt + n], f) && TotalSize(m0[fdt..fdt + n]) == n && st == Size(f) + 4
    requires !Misordered(m0[fdt..fdt + n], RsvBytes(m0[fdt..fdt + n]), st)
    requires Moved(m0, fdt, fdt + n, mem[..], buf - fdt)
    modifies mem
    ensures var b, c := m0[fdt..fdt + n], mem[buf..buf + bufsize];
            OpenedAs(b, c, f, bufsize) && Get32(c, BOOT_CPUID) == Get32(b, BOOT_CPUID)
    ensures Outside(old(mem[..]), mem[..], buf, buf + bufsize)
  {
    hide Get32, Moved, Confined, Others, Decode, Reservations, Reads, Flat, Size, Named, Rooted, Meaning, CheckHeader,
         Carried, Outside;
    ghost var b := m0[fdt..fdt + n];
    ghost var m1 := mem[..];
    MovedCells(m0, fdt, n, m1, buf);
    SubMoved(m0, fdt, fdt + n, m1, buf - fdt, fdt + HEADER, fdt + n);
    StoreCell(mem, buf, VERSION, 17);
    ghost var m2 := mem[..];
    StoreCell(mem, buf, SIZE_STRUCT, st);
    ghost var m3 := mem[..];
    StoreCell(mem, buf, TOTALSIZE, bufsize);
    ghost var m4 := mem[..];
    Kept(m0, fdt + HEADER, fdt + n, buf - fdt, m1, m2, buf, buf, buf);
    Kept(m0, fdt + HEADER, fdt + n, buf - fdt, m2, m3, buf, buf, buf);
    Kept(m0, fdt + HEADER, fdt + n, buf - fdt, m3, m4, buf, buf, buf);
    ConfinedOutside(m1, m2, buf, buf, buf, buf, buf + bufsize);
    ConfinedOutside(m2, m3, buf, buf, buf, buf, buf + bufsize);
    ConfinedOutside(m3, m4, buf, buf, buf, buf, buf + bufsize);
    OutsideThen(m1, m2, m3, buf, buf + bufsize);
    OutsideThen(m1, m3, m4, buf, buf + bufsize);
    FinishCells(m1, m2, m3, m4, buf);
    InOrderLayout(b, f);
    UsableHeader(b);
    MovedWindow(m0, m4, fdt, n, buf, bufsize, RsvBytes(b), st, LayoutOf(b));
    UsableWindow(m4, buf, bufsize);
    Opened(m0, m4, fdt, n, buf, bufsize, f);
    assert mem[buf..buf + bufsize] == m4[buf..buf + bufsize];
  }

  lemma UsableHeader(b: seq<byte>)
    requires Buffer(b) && Get32(b, MAGIC) == FDT_MAGIC
    ensures CheckHeader(b) == 0 <==> FIRST_VERSION <= Version(b) && Get32(b, LAST_COMP) <= LAST_VERSION
  {
    hide Get32;
  }

  /** The layout test, with sums that wrap, is the order of the blocks. */
  lemma InOrderLayout(b: seq<byte>, f: Forest)
    requires Opens(b, f) && TotalSize(b) == |b|
    ensures var y, rsv, st := LayoutOf(b), RsvBytes(b), Size(f) + 4;
            && rsv >= 0
            && (!Misordered(b, rsv, st) <==>
                && HEADER <= y.rsv && y.rsv + rsv <= y.struct && y.struct + st <= y.strings
                && y.strings + y.size <= |b|)
  {
    hide Get32, Reads, Flat, Size, Named, Rooted, CheckHeader;
    ReservationsAt(b);
  }

  lemma FinishCells(m1: seq<byte>, m2: seq<byte>, m3: seq<byte>, m4: seq<byte>, to: int)
    requires Others(m1, m2, to, VERSION) && Others(m2, m3, to, SIZE_STRUCT) && Others(m3, m4, to, TOTALSIZE)
    ensures SameCell(m1, m4, to, OFF_RSVMAP) && SameCell(m1, m4, to, OFF_STRUCT) && SameCell(m1, m4, to, OFF_STRINGS)
    ensures SameCell(m1, m4, to, SIZE_STRINGS) && SameCell(m1, m4, to, MAGIC) && SameCell(m1, m4, to, LAST_COMP)
    ensures SameCell(m1, m4, to, BOOT_CPUID) && SameCell(m2, m4, to, VERSION) && SameCell(m3, m4, to, SIZE_STRUCT)
  {
    hide Get32;
    forall z | z in {OFF_RSVMAP, OFF_STRUCT, OFF_STRINGS, SIZE_STRINGS, MAGIC, LAST_COMP, BOOT_CPUID}
      ensures SameCell(m1, m4, to, z) {
      assert SameCell(m1, m2, to, z) && SameCell(m2, m3, to, z) && SameCell(m3, m4, to, z);
    }
    assert SameCell(m2, m3, to, VERSION) && SameCell(m3, m4, to, VERSION) && SameCell(m3, m4, to, SIZE_STRUCT);
  }

  /** The four constant header cells of a converted blob. */
  method Stamp(mem: array<byte>, buf: int, bufsize: int, ghost m0: seq<byte>, ghost fdt: int, ghost rsv: int,
               ghost st: int, ghost y: Layout)
    requires 0 <= buf && 0 <= bufsize < INT_LIMIT && buf + HEADER <= mem.Length && 0 <= rsv && 0 <= st && 0 <= y.size
    requires BlocksAt(m0, mem[..], fdt, buf, rsv, st, y)
    modifies mem
    ensures BlocksAt(m0, mem[..], fdt, buf, rsv, st, y) && Confined(old(mem[..]), mem[..], buf, buf, buf)
    ensures Get32(mem[..], buf + MAGIC) == FDT_MAGIC && Get32(mem[..], buf + TOTALSIZE) == bufsize
    ensures Get32(mem[..], buf + VERSION) == 17 && Get32(mem[..], buf + LAST_COMP) == 16
  {
    hide Get32, Confined, Others, BlocksAt;
    ghost var m1 := mem[..];
    StoreCell(mem, buf, MAGIC, FDT_MAGIC);
    ghost var m2 := mem[..];
    StoreCell(mem, buf, TOTALSIZE, bufsize);
    ghost var m3 := mem[..];
    StoreCell(mem, buf, VERSION, 17);
    ghost var m4 := mem[..];
    StoreCell(mem, buf, LAST_COMP, 16);
    ghost var m5 := mem[..];
    BlocksStored(m0, m1, m2, fdt, buf, rsv, st, y, MAGIC);
    BlocksStored(m0, m2, m3, fdt, buf, rsv, st, y, TOTALSIZE);
    BlocksStored(m0, m3, m4, fdt, buf, rsv, st, y, VERSION);
    BlocksStored(m0, m4, m5, fdt, buf, rsv, st, y, LAST_COMP);
    ConfinedThen(m1, m2, m3, buf, buf, buf, buf, buf, buf, buf);
    ConfinedThen(m1, m3, m4, buf, buf, buf, buf, buf, buf, buf);
    ConfinedThen(m1, m4, m5, buf, buf, buf, buf, buf, buf, buf);
    StampCells(m2, m3, m4, m5, buf);
  }

  lemma StampCells(m2: seq<byte>, m3: seq<byte>, m4: seq<byte>, m5: seq<byte>, to: int)
    requires Others(m2, m3, to, TOTALSIZE) && Others(m3, m4, to, VERSION) && Others(m4, m5, to, LAST_COMP)
    ensures SameCell(m2, m5, to, MAGIC) && SameCell(m3, m5, to, TOTALSIZE) && SameCell(m4, m5, to, VERSION)
  {
    hide Get32;
    assert SameCell(m2, m3, to, MAGIC) && SameCell(m3, m4, to, MAGIC) && SameCell(m4, m5, to, MAGIC);
    assert SameCell(m3, m4, to, TOTALSIZE) && SameCell(m4, m5, to, TOTALSIZE) && SameCell(m4, m5, to, VERSION);
  }

  /** A whole blob moved, with overlap allowed. */
  method Shift(mem: array<byte>, dst: int, src: int, n: int)
    requires HEADER <= n && 0 <= dst && dst + n <= mem.Length && 0 <= src && src + n <= mem.Length
    modifies mem
    ensures Moved(old(mem[..]), src, src + n, mem[..], dst - src) && Confined(old(mem[..]), mem[..], dst, dst, dst + n)
  {
    hide Moved;
    ghost var m := mem[..];
    MoveWithin(mem, dst, src, n);
    ShiftTo(m, dst, src, n, mem[..]);
  }

  /** The reordering half: pack the blocks at `tmp`, move the result to `buf` and complete its header. */
  method Reorder(mem: array<byte>, fdt: int, tmp: int, buf: int, bufsize: int, rsv: int, st: int, newsize: int,
                 ghost n: int, ghost y: Layout)
    requires 0 <= fdt && HEADER <= n < INT_LIMIT && fdt + n <= mem.Length && y == LayoutOf(mem[fdt..fdt + n])
    requires 0 <= buf && newsize <= bufsize < INT_LIMIT && buf + bufsize <= mem.Length
             && newsize == PackedSize(y, rsv, st)
    requires Clear(mem[..], fdt, tmp, n, rsv, st, y) && Apart(fdt, fdt + n, tmp, tmp + newsize)
    requires buf <= tmp && tmp + newsize <= buf + bufsize
    modifies mem
    ensures Outside(old(mem[..]), mem[..], buf, buf + bufsize)
    ensures BlocksAt(old(mem[..]), mem[..], fdt, buf, rsv, st, y)
    ensures Get32(mem[..], buf + MAGIC) == FDT_MAGIC && Get32(mem[..], buf + TOTALSIZE) == bufsize
    ensures Get32(mem[..], buf + VERSION) == 17 && Get32(mem[..], buf + LAST_COMP) == 16
    ensures Apart(fdt, fdt + n, buf, buf + newsize) ==>
              Get32(mem[..], buf + BOOT_CPUID) == old(Get32(mem[..], fdt + BOOT_CPUID))
  {
    hide Get32, Confined, Others, BlocksAt, Moved, LayoutAt, SameCell, Outside;
    ghost var m0 := mem[..];
    LayoutSeen(m0, fdt, n);
    assert mem[fdt..fdt + n] == m0[fdt..fdt + n];
    FdtPackBlocks(mem, fdt, tmp, rsv, st, n, y);
    ghost var m1 := mem[..];
    ConfinedLength(m0, m1, tmp, tmp + HEADER, tmp + newsize);
    Shift(mem, buf, tmp, newsize);
    ghost var m2 := mem[..];
    ConfinedLength(m1, m2, buf, buf, buf + newsize);
    BlocksShifted(m0, m1, m2, fdt, tmp, buf, rsv, st, y);
    Stamp(mem, buf, bufsize, m0, fdt, rsv, st, y);
    ghost var m3 := mem[..];
    var boot := Load32(mem[..], fdt + BOOT_CPUID);
    StoreCell(mem, buf, BOOT_CPUID, boot);
    ghost var m4 := mem[..];
    BlocksStored(m0, m3, m4, fdt, buf, rsv, st, y, BOOT_CPUID);
    ReorderFrame(m0, m1, m2, m3, m4, tmp, buf, newsize, bufsize);
    ConfinedLength(m2, m3, buf, buf, buf);
    LastCells(m3, m4, buf);
    if Apart(fdt, fdt + n, buf, buf + newsize) {
      KeptCell(m0, m1, tmp, tmp + HEADER, tmp + newsize, fdt + BOOT_CPUID);
      KeptCell(m1, m2, buf, buf, buf + newsize, fdt + BOOT_CPUID);
      KeptCell(m2, m3, buf, buf, buf, fdt + BOOT_CPUID);
    }
  }

  lemma ReorderFrame(m0: seq<byte>, m1: seq<byte>, m2: seq<byte>, m3: seq<byte>, m4: seq<byte>, tmp: int, buf: int,
                     size: int, k: int)
    requires HEADER <= size <= k && buf <= tmp && tmp + size <= buf + k
    requires Confined(m0, m1, tmp, tmp + HEADER, tmp + size) && Confined(m1, m2, buf, buf, buf + size)
    requires Confined(m2, m3, buf, buf, buf) && Confined(m3, m4, buf, buf, buf)
    ensures Outside(m0, m4, buf, buf + k)
  {
    hide Confined, Outside;
    ConfinedOutside(m0, m1, tmp, tmp + HEADER, tmp + size, buf, buf + k);
    ConfinedOutside(m1, m2, buf, buf, buf + size, buf, buf + k);
    ConfinedOutside(m2, m3, buf, buf, buf, buf, buf + k);
    ConfinedOutside(m3, m4, buf, buf, buf, buf, buf + k);
    OutsideThen(m0, m1, m2, buf, buf + k);
    OutsideThen(m0, m2, m3, buf, buf + k);
    OutsideThen(m0, m3, m4, buf, buf + k);
  }

  lemma LastCells(m3: seq<byte>, m4: seq<byte>, to: int)
    requires Others(m3, m4, to, BOOT_CPUID)
    ensures 0 <= to && to + HEADER <= |m3| == |m4|
    ensures Get32(m4, to + MAGIC) == Get32(m3, to + MAGIC) && Get32(m4, to + TOTALSIZE) == Get32(m3, to + TOTALSIZE)
    ensures Get32(m4, to + VERSION) == Get32(m3, to + VERSION) && Get32(m4, to + LAST_COMP) == Get32(m3, to + LAST_COMP)
  {
    hide Get32;
    assert SameCell(m3, m4, to, MAGIC) && SameCell(m3, m4, to, TOTALSIZE) && SameCell(m3, m4, to, VERSION)
           && SameCell(m3, m4, to, LAST_COMP);
    assert SameCell(m3, m4, to, SIZE_STRUCT);
  }

  lemma LayoutSeen(m: seq<byte>, from: int, n: int)
    requires 0 <= from && HEADER <= n < INT_LIMIT && from + n <= |m|
    ensures LayoutAt(m, from, LayoutOf(m[from..from + n]))
            && Get32(m, from + BOOT_CPUID) == Get32(m[from..from + n], BOOT_CPUID)
  {
    hide Get32;
    WindowGet(m, from, n, OFF_RSVMAP);
    WindowGet(m, from, n, OFF_STRUCT);
    WindowGet(m, from, n, OFF_STRINGS);
    WindowGet(m, from, n, SIZE_STRINGS);
    WindowGet(m, from, n, BOOT_CPUID);
  }

  /** The size of the structure block: from the header, or found by scanning when the version has no such field. */
  method BlockSize(b: seq<byte>, ghost f: Forest) returns (st: int)
    requires Opens(b, f)
    ensures st == Size(f) + 4
  {
    hide Get32, Reads, Flat, Size, Named, Rooted, CheckHeader, Reservations;
    var version := Load32(b, VERSION);
    if version >= 17 {
      st := Load32(b, SIZE_STRUCT);
    } else {
      var off := Load32(b, OFF_STRUCT);
      st := StructSize(b[off..], f);
    }
  }

  /** The part of `fdt_open_into` that reorders: find room for the result, in the buffer or behind the old blob. */
  method OpenReordered(mem: array<byte>, fdt: int, buf: int, bufsize: int, rsv: int, st: int, total: int,
                       ghost f: Forest) returns (err: int)
    requires 0 <= fdt && HEADER <= total < INT_LIMIT && fdt + total <= mem.Length
    requires 0 <= buf && 0 <= bufsize < INT_LIMIT && buf + bufsize <= mem.Length
    requires Opens(mem[fdt..fdt + total], f) && rsv == RsvBytes(mem[fdt..fdt + total]) && st == Size(f) + 4
    requires PackedSize(LayoutOf(mem[fdt..fdt + total]), rsv, st) < INT_LIMIT
             && Misordered(mem[fdt..fdt + total], rsv, st)
    modifies mem
    ensures err != 0 ==> mem[..] == old(mem[..])
    ensures err == 0 ==> Outside(old(mem[..]), mem[..], buf, buf + bufsize)
    ensures err == if old(HasRoom(mem[fdt..fdt + total], f, fdt, buf, bufsize)) then 0 else NOSPACE
    ensures err == 0 ==>
              var b, c := old(mem[fdt..fdt + total]), mem[buf..buf + bufsize];
              && OpenedAs(b, c, f, bufsize)
              && (Apart(fdt, fdt + total, buf, buf + PackedSize(LayoutOf(b), rsv, st)) ==>
                 Get32(c, BOOT_CPUID) == Get32(b, BOOT_CPUID))
  {
    hide Get32, Reservations, Reads, Flat, Size, Named, Rooted, CheckHeader, OpenedAs, BlocksAt, Misordered, Outside;
    ghost var m0 := mem[..];
    var b := mem[fdt..fdt + total];
    assert b == m0[fdt..fdt + total];
    ReservationsAt(b);
    LayoutSeen(m0, fdt, total);
    var sizeStrings := Load32(b, SIZE_STRINGS);
    var newsize := HEADER + rsv + st + sizeStrings;
    if bufsize < newsize {
      return NOSPACE;
    }
    var tmp := buf;
    if tmp + newsize > fdt && tmp < fdt + total {
      tmp := fdt + total;
      if tmp + newsize > buf + bufsize {
        return NOSPACE;
      }
    }
    Reorder(mem, fdt, tmp, buf, bufsize, rsv, st, newsize, total, LayoutOf(b));
    Reordered(m0, mem[..], fdt, total, buf, bufsize, rsv, st, f);
    assert mem[buf..buf + bufsize] == mem[..][buf..buf + bufsize];
    return 0;
  }

  /**
  `fdt_open_into`.  Whatever the order of the blocks and whether or not the version records the structure
  size, the buffer receives an editable blob with the same tree and reservations, exactly when it fits.
  */
  method FdtOpenInto(mem: array<byte>, fdt: int, buf: int, bufsize: int, ghost n: int, ghost f: Forest)
    returns (err: int)
    requires 0 <= fdt && HEADER <= n < INT_LIMIT && fdt + n <= mem.Length
    requires 0 <= buf && 0 <= bufsize < INT_LIMIT && buf + bufsize <= mem.Length
    requires CheckHeader(mem[fdt..fdt + n]) == 0 ==>
               && Opens(mem[fdt..fdt + n], f) && TotalSize(mem[fdt..fdt + n]) == n
               && PackedSize(LayoutOf(mem[fdt..fdt + n]), RsvBytes(mem[fdt..fdt + n]), Size(f) + 4) < INT_LIMIT
    modifies mem
    ensures err != 0 ==> mem[..] == old(mem[..])
    ensures err == 0 ==> Outside(old(mem[..]), mem[..], buf, buf + bufsize)
    ensures old(CheckHeader(mem[fdt..fdt + n])) != 0 ==> err == old(CheckHeader(mem[fdt..fdt + n]))
    ensures old(CheckHeader(mem[fdt..fdt + n])) == 0 ==>
              err == if old(HasRoom(mem[fdt..fdt + n], f, fdt, buf, bufsize)) then 0 else NOSPACE
    ensures old(CheckHeader(mem[fdt..fdt + n])) == 0 ==>
              var b := old(mem[fdt..fdt + n]);
              var size := 40 + 16 * (|Reservations(b, OffRsv(b)).value| + 1) + (Size(f) + 4) + SizeStrings(b);
              && (InLine(b, f) ==> (err == 0 <==> n <= bufsize))
              && (!InLine(b, f) && size <= bufsize && (buf + size <= fdt || fdt + n <= buf) ==> err == 0)
              && (!InLine(b, f) && size <= bufsize && fdt + n + size <= buf + bufsize ==> err == 0)
              && (buf == fdt && n + size <= bufsize ==> err == 0)
              && (err == 0 || err == NOSPACE)
              && (!InLine(b, f) && err == NOSPACE ==>
                    size > bufsize || (buf + size > fdt && buf < fdt + n && fdt + n + size > buf + bufsize))
    ensures err == 0 ==>
              && old(CheckHeader(mem[fdt..fdt + n])) == 0 && WellFormed(mem[buf..buf + bufsize])
              && TreeOf(mem[buf..buf + bufsize]) == old(Meaning(f, StringsOf(mem[fdt..fdt + n])))
              && Reserved(mem[buf..buf + bufsize])
                 == old(Reservations(mem[fdt..fdt + n], OffRsv(mem[fdt..fdt + n])).value)
              && TotalSize(mem[buf..buf + bufsize]) == bufsize && Version(mem[buf..buf + bufsize]) == 17
    ensures err == 0 ==>
              var b, c := old(mem[fdt..fdt + n]), mem[buf..buf + bufsize];
              && OpenedAs(b, c, f, bufsize)
              && ((!Misordered(b, RsvBytes(b), Size(f) + 4)
                   || Apart(fdt, fdt + n, buf, buf + PackedSize(LayoutOf(b), RsvBytes(b), Size(f) + 4))) ==>
                    Get32(c, BOOT_CPUID) == Get32(b, BOOT_CPUID))
  {
    hide Get32, Moved, Confined, Others, Decode, Reservations, Reads, Flat, Size, Named, Rooted, Meaning, CheckHeader,
         OpenedAs, BlocksAt, Misordered, Outside, InLine, WellFormed, TreeOf, Reserved;
    ghost var m0 := mem[..];
    ghost var b0 := m0[fdt..fdt + n];
    assert mem[fdt..fdt + n] == b0 && mem[fdt..fdt + HEADER] == m0[fdt..fdt + HEADER];
    HeaderWindow(m0, fdt, n);
    var total := Load32(mem[..], fdt + TOTALSIZE);
    err := FdtCheckHeader(mem[fdt..fdt + HEADER]);
    if err != 0 {
      return;
    }
    var b := mem[fdt..fdt + total];
    assert b == b0;
    ReservationsAt(b0);
    RoomWritten(b0, f, fdt, buf, bufsize);
    var rsv := FdtNumMemRsv(b);
    rsv := (rsv + 1) * 16;
    var st := BlockSize(b, f);
    var bad := FdtBlocksMisordered(b, rsv, st);
    if !bad {
      err := FdtMove(mem, fdt, buf, bufsize, n);
      if err != 0 {
        return;
      }
      ghost var m1 := mem[..];
      Finish(mem, fdt, buf, bufsize, st, m0, n, f);
      OutsideThen(m0, m1, mem[..], buf, buf + bufsize);
      OpenedPlainly(b0, mem[buf..buf + bufsize], f, bufsize);
      return 0;
    }
    err := OpenReordered(mem, fdt, buf, bufsize, rsv, st, total, f);
    if err == 0 { OpenedPlainly(b0, mem[buf..buf + bufsize], f, bufsize); }
  }

  lemma Reordered(m0: seq<byte>, m: seq<byte>, fdt: int, n: int, buf: int, k: int, rsv: int, st: int, f: Forest)
    requires 0 <= fdt && HEADER <= n < INT_LIMIT && fdt + n <= |m0| == |m| && 0 <= buf && k < INT_LIMIT
             && buf + k <= |m|
    requires Opens(m0[fdt..fdt + n], f) && rsv == RsvBytes(m0[fdt..fdt + n]) && st == Size(f) + 4
    requires PackedSize(LayoutOf(m0[fdt..fdt + n]), rsv, st) <= k
    requires BlocksAt(m0, m, fdt, buf, rsv, st, LayoutOf(m0[fdt..fdt + n]))
    requires Get32(m, buf + MAGIC) == FDT_MAGIC && Get32(m, buf + TOTALSIZE) == k
    requires Get32(m, buf + VERSION) == 17 && Get32(m, buf + LAST_COMP) == 16
    ensures var b, c := m0[fdt..fdt + n], m[buf..buf + k];
            HEADER <= k && OpenedAs(b, c, f, k) && Get32(c, BOOT_CPUID) == Get32(m, buf + BOOT_CPUID)
  {
    hide Get32, Moved, Decode, Reservations, Reads, Flat, Size, Named, Rooted, Meaning, CheckHeader, Carried,
         WellFormed;
    var b := m0[fdt..fdt + n];
    ReservationsAt(b);
    LayoutSeen(m0, fdt, n);
    BlocksWindow(m0, m, fdt, n, buf, k, rsv, st, LayoutOf(b));
    UsableWindow(m, buf, k);
    Opened(m0, m, fdt, n, buf, k, f);
  }
}
