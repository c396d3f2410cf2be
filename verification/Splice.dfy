/**
The byte level of in-place editing: what `_fdt_splice_struct` and writes into the opened gap do to the
header and the blocks, and what that means for the tree.
*/
module Splice {
  import opened Words
  import opened Tokens
  import opened Structure
  import opened Tokenizer
  import opened Tree
  import opened Blob

  lemma OverlayGet(b: seq<byte>, at: int, x: seq<byte>, i: int)
    requires 0 <= at && at + |x| <= |b| && 0 <= i && i + 4 <= |b| && (i + 4 <= at || at + |x| <= i)
    ensures Get32(Overlay(b, at, x), i) == Get32(b, i)
  {
    CellsAgree(Overlay(b, at, x), i, b, i);
  }

  lemma OverlayWord(b: seq<byte>, at: int, v: u32)
    requires 0 <= at && at + 4 <= |b|
    ensures Get32(Overlay(b, at, Word(v)), at) == v
  {
    var r := Overlay(b, at, Word(v));
    assert forall k :: 0 <= k < 4 ==> r[at + k] == Word(v)[k];
    GetWord(r, at, v);
  }

  lemma OverlayMoved(b: seq<byte>, at: int, x: seq<byte>, o: int, e: int)
    requires 0 <= at && at + |x| <= |b| && 0 <= o <= e <= |b| && (e <= at || at + |x| <= o)
    ensures Moved(b, o, e, Overlay(b, at, x), 0)
  {
  }

  lemma OverlaySpells(b: seq<byte>, at: int, x: seq<byte>)
    requires 0 <= at && at + |x| <= |b|
    ensures Spells(Overlay(b, at, x), at, x)
  {
  }

  lemma MovedThen(s: seq<byte>, o: int, e: int, t: seq<byte>, d: int, u: seq<byte>, d2: int)
    requires Moved(s, o, e, t, d) && Moved(t, o + d, e + d, u, d2)
    ensures Moved(s, o, e, u, d + d2)
  {
    forall i {:trigger s[i]} | o <= i < e ensures u[i + (d + d2)] == s[i] {
      assert t[i + d] == s[i];
    }
  }

  /** The header cells other than the structure size and the strings offset and size agree. */
  ghost predicate SameHeader(b: seq<byte>, c: seq<byte>) {
    && Buffer(b) && |c| == |b|
    && Get32(c, MAGIC) == Get32(b, MAGIC) && TotalSize(c) == TotalSize(b) && OffStruct(c) == OffStruct(b)
    && OffRsv(c) == OffRsv(b) && Version(c) == Version(b) && Get32(c, LAST_COMP) == Get32(b, LAST_COMP)
    && Get32(c, BOOT_CPUID) == Get32(b, BOOT_CPUID)
  }

  /**
  `c` is `b` with the `n` structure bytes at `k` replaced by `m` bytes, which are left open here;
  everything behind them has moved by `m - n`, and the header says so.
  */
  ghost predicate Respliced(b: seq<byte>, c: seq<byte>, k: int, n: int, m: int) {
    && InOrder(b) && SameHeader(b, c)
    && 0 <= k && 0 <= n && 0 <= m && k + n <= SizeStruct(b)
    && SizeStruct(c) == SizeStruct(b) - n + m && OffStrings(c) == OffStrings(b) - n + m
    && SizeStrings(c) == SizeStrings(b) && OffStrings(c) + SizeStrings(c) <= TotalSize(b)
    && Moved(b, HEADER, OffStruct(b) + k, c, 0)
    && Moved(b, OffStruct(b) + k + n, OffStrings(b) + SizeStrings(b), c, m - n)
  }

  /** Seen from further left, the bytes in between belong to the replaced range. */
  lemma Widen(b: seq<byte>, c: seq<byte>, k: int, n: int, m: int, j: int)
    requires Respliced(b, c, k, n, m) && 0 <= j <= k
    ensures Respliced(b, c, k - j, n + j, m + j)
  {
  }

  /** Writing inside the replaced range keeps the relation. */
  lemma WriteGap(b: seq<byte>, c: seq<byte>, k: int, n: int, m: int, at: int, x: seq<byte>)
    requires Respliced(b, c, k, n, m) && OffStruct(b) + k <= at && at + |x| <= OffStruct(b) + k + m
    ensures Respliced(b, Overlay(c, at, x), k, n, m)
  {
    hide Reservations;
    var d := Overlay(c, at, x);
    OverlayGet(c, at, x, MAGIC);
    OverlayGet(c, at, x, TOTALSIZE);
    OverlayGet(c, at, x, OFF_STRUCT);
    OverlayGet(c, at, x, OFF_STRINGS);
    OverlayGet(c, at, x, OFF_RSVMAP);
    OverlayGet(c, at, x, VERSION);
    OverlayGet(c, at, x, LAST_COMP);
    OverlayGet(c, at, x, BOOT_CPUID);
    OverlayGet(c, at, x, SIZE_STRINGS);
    OverlayGet(c, at, x, SIZE_STRUCT);
    var e := OffStrings(b) + SizeStrings(b);
    OverlayMoved(c, at, x, HEADER, OffStruct(b) + k);
    MovedThen(b, HEADER, OffStruct(b) + k, c, 0, d, 0);
    OverlayMoved(c, at, x, OffStruct(b) + k + m, e + m - n);
    MovedThen(b, OffStruct(b) + k + n, e, c, m - n, d, 0);
  }

  /** A range of a buffer that a block slice covers. */
  lemma SliceMoved(b: seq<byte>, o: int, e: int, c: seq<byte>, d: int, bo: int, be: int, co: int, ce: int)
    requires Moved(b, o, e, c, d) && 0 <= bo <= o && e <= be <= |b| && 0 <= co <= o + d && e + d <= ce <= |c|
    ensures Moved(b[bo..be], o - bo, e - bo, c[co..ce], d + bo - co)
  {
    var s, t := b[bo..be], c[co..ce];
    forall i {:trigger s[i]} | o - bo <= i < e - bo ensures t[i + (d + bo - co)] == s[i] {
      assert b[i + bo] == s[i];
    }
  }

  /** The blocks after a splice. */
  lemma ResplicedBlocks(b: seq<byte>, c: seq<byte>, k: int, n: int, m: int)
    requires Respliced(b, c, k, n, m)
    ensures InOrder(c) && BlocksFit(b) && BlocksFit(c) && Reserved(c) == Reserved(b) && Strings(c) == Strings(b)
    ensures |Struct(b)| == SizeStruct(b) && |Struct(c)| == SizeStruct(b) - n + m
    ensures Moved(Struct(b), 0, k, Struct(c), 0)
    ensures Moved(Struct(b), k + n, SizeStruct(b), Struct(c), m - n)
  {
    hide Moved, Reservations, Get32;
    var os, ss, ot, st := OffStruct(b), SizeStruct(b), OffStrings(b), SizeStrings(b);
    MovedReservations(b, HEADER, os + k, c, 0, OffRsv(b));
    SubMoved(b, os + k + n, ot + st, c, m - n, ot, ot + st);
    SliceEqual(b, ot, ot + st, c, m - n);
    ResplicedStruct(b, c, os, ss, k, n, m, ot + st);
  }

  /** The two halves of the structure block on either side of the splice. */
  lemma ResplicedStruct(b: seq<byte>, c: seq<byte>, os: int, ss: int, k: int, n: int, m: int, e: int)
    requires HEADER <= os && 0 <= k && 0 <= n && 0 <= m && k + n <= ss && os + ss <= e <= |b| && os + ss - n + m <= |c|
    requires Moved(b, HEADER, os + k, c, 0) && Moved(b, os + k + n, e, c, m - n)
    ensures Moved(b[os..os + ss], 0, k, c[os..os + (ss - n + m)], 0)
    ensures Moved(b[os..os + ss], k + n, ss, c[os..os + (ss - n + m)], m - n)
  {
    var s, t := b[os..os + ss], c[os..os + (ss - n + m)];
    forall i {:trigger s[i]} | 0 <= i < k ensures t[i + 0] == s[i] {
      assert b[os + i] == s[i];
    }
    forall i {:trigger s[i]} | k + n <= i < ss ensures t[i + (m - n)] == s[i] {
      assert b[os + i] == s[i];
    }
  }

  lemma SubMoved(b: seq<byte>, o: int, e: int, c: seq<byte>, d: int, i: int, j: int)
    requires Moved(b, o, e, c, d) && o <= i <= j <= e
    ensures Moved(b, i, j, c, d)
  {
  }

  lemma SliceEqual(b: seq<byte>, o: int, e: int, c: seq<byte>, d: int)
    requires Moved(b, o, e, c, d)
    ensures c[o + d..e + d] == b[o..e]
  {
    forall i | 0 <= i < e - o ensures c[o + d..e + d][i] == b[o..e][i] {
      assert b[o + i] == b[o..e][i];
    }
  }

  /** Replacing the stored tokens `old` in front of the items at `p` by `new` grafts `g` there. */
  lemma EditMeans(b: seq<byte>, c: seq<byte>, p: Pos, old': Tokens, new': Tokens, tail: Tokens, g: Forest)
    requires WellFormed(b) && Valid(Stored(b), p)
    requires Flat(At(Stored(b), p)) == Append(old', tail) && Flat(g) == Append(new', tail)
    requires Respliced(b, c, Off(Stored(b), p), Len(old'), Len(new'))
    requires BlocksFit(c) && Reads(Struct(c), Off(Stored(b), p), new')
    requires Rooted(Graft(Stored(b), p, g)) && Named(g, Strings(b))
    ensures WellFormed(c) && Stored(c) == Graft(Stored(b), p, g) && Reserved(c) == Reserved(b)
    ensures ValidIn(TreeOf(b), Place(Stored(b), p))
    ensures TreeOf(c) == Replace(TreeOf(b), Place(Stored(b), p), Meaning(g, Strings(b)))
  {
    hide Decode, Meaning, Replace, Reads, Moved, Reservations, Respliced, Len, Flat, At, Graft, Append, Struct,
         Strings, Spelled, Named, Rooted, InOrder;
    var f := Stored(b);
    ResplicedBlocks(b, c, Off(f, p), Len(old'), Len(new'));
    EditSpelled(b, c, p, old', new', tail, g);
    MeaningGraft(f, Strings(b), p, g);
    ResplicedHeader(b, c, Off(f, p), Len(old'), Len(new'));
    ReadableFrom(c, Graft(f, p, g));
  }

  lemma EditSpelled(b: seq<byte>, c: seq<byte>, p: Pos, old': Tokens, new': Tokens, tail: Tokens, g: Forest)
    requires Readable(b) && Valid(Stored(b), p)
    requires Flat(At(Stored(b), p)) == Append(old', tail) && Flat(g) == Append(new', tail)
    requires Respliced(b, c, Off(Stored(b), p), Len(old'), Len(new'))
    requires BlocksFit(c) && Reads(Struct(c), Off(Stored(b), p), new')
    ensures Spelled(Struct(c), 0, Flat(Graft(Stored(b), p, g)))
  {
    hide Decode, Reads, Moved, Respliced, Len, Flat, At, Graft, Append, Struct, Strings, Spelled, Named, Rooted,
         InOrder;
    var f := Stored(b);
    ResplicedBlocks(b, c, Off(f, p), Len(old'), Len(new'));
    StoredSpelled(b);
    var z := Append(tail, After(f, p));
    GraftTokens(f, p, old', new', tail, g, z);
    SpliceSpelled(Struct(b), Struct(c), Before(f, p), old', new', z);
  }

  lemma ResplicedHeader(b: seq<byte>, c: seq<byte>, k: int, n: int, m: int)
    requires Respliced(b, c, k, n, m)
    ensures SameHeader(b, c)
  {
  }

  /** The token lists of a forest before and after a graft that replaces only leading tokens. */
  lemma GraftTokens(f: Forest, p: Pos, old': Tokens, new': Tokens, tail: Tokens, g: Forest, z: Tokens)
    requires Valid(f, p) && Flat(At(f, p)) == Append(old', tail) && Flat(g) == Append(new', tail)
    requires z == Append(tail, After(f, p))
    ensures Flat(f) == Append(Before(f, p), Append(old', z))
    ensures Flat(Graft(f, p, g)) == Append(Before(f, p), Append(new', z))
  {
    FlatAt(f, p);
    GraftFlat(f, p, g);
    AppendAssoc(old', tail, After(f, p));
    AppendAssoc(new', tail, After(f, p));
  }

  /** The splice theorem for a whole block, END tag included. */
  lemma SpliceSpelled(s: seq<byte>, t: seq<byte>, x: Tokens, o: Tokens, n: Tokens, z: Tokens)
    requires Spelled(s, 0, Append(x, Append(o, z)))
    requires Moved(s, 0, Len(x), t, 0) && Reads(t, Len(x), n)
    requires Moved(s, Len(x) + Len(o), |s|, t, Len(n) - Len(o)) && |t| == |s| - Len(o) + Len(n)
    ensures Spelled(t, 0, Append(x, Append(n, z)))
  {
    hide Moved, Reads, Append, Len;
    LenAppend(x, Append(o, z));
    LenAppend(o, z);
    LenAppend(x, Append(n, z));
    LenAppend(n, z);
    SpliceReads(s, 0, |s|, x, o, z, t, n);
    EndMoved(s, Len(x) + Len(o), t, Len(n) - Len(o), Len(x) + Len(o) + Len(z));
  }

  lemma EndMoved(s: seq<byte>, o: int, t: seq<byte>, d: int, i: int)
    requires Moved(s, o, |s|, t, d) && o <= i && TagAt(s, i, END)
    ensures TagAt(t, i + d, END)
  {
    MovedGet(s, o, |s|, t, d, i);
  }

  lemma StructGet(b: seq<byte>, i: int)
    requires BlocksFit(b) && 0 <= i && i + 4 <= SizeStruct(b)
    ensures Get32(Struct(b), i) == Get32(b, OffStruct(b) + i)
  {
    CellsAgree(Struct(b), i, b, OffStruct(b) + i);
  }

  lemma StructSpells(b: seq<byte>, i: int, v: seq<byte>)
    requires BlocksFit(b) && 0 <= i && i + |v| <= SizeStruct(b) && Spells(b, OffStruct(b) + i, v)
    ensures Spells(Struct(b), i, v)
  {
    hide Get32;
  }

  /** A gap holds the cells of a property header; the value is still to be written. */
  ghost predicate PropOpen(b: seq<byte>, c: seq<byte>, off: int, n: int, no: u32, len: int) {
    && 0 <= len < INT_LIMIT && Respliced(b, c, off, n, 12 + Align4(len))
    && Get32(c, OffStruct(b) + off) == PROP && Get32(c, OffStruct(b) + off + 4) == len
    && Get32(c, OffStruct(b) + off + 8) == no
  }

  /** Copying the value in completes the property token. */
  lemma FillProp(b: seq<byte>, c: seq<byte>, off: int, n: int, no: u32, val: seq<byte>)
    requires PropOpen(b, c, off, n, no, |val|)
    ensures var d := Overlay(c, OffStruct(b) + off + 12, val);
            && Respliced(b, d, off, n, TokenLen(Prop(no, val)))
            && BlocksFit(d) && Reads(Struct(d), off, Cons(Prop(no, val), Nil))
  {
    hide Get32, Reservations, Moved, Spells, Overlay;
    var at := OffStruct(b) + off + 12;
    var m := 12 + Align4(|val|);
    var d := Overlay(c, at, val);
    WriteGap(b, c, off, n, m, at, val);
    ResplicedBlocks(b, d, off, n, m);
    OverlayGet(c, at, val, at - 12);
    OverlayGet(c, at, val, at - 8);
    OverlayGet(c, at, val, at - 4);
    OverlaySpells(c, at, val);
    StructGet(d, off);
    StructGet(d, off + 4);
    StructGet(d, off + 8);
    StructSpells(d, off + 12, val);
  }
}
