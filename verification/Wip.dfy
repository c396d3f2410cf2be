/** The write-in-place operations of fdt_wip.c: what is removed is overwritten by NOP tags and nothing moves. */
module Wip {
  import opened Words
  import opened Tokens
  import opened Structure
  import opened Tokenizer
  import opened Walk
  import opened Tree
  import opened Blob
  import opened Queries
  import opened Ancestors
  import opened Properties
  import opened Splice
  import opened Edit
  import opened EditMore
  import opened EditNodes
  import opened Subnodes

  /** `c` is `b` with the `k` cells from `at` on set to NOP. */
  ghost predicate Nopped(b: seq<byte>, c: seq<byte>, at: int, k: nat) {
    && 0 <= at && at + 4 * k <= |b| == |c|
    && Moved(b, 0, at, c, 0) && Moved(b, at + 4 * k, |b|, c, 0)
    && forall j :: 0 <= j < k ==> NopCell(c, at, j)
  }

  ghost predicate NopCell(c: seq<byte>, at: int, j: int) {
    TagAt(c, at + 4 * j, NOP)
  }

  lemma NopNext(b: seq<byte>, c: seq<byte>, at: int, k: nat)
    requires Nopped(b, c, at, k) && at + 4 * (k + 1) <= |b|
    ensures Nopped(b, Overlay(c, at + 4 * k, Word(NOP)), at, k + 1)
  {
    hide Get32, Moved, Word, Overlay;
    var p := at + 4 * k;
    var d := Overlay(c, p, Word(NOP));
    OverlayWord(c, p, NOP);
    OverlayMoved(c, p, Word(NOP), 0, at);
    MovedThen(b, 0, at, c, 0, d, 0);
    SubMoved(b, p, |b|, c, 0, p + 4, |b|);
    OverlayMoved(c, p, Word(NOP), p + 4, |b|);
    MovedThen(b, p + 4, |b|, c, 0, d, 0);
    forall j | 0 <= j < k + 1 ensures NopCell(d, at, j) {
      if j < k {
        assert NopCell(c, at, j);
        OverlayGet(c, p, Word(NOP), at + 4 * j);
      }
    }
  }

  /** `_fdt_nop_region`. */
  method FdtNopRegion(a: array<byte>, start: int, len: int, ghost k: nat)
    requires 0 <= start && 4 * k == Align4(len) && start + 4 * k <= a.Length
    modifies a
    ensures Nopped(old(a[..]), a[..], start, k)
  {
    hide Nopped, Overlay, Word;
    ghost var b := a[..];
    NopNone(b, start);
    ghost var i := 0;
    var p := start;
    while p < start + len
      invariant 0 <= i <= k && p == start + 4 * i && Nopped(b, a[..], start, i)
      decreases k - i
    {
      NopNext(b, a[..], start, i);
      Store32(a, p, NOP);
      p := p + 4;
      i := i + 1;
    }
  }

  lemma NopNone(b: seq<byte>, at: int)
    requires 0 <= at <= |b|
    ensures Nopped(b, b, at, 0)
  {
  }

  /** `k` NOPs in front of the items `f`. */
  function Nops(k: nat, f: Forest): Forest {
    if k == 0 then f else Leaf(Nop, Nops(k - 1, f))
  }

  function NopTokens(k: nat): Tokens {
    if k == 0 then Nil else Cons(Nop, NopTokens(k - 1))
  }

  lemma {:induction false} NopsFlat(k: nat, f: Forest)
    ensures Flat(Nops(k, f)) == Append(NopTokens(k), Flat(f)) && Len(NopTokens(k)) == 4 * k
    decreases k
  {
    if k > 0 { NopsFlat(k - 1, f); CloseLen(); }
  }

  lemma {:induction false} NopsMean(k: nat, f: Forest, t: seq<byte>)
    requires Named(f, t)
    ensures Named(Nops(k, f), t) && Meaning(Nops(k, f), t) == Meaning(f, t)
    decreases k
  {
    if k > 0 { NopsMean(k - 1, f, t); }
  }

  lemma {:induction false} NopsRead(s: seq<byte>, o: int, k: nat, i: nat)
    requires 0 <= o && o + 4 * k <= |s| && i <= k && forall j :: 0 <= j < k ==> NopCell(s, o, j)
    ensures Reads(s, o + 4 * i, NopTokens(k - i))
    decreases k - i
  {
    if i < k {
      assert NopCell(s, o, i);
      NopsRead(s, o, k, i + 1);
    }
  }

  /** NOPs over a part of the structure block: a splice that replaces as many bytes as it removes. */
  lemma NoppedRespliced(b: seq<byte>, c: seq<byte>, o: int, k: nat)
    requires InOrder(b) && 0 <= o && o + 4 * k <= SizeStruct(b) && Nopped(b, c, OffStruct(b) + o, k)
    ensures Respliced(b, c, o, 4 * k, 4 * k) && BlocksFit(c) && Reads(Struct(c), o, NopTokens(k))
  {
    hide Get32, Moved, Reservations, Reads, NopCell;
    var at := OffStruct(b) + o;
    NoppedHeader(b, c, at);
    SubMoved(b, 0, at, c, 0, HEADER, at);
    SubMoved(b, at + 4 * k, |b|, c, 0, at + 4 * k, OffStrings(b) + SizeStrings(b));
    var s := Struct(c);
    forall j | 0 <= j < k ensures NopCell(s, o, j) {
      assert NopCell(c, at, j);
      NopInStruct(c, o, j);
    }
    NopsRead(s, o, k, 0);
  }

  lemma NopInStruct(c: seq<byte>, o: int, j: int)
    requires BlocksFit(c) && 0 <= o && 0 <= j && o + 4 * j + 4 <= SizeStruct(c) && NopCell(c, OffStruct(c) + o, j)
    ensures NopCell(Struct(c), o, j)
  {
    hide Get32, Struct;
    StructGet(c, o + 4 * j);
  }

  lemma NoppedHeader(b: seq<byte>, c: seq<byte>, at: int)
    requires Buffer(b) && HEADER <= at && |c| == |b| && Moved(b, 0, at, c, 0)
    ensures SameHeader(b, c) && SizeStruct(c) == SizeStruct(b) && OffStrings(c) == OffStrings(b)
            && SizeStrings(c) == SizeStrings(b)
  {
    hide Get32, Moved;
    MovedGet(b, 0, at, c, 0, MAGIC);
    MovedGet(b, 0, at, c, 0, TOTALSIZE);
    MovedGet(b, 0, at, c, 0, OFF_STRUCT);
    MovedGet(b, 0, at, c, 0, OFF_STRINGS);
    MovedGet(b, 0, at, c, 0, OFF_RSVMAP);
    MovedGet(b, 0, at, c, 0, VERSION);
    MovedGet(b, 0, at, c, 0, LAST_COMP);
    MovedGet(b, 0, at, c, 0, BOOT_CPUID);
    MovedGet(b, 0, at, c, 0, SIZE_STRINGS);
    MovedGet(b, 0, at, c, 0, SIZE_STRUCT);
  }

  /** A stored node or property: its offset, its token and the nodes that enclose it. */
  datatype Entry = Entry(off: int, token: Token, up: Trail)

  /** The items `f`, stored at offset `o` inside the nodes `up`, include the entry `e`. */
  ghost predicate Holds(f: Forest, o: int, up: Trail, e: Entry) {
    match f
    case Stop => false
    case Leaf(t, r) => (t.Prop? && e == Entry(o, t, up)) || Holds(r, o + TokenLen(t), up, e)
    case Node(n, b, r) =>
      || e == Entry(o, Begin(n), up)
      || Holds(b, o + TokenLen(Begin(n)), up + [Spot(o, n)], e)
      || Holds(r, o + Len(First(f)), up, e)
  }

  lemma {:induction false} HoldsWithin(f: Forest, o: int, up: Trail, e: Entry)
    requires Holds(f, o, up, e)
    ensures o <= e.off < o + Size(f)
    decreases f
  {
    hide Size, Len;
    SizeSplit(f);
    FirstLen(f);
    match f
    case Leaf(t, r) => if Holds(r, o + TokenLen(t), up, e) { HoldsWithin(r, o + TokenLen(t), up, e); }
    case Node(n, b, r) =>
      if Holds(b, o + TokenLen(Begin(n)), up + [Spot(o, n)], e) {
        HoldsWithin(b, o + TokenLen(Begin(n)), up + [Spot(o, n)], e);
      } else if Holds(r, o + Len(First(f)), up, e) {
        HoldsWithin(r, o + Len(First(f)), up, e);
      }
  }

  lemma {:induction false} HoldsNops(k: nat, f: Forest, o: int, up: Trail, e: Entry)
    ensures Holds(Nops(k, f), o, up, e) <==> Holds(f, o + 4 * k, up, e)
    decreases k
  {
    if k > 0 { HoldsNops(k - 1, f, o + 4, up, e); CloseLen(); }
  }

  /** The forest with the first item at `p` turned into `k` NOPs. */
  ghost function NopAt(f: Forest, p: Pos, k: nat): Forest
    requires Valid(f, p) && !At(f, p).Stop?
  {
    Graft(f, p, Nops(k, At(f, p).rest))
  }

  /** The first item's entries lie before those of the rest. */
  lemma FirstOrRest(f: Forest, o: int, up: Trail, e: Entry)
    requires !f.Stop? && Holds(f, o, up, e)
    ensures e.off < o + Len(First(f)) <==> !Holds(f.rest, o + Len(First(f)), up, e)
  {
    hide Size, Len;
    FirstLen(f);
    if Holds(f.rest, o + Len(First(f)), up, e) { HoldsWithin(f.rest, o + Len(First(f)), up, e); }
    if f.Node? && Holds(f.body, o + TokenLen(Begin(f.name)), up + [Spot(o, f.name)], e) {
      HoldsWithin(f.body, o + TokenLen(Begin(f.name)), up + [Spot(o, f.name)], e);
    }
  }

  lemma SameSize(f: Forest, p: Pos, k: nat)
    requires Valid(f, p) && !At(f, p).Stop? && Len(First(At(f, p))) == 4 * k
    ensures Size(NopAt(f, p, k)) == Size(f) >= Off(f, p) + 4 * k
  {
    hide Flat, First;
    var x := At(f, p);
    GraftAt(f, p, Nops(k, x.rest));
    FlatAt(f, p);
    FlatAt(NopAt(f, p, k), p);
    FirstThenRest(x);
    LenAppend(First(x), Flat(x.rest));
    NopsFlat(k, x.rest);
    LenAppend(NopTokens(k), Flat(x.rest));
  }

  /** Everything outside the overwritten range stays stored where it was; everything inside is gone. */
  lemma {:induction false} NopKeeps(f: Forest, p: Pos, k: nat, o: int, up: Trail, e: Entry)
    requires Valid(f, p) && !At(f, p).Stop? && Len(First(At(f, p))) == 4 * k
    ensures Holds(NopAt(f, p, k), o, up, e) <==>
            Holds(f, o, up, e) && !(o + Off(f, p) <= e.off < o + Off(f, p) + 4 * k)
    decreases p
  {
    match p
    case Here => NopHere(f, k, o, up, e);
    case Past(q) =>
      NopKeeps(f.rest, q, k, o + Len(First(f)), up, e);
      NopPast(f, q, k, o, up, e);
    case Into(q) =>
      NopKeeps(f.body, q, k, o + TokenLen(Begin(f.name)), up + [Spot(o, f.name)], e);
      NopInto(f, q, k, o, up, e);
  }

  lemma NopHere(f: Forest, k: nat, o: int, up: Trail, e: Entry)
    requires !f.Stop? && Len(First(f)) == 4 * k
    ensures Holds(NopAt(f, Here, k), o, up, e) <==> Holds(f, o, up, e) && !(o <= e.off < o + 4 * k)
    ensures Off(f, Here) == 0
  {
    hide Size, Len;
    HereOff(f);
    HoldsNops(k, f.rest, o, up, e);
    if Holds(f, o, up, e) { HoldsWithin(f, o, up, e); FirstOrRest(f, o, up, e); }
    if Holds(f.rest, o + 4 * k, up, e) { HoldsWithin(f.rest, o + 4 * k, up, e); FirstLen(f); }
  }

  lemma NopPast(f: Forest, q: Pos, k: nat, o: int, up: Trail, e: Entry)
    requires Valid(f, Past(q)) && !At(f.rest, q).Stop?
    requires Holds(NopAt(f.rest, q, k), o + Len(First(f)), up, e) <==>
             Holds(f.rest, o + Len(First(f)), up, e)
             && !(o + Len(First(f)) + Off(f.rest, q) <= e.off < o + Len(First(f)) + Off(f.rest, q) + 4 * k)
    ensures Holds(NopAt(f, Past(q), k), o, up, e) <==>
            Holds(f, o, up, e) && !(o + Off(f, Past(q)) <= e.off < o + Off(f, Past(q)) + 4 * k)
  {
    hide Size, Len, Off;
    var g := NopAt(f, Past(q), k);
    assert First(g) == First(f) && g.rest == NopAt(f.rest, q, k);
    OffSplit(f, Past(q));
    FirstLen(f);
    if Holds(f, o, up, e) { FirstOrRest(f, o, up, e); }
    if Holds(g, o, up, e) { FirstOrRest(g, o, up, e); }
  }

  lemma NopInto(f: Forest, q: Pos, k: nat, o: int, up: Trail, e: Entry)
    requires Valid(f, Into(q)) && !At(f.body, q).Stop? && Len(First(At(f.body, q))) == 4 * k
    requires var h := o + TokenLen(Begin(f.name));
             Holds(NopAt(f.body, q, k), h, up + [Spot(o, f.name)], e) <==>
             Holds(f.body, h, up + [Spot(o, f.name)], e) && !(h + Off(f.body, q) <= e.off < h + Off(f.body, q) + 4 * k)
    ensures Holds(NopAt(f, Into(q), k), o, up, e) <==>
            Holds(f, o, up, e) && !(o + Off(f, Into(q)) <= e.off < o + Off(f, Into(q)) + 4 * k)
  {
    hide Size, Len, Off;
    var g := NopAt(f, Into(q), k);
    assert g == Node(f.name, NopAt(f.body, q, k), f.rest);
    OffSplit(f, Into(q));
    SameSize(f.body, q, k);
    FirstLen(f);
    FirstLen(g);
    if Holds(f.rest, o + Len(First(f)), up, e) { HoldsWithin(f.rest, o + Len(First(f)), up, e); }
  }

  /** The blob stores the entry `e` in its structure block. */
  ghost predicate StoresEntry(b: seq<byte>, e: Entry)
    requires Readable(b)
  {
    Holds(Stored(b), 0, [], e)
  }

  /** Outside the range `[lo..hi)` of the structure block both blobs store the same entries at the same offsets. */
  ghost predicate Survive(b: seq<byte>, c: seq<byte>, lo: int, hi: int)
    requires Readable(b) && Readable(c)
  {
    forall e :: StoresEntry(c, e) <==> StoresEntry(b, e) && !(lo <= e.off < hi)
  }

  /** The first item at `p` has been overwritten by NOPs. */
  lemma NoppedMeans(b: seq<byte>, c: seq<byte>, p: Pos, k: nat)
    requires WellFormed(b) && Valid(Stored(b), p) && !At(Stored(b), p).Stop? && Len(First(At(Stored(b), p))) == 4 * k
    requires OffStruct(b) + Off(Stored(b), p) + 4 * k <= |b| && Nopped(b, c, OffStruct(b) + Off(Stored(b), p), k)
    ensures InOrder(c) && BlocksFit(c) && Reserved(c) == Reserved(b) && Strings(c) == Strings(b)
    ensures Decode(Struct(c)) == Some(NopAt(Stored(b), p, k))
    ensures Named(At(Stored(b), p).rest, Strings(b)) && ValidIn(TreeOf(b), Place(Stored(b), p))
    ensures !p.Here? ==>
              && WellFormed(c) && Survive(b, c, Off(Stored(b), p), Off(Stored(b), p) + 4 * k)
              && TreeOf(c) == Replace(TreeOf(b), Place(Stored(b), p), Meaning(At(Stored(b), p).rest, Strings(b)))
  {
    hide Decode, Nopped, Reads, Off, Reservations, Size, Flat, Replace, First, InOrder, Respliced, Len, Holds;
    var f, t := Stored(b), Strings(b);
    var x, o := At(f, p), Off(f, p);
    RangeInside(b, p);
    NoppedRespliced(b, c, o, k);
    NamedAt(f, t, p);
    MeaningAt(f, t, p);
    FirstThenRest(x);
    NopsFlat(k, x.rest);
    NopsMean(k, x.rest, t);
    ResplicedBlocks(b, c, o, 4 * k, 4 * k);
    EditSpelled(b, c, p, First(x), NopTokens(k), Flat(x.rest), Nops(k, x.rest));
    DecodeExact(Struct(c), NopAt(f, p, k));
    if !p.Here? {
      NopRooted(f, p, k);
      EditMeans(b, c, p, First(x), NopTokens(k), Flat(x.rest), Nops(k, x.rest));
      forall e ensures StoresEntry(c, e) <==> StoresEntry(b, e) && !(o <= e.off < o + 4 * k) {
        NopKeeps(f, p, k, 0, [], e);
      }
    }
  }

  lemma RangeInside(b: seq<byte>, p: Pos)
    requires Readable(b) && Valid(Stored(b), p) && !At(Stored(b), p).Stop?
    ensures 0 <= Off(Stored(b), p) && Off(Stored(b), p) + Len(First(At(Stored(b), p))) <= SizeStruct(b)
  {
    hide Decode, Named, Rooted, First;
    var x := At(Stored(b), p);
    OnwardSpelled(b, p);
    FirstThenRest(x);
    LenAppend(First(x), Flat(x.rest));
    LenAppend(Flat(x), After(Stored(b), p));
  }

  lemma {:induction false} NopRooted(f: Forest, p: Pos, k: nat)
    requires Rooted(f) && Valid(f, p) && !At(f, p).Stop? && !p.Here?
    ensures Rooted(NopAt(f, p, k))
  {
    if p.Past? { NopOnly(f.rest, p.next, k); }
  }

  lemma {:induction false} NopOnly(f: Forest, p: Pos, k: nat)
    requires OnlyNops(f) && Valid(f, p) && !At(f, p).Stop?
    ensures OnlyNops(NopAt(f, p, k))
    decreases p
  {
    if p.Past? { NopOnly(f.rest, p.next, k); } else { NopsOnly(k, f.rest); }
  }

  lemma {:induction false} NopsOnly(k: nat, f: Forest)
    requires OnlyNops(f)
    ensures OnlyNops(Nops(k, f))
    decreases k
  {
    if k > 0 { NopsOnly(k - 1, f); }
  }

  /** The property found in the node at `p` has been overwritten by NOPs. */
  lemma NoppedProperty(b: seq<byte>, c: seq<byte>, p: Pos, o: int, name: seq<byte>, off: int, k: nat)
    requires WellFormed(b) && NodeAt(b, p, o) && Sought(b, p, name).Some?
    requires var x := At(Stored(b), p);
             var q := Sought(b, p, name).value;
             IsProp(x.body, q) && off == o + TokenLen(Begin(x.name)) + Off(x.body, q)
             && 4 * k == TokenLen(At(x.body, q).item)
    requires OffStruct(b) + off + 4 * k <= |b| && Nopped(b, c, OffStruct(b) + off, k)
    ensures WellFormed(c) && Reserved(c) == Reserved(b) && Survive(b, c, off, off + 4 * k)
    ensures Has(BodyOf(b, p, o), name) && TreeOf(c) == WithBody(b, p, o, Remove(BodyOf(b, p, o), name))
  {
    hide Decode, Nopped, Off, FindProp, TokenLen, Reservations, Survive, Meaning, Replace, InOrder;
    var f, t := Stored(b), Strings(b);
    var x, q := At(f, p), Sought(b, p, name).value;
    var y := At(x.body, q);
    PropPlace(b, p, o, q);
    FirstLen(y);
    NotHere(p, q);
    NoppedMeans(b, c, PropPos(p, q), k);
    NamedAt(f, t, p);
    NamedAt(x.body, t, q);
    RemoveMeans(x.body, t, name);
    NopsMean(k, y.rest, t);
    MeaningGraft(x.body, t, q, Nops(k, y.rest));
    MeaningGraft(x.body, t, q, y.rest);
    BodyEdited(b, c, p, o, Graft(x.body, q, Nops(k, y.rest)));
  }

  lemma NotHere(p: Pos, q: Pos)
    ensures !PropPos(p, q).Here?
  {
  }

  /** Every entry but the property found under `name` in the node at `p` keeps its offset. */
  ghost predicate OthersSurvive(b: seq<byte>, c: seq<byte>, p: Pos, o: int, name: seq<byte>)
    requires NodeAt(b, p, o) && Readable(c)
  {
    var x := At(Stored(b), p);
    match Sought(b, p, name)
    case None => false
    case Some(q) =>
      && IsProp(x.body, q)
      && var off := o + TokenLen(Begin(x.name)) + Off(x.body, q);
      Survive(b, c, off, off + TokenLen(At(x.body, q).item))
  }

  /** `fdt_nop_property`: the tree is the one that `fdt_delprop` leaves, and every other entry keeps its offset. */
  method FdtNopProperty(a: array<byte>, nodeoffset: int, name: seq<byte>, ghost p: Pos) returns (err: int)
    requires WellFormed(a[..])
    requires CheckNode(Struct(a[..]), nodeoffset) >= 0 ==> NodeAt(a[..], p, nodeoffset)
    modifies a
    ensures err != 0 ==> a[..] == old(a[..])
    ensures old(CheckNode(Struct(a[..]), nodeoffset)) < 0 ==> err == old(CheckNode(Struct(a[..]), nodeoffset))
    ensures old(CheckNode(Struct(a[..]), nodeoffset)) >= 0 ==>
              var c := old(BodyOf(a[..], p, nodeoffset));
              if !Has(c, name) then err == NOTFOUND
              else
                && err == 0 && WellFormed(a[..]) && Reserved(a[..]) == old(Reserved(a[..]))
                && TreeOf(a[..]) == old(WithBody(a[..], p, nodeoffset, Remove(c, name)))
                && OthersSurvive(old(a[..]), a[..], p, nodeoffset, name)
  {
    hide Decode, Named, Rooted, Get32, Reservations, Off, Meaning, CString, Moved, WithBody, BodyOf, Sought,
         CheckNode, Struct, Strings, TokenLen, At, Spells, Nopped, Survive;
    ghost var b := a[..];
    if CheckNode(Struct(b), nodeoffset) >= 0 {
      FoundValue(b, p, nodeoffset, name);
    }
    var prop, len := FdtGetProperty(a[..], nodeoffset, name, p);
    if prop < 0 {
      return prop;
    }
    ghost var item := At(At(Stored(b), p).body, Sought(b, p, name).value).item;
    PropFits(b, prop, item);
    ghost var k := TokenCells(item);
    AlignShift(3, len);
    var offStruct := Load32(a[..], OFF_STRUCT);
    FdtNopRegion(a, offStruct + prop, len + 12, k);
    NoppedProperty(b, a[..], p, nodeoffset, name, prop, k);
    return 0;
  }

  lemma NodeCellsCount(b: seq<byte>, p: Pos, o: int) returns (k: nat)
    requires NodeAt(b, p, o)
    ensures NodeEnd(Stored(b), p) - o == 4 * k == Len(First(At(Stored(b), p))) && o + 4 * k <= SizeStruct(b)
    ensures Align4(4 * k) == 4 * k
  {
    hide Decode, Named, Rooted, Off;
    var x := At(Stored(b), p);
    NodeEndInside(b, p, o);
    FirstLen(x);
    k := LenCells(First(x));
    AlignOfMultiple(k);
  }

  /**
  `fdt_nop_node`: the tree is the one that `fdt_del_node` leaves, and every node and property outside the
  node keeps its offset.  NOP-ing the root leaves a structure block of NOPs.
  */
  method FdtNopNode(a: array<byte>, nodeoffset: int, ghost p: Pos) returns (err: int)
    requires WellFormed(a[..])
    requires CheckNode(Struct(a[..]), nodeoffset) >= 0 ==> NodeAt(a[..], p, nodeoffset)
    modifies a
    ensures old(CheckNode(Struct(a[..]), nodeoffset)) < 0 ==>
              && err == (if nodeoffset < 0 then nodeoffset else old(CheckNode(Struct(a[..]), nodeoffset)))
              && a[..] == old(a[..])
    ensures old(CheckNode(Struct(a[..]), nodeoffset)) >= 0 ==>
              && err == 0 && InOrder(a[..]) && BlocksFit(a[..]) && Reserved(a[..]) == old(Reserved(a[..]))
              && Decode(Struct(a[..]))
                 == Some(old(NopAt(Stored(a[..]), p, (NodeEnd(Stored(a[..]), p) - nodeoffset) / 4)))
    ensures old(CheckNode(Struct(a[..]), nodeoffset)) >= 0 && !p.Here? ==>
              && WellFormed(a[..]) && Survive(old(a[..]), a[..], nodeoffset, old(NodeEnd(Stored(a[..]), p)))
              && TreeOf(a[..]) == old(WithItems(a[..], p, nodeoffset, ItemsOf(a[..], p, nodeoffset).rest))
  {
    hide Decode, Named, Rooted, Get32, Reservations, Off, Moved, CheckNode, Struct, Strings, TokenLen, At, Spells,
         Nopped, Survive, NodeEnd, First, NopAt, Len;
    ghost var b := a[..];
    ghost var k := 0;
    if CheckNode(Struct(b), nodeoffset) >= 0 {
      k := NodeCellsCount(b, p, nodeoffset);
    }
    CheckNodeRejects(Struct(b), nodeoffset);
    var s := LoadStruct(a[..]);
    var endoffset := FdtNodeEndOffset(s, nodeoffset, b, p);
    if endoffset < 0 {
      return endoffset;
    }
    var offStruct := Load32(a[..], OFF_STRUCT);
    FdtNopRegion(a, offStruct + nodeoffset, endoffset - nodeoffset, k);
    NoppedMeans(b, a[..], p, k);
    assert (endoffset - nodeoffset) / 4 == k;
    return 0;
  }

  /** Overwriting a node with NOPs and cutting it out leave the same tree. */
  lemma NopMeansDelete(b: seq<byte>, c: seq<byte>, d: seq<byte>, p: Pos, o: int, k: nat)
    requires WellFormed(b) && NodeAt(b, p, o) && !p.Here? && 4 * k == NodeEnd(Stored(b), p) - o
    requires OffStruct(b) + o + 4 * k <= |b| && Nopped(b, c, OffStruct(b) + o, k) && Respliced(b, d, o, 4 * k, 0)
    ensures WellFormed(c) && WellFormed(d) && TreeOf(c) == TreeOf(d) && Reserved(c) == Reserved(d)
  {
    hide Decode, Nopped, Respliced, Off, Reservations, InOrder, NodeEnd, First, NopAt, Len, Survive;
    var i := NodeCellsCount(b, p, o);
    NoppedMeans(b, c, p, k);
    DeletedSpelled(b, d, p, o);
  }
}
