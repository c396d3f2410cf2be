/** `fdt_add_subnode` and `fdt_del_node`, and how the second undoes the first. */
module Subnodes {
  import opened Words
  import opened Tokens
  import opened Structure
  import opened Tokenizer
  import opened Walk
  import opened Tree
  import opened Blob
  import opened Queries
  import opened Ancestors
  import opened Paths
  import opened Properties
  import opened Splice
  import opened Edit
  import opened EditMore
  import opened EditNodes

  /** The place behind the leading properties and NOPs of a list of items. */
  ghost function PastLeaves(f: Forest): (p: Pos)
    ensures Valid(f, p) && !At(f, p).Leaf?
  {
    if f.Leaf? then Past(PastLeaves(f.rest)) else Here
  }

  /** The items with an empty node put there. */
  ghost function WithChild(f: Forest, name: seq<byte>): Forest {
    if f.Leaf? then Leaf(f.item, WithChild(f.rest, name)) else Node(name, Stop, f)
  }

  lemma {:induction false} WithChildGrafts(f: Forest, name: seq<byte>)
    ensures Graft(f, PastLeaves(f), Node(name, Stop, At(f, PastLeaves(f)))) == WithChild(f, name)
    decreases f
  {
    if f.Leaf? { WithChildGrafts(f.rest, name); }
  }

  /** In the tree the new node is the first child, behind the properties. */
  lemma {:induction false} WithChildMeans(f: Forest, t: seq<byte>, name: seq<byte>)
    requires Named(f, t)
    ensures Named(WithChild(f, name), t) && Meaning(WithChild(f, name), t) == AddChild(Meaning(f, t), name)
    decreases f
  {
    if f.Leaf? { WithChildMeans(f.rest, t, name); }
  }

  /** Looking the name up finds the new node. */
  lemma {:induction false} WithChildFound(f: Forest, name: seq<byte>)
    ensures ChildPos(WithChild(f, name), name) == Some(PastLeaves(f))
    decreases f
  {
    if f.Leaf? { WithChildFound(f.rest, name); }
  }

  /** The four writes that make an empty node in a fresh gap. */
  ghost function NodeWritten(c: seq<byte>, at: int, name: seq<byte>): seq<byte>
    requires 0 <= at && at + 8 + Align4(|name| + 1) <= |c|
  {
    var n := Align4(|name| + 1);
    var c1 := Overlay(c, at, Word(BEGIN_NODE));
    var c2 := Overlay(c1, at + 4, Zeros(n));
    var c3 := Overlay(c2, at + 4, name);
    Overlay(c3, at + 4 + n, Word(END_NODE))
  }

  function Zeros(n: nat): (z: seq<byte>)
    ensures |z| == n && forall i :: 0 <= i < n ==> z[i] == 0
  {
    seq(n, i => 0)
  }

  ghost predicate Zeroed(d: seq<byte>, o: int, e: int) {
    0 <= o <= e <= |d| && forall i :: o <= i < e ==> d[i] == 0
  }

  lemma NodeCells(c: seq<byte>, at: int, name: seq<byte>)
    requires 0 <= at && at + 8 + Align4(|name| + 1) <= |c|
    ensures var d, n := NodeWritten(c, at, name), Align4(|name| + 1);
            && |d| == |c| && Get32(d, at) == BEGIN_NODE && Get32(d, at + 4 + n) == END_NODE
            && Spells(d, at + 4, name) && Zeroed(d, at + 4 + |name|, at + 4 + n)
  {
    hide Get32, Word, Spells;
    var n := Align4(|name| + 1);
    var c1 := Overlay(c, at, Word(BEGIN_NODE));
    var c2 := Overlay(c1, at + 4, Zeros(n));
    var c3 := Overlay(c2, at + 4, name);
    var d := Overlay(c3, at + 4 + n, Word(END_NODE));
    OverlayWord(c, at, BEGIN_NODE);
    OverlayGet(c1, at + 4, Zeros(n), at);
    OverlayGet(c2, at + 4, name, at);
    OverlayGet(c3, at + 4 + n, Word(END_NODE), at);
    OverlayWord(c3, at + 4 + n, END_NODE);
    OverlaySpells(c2, at + 4, name);
    OverlayMoved(c3, at + 4 + n, Word(END_NODE), 0, at + 4 + n);
    MovedSpells(c3, 0, at + 4 + n, d, 0, at + 4, name);
    forall i | at + 4 + |name| <= i < at + 4 + n ensures d[i] == 0 {
      assert d[i] == c2[i] == Zeros(n)[i - at - 4];
    }
  }

  lemma NodeGap(b: seq<byte>, c: seq<byte>, k: int, name: seq<byte>)
    requires Respliced(b, c, k, 0, 8 + Align4(|name| + 1))
    ensures OffStruct(b) + k + 8 + Align4(|name| + 1) <= |c|
    ensures Respliced(b, NodeWritten(c, OffStruct(b) + k, name), k, 0, 8 + Align4(|name| + 1))
  {
    hide Get32, Word, Overlay, Respliced;
    var n := Align4(|name| + 1);
    ResplicedRoom(b, c, k, 0, 8 + n);
    var at := OffStruct(b) + k;
    var c1 := Overlay(c, at, Word(BEGIN_NODE));
    var c2 := Overlay(c1, at + 4, Zeros(n));
    var c3 := Overlay(c2, at + 4, name);
    WriteGap(b, c, k, 0, 8 + n, at, Word(BEGIN_NODE));
    WriteGap(b, c1, k, 0, 8 + n, at + 4, Zeros(n));
    WriteGap(b, c2, k, 0, 8 + n, at + 4, name);
    WriteGap(b, c3, k, 0, 8 + n, at + 4 + n, Word(END_NODE));
  }

  ghost function NewNode(name: seq<byte>): Tokens {
    Cons(Begin(name), Cons(Close, Nil))
  }

  lemma NewNodeLen(name: seq<byte>)
    ensures Len(NewNode(name)) == 8 + Align4(|name| + 1) && TokenLen(Begin(name)) == 4 + Align4(|name| + 1)
            && Len(Nil) == 0
  {
    assert Len(Cons(Close, Nil)) == 4;
  }

  lemma NodeStored(b: seq<byte>, c: seq<byte>, k: int, name: seq<byte>)
    requires Respliced(b, c, k, 0, 8 + Align4(|name| + 1)) && NulFree(name)
    ensures OffStruct(b) + k + 8 + Align4(|name| + 1) <= |c|
    ensures var d := NodeWritten(c, OffStruct(b) + k, name);
            && Respliced(b, d, k, 0, Len(NewNode(name))) && BlocksFit(d) && Reads(Struct(d), k, NewNode(name))
  {
    hide Get32, Respliced, Spells, NodeWritten, Align4, NulFree;
    ResplicedRoom(b, c, k, 0, 8 + Align4(|name| + 1));
    NodeGap(b, c, k, name);
    var n := Align4(|name| + 1);
    var at := OffStruct(b) + k;
    var d := NodeWritten(c, at, name);
    ResplicedRoom(b, d, k, 0, 8 + n);
    ResplicedBlocks(b, d, k, 0, 8 + n);
    GapEnd(b, d, k, 0, 8 + n);
    NodeCells(c, at, name);
    NewNodeLen(name);
    StructGet(d, k);
    StructGet(d, k + 4 + n);
    StructSpells(d, k + 4, name);
    NodeReads(Struct(d), k, name);
  }

  lemma NodeReads(s: seq<byte>, k: int, name: seq<byte>)
    requires 0 <= k && k + 8 + Align4(|name| + 1) <= |s| && NulFree(name)
    requires Get32(s, k) == BEGIN_NODE && Get32(s, k + 4 + Align4(|name| + 1)) == END_NODE
    requires Spells(s, k + 4, name) && s[k + 4 + |name|] == 0
    ensures Reads(s, k, NewNode(name))
  {
    hide Get32, Spells;
    assert Reads(s, k + TokenLen(Begin(name)), Cons(Close, Nil));
  }

  /** An empty node has been written behind the leading properties of the node at `p`. */
  lemma AddedMeans(b: seq<byte>, c: seq<byte>, p: Pos, o: int, name: seq<byte>)
    requires WellFormed(b) && NodeAt(b, p, o)
    requires var x := At(Stored(b), p);
             var k := o + TokenLen(Begin(x.name)) + Off(x.body, PastLeaves(x.body));
             Respliced(b, c, k, 0, Len(NewNode(name))) && BlocksFit(c) && Reads(Struct(c), k, NewNode(name))
    ensures WellFormed(c) && Reserved(c) == Reserved(b) && Strings(c) == Strings(b)
    ensures TreeOf(c) == WithBody(b, p, o, AddChild(BodyOf(b, p, o), name))
    ensures var x := At(Stored(b), p);
            var r := PropPos(p, PastLeaves(x.body));
            && Valid(Stored(b), r) && Stored(c) == Graft(Stored(b), r, Node(name, Stop, At(Stored(b), r)))
            && Stored(c) == Graft(Stored(b), p, Node(x.name, WithChild(x.body, name), x.rest))
            && Off(Stored(b), r) == o + TokenLen(Begin(x.name)) + Off(x.body, PastLeaves(x.body))
  {
    hide Decode, Respliced, Reads, Off, TokenLen, Reservations, Flat, NewNode, PastLeaves, WithChild;
    var f, t := Stored(b), Strings(b);
    var x := At(f, p);
    var ip := PastLeaves(x.body);
    WithChildGrafts(x.body, name);
    var y := At(x.body, ip);
    var g := Node(name, Stop, y);
    PropPlace(b, p, o, ip);
    NamedAt(f, t, p);
    NamedAt(x.body, t, ip);
    WithChildMeans(x.body, t, name);
    RootedGraft(f, p, Node(x.name, WithChild(x.body, name), x.rest));
    NewNodeFlat(name, y);
    NilLen();
    EditMeans(b, c, PropPos(p, ip), Nil, NewNode(name), Flat(y), g);
    ResplicedBlocks(b, c, Off(f, PropPos(p, ip)), 0, Len(NewNode(name)));
    BodyEdited(b, c, p, o, WithChild(x.body, name));
  }

  lemma NewNodeFlat(name: seq<byte>, y: Forest)
    ensures Flat(Node(name, Stop, y)) == Append(NewNode(name), Flat(y))
  {
    assert Append(Cons(Close, Nil), Flat(y)) == Cons(Close, Flat(y));
  }

  /** Where the new node is, seen from the blob that holds it. */
  lemma AddedFound(b: seq<byte>, c: seq<byte>, p: Pos, o: int, name: seq<byte>, r: Pos, k: int)
    requires NodeAt(b, p, o) && Readable(c)
    requires var x := At(Stored(b), p);
             && r == PropPos(p, PastLeaves(x.body)) && Valid(Stored(b), r) && k == Off(Stored(b), r)
             && Stored(c) == Graft(Stored(b), r, Node(name, Stop, At(Stored(b), r)))
             && Stored(c) == Graft(Stored(b), p, Node(x.name, WithChild(x.body, name), x.rest))
    ensures NodeAt(c, r, k) && At(Stored(c), r) == Node(name, Stop, At(Stored(b), r))
    ensures NodeAt(c, p, o) && Step(Stored(c), p, name) == Some(r)
  {
    hide Decode, Named, Rooted, PastLeaves, WithChild;
    var f := Stored(b);
    var x := At(f, p);
    GraftAt(f, r, Node(name, Stop, At(f, r)));
    GraftAt(f, p, Node(x.name, WithChild(x.body, name), x.rest));
    WithChildFound(x.body, name);
  }

  /**
  The blob that a parent offset of -1 leaves when there is room: the lookup passes -1 on as NOTFOUND, the
  tokenizer answers TRUNCATED for the next offset, and the node is put there, 8 bytes before the structure.
  */
  ghost function Misplaced(b: seq<byte>, name: seq<byte>): seq<byte>
    requires InOrder(b) && Room(b, 8 + Align4(|name| + 1))
  {
    NodeWritten(SplicedBuffer(b, TRUNCATED, 0, 8 + Align4(|name| + 1)), OffStruct(b) + TRUNCATED, name)
  }

  /** The four writes change no header cell, and no byte outside the new node. */
  lemma NodeFrame(c: seq<byte>, at: int, name: seq<byte>)
    requires Buffer(c) && HEADER <= at && at + 8 + Align4(|name| + 1) <= |c|
    ensures var d := NodeWritten(c, at, name);
            && SameHeader(c, d) && SizeStruct(d) == SizeStruct(c) && OffStrings(d) == OffStrings(c)
            && SizeStrings(d) == SizeStrings(c)
            && Moved(c, HEADER, at, d, 0) && Moved(c, at + 8 + Align4(|name| + 1), |c|, d, 0)
  {
    hide Get32, Overlay, Moved, Word, Align4;
    var n := Align4(|name| + 1);
    var c1 := Overlay(c, at, Word(BEGIN_NODE));
    var c2 := Overlay(c1, at + 4, Zeros(n));
    var c3 := Overlay(c2, at + 4, name);
    HeaderKept(c, at, Word(BEGIN_NODE));
    HeaderKept(c1, at + 4, Zeros(n));
    HeaderKept(c2, at + 4, name);
    HeaderKept(c3, at + 4 + n, Word(END_NODE));
    FourMoved(c, at, name, HEADER, at);
    FourMoved(c, at, name, at + 8 + n, |c|);
  }

  lemma FourMoved(c: seq<byte>, at: int, name: seq<byte>, o: int, e: int)
    requires 0 <= at && at + 8 + Align4(|name| + 1) <= |c|
    requires 0 <= o <= e <= |c| && (e <= at || at + 8 + Align4(|name| + 1) <= o)
    ensures Moved(c, o, e, NodeWritten(c, at, name), 0)
  {
    var d := NodeWritten(c, at, name);
    assert forall i :: o <= i < e ==> d[i] == c[i];
  }

  /** The bytes of a misplaced node, seen from the block boundaries. */
  lemma MisplacedCells(b: seq<byte>, name: seq<byte>)
    requires InOrder(b) && NulFree(name) && Room(b, 8 + Align4(|name| + 1))
    ensures var d, m, os := Misplaced(b, name), 8 + Align4(|name| + 1), OffStruct(b);
            && SameHeader(b, d) && SizeStruct(d) == SizeStruct(b) + m && OffStrings(d) == OffStrings(b) + m
            && SizeStrings(d) == SizeStrings(b) && BlocksFit(d)
            && Moved(b, HEADER, os - 8, d, 0) && Moved(b, os - 8, OffStrings(b) + SizeStrings(b), d, m)
            && Get32(d, os - 8) == BEGIN_NODE && Spells(d, os - 4, name)
            && Zeroed(d, os - 4 + |name|, os - 12 + m) && Get32(d, os - 12 + m) == END_NODE
  {
    hide Get32, NodeWritten, SplicedBuffer, Spells, Moved, Reservations;
    var m, os, e := 8 + Align4(|name| + 1), OffStruct(b), OffStrings(b) + SizeStrings(b);
    assert os >= HEADER + 8;
    var c := SplicedBuffer(b, TRUNCATED, 0, m);
    SplicedParts(b, TRUNCATED, 0, m);
    var d := NodeWritten(c, os - 8, name);
    NodeCells(c, os - 8, name);
    NodeFrame(c, os - 8, name);
    MovedThen(b, HEADER, os - 8, c, 0, d, 0);
    SubMoved(c, os - 8 + m, |c|, d, 0, os - 8 + m, e + m);
    MovedThen(b, os - 8, e, c, m, d, 0);
  }

  /** The cell that the structure block begins with now is no BEGIN_NODE. */
  lemma NoRootCell(d: seq<byte>, os: int, name: seq<byte>)
    requires 4 <= os && os + Align4(|name| + 1) <= |d| && NulFree(name)
    requires Spells(d, os - 4, name) && Zeroed(d, os - 4 + |name|, os - 4 + Align4(|name| + 1))
    requires Get32(d, os - 4 + Align4(|name| + 1)) == END_NODE
    ensures Get32(d, os) != BEGIN_NODE
  {
    if |name| >= 4 {
      CellDigits(d, os);
      if |name| > 4 { assert d[os] == name[4]; }
    }
  }

  lemma CellDigits(s: seq<byte>, i: int)
    requires 0 <= i && i + 4 <= |s|
    ensures Get32(s, i) == 0 <==> s[i] == 0 && s[i + 1] == 0 && s[i + 2] == 0 && s[i + 3] == 0
    ensures Get32(s, i) == 1 <==> s[i] == 0 && s[i + 1] == 0 && s[i + 2] == 0 && s[i + 3] == 1
  {
    CellExists(s, i);
    CellUnique(s, i, Value(s[i], s[i + 1], s[i + 2], s[i + 3]));
  }

  /** The terminating entry is still one exactly when the 1 of the BEGIN_NODE tag falls behind it. */
  lemma TerminatorKept(b: seq<byte>, d: seq<byte>, o: int, at: int)
    requires 0 <= o && o + 16 <= |b| && o + 8 <= at && at + 4 <= |d| && o + 16 <= |d| && Moved(b, o, at, d, 0)
    requires EntryAt(b, o).sizeHi == 0 && EntryAt(b, o).sizeLo == 0 && Get32(d, at) == BEGIN_NODE
    ensures EntryAt(d, o).sizeHi == 0 && EntryAt(d, o).sizeLo == 0 <==> o + 16 <= at + 3
  {
    CellDigits(b, o + 8);
    CellDigits(b, o + 12);
    CellDigits(d, o + 8);
    CellDigits(d, o + 12);
    CellDigits(d, at);
    forall i | o + 8 <= i < at && i < o + 16 ensures d[i] == 0 {
      assert d[i] == b[i];
    }
  }

  /** A BEGIN_NODE tag written over the end of a reservation list: when the list still reads the same. */
  lemma {:induction false} ReservationsKept(b: seq<byte>, d: seq<byte>, o: int, at: int)
    requires Reservations(b, o).Some? && o + RsvSize(Reservations(b, o).value) <= at + 8
    requires |d| == |b| && at + 4 <= |d| && Moved(b, o, at, d, 0) && Get32(d, at) == BEGIN_NODE
    ensures Reservations(d, o) == Reservations(b, o) <==> o + RsvSize(Reservations(b, o).value) <= at + 3
    decreases |b| - o
  {
    hide Moved, Get32;
    if EntryAt(b, o).sizeHi == 0 && EntryAt(b, o).sizeLo == 0 {
      TerminatorKept(b, d, o, at);
    } else {
      MovedEntry(b, o, at, d, 0, o);
      SubMoved(b, o, at, d, 0, o + 16, at);
      ReservationsKept(b, d, o + 16, at);
      if Reservations(d, o).Some? {
        assert Reservations(d, o).value[1..] == Reservations(d, o + 16).value;
        assert Reservations(b, o).value[1..] == Reservations(b, o + 16).value;
      }
    }
  }

  /**
  What a misplaced node destroys: the structure block has no root any more, so the blob is not well-formed;
  and the reservations are lost unless five bytes or more lie unused in front of the structure block.
  */
  lemma MisplacedDamage(b: seq<byte>, name: seq<byte>)
    requires InOrder(b) && NulFree(name) && Room(b, 8 + Align4(|name| + 1))
    ensures BlocksFit(Misplaced(b, name)) && CheckNode(Struct(Misplaced(b, name)), 0) == BADOFFSET
    ensures !WellFormed(Misplaced(b, name)) && Misplaced(b, name) != b
    ensures Reservations(Misplaced(b, name), OffRsv(b)) == Some(Reserved(b))
            <==> OffRsv(b) + RsvSize(Reserved(b)) + 5 <= OffStruct(b)
  {
    hide Get32, Misplaced, Spells, Moved, Decode, NextTag, Align4;
    var d, os := Misplaced(b, name), OffStruct(b);
    MisplacedCells(b, name);
    NoRootCell(d, os, name);
    StructGet(d, 0);
    NoRoot(d);
    SubMoved(b, HEADER, os - 8, d, 0, OffRsv(b), os - 8);
    ReservationsKept(b, d, OffRsv(b), os - 8);
  }

  lemma NoRoot(d: seq<byte>)
    requires BlocksFit(d) && SizeStruct(d) >= 4 && Get32(Struct(d), 0) != BEGIN_NODE
    ensures CheckNode(Struct(d), 0) == BADOFFSET && !Readable(d)
  {
    hide Get32, Decode, Named;
    if Readable(d) {
      HereOff(Stored(d));
      NodeFits(d, Here, 0);
    }
  }

  /**
  The loop that skips the properties: it ends at the first tag that is neither PROP nor NOP.  A negative
  offset is answered with END, so the loop stays there.
  */
  method SkipLeaves(s: seq<byte>, start: int, ghost f: Forest, ghost k: Tokens) returns (offset: int)
    requires |s| < INT_LIMIT && (start >= 0 ==> ItemsAt(s, start, f, k))
    ensures start < 0 ==> offset == start
    ensures start >= 0 ==> offset == start + Off(f, PastLeaves(f)) && 0 <= offset <= |s|
  {
    hide ItemsAt, TokenAt, Off, Get32;
    offset := start;
    ghost var g := f;
    while true
      invariant start < 0 ==> offset == start
      invariant start >= 0 ==> ItemsAt(s, offset, g, k)
      invariant start >= 0 ==> offset + Off(g, PastLeaves(g)) == start + Off(f, PastLeaves(f))
      decreases g
    {
      var tag, next := FdtNextTag(s, offset);
      if start >= 0 { LeafStep(s, offset, g, k); }
      if tag != PROP && tag != NOP {
        return;
      }
      offset := next;
      g := g.rest;
    }
  }

  lemma LeafStep(s: seq<byte>, o: int, f: Forest, k: Tokens)
    requires ItemsAt(s, o, f, k)
    ensures 0 <= o <= |s| < INT_LIMIT
    ensures NextTag(s, o).0 != PROP && NextTag(s, o).0 != NOP ==> Off(f, PastLeaves(f)) == 0
    ensures NextTag(s, o).0 == PROP || NextTag(s, o).0 == NOP ==>
              && f.Leaf? && ItemsAt(s, NextTag(s, o).1, f.rest, k)
              && o + Off(f, PastLeaves(f)) == NextTag(s, o).1 + Off(f.rest, PastLeaves(f.rest))
  {
    hide ItemsAt, NextTag, TokenAt, Off;
    ItemsStep(s, o, f, k);
    ItemsInside(s, o, f, k);
    LeavesStep(f);
  }

  lemma LeavesStep(f: Forest)
    ensures !f.Leaf? ==> Off(f, PastLeaves(f)) == 0
    ensures f.Leaf? ==> Off(f, PastLeaves(f)) == TokenLen(f.item) + Off(f.rest, PastLeaves(f.rest))
  {
    OffSplit(f, PastLeaves(f));
    if f.Leaf? { FirstLen(f); }
  }

  lemma ItemsInside(s: seq<byte>, o: int, f: Forest, k: Tokens)
    requires ItemsAt(s, o, f, k)
    ensures 0 <= o <= |s| < INT_LIMIT
  {
    ReadsFits(s, o, Append(Flat(f), Cons(Close, k)));
  }

  /** The splice at `offset` and the four writes behind it, wherever the offset is. */
  method PutNode(a: array<byte>, offset: int, name: seq<byte>) returns (err: int)
    requires InOrder(a[..]) && HEADER <= OffStruct(a[..]) + offset && offset <= SizeStruct(a[..])
    requires NulFree(name) && a.Length + |name| + 20 < INT_LIMIT
    modifies a
    ensures err == if old(Room(a[..], 8 + Align4(|name| + 1))) then 0 else NOSPACE
    ensures err != 0 ==> a[..] == old(a[..])
    ensures err == 0 && offset == TRUNCATED ==> a[..] == old(Misplaced(a[..], name))
    ensures err == 0 && offset >= 0 ==>
              && Respliced(old(a[..]), a[..], offset, 0, Len(NewNode(name)))
              && BlocksFit(a[..]) && Reads(Struct(a[..]), offset, NewNode(name))
  {
    hide Get32, Reservations, Respliced, Reads, Overlay, Word, Struct, NewNode, Align4, SplicedBuffer, NulFree;
    ghost var b := a[..];
    var namelen := TagAlign(|name| + 1);
    err := FdtSpliceStruct(a, offset, 0, 8 + namelen);
    if err != 0 {
      return;
    }
    ghost var c := a[..];
    SplicedParts(b, offset, 0, 8 + namelen);
    if offset >= 0 { NodeStored(b, c, offset, name); }
    var at := Load32(a[..], OFF_STRUCT);
    at := at + offset;
    Store32(a, at, BEGIN_NODE);
    CopyIn(a, at + 4, Zeros(namelen));
    CopyIn(a, at + 4, name);
    Store32(a, at + 4 + namelen, END_NODE);
    assert a[..] == NodeWritten(c, at, name);
  }

  /** The parent offset is -1 and the node fits: the one case in which it is put in front of the structure. */
  ghost predicate Astray(b: seq<byte>, parentoffset: int, name: seq<byte>)
    requires Buffer(b)
  {
    parentoffset == NOTFOUND && Room(b, Len(NewNode(name)))
  }

  /** `c` is what is left of `b` then. */
  ghost predicate Wrecked(b: seq<byte>, c: seq<byte>, name: seq<byte>) {
    && Buffer(b) && InOrder(Checked(b)) && Room(Checked(b), 8 + Align4(|name| + 1))
    && c == Misplaced(Checked(b), name)
  }

  /** No root, no well-formed blob, and the reservations only if the terminator ends five bytes earlier. */
  lemma WreckedMeans(b: seq<byte>, c: seq<byte>, name: seq<byte>)
    requires WellFormed(b) && NulFree(name) && Wrecked(b, c, name)
    ensures BlocksFit(c) && CheckNode(Struct(c), 0) == BADOFFSET && !WellFormed(c) && c != Checked(b)
    ensures Reservations(c, OffRsv(b)) == Some(Reserved(b)) <==> OffRsv(b) + RsvSize(Reserved(b)) + 5 <= OffStruct(b)
  {
    hide Get32, Decode, Reservations, RwCheck, Overlay, Word, Moved, Misplaced, Struct, CheckNode, Align4;
    MisplacedDamage(Checked(b), name);
    CheckedMeans(b);
    VersionSet(b);
  }

  /**
  `fdt_add_subnode`.  EXISTS exactly when a direct child already matches; otherwise, on success, the new
  node is the first child and looking its name up finds the returned offset.  An error return leaves the
  blob as the header check left it, except at parent offset -1 with room for the node.
  */
  method FdtAddSubnode(a: array<byte>, parentoffset: int, name: seq<byte>, ghost p: Pos) returns (r: int, ghost q: Pos)
    requires WellFormed(a[..]) && NulFree(name) && a.Length + |name| + 20 < INT_LIMIT
    requires CheckNode(Struct(a[..]), parentoffset) >= 0 ==> NodeAt(a[..], p, parentoffset)
    modifies a
    ensures WellFormed(a[..]) <==> !old(Astray(a[..], parentoffset, name))
    ensures r < 0 ==> (a[..] == old(Checked(a[..])) <==> !old(Astray(a[..], parentoffset, name)))
    ensures WellFormed(a[..]) ==> Reserved(a[..]) == old(Reserved(a[..]))
    ensures WellFormed(a[..]) && r < 0 ==> TreeOf(a[..]) == old(TreeOf(a[..]))
    ensures parentoffset == NOTFOUND ==> r == if old(Room(a[..], Len(NewNode(name)))) then TRUNCATED else NOSPACE
    ensures old(Astray(a[..], parentoffset, name)) ==> Wrecked(old(a[..]), a[..], name)
    ensures parentoffset != NOTFOUND && old(CheckNode(Struct(a[..]), parentoffset)) < 0 ==>
              r == if parentoffset < 0 then parentoffset else old(CheckNode(Struct(a[..]), parentoffset))
    ensures old(CheckNode(Struct(a[..]), parentoffset)) >= 0 ==>
              && (r == EXISTS <==> old(Step(Stored(a[..]), p, name).Some?))
              && (r == NOSPACE <==> old(Step(Stored(a[..]), p, name).None? && !Room(a[..], Len(NewNode(name)))))
              && (r < 0 ==> r == EXISTS || r == NOSPACE)
    ensures r >= 0 ==>
              && old(NodeAt(a[..], p, parentoffset))
              && TreeOf(a[..]) == old(WithBody(a[..], p, parentoffset, AddChild(BodyOf(a[..], p, parentoffset), name)))
              && NodeAt(a[..], p, parentoffset) && Step(Stored(a[..]), p, name) == Some(q)
              && NodeAt(a[..], q, r) && At(Stored(a[..]), q).name == name && At(Stored(a[..]), q).body == Stop
              && Respliced(old(Checked(a[..])), a[..], r, 0, Len(NewNode(name)))
  {
    hide Decode, Named, Rooted, Get32, Reservations, Respliced, Off, Reads, Meaning, Overlay, Word, Moved, WithBody;
    hide BodyOf, CheckNode, Struct, Strings, TokenLen, At, RwCheck, Checked, Spells, CheckHeader, Match, Below, Step;
    hide ItemsAt, NewNode, Align4, Misplaced;
    ghost var b := a[..];
    q := p;
    CheckedSame(b);
    CheckedFrame(b);
    r := FdtRwCheckHeader(a);
    if r != 0 {
      return;
    }
    ghost var c := a[..];
    CheckedHeader(c);
    NewNodeLen(name);
    if CheckNode(Struct(b), parentoffset) >= 0 {
      SameEdits(b, c, p, parentoffset, AddChild(BodyOf(b, p, parentoffset), name));
      SubnodeIsChild(c, p, parentoffset, name);
    }
    CheckNodeRejects(Struct(c), parentoffset);
    var offset := FdtSubnodeOffset(a[..], parentoffset, name, p);
    if offset >= 0 {
      return EXISTS, q;
    } else if offset != NOTFOUND {
      return offset, q;
    }
    ghost var h, k := 0, Nil;
    if parentoffset != NOTFOUND { h, k := BodyItems(c, p, parentoffset); }
    var s := LoadStruct(a[..]);
    var tag, next := FdtNextTag(s, parentoffset);
    offset := SkipLeaves(s, next, if parentoffset != NOTFOUND then At(Stored(c), p).body else Stop, k);
    r := PutNode(a, offset, name);
    if r != 0 {
      return;
    }
    if parentoffset == NOTFOUND {
      WreckedMeans(b, a[..], name);
      return offset, q;
    }
    AddedMeans(c, a[..], p, parentoffset, name);
    q := PropPos(p, PastLeaves(At(Stored(c), p).body));
    AddedFound(c, a[..], p, parentoffset, name, q, offset);
    return offset, q;
  }

  lemma DeletedSpelled(b: seq<byte>, c: seq<byte>, p: Pos, o: int)
    requires WellFormed(b) && NodeAt(b, p, o) && Respliced(b, c, o, NodeEnd(Stored(b), p) - o, 0)
    ensures BlocksFit(c) && InOrder(c) && Reserved(c) == Reserved(b) && Strings(c) == Strings(b)
    ensures Decode(Struct(c)) == Some(Graft(Stored(b), p, At(Stored(b), p).rest))
    ensures !p.Here? ==> WellFormed(c) && TreeOf(c) == WithItems(b, p, o, ItemsOf(b, p, o).rest)
  {
    hide Decode, Respliced, Reads, Off, Reservations, TokenLen, Size, Flat, Replace, First, InOrder;
    var f, t := Stored(b), Strings(b);
    var x := At(f, p);
    FirstLen(x);
    FirstThenRest(x);
    NamedAt(f, t, p);
    NilLen();
    ResplicedBlocks(b, c, o, Len(First(x)), 0);
    NothingThere(b, c, o, Len(First(x)));
    EditSpelled(b, c, p, First(x), Nil, Flat(x.rest), x.rest);
    DecodeExact(Struct(c), Graft(f, p, x.rest));
    if !p.Here? {
      if p.Past? { NopsHoldNoNode(f.rest, p.next); }
      EditMeans(b, c, p, First(x), Nil, Flat(x.rest), x.rest);
    }
  }

  lemma NodeEndInside(b: seq<byte>, p: Pos, o: int)
    requires NodeAt(b, p, o)
    ensures o < NodeEnd(Stored(b), p) <= SizeStruct(b)
  {
    hide Decode, Named, Rooted;
    var x := At(Stored(b), p);
    OnwardSpelled(b, p);
    SizeSplit(x);
    LenAppend(Flat(x), After(Stored(b), p));
  }

  /**
  `fdt_del_node`.  The node and everything below it is gone from the tree and nothing else.  Deleting the
  root leaves a structure block with no root.
  */
  method FdtDelNode(a: array<byte>, nodeoffset: int, ghost p: Pos) returns (err: int)
    requires WellFormed(a[..])
    requires CheckNode(Struct(a[..]), nodeoffset) >= 0 ==> NodeAt(a[..], p, nodeoffset)
    modifies a
    ensures old(CheckNode(Struct(a[..]), nodeoffset)) < 0 ==>
              && err == (if nodeoffset < 0 then nodeoffset else old(CheckNode(Struct(a[..]), nodeoffset)))
              && WellFormed(a[..]) && TreeOf(a[..]) == old(TreeOf(a[..]))
    ensures old(CheckNode(Struct(a[..]), nodeoffset)) >= 0 ==>
              && err == 0 && InOrder(a[..]) && BlocksFit(a[..]) && Reserved(a[..]) == old(Reserved(a[..]))
              && Respliced(old(Checked(a[..])), a[..], nodeoffset, old(NodeEnd(Stored(a[..]), p)) - nodeoffset, 0)
              && Decode(Struct(a[..])) == Some(old(Graft(Stored(a[..]), p, At(Stored(a[..]), p).rest)))
    ensures old(CheckNode(Struct(a[..]), nodeoffset)) >= 0 && !p.Here? ==>
              && WellFormed(a[..])
              && TreeOf(a[..]) == old(WithItems(a[..], p, nodeoffset, ItemsOf(a[..], p, nodeoffset).rest))
  {
    hide Decode, Named, Rooted, Get32, Reservations, Respliced, Off, Reads, Meaning, Overlay, Word, Moved, WithItems,
         ItemsOf, CheckNode, Struct, Strings, TokenLen, At, RwCheck, Checked, Spells, NodeEnd, Graft;
    ghost var b := a[..];
    CheckedSame(b);
    err := FdtRwCheckHeader(a);
    if err != 0 {
      return;
    }
    ghost var c := a[..];
    if CheckNode(Struct(b), nodeoffset) >= 0 {
      SameItems(b, c, p, nodeoffset);
      NodeEndInside(c, p, nodeoffset);
    }
    CheckNodeRejects(Struct(c), nodeoffset);
    var s := LoadStruct(a[..]);
    var endoffset := FdtNodeEndOffset(s, nodeoffset, c, p);
    if endoffset < 0 {
      return endoffset;
    }
    SpaceBelow(c);
    err := FdtSpliceStruct(a, nodeoffset, endoffset - nodeoffset, 0);
    DeletedSpelled(c, a[..], p, nodeoffset);
  }

  /** A gap that is opened and closed again leaves every block as it was, byte for byte. */
  lemma GapClosed(b: seq<byte>, c: seq<byte>, d: seq<byte>, k: int, m: int)
    requires Respliced(b, c, k, 0, m) && Respliced(c, d, k, m, 0)
    ensures BlocksFit(b) && BlocksFit(d) && Struct(d) == Struct(b) && Strings(d) == Strings(b)
    ensures Moved(b, HEADER, OffStrings(b) + SizeStrings(b), d, 0)
  {
    hide Get32, Reservations, Moved;
    var os, e := OffStruct(b), OffStrings(b) + SizeStrings(b);
    ResplicedBlocks(b, c, k, 0, m);
    ResplicedBlocks(c, d, k, m, 0);
    MovedThen(b, HEADER, os + k, c, 0, d, 0);
    MovedThen(b, os + k, e, c, m, d, -m);
    MovedJoin(b, HEADER, os + k, e, d);
    SubMoved(b, HEADER, e, d, 0, os, os + SizeStruct(b));
    SliceEqual(b, os, os + SizeStruct(b), d, 0);
  }

  lemma MovedJoin(b: seq<byte>, o: int, m: int, e: int, d: seq<byte>)
    requires Moved(b, o, m, d, 0) && Moved(b, m, e, d, 0)
    ensures Moved(b, o, e, d, 0)
  {
  }

  lemma StillChecked(b: seq<byte>, c: seq<byte>, k: int, m: int)
    requires WellFormed(b) && WellFormed(c) && Respliced(Checked(b), c, k, 0, m)
    ensures Checked(c) == c
  {
    hide Get32, Decode, Reservations, RwCheck, Overlay, Word, Moved;
    CheckedFrame(b);
  }

  lemma NewNodeEnd(c: seq<byte>, q: Pos, r: int, name: seq<byte>)
    requires NodeAt(c, q, r) && At(Stored(c), q).name == name && At(Stored(c), q).body == Stop
    ensures NodeEnd(Stored(c), q) - r == Len(NewNode(name))
  {
    hide Decode, Named, Rooted, Off;
    NewNodeLen(name);
    StopSize();
  }

  lemma StepDeeper(f: Forest, p: Pos, n: seq<byte>)
    requires Valid(f, p) && At(f, p).Node?
    ensures Step(f, p, n).Some? ==> !Step(f, p, n).value.Here?
  {
  }

  /** Adding a node and deleting it at the returned offset: all three blocks are as before, byte for byte. */
  method AddThenDelete(a: array<byte>, parentoffset: int, name: seq<byte>, ghost p: Pos) returns (r: int, err: int)
    requires WellFormed(a[..]) && NulFree(name) && a.Length + |name| + 20 < INT_LIMIT
    requires NodeAt(a[..], p, parentoffset)
    modifies a
    ensures err == 0 && WellFormed(a[..])
    ensures Struct(a[..]) == old(Struct(a[..])) && Strings(a[..]) == old(Strings(a[..]))
    ensures Moved(old(a[..]), HEADER, old(OffStrings(a[..]) + SizeStrings(a[..])), a[..], 0)
    ensures r >= 0 || r == EXISTS || r == NOSPACE
  {
    hide Decode, Named, Rooted, Get32, Reservations, Respliced, Off, Reads, Meaning, Overlay, Word, Moved, WithItems,
         ItemsOf, WithBody, BodyOf, CheckNode, Struct, Strings, TokenLen, At, RwCheck, Checked, Spells, NodeEnd,
         Graft, Step, CheckHeader, NewNode, Len;
    ghost var b := a[..];
    NodeFits(b, p, parentoffset);
    CheckedFrame(b);
    CheckedSame(b);
    ghost var q;
    r, q := FdtAddSubnode(a, parentoffset, name, p);
    if r < 0 {
      return r, 0;
    }
    ghost var c := a[..];
    StillChecked(b, c, r, Len(NewNode(name)));
    NewNodeEnd(c, q, r, name);
    NodeFits(c, q, r);
    StepDeeper(Stored(c), p, name);
    err := FdtDelNode(a, r, q);
    GapClosed(Checked(b), c, a[..], r, Len(NewNode(name)));
    MovedThen(b, HEADER, OffStrings(b) + SizeStrings(b), Checked(b), 0, a[..], 0);
  }
}
