/** Ancestor queries by linear scan: the trail that a walk records is the chain of enclosing nodes. */
module Ancestors {
  import opened Words
  import opened Tokens
  import opened Structure
  import opened Tokenizer
  import opened Walk
  import opened Tree
  import opened Blob
  import opened Queries

  /** The nodes that enclose the node at `p`, outermost first, ending with it. */
  ghost function TrailTo(f: Forest, o: int, p: Pos, up: Trail): Trail
    requires Valid(f, p) && At(f, p).Node?
    decreases p
  {
    match p
    case Here => up + [Spot(o, f.name)]
    case Past(q) => TrailTo(f.rest, o + Len(First(f)), q, up)
    case Into(q) => TrailTo(f.body, o + TokenLen(Begin(f.name)), q, up + [Spot(o, f.name)])
  }

  /** The number of nodes that enclose `p`. */
  function Depth(p: Pos): nat {
    match p
    case Here => 0
    case Past(q) => Depth(q)
    case Into(q) => 1 + Depth(q)
  }

  /** The place of the node at depth `k` on the way to `p`. */
  function Ancestor(p: Pos, k: int): Pos {
    match p
    case Here => Here
    case Past(q) => Past(Ancestor(q, k))
    case Into(q) => if k <= 0 then Here else Into(Ancestor(q, k - 1))
  }

  lemma FirstLen(f: Forest)
    requires !f.Stop?
    ensures Len(First(f)) == if f.Leaf? then TokenLen(f.item) else TokenLen(Begin(f.name)) + Size(f.body) + 4
  {
    if f.Node? { LenAppend(Flat(f.body), Cons(Close, Nil)); }
  }

  lemma OffSplit(f: Forest, p: Pos)
    requires Valid(f, p)
    ensures p.Here? ==> Off(f, p) == 0
    ensures p.Past? ==> Off(f, p) == Len(First(f)) + Off(f.rest, p.next)
    ensures p.Into? ==> Off(f, p) == TokenLen(Begin(f.name)) + Off(f.body, p.next)
  {
    if p.Past? { LenAppend(First(f), Before(f.rest, p.next)); }
  }

  /** The `k`-th spot of a trail is the enclosing node at depth `k`. */
  lemma {:induction false} TrailIsChain(f: Forest, o: int, p: Pos, up: Trail, k: int)
    requires Valid(f, p) && At(f, p).Node? && 0 <= k <= Depth(p)
    ensures |TrailTo(f, o, p, up)| == |up| + Depth(p) + 1 && TrailTo(f, o, p, up)[..|up|] == up
    ensures Valid(f, Ancestor(p, k)) && At(f, Ancestor(p, k)).Node?
    ensures TrailTo(f, o, p, up)[|up| + k] == Spot(o + Off(f, Ancestor(p, k)), At(f, Ancestor(p, k)).name)
    decreases p
  {
    hide Off, Size;
    OffSplit(f, p);
    match p
    case Here =>
    case Past(q) =>
      TrailIsChain(f.rest, o + Len(First(f)), q, up, k);
      OffSplit(f, Ancestor(p, k));
    case Into(q) =>
      var sub := up + [Spot(o, f.name)];
      TrailIsChain(f.body, o + TokenLen(Begin(f.name)), q, sub, if k == 0 then 0 else k - 1);
      OffSplit(f, Ancestor(p, k));
      var t := TrailTo(f, o, p, up);
      assert t[..|sub|] == sub;
      assert t[..|up|] == t[..|sub|][..|up|] == up;
      assert t[|up|] == t[..|sub|][|up|];
  }

  lemma {:induction false} AncestorSelf(p: Pos)
    ensures Ancestor(p, Depth(p)) == p
    decreases p
  {
    match p
    case Here =>
    case Past(q) => AncestorSelf(q);
    case Into(q) => AncestorSelf(q);
  }

  /** The enclosing nodes of an enclosing node. */
  lemma {:induction false} AncestorOfAncestor(p: Pos, k: int, j: int)
    requires 0 <= j <= k <= Depth(p)
    ensures Depth(Ancestor(p, k)) == k && Ancestor(Ancestor(p, k), j) == Ancestor(p, j)
    decreases p
  {
    match p
    case Here =>
    case Past(q) => AncestorOfAncestor(q, k, j);
    case Into(q) => if k > 0 { AncestorOfAncestor(q, k - 1, if j == 0 then 0 else j - 1); }
  }

  /** The listing of a list of items, by index. */
  lemma NodesPick(f: Forest, o: int, up: Trail, i: int)
    requires f.Node?
    ensures var h, sub := o + TokenLen(Begin(f.name)), up + [Spot(o, f.name)];
            var bs, rs := Nodes(f.body, h, sub), Nodes(f.rest, o + Len(First(f)), up);
            var es := Nodes(f, o, up);
            && |es| == 1 + |bs| + |rs|
            && (0 <= i < |es| ==> es[i] == if i == 0 then sub else if i <= |bs| then bs[i - 1] else rs[i - 1 - |bs|])
  {
    hide Size, TokenLen, Nodes, Len, First;
    FirstLen(f);
    NodesNode(f, o, up);
  }

  lemma NodesLeaf(f: Forest, o: int, up: Trail)
    ensures f.Stop? ==> Nodes(f, o, up) == []
    ensures f.Leaf? ==> Nodes(f, o, up) == Nodes(f.rest, o + Len(First(f)), up)
  {
    hide Size;
    if f.Leaf? { FirstLen(f); }
  }

  /** Every node is listed, with its trail. */
  lemma {:induction false} Listed(f: Forest, o: int, p: Pos, up: Trail) returns (i: int)
    requires Valid(f, p) && At(f, p).Node?
    ensures 0 <= i < |Nodes(f, o, up)| && Nodes(f, o, up)[i] == TrailTo(f, o, p, up)
    decreases p
  {
    hide Size, Nodes, TokenLen, Len, First;
    NodesLeaf(f, o, up);
    match p {
      case Here => i := 0;
      case Past(q) =>
        i := Listed(f.rest, o + Len(First(f)), q, up);
        if f.Node? { i := 1 + |Nodes(f.body, o + TokenLen(Begin(f.name)), up + [Spot(o, f.name)])| + i; }
      case Into(q) =>
        i := Listed(f.body, o + TokenLen(Begin(f.name)), q, up + [Spot(o, f.name)]);
        i := 1 + i;
    }
    if f.Node? { NodesPick(f, o, up, i); }
  }

  /** Every listed trail is the trail of a node. */
  lemma {:induction false} Unlisted(f: Forest, o: int, up: Trail, i: int) returns (p: Pos)
    requires 0 <= i < |Nodes(f, o, up)|
    ensures Valid(f, p) && At(f, p).Node? && Nodes(f, o, up)[i] == TrailTo(f, o, p, up)
    decreases f
  {
    hide Size, Nodes, TokenLen, Len, First;
    NodesLeaf(f, o, up);
    if f.Leaf? {
      p := Unlisted(f.rest, o + Len(First(f)), up, i);
      p := Past(p);
    } else {
      NodesPick(f, o, up, i);
      var h, sub := o + TokenLen(Begin(f.name)), up + [Spot(o, f.name)];
      var m := |Nodes(f.body, h, sub)|;
      if i == 0 {
        p := Here;
      } else if i <= m {
        p := Unlisted(f.body, h, sub, i - 1);
        p := Into(p);
      } else {
        p := Unlisted(f.rest, o + Len(First(f)), up, i - 1 - m);
        p := Past(p);
      }
    }
  }

  ghost predicate Sorted(es: seq<Trail>, lo: int, hi: int) {
    && (forall i :: 0 <= i < |es| ==> |es[i]| > 0 && lo <= Last(es[i]).off < hi)
    && (forall i, j :: 0 <= i < j < |es| ==> Last(es[i]).off < Last(es[j]).off)
  }

  /** The listing is in strictly increasing offset order. */
  lemma {:induction false} NodesSorted(f: Forest, o: int, up: Trail)
    ensures Sorted(Nodes(f, o, up), o, o + Size(f))
    decreases f
  {
    hide Size, Nodes, Sorted, TokenLen, Len, First;
    SizeSplit(f);
    NodesLeaf(f, o, up);
    if f.Stop? {
      NoneSorted(o, o + Size(f));
    } else {
      FirstLen(f);
      NodesSorted(f.rest, o + Len(First(f)), up);
      if f.Leaf? {
        SortedWider(Nodes(f, o, up), o + Len(First(f)), o, o + Size(f));
      } else {
        var h, sub := o + TokenLen(Begin(f.name)), up + [Spot(o, f.name)];
        NodesSorted(f.body, h, sub);
        NodesNode(f, o, up);
        LastSpot(up, Spot(o, f.name));
        SortedJoin(sub, Nodes(f.body, h, sub), Nodes(f.rest, h + Size(f.body) + 4, up), o, h, h + Size(f.body) + 4,
                   o + Size(f));
      }
    }
  }

  lemma NoneSorted(lo: int, hi: int)
    ensures Sorted([], lo, hi)
  {
  }

  lemma LastSpot(up: Trail, x: Spot)
    ensures |up + [x]| > 0 && Last(up + [x]) == x
  {
  }

  lemma SortedWider(es: seq<Trail>, lo: int, lo': int, hi: int)
    requires Sorted(es, lo, hi) && lo' <= lo
    ensures Sorted(es, lo', hi)
  {
  }

  lemma SortedJoin(x: Trail, bs: seq<Trail>, rs: seq<Trail>, o: int, h: int, m: int, e: int)
    requires |x| > 0 && Last(x).off == o < h <= m - 4 && m <= e && Sorted(bs, h, m - 4) && Sorted(rs, m, e)
    ensures Sorted([x] + bs + rs, o, e)
  {
    var es := [x] + bs + rs;
    forall i | 0 <= i < |es| ensures |es[i]| > 0 && o <= Last(es[i]).off < e {
    }
    forall i, j | 0 <= i < j < |es| ensures Last(es[i]).off < Last(es[j]).off {
    }
  }

  /** No nodes after the root: the listing of the root is the listing of the whole block. */
  lemma {:induction false} NopsListNothing(f: Forest, o: int, up: Trail)
    requires OnlyNops(f)
    ensures Nodes(f, o, up) == []
    decreases f
  {
    if f.Leaf? { NopsListNothing(f.rest, o + TokenLen(f.item), up); }
  }

  lemma RootLists(f: Forest)
    requires Rooted(f)
    ensures Below(f, Here) == Nodes(f, 0, [])
  {
    var h, up := TokenLen(Begin(f.name)), [Spot(0, f.name)];
    NopsListNothing(f.rest, h + Size(f.body) + 4, []);
    assert [] + up == up;
    assert [up] + Nodes(f.body, h, up) + [] == [up] + Nodes(f.body, h, up);
  }

  /** A trail placed in front of the root's, so that leaving the root does not end the walk. */
  const OUTSIDE: Spot := Spot(-1, [])

  /** All nodes of a blob in pre-order; the trail of a node at depth `d` has length `d + 2`. */
  ghost function AllNodes(b: seq<byte>): seq<Trail>
    requires Readable(b)
  {
    Nodes(Stored(b), 0, [OUTSIDE])
  }

  /** A walk over the whole blob starts at the root and ends with NOTFOUND. */
  lemma WholeWalk(b: seq<byte>)
    requires Readable(b)
    ensures Cursor(Struct(b), AllNodes(b), NOTFOUND, 0, Flat(Stored(b))) && Standing(Struct(b), -1, Flat(Stored(b)))
    ensures |AllNodes(b)| > 0 && AllNodes(b)[0] == [OUTSIDE, Spot(0, Stored(b).name)]
  {
    hide Spelled, Decode, Named;
    var f := Stored(b);
    StoredSpelled(b);
    ListingFlat(f, Nil, 0, [OUTSIDE]);
    LeaveFlat(f, Nil, 0, 0);
    AppendNil(Flat(f));
    var e := [OUTSIDE, Spot(0, f.name)];
    assert [OUTSIDE] + [Spot(0, f.name)] == e;
    var es := Nodes(f, 0, [OUTSIDE]);
    assert es + [] == es;
    FindsHere(Flat(f), 0, [OUTSIDE]);
  }

  /** Each node of the listing is reached. */
  lemma {:induction false} Reached(b: seq<byte>, i: int) returns (l: Tokens)
    requires Readable(b) && 0 <= i < |AllNodes(b)|
    ensures Cursor(Struct(b), AllNodes(b), NOTFOUND, i, l)
    decreases i
  {
    hide Cursor, AllNodes, Standing;
    WholeWalk(b);
    l := Flat(Stored(b));
    if i > 0 {
      l := Reached(b, i - 1);
      CursorNext(Struct(b), AllNodes(b), NOTFOUND, i - 1, l);
      var o, c := Last(AllNodes(b)[i - 1]).off, |AllNodes(b)[i - 1]| - 1;
      FoundStands(Struct(b), o, l, c);
      l := Found(Left(o, l), c, true);
    }
  }

  lemma FoundStands(s: seq<byte>, o: int, l: Tokens, c: int)
    requires |s| < INT_LIMIT && o >= 0 && Standing(s, o, l) && Found(Left(o, l), c, true).Cons?
    ensures Standing(s, Seek(Left(o, l), Onset(o, l), c, true).0, Found(Left(o, l), c, true))
  {
    Advance(s, o, l);
    FoundSpelled(s, Onset(o, l), Left(o, l), c);
  }

  lemma {:induction false} FoundSpelled(s: seq<byte>, o: int, l: Tokens, c: int)
    requires |s| < INT_LIMIT && o >= 0 && o % 4 == 0 && Spelled(s, o, l) && Found(l, c, true).Cons?
    ensures Standing(s, Seek(l, o, c, true).0, Found(l, c, true))
    decreases l
  {
    hide Spelled;
    if l.Cons? {
      Advance(s, o, l);
      match l.head
      case Begin(_) =>
      case Close => FoundSpelled(s, o + 4, l.tail, c - 1);
      case _ => FoundSpelled(s, o + TokenLen(l.head), l.tail, c);
    }
  }

  /** The result of `fdt_next_node` on a block, in terms of its arguments alone. */
  ghost function NextNode(s: seq<byte>, offset: int, depth: int, tracked: bool): (int, int)
    requires |s| < INT_LIMIT && Scan(s, if offset < 0 then 0 else offset).Some?
  {
    var l := Scan(s, if offset < 0 then 0 else offset).value;
    Seek(Left(offset, l), Onset(offset, l), depth, tracked)
  }

  lemma StandingScan(s: seq<byte>, offset: int, l: Tokens)
    requires |s| < INT_LIMIT && Standing(s, offset, l)
    ensures Scan(s, if offset < 0 then 0 else offset) == Some(l)
  {
    ScanComplete(s, if offset < 0 then 0 else offset, l);
  }

  /**
  Iterating `fdt_next_node` from -1 visits the nodes in pre-order at strictly increasing offsets, with the
  depth counter one above the true depth when it starts at 0, and ends with NOTFOUND; without a counter
  the offsets are the same.
  */
  lemma VisitOrder(b: seq<byte>, i: int, c: int)
    requires Readable(b) && -1 <= i < |AllNodes(b)|
    ensures var es, s := AllNodes(b), Struct(b);
            var o, d := (if i < 0 then -1 else Tip(es[i])), (if i < 0 then 0 else |es[i]| - 1);
            && Scan(s, if o < 0 then 0 else o).Some?
            && (if i + 1 < |es| then NextNode(s, o, d, true) == (Tip(es[i + 1]), |es[i + 1]| - 1) && Tip(es[i + 1]) > o
                else NextNode(s, o, d, true).0 == NOTFOUND)
            && NextNode(s, o, c, false).0 == NextNode(s, o, d, true).0
  {
    hide Cursor, AllNodes, Spelled, Scan;
    var es, s := AllNodes(b), Struct(b);
    WholeWalk(b);
    if i < 0 {
      var l := Flat(Stored(b));
      StandingScan(s, -1, l);
    } else {
      var l := Reached(b, i);
      CursorNext(s, es, NOTFOUND, i, l);
      var o := Last(es[i]).off;
      StandingScan(s, o, l);
      CursorLeaves(s, es, i, l);
      SeekUntracked(l.tail, o + TokenLen(l.head), |es[i]| - 1, c);
    }
  }

  lemma CursorLeaves(s: seq<byte>, es: seq<Trail>, i: int, l: Tokens)
    requires Cursor(s, es, NOTFOUND, i, l)
    ensures l.Cons? && Leave(l.tail, Last(es[i]).off + TokenLen(l.head), |es[i]| - 1) == NOTFOUND
  {
  }

  /** The listing holds every node once: a node's offset determines its index. */
  lemma VisitedOnce(b: seq<byte>, p: Pos, o: int) returns (i: int)
    requires NodeAt(b, p, o)
    ensures 0 <= i < |AllNodes(b)| && AllNodes(b)[i] == TrailTo(Stored(b), 0, p, [OUTSIDE])
    ensures |AllNodes(b)[i]| == Depth(p) + 2 && Tip(AllNodes(b)[i]) == o
    ensures forall j :: 0 <= j < |AllNodes(b)| && j != i ==> Tip(AllNodes(b)[j]) != o
  {
    hide Decode, Named, Nodes, TrailTo, Off, Size, Rooted;
    var f := Stored(b);
    i := Listed(f, 0, p, [OUTSIDE]);
    TrailIsChain(f, 0, p, [OUTSIDE], Depth(p));
    AncestorSelf(p);
    NodesSorted(f, 0, [OUTSIDE]);
  }

  /** No node starts at `o`. */
  ghost predicate NoNodeAt(b: seq<byte>, o: int)
    requires Readable(b)
  {
    var es := Nodes(Stored(b), 0, []);
    forall i :: 0 <= i < |es| ==> Tip(es[i]) != o
  }

  /** The offset is that of the node at `p`, or no node's. */
  ghost predicate Query(b: seq<byte>, p: Pos, o: int) {
    Readable(b) && (NodeAt(b, p, o) || NoNodeAt(b, o))
  }

  /** All nodes start before the end of the root. */
  lemma InsideRoot(f: Forest, i: int)
    requires Rooted(f) && 0 <= i < |Nodes(f, 0, [])|
    ensures Nodes(f, 0, [])[i] != [] && Last(Nodes(f, 0, [])[i]).off < NodeEnd(f, Here)
  {
    hide Size, Nodes;
    RootLists(f);
    HereOff(f);
    var h, up := TokenLen(Begin(f.name)), [Spot(0, f.name)];
    NodesSorted(f.body, h, up);
    if i > 0 { assert Below(f, Here)[i] == Nodes(f.body, h, up)[i - 1]; }
  }

  /** Behind the root stand NOPs and END, no node. */
  lemma EndOfRoot(b: seq<byte>)
    requires Readable(b)
    ensures CheckNode(Struct(b), NodeEnd(Stored(b), Here)) == BADOFFSET
  {
    hide Decode, Named, Spelled, Size, NextTag, Off;
    var f, p := Stored(b), Past(Here);
    FirstLen(f);
    SizeSplit(f);
    OffSplit(f, p);
    HereOff(f.rest);
    HereOff(f);
    OnwardSpelled(b, p);
    NoNodeNext(Struct(b), Off(f, p), f.rest, Onward(f, p));
  }

  lemma NoNodeNext(s: seq<byte>, o: int, f: Forest, l: Tokens)
    requires |s| < INT_LIMIT && Spelled(s, o, l) && o % 4 == 0 && OnlyNops(f) && l == Append(Flat(f), Nil)
    ensures CheckNode(s, o) == BADOFFSET
  {
    hide NextTag;
    if l.Nil? {
      NextTagOnEnd(s, o);
    } else {
      NextTagOnToken(s, o, l.head);
    }
  }

  /** The listing to scan and the index of the node sought, or the end of the listing. */
  lemma QueryTrail(b: seq<byte>, p: Pos, o: int) returns (es: seq<Trail>, j: int)
    requires Query(b, p, o)
    ensures es == Nodes(Stored(b), 0, []) && Sorted(es, 0, Size(Stored(b)))
    ensures NodeAt(b, p, o) ==>
              0 <= j < |es| && es[j] == TrailTo(Stored(b), 0, p, []) && |es[j]| == Depth(p) + 1 && Last(es[j]).off == o
    ensures !NodeAt(b, p, o) ==> j == |es| && forall i :: 0 <= i < |es| ==> Last(es[i]).off != o
  {
    hide Decode, Named, Nodes, TrailTo, Off, Size, Rooted, NodeEnd;
    es := Nodes(Stored(b), 0, []);
    NodesSorted(Stored(b), 0, []);
    if NodeAt(b, p, o) {
      es, j := RootTrail(b, p, o);
    } else {
      j := |es|;
    }
  }

  /** `fdt_supernode_atdepth_offset`. */
  method FdtSupernodeAtDepthOffset(b: seq<byte>, nodeoffset: int, supernodedepth: int, ghost p: Pos)
    returns (r: int, nodedepth: int)
    requires Buffer(b) && (CheckHeader(b) == 0 ==> Query(b, p, nodeoffset))
    ensures CheckHeader(b) != 0 ==> r == CheckHeader(b)
    ensures CheckHeader(b) == 0 && !NodeAt(b, p, nodeoffset) ==>
              var end := NodeEnd(Stored(b), Here);
              r == if supernodedepth < 0 || nodeoffset == end then NOTFOUND
                   else if nodeoffset < end then BADOFFSET else BADSTRUCTURE
    ensures NodeAt(b, p, nodeoffset) && CheckHeader(b) == 0 && !(0 <= supernodedepth <= Depth(p)) ==> r == NOTFOUND
    ensures NodeAt(b, p, nodeoffset) && CheckHeader(b) == 0 && 0 <= supernodedepth <= Depth(p) ==>
              NodeAt(b, Ancestor(p, supernodedepth), r)
    ensures NodeAt(b, p, nodeoffset) && CheckHeader(b) == 0 && supernodedepth >= 0 ==> nodedepth == Depth(p)
  {
    hide Below, NodeEnd, Onward, Cursor, Seek, Found, Left, Onset, Standing, TokenAt, Decode, Named, Rooted, TrailTo,
         Nodes, Off, CheckHeader, Struct;
    nodedepth := 0;
    var err := FdtCheckHeader(b);
    if err != 0 {
      return err, 0;
    }
    if supernodedepth < 0 {
      return NOTFOUND, 0;
    }
    var s := LoadStruct(b);
    ghost var es, j := QueryTrail(b, p, nodeoffset);
    ghost var l, fin, i := RootCursor(b);
    EndOfRoot(b);
    var offset, depth, supernode := 0, 0, INTERNAL;
    while offset >= 0 && offset <= nodeoffset
      invariant 0 <= i <= j
      invariant i == |es| ==> depth == -1 && (offset == fin || (offset == BADOFFSET && fin < nodeoffset))
      invariant i < |es| ==>
                  Cursor(s, es, fin, i, l) && |es[i]| > 0 && offset == Last(es[i]).off >= 0 && depth == |es[i]| - 1
      invariant i < |es| && 0 <= supernodedepth < depth ==> supernode == es[i][supernodedepth].off
      decreases j - i, offset
    {
      if depth == supernodedepth {
        supernode := offset;
      }
      if offset == nodeoffset {
        if supernodedepth > depth {
          return NOTFOUND, depth;
        }
        TrailIsChain(Stored(b), 0, p, [], supernodedepth);
        return supernode, depth;
      }
      if i < |es| {
        CursorNext(s, es, fin, i, l);
        assert i + 1 < |es| && supernodedepth < |es[i + 1]| - 1 ==>
               es[i + 1][..|es[i + 1]| - 1][supernodedepth] == es[i][..|es[i + 1]| - 1][supernodedepth];
        i := i + 1;
      }
      offset, depth, l := FdtNextNode(s, offset, depth, true, l);
    }
    if i < |es| { InsideRoot(Stored(b), i); }
    if offset == NOTFOUND || offset >= 0 {
      return BADOFFSET, nodedepth;
    } else if offset == BADOFFSET {
      return BADSTRUCTURE, nodedepth;
    }
    return offset, nodedepth;
  }

  lemma RootCursor(b: seq<byte>) returns (l: Tokens, fin: int, i: int)
    requires Readable(b)
    ensures i == 0 && fin == NodeEnd(Stored(b), Here) >= 0 && Cursor(Struct(b), Nodes(Stored(b), 0, []), fin, 0, l)
    ensures |Nodes(Stored(b), 0, [])| > 0 && Nodes(Stored(b), 0, [])[0] == [Spot(0, Stored(b).name)]
  {
    hide Decode, Named;
    var es;
    es, fin, i, l := Start(b, Here, 0);
    RootLists(Stored(b));
  }

  lemma RootTrail(b: seq<byte>, p: Pos, o: int) returns (es: seq<Trail>, j: int)
    requires NodeAt(b, p, o)
    ensures es == Nodes(Stored(b), 0, []) && 0 <= j < |es| && es[j] == TrailTo(Stored(b), 0, p, [])
    ensures |es[j]| == Depth(p) + 1 && Last(es[j]).off == o
    ensures Sorted(es, 0, Size(Stored(b)))
  {
    hide Decode, Named, Nodes, TrailTo, Off, Size, Rooted, Sorted;
    var f := Stored(b);
    es := Nodes(f, 0, []);
    j := Listed(f, 0, p, []);
    TrailIsChain(f, 0, p, [], Depth(p));
    AncestorSelf(p);
    NodesSorted(f, 0, []);
  }

  /** `fdt_node_depth`. */
  method FdtNodeDepth(b: seq<byte>, nodeoffset: int, ghost p: Pos) returns (r: int)
    requires Buffer(b) && (CheckHeader(b) == 0 ==> Query(b, p, nodeoffset))
    ensures CheckHeader(b) != 0 ==> r == CheckHeader(b)
    ensures CheckHeader(b) == 0 && NodeAt(b, p, nodeoffset) ==> r == Depth(p)
    ensures CheckHeader(b) == 0 && !NodeAt(b, p, nodeoffset) ==>
              var end := NodeEnd(Stored(b), Here);
              r == if nodeoffset < end then BADOFFSET else if nodeoffset == end then NOTFOUND else BADSTRUCTURE
  {
    hide Decode, Named, NoNodeAt;
    var err, nodedepth := FdtSupernodeAtDepthOffset(b, nodeoffset, 0, p);
    if CheckHeader(b) == 0 && NodeAt(b, p, nodeoffset) { RootAncestor(b, p, nodeoffset); }
    if err != 0 {
      return if err < 0 then err else INTERNAL;
    }
    return nodedepth;
  }

  lemma RootAncestor(b: seq<byte>, p: Pos, o: int)
    requires NodeAt(b, p, o)
    ensures Ancestor(p, 0) == Here
  {
    if p.Past? {
      NopsHoldNoNode(Stored(b).rest, p.next);
    }
  }

  lemma {:induction false} NopsHoldNoNode(f: Forest, q: Pos)
    requires OnlyNops(f) && Valid(f, q)
    ensures !At(f, q).Node?
    decreases q
  {
    if q.Past? { NopsHoldNoNode(f.rest, q.next); }
  }

  /** `fdt_parent_offset`: the enclosing node, NOTFOUND for the root. */
  method FdtParentOffset(b: seq<byte>, nodeoffset: int, ghost p: Pos) returns (r: int)
    requires Buffer(b) && (CheckHeader(b) == 0 ==> Query(b, p, nodeoffset))
    ensures CheckHeader(b) != 0 ==> r == CheckHeader(b)
    ensures CheckHeader(b) == 0 && !NodeAt(b, p, nodeoffset) ==>
              var end := NodeEnd(Stored(b), Here);
              r == if nodeoffset < end then BADOFFSET else if nodeoffset == end then NOTFOUND else BADSTRUCTURE
    ensures CheckHeader(b) == 0 && NodeAt(b, p, nodeoffset) && Depth(p) == 0 ==> r == NOTFOUND
    ensures CheckHeader(b) == 0 && NodeAt(b, p, nodeoffset) && Depth(p) > 0 ==> NodeAt(b, Ancestor(p, Depth(p) - 1), r)
  {
    var nodedepth := FdtNodeDepth(b, nodeoffset, p);
    if nodedepth < 0 {
      return nodedepth;
    }
    var nd;
    r, nd := FdtSupernodeAtDepthOffset(b, nodeoffset, nodedepth - 1, p);
  }

  /** Taking the parent `Depth` times reaches the root at offset 0. */
  lemma {:induction false} ParentsReachRoot(p: Pos, n: nat)
    requires n <= Depth(p)
    ensures Climb(p, n) == Ancestor(p, Depth(p) - n)
    decreases n
  {
    if n == 0 {
      AncestorSelf(p);
    } else {
      ParentsReachRoot(p, n - 1);
      AncestorOfAncestor(p, Depth(p) - n + 1, Depth(p) - n);
    }
  }

  /** The place reached from `p` by `n` steps to the parent. */
  function Climb(p: Pos, n: nat): Pos {
    if n == 0 then p else var q := Climb(p, n - 1); if Depth(q) == 0 then q else Ancestor(q, Depth(q) - 1)
  }

  /** The ancestor reached by `Depth` parent steps is the root, whose offset is 0. */
  lemma ClimbToRoot(b: seq<byte>, p: Pos, o: int)
    requires NodeAt(b, p, o)
    ensures Climb(p, Depth(p)) == Here && NodeAt(b, Climb(p, Depth(p)), 0)
  {
    ParentsReachRoot(p, Depth(p));
    RootAncestor(b, p, o);
  }
}
