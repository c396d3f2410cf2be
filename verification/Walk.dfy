/**
`fdt_next_node` and the pre-order listing of nodes that iterating it produces.  A node is listed by
its trail: the offsets and names of its ancestors from the start node down to itself.
*/
module Walk {
  import opened Words
  import opened Tokens
  import opened Structure
  import opened Tokenizer

  /** What the scan finds from `o` on: the next BEGIN_NODE and its depth, or where and how it ends. */
  ghost function Seek(l: Tokens, o: int, c: int, tracked: bool): (int, int) {
    if l.Nil? then (NOTFOUND, c)
    else
      match l.head
      case Begin(_) => (o, c + 1)
      case Close => if tracked && c - 1 < 0 then (o + 4, c - 1) else Seek(l.tail, o + 4, c - 1, tracked)
      case _ => Seek(l.tail, o + TokenLen(l.head), c, tracked)
  }

  /** The tokens from the node that the scan finds. */
  ghost function Found(l: Tokens, c: int, tracked: bool): Tokens {
    if l.Nil? then Nil
    else
      match l.head
      case Begin(_) => l
      case Close => if tracked && c - 1 < 0 then Nil else Found(l.tail, c - 1, tracked)
      case _ => Found(l.tail, c, tracked)
  }

  /** `_fdt_check_node_offset`. */
  ghost function CheckNode(s: seq<byte>, o: int): int
    requires |s| < INT_LIMIT
  {
    if o < 0 || o % 4 != 0 || NextTag(s, o).0 != BEGIN_NODE then BADOFFSET else NextTag(s, o).1
  }

  method FdtCheckNodeOffset(s: seq<byte>, offset: int) returns (r: int)
    requires |s| < INT_LIMIT
    ensures r == CheckNode(s, offset)
  {
    if offset < 0 || offset % 4 != 0 {
      return BADOFFSET;
    }
    var tag, next := FdtNextTag(s, offset);
    if tag != BEGIN_NODE {
      return BADOFFSET;
    }
    return next;
  }

  /** Accepted exactly where an aligned BEGIN_NODE tag is read, with the offset behind the name. */
  lemma CheckNodePlainly(s: seq<byte>, o: int)
    requires |s| < INT_LIMIT
    ensures CheckNode(s, o) >= 0 <==> o >= 0 && o % 4 == 0 && NextTag(s, o).0 == 1
    ensures CheckNode(s, o) == if CheckNode(s, o) >= 0 then NextTag(s, o).1 else -4
  {
    CheckNodeRejects(s, o);
  }

  lemma CheckNodeRejects(s: seq<byte>, o: int)
    requires |s| < INT_LIMIT
    ensures CheckNode(s, o) == BADOFFSET || (CheckNode(s, o) > 0 && NextTag(s, o) == (BEGIN_NODE, CheckNode(s, o)))
  {
  }

  lemma CheckNodeOk(s: seq<byte>, o: int, l: Tokens)
    requires |s| < INT_LIMIT && o % 4 == 0 && Spelled(s, o, l) && l.Cons? && l.head.Begin?
    ensures CheckNode(s, o) == o + TokenLen(l.head) >= 0
    ensures Spelled(s, o + TokenLen(l.head), l.tail) && (o + TokenLen(l.head)) % 4 == 0
  {
    NextTagOnToken(s, o, l.head);
    TokenAligned(o, l.head);
  }

  /** One tag of a spelled block, in the form the loops use. */
  lemma Advance(s: seq<byte>, o: int, l: Tokens)
    requires |s| < INT_LIMIT && 0 <= o && o % 4 == 0 && Spelled(s, o, l)
    ensures l.Nil? ==> NextTag(s, o) == (END, o + 4)
    ensures l.Cons? ==> NextTag(s, o) == (TagOf(l.head), o + TokenLen(l.head))
    ensures l.Cons? ==> (o + TokenLen(l.head)) % 4 == 0 && Spelled(s, o + TokenLen(l.head), l.tail)
  {
    hide NextTag, TokenAt, TokenLen, TagAt;
    if l.Nil? {
      NextTagOnEnd(s, o);
    } else {
      NextTagOnToken(s, o, l.head);
      TokenAligned(o, l.head);
    }
  }

  /** The tokens left to scan when the walk stands at `offset`: all of them before the first node. */
  ghost predicate Standing(s: seq<byte>, offset: int, l: Tokens) {
    if offset < 0 then Spelled(s, 0, l)
    else offset % 4 == 0 && Spelled(s, offset, l) && l.Cons? && l.head.Begin?
  }

  /** Where the scan for the next node starts. */
  ghost function Onset(offset: int, l: Tokens): int {
    if offset < 0 || l.Nil? then 0 else offset + TokenLen(l.head)
  }

  ghost function Left(offset: int, l: Tokens): Tokens {
    if offset < 0 || l.Nil? then l else l.tail
  }

  /** `fdt_next_node`; `tracked` says that the caller passed a depth counter. */
  method FdtNextNode(s: seq<byte>, start: int, depth: int, tracked: bool, ghost l: Tokens)
    returns (offset: int, d: int, ghost rest: Tokens)
    requires |s| < INT_LIMIT && (Standing(s, start, l) || (start >= 0 && CheckNode(s, start) < 0))
    ensures start >= 0 && CheckNode(s, start) < 0 ==> offset == CheckNode(s, start) && d == depth
    ensures Standing(s, start, l) ==>
              && offset == Seek(Left(start, l), Onset(start, l), depth, tracked).0
              && (tracked ==> d == Seek(Left(start, l), Onset(start, l), depth, tracked).1)
              && rest == Found(Left(start, l), depth, tracked)
    ensures Standing(s, start, l) && rest.Cons? ==> offset >= 0 && Standing(s, offset, rest)
  {
    hide Spelled, NextTag;
    var next := 0;
    if start >= 0 {
      if Standing(s, start, l) { CheckNodeOk(s, start, l); }
      next := FdtCheckNodeOffset(s, start);
      if next < 0 {
        return next, depth, Nil;
      }
    }
    d := depth;
    rest := Left(start, l);
    ghost var goal := Seek(rest, next, d, tracked);
    ghost var c := d;
    while true
      invariant next >= 0 && next % 4 == 0 && Spelled(s, next, rest)
      invariant goal == Seek(rest, next, c, tracked) && (tracked ==> c == d)
      invariant Found(Left(start, l), depth, tracked) == Found(rest, c, tracked)
      decreases rest
    {
      offset := next;
      var tag;
      Advance(s, offset, rest);
      tag, next := FdtNextTag(s, offset);
      if tag == BEGIN_NODE {
        if tracked { d := d + 1; }
        return;
      } else if tag == END_NODE {
        c := c - 1;
        if tracked {
          d := d - 1;
          if d < 0 {
            rest := Nil;
            return next, d, Nil;
          }
        }
      } else if tag == END {
        return NOTFOUND, d, Nil;
      }
      rest := rest.tail;
    }
  }

  /** A node as the walk meets it. */
  datatype Spot = Spot(off: int, name: seq<byte>)

  type Trail = seq<Spot>

  /** The nodes met from `o` on, inside the node that `up` ends in, in order. */
  ghost function Listing(l: Tokens, o: int, up: Trail): seq<Trail> {
    if l.Nil? then []
    else
      match l.head
      case Begin(n) => [up + [Spot(o, n)]] + Listing(l.tail, o + TokenLen(l.head), up + [Spot(o, n)])
      case Close => if |up| <= 1 then [] else Listing(l.tail, o + 4, up[..|up| - 1])
      case _ => Listing(l.tail, o + TokenLen(l.head), up)
  }

  /** Where the walk leaves the node that it started in. */
  ghost function Leave(l: Tokens, o: int, c: int): int {
    if l.Nil? then NOTFOUND
    else
      match l.head
      case Begin(n) => Leave(l.tail, o + TokenLen(l.head), c + 1)
      case Close => if c - 1 < 0 then o + 4 else Leave(l.tail, o + 4, c - 1)
      case _ => Leave(l.tail, o + TokenLen(l.head), c)
  }

  /** The scan from `o` finds the first node `e` of a listing whose remaining part is `es`. */
  ghost predicate Finds(l: Tokens, o: int, up: Trail, e: Trail, es: seq<Trail>)
    requires |up| > 0
  {
    var r := Found(l, |up| - 1, true);
    && r.Cons? && r.head.Begin?
    && 2 <= |e| <= |up| + 1 && e[..|e| - 1] == up[..|e| - 1] && e[|e| - 1].off >= o
    && Seek(l, o, |up| - 1, true) == (e[|e| - 1].off, |e| - 1)
    && r.head.name == e[|e| - 1].name
    && Listing(r.tail, e[|e| - 1].off + TokenLen(r.head), e) == es
    && Leave(r.tail, e[|e| - 1].off + TokenLen(r.head), |e| - 1) == Leave(l, o, |up| - 1)
  }

  lemma FindsHere(l: Tokens, o: int, up: Trail)
    requires |up| > 0 && l.Cons? && l.head.Begin?
    ensures |Listing(l, o, up)| > 0 && Finds(l, o, up, Listing(l, o, up)[0], Listing(l, o, up)[1..])
  {
    var e := up + [Spot(o, l.head.name)];
    var es := Listing(l.tail, o + TokenLen(l.head), e);
    assert Listing(l, o, up) == [e] + es;
    assert ([e] + es)[1..] == es;
    assert e[..|e| - 1] == up[..|e| - 1];
  }

  /** The scan finds the first node of the listing, and the rest of the listing starts from there. */
  lemma {:induction false} SeekListing(l: Tokens, o: int, up: Trail)
    requires |up| > 0
    ensures |Listing(l, o, up)| > 0 ==> Finds(l, o, up, Listing(l, o, up)[0], Listing(l, o, up)[1..])
    ensures |Listing(l, o, up)| == 0 ==>
              Found(l, |up| - 1, true).Nil? && Seek(l, o, |up| - 1, true).0 == Leave(l, o, |up| - 1)
    ensures |Listing(l, o, up)| == 0 && Leave(l, o, |up| - 1) >= 0 ==> Seek(l, o, |up| - 1, true).1 == -1
    decreases l
  {
    if l.Cons? {
      match l.head
      case Begin(n) => FindsHere(l, o, up);
      case Close =>
        if |up| > 1 {
          SeekListing(l.tail, o + 4, up[..|up| - 1]);
        }
      case _ => SeekListing(l.tail, o + TokenLen(l.head), up);
    }
  }

  /** The nodes of a forest at offset `o`, in pre-order, with their trails below `up`. */
  ghost function Nodes(f: Forest, o: int, up: Trail): seq<Trail> {
    match f
    case Stop => []
    case Leaf(t, r) => Nodes(r, o + TokenLen(t), up)
    case Node(n, b, r) =>
      var h := o + TokenLen(Begin(n));
      [up + [Spot(o, n)]] + Nodes(b, h, up + [Spot(o, n)]) + Nodes(r, h + Size(b) + 4, up)
  }

  lemma StopSize()
    ensures Size(Stop) == 0
  {
  }

  /** The walk over the tokens of a forest lists exactly the nodes of the forest. */
  lemma {:induction false} ListingFlat(f: Forest, k: Tokens, o: int, up: Trail)
    requires |up| > 0
    ensures Listing(Append(Flat(f), k), o, up) == Nodes(f, o, up) + Listing(k, o + Size(f), up)
    decreases f
  {
    hide Size, TokenLen;
    SizeSplit(f);
    match f
    case Stop => StopSize();
    case Leaf(t, r) => ListingFlat(r, k, o + TokenLen(t), up);
    case Node(n, b, r) =>
      var h, sub := o + TokenLen(Begin(n)), up + [Spot(o, n)];
      ListingFlat(b, Cons(Close, Append(Flat(r), k)), h, sub);
      ListingFlat(r, k, h + Size(b) + 4, up);
      ListingNode(f, k, o, up, h, sub, Append(Flat(r), k), Nodes(b, h, sub), Nodes(r, h + Size(b) + 4, up));
  }

  lemma ListingNode(f: Forest, k: Tokens, o: int, up: Trail, h: int, sub: Trail, k2: Tokens, bs: seq<Trail>,
                    rs: seq<Trail>)
    requires |up| > 0 && f.Node?
    requires h == o + TokenLen(Begin(f.name)) && sub == up + [Spot(o, f.name)] && k2 == Append(Flat(f.rest), k)
    requires bs == Nodes(f.body, h, sub) && rs == Nodes(f.rest, h + Size(f.body) + 4, up)
    requires Listing(Append(Flat(f.body), Cons(Close, k2)), h, sub)
             == bs + Listing(Cons(Close, k2), h + Size(f.body), sub)
    requires Listing(k2, h + Size(f.body) + 4, up) == rs + Listing(k, o + Size(f), up)
    ensures Listing(Append(Flat(f), k), o, up) == Nodes(f, o, up) + Listing(k, o + Size(f), up)
  {
    hide Listing, Nodes, Flat, Append, Size, TokenLen;
    ListingBegin(f, k, o, up);
    ListingClose(k2, h + Size(f.body), up, Spot(o, f.name));
    NodesNode(f, o, up);
    Regroup(Listing(Append(Flat(f), k), o, up), [sub], Listing(Append(Flat(f.body), Cons(Close, k2)), h, sub), bs,
            Listing(k2, h + Size(f.body) + 4, up), rs, Listing(k, o + Size(f), up), Nodes(f, o, up));
  }

  lemma NodesNode(f: Forest, o: int, up: Trail)
    requires f.Node?
    ensures var h, sub := o + TokenLen(Begin(f.name)), up + [Spot(o, f.name)];
            Nodes(f, o, up) == [sub] + Nodes(f.body, h, sub) + Nodes(f.rest, h + Size(f.body) + 4, up)
  {
  }

  lemma ListingBegin(f: Forest, k: Tokens, o: int, up: Trail)
    requires f.Node?
    ensures Listing(Append(Flat(f), k), o, up) ==
            [up + [Spot(o, f.name)]] +
            Listing(Append(Flat(f.body), Cons(Close, Append(Flat(f.rest), k))), o + TokenLen(Begin(f.name)),
                    up + [Spot(o, f.name)])
  {
    AppendAssoc(Flat(f.body), Cons(Close, Flat(f.rest)), k);
  }

  lemma ListingClose(k: Tokens, o: int, up: Trail, x: Spot)
    requires |up| > 0
    ensures Listing(Cons(Close, k), o, up + [x]) == Listing(k, o + 4, up)
  {
    assert (up + [x])[..|up|] == up;
  }

  lemma Regroup<T>(l: seq<T>, a: seq<T>, x: seq<T>, b: seq<T>, y: seq<T>, c: seq<T>, z: seq<T>, n: seq<T>)
    requires l == a + x && x == b + y && y == c + z && n == a + b + c
    ensures l == n + z
  {
  }

  lemma {:induction false} LeaveFlat(f: Forest, k: Tokens, o: int, c: int)
    requires c >= 0
    ensures Leave(Append(Flat(f), k), o, c) == Leave(k, o + Size(f), c)
    decreases f
  {
    hide Size, TokenLen;
    SizeSplit(f);
    match f
    case Stop => StopSize();
    case Leaf(t, r) => LeaveFlat(r, k, o + TokenLen(t), c);
    case Node(n, b, r) =>
      var h := o + TokenLen(Begin(n));
      var k2 := Append(Flat(r), k);
      AppendAssoc(Flat(b), Cons(Close, Flat(r)), k);
      LeaveFlat(b, Cons(Close, k2), h, c + 1);
      LeaveFlat(r, k, h + Size(b) + 4, c);
  }

  ghost function Last(e: Trail): Spot
    requires |e| > 0
  {
    e[|e| - 1]
  }

  /** The offset of the node that a trail leads to. */
  ghost function Tip(e: Trail): int {
    if e == [] then -1 else Last(e).off
  }

  /** The walk over `es`, which leaves its start node at `fin`, stands at the `i`-th node with the tokens `l` ahead. */
  ghost predicate Cursor(s: seq<byte>, es: seq<Trail>, fin: int, i: int, l: Tokens) {
    && 0 <= i < |es| && |es[i]| > 0
    && Last(es[i]).off >= 0 && Standing(s, Last(es[i]).off, l)
    && l.head.name == Last(es[i]).name
    && Listing(l.tail, Last(es[i]).off + TokenLen(l.head), es[i]) == es[i + 1..]
    && Leave(l.tail, Last(es[i]).off + TokenLen(l.head), |es[i]| - 1) == fin
  }

  /** What one call of `fdt_next_node` does to the walk. */
  lemma CursorNext(s: seq<byte>, es: seq<Trail>, fin: int, i: int, l: Tokens)
    requires Cursor(s, es, fin, i, l)
    ensures 0 <= i < |es| && |es[i]| > 0 && Last(es[i]).off >= 0 && Standing(s, Last(es[i]).off, l)
    ensures var o, c := Last(es[i]).off, |es[i]| - 1;
            var r := Found(Left(o, l), c, true);
            var (n, d) := Seek(Left(o, l), Onset(o, l), c, true);
            if i + 1 < |es| then
              && r.Cons?
              && 2 <= |es[i + 1]| <= |es[i]| + 1 && (n, d) == (Last(es[i + 1]).off, |es[i + 1]| - 1) && n > o
              && es[i + 1][..|es[i + 1]| - 1] == es[i][..|es[i + 1]| - 1]
              && (Standing(s, n, r) ==> Cursor(s, es, fin, i + 1, r))
            else r.Nil? && n == fin && (fin >= 0 ==> d == -1)
  {
    hide Seek, Found, Leave, Listing, Spelled;
    SeekListing(l.tail, Last(es[i]).off + TokenLen(l.head), es[i]);
    if i + 1 < |es| {
      assert es[i + 1..][0] == es[i + 1] && es[i + 1..][1..] == es[i + 2..];
    }
  }

  /** Without a depth counter the scan finds the same nodes, as long as the counter would not have stopped it. */
  lemma {:induction false} SeekUntracked(l: Tokens, o: int, c: int, c': int)
    requires o >= 0 && Leave(l, o, c) == NOTFOUND
    ensures Seek(l, o, c', false).0 == Seek(l, o, c, true).0 && Found(l, c', false) == Found(l, c, true)
    decreases l
  {
    if l.Cons? {
      match l.head
      case Begin(_) =>
      case Close => SeekUntracked(l.tail, o + 4, c - 1, c' - 1);
      case _ => SeekUntracked(l.tail, o + TokenLen(l.head), c, c');
    }
  }

  lemma CursorToken(s: seq<byte>, es: seq<Trail>, fin: int, i: int, l: Tokens)
    requires Cursor(s, es, fin, i, l)
    ensures 0 <= i < |es| && |es[i]| > 0
    ensures l.Cons? && l.head == Begin(Last(es[i]).name) && TokenAt(s, Last(es[i]).off, l.head)
  {
  }

  lemma CursorAligned(s: seq<byte>, es: seq<Trail>, fin: int, i: int, l: Tokens)
    requires Cursor(s, es, fin, i, l)
    ensures 0 <= i < |es| && |es[i]| > 0 && Last(es[i]).off % 4 == 0
  {
  }
}
