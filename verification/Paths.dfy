/** `fdt_path_offset`: what a subnode scan finds, and where a path leads. */
module Paths {
  import opened Words
  import opened Tokens
  import opened Structure
  import opened Tokenizer
  import opened Walk
  import opened Tree
  import opened Blob
  import opened Queries
  import opened Ancestors

  /** The first subnode in a list of items that matches `n`. */
  ghost function ChildPos(f: Forest, n: seq<byte>): Option<Pos> {
    if f.Stop? then None
    else if f.Node? && NameEq(f.name, n) then Some(Here)
    else
      match ChildPos(f.rest, n)
      case Some(q) => Some(Past(q))
      case None => None
  }

  lemma {:induction false} ChildValid(f: Forest, n: seq<byte>)
    requires ChildPos(f, n).Some?
    ensures Valid(f, ChildPos(f, n).value) && At(f, ChildPos(f, n).value).Node?
    ensures NameEq(At(f, ChildPos(f, n).value).name, n) && Depth(ChildPos(f, n).value) == 0
    decreases f
  {
    if !(f.Node? && NameEq(f.name, n)) { ChildValid(f.rest, n); }
  }

  ghost predicate Longer(es: seq<Trail>, d: int) {
    forall i :: 0 <= i < |es| ==> |es[i]| > d
  }

  lemma {:induction false} NodesLonger(f: Forest, o: int, up: Trail)
    ensures Longer(Nodes(f, o, up), |up|)
    decreases f
  {
    match f
    case Stop =>
    case Leaf(t, r) => NodesLonger(r, o + TokenLen(t), up);
    case Node(n, b, r) =>
      var h, sub := o + TokenLen(Begin(n)), up + [Spot(o, n)];
      NodesLonger(b, h, sub);
      NodesLonger(r, h + Size(b) + 4, up);
  }

  lemma {:induction false} MatchSkips(es: seq<Trail>, rs: seq<Trail>, d: int, n: seq<byte>)
    requires d > 0 && Longer(es, d)
    ensures Match(es + rs, d, n) == Match(rs, d, n)
    decreases |es|
  {
    if es == [] {
      assert es + rs == rs;
    } else {
      assert (es + rs)[0] == es[0] && (es + rs)[1..] == es[1..] + rs;
      MatchSkips(es[1..], rs, d, n);
    }
  }

  ghost function OffsetOf(f: Forest, o: int, q: Option<Pos>): int
    requires q.Some? ==> Valid(f, q.value)
  {
    if q.Some? then o + Off(f, q.value) else NOTFOUND
  }

  /** Scanning the listing for a match at child depth finds the first matching child. */
  lemma {:induction false} MatchChild(f: Forest, o: int, up: Trail, n: seq<byte>)
    requires o >= 0
    ensures ChildPos(f, n).Some? ==> Valid(f, ChildPos(f, n).value)
    ensures Match(Nodes(f, o, up), |up| + 1, n) == OffsetOf(f, o, ChildPos(f, n))
    decreases f
  {
    hide Size, Off, NameEq;
    if ChildPos(f, n).Some? { ChildValid(f, n); OffSplit(f, ChildPos(f, n).value); }
    match f
    case Stop =>
    case Leaf(t, r) => FirstLen(f); MatchChild(r, o + TokenLen(t), up, n);
    case Node(m, b, r) =>
      FirstLen(f);
      MatchChild(r, o + TokenLen(Begin(m)) + Size(b) + 4, up, n);
      MatchNode(f, o, up, n);
  }

  lemma MatchNode(f: Forest, o: int, up: Trail, n: seq<byte>)
    requires f.Node?
    ensures Match(Nodes(f, o, up), |up| + 1, n) ==
            if NameEq(f.name, n) then o
            else Match(Nodes(f.rest, o + TokenLen(Begin(f.name)) + Size(f.body) + 4, up), |up| + 1, n)
  {
    hide Size, TokenLen;
    var h, sub := o + TokenLen(Begin(f.name)), up + [Spot(o, f.name)];
    var bs, rs := Nodes(f.body, h, sub), Nodes(f.rest, h + Size(f.body) + 4, up);
    NodesNode(f, o, up);
    assert [sub] + bs + rs == [sub] + (bs + rs);
    assert ([sub] + (bs + rs))[0] == sub && ([sub] + (bs + rs))[1..] == bs + rs;
    NodesLonger(f.body, h, sub);
    MatchSkips(bs, rs, |up| + 1, n);
  }

  /** The node reached from the node at `p` by one name. */
  ghost function Step(f: Forest, p: Pos, n: seq<byte>): (r: Option<Pos>)
    requires Valid(f, p) && At(f, p).Node?
    ensures r.Some? ==> Valid(f, r.value) && At(f, r.value).Node?
  {
    match ChildPos(At(f, p).body, n)
    case None => None
    case Some(q) =>
      ChildValid(At(f, p).body, n);
      JoinAt(f, p, Into(q));
      Some(Join(p, Into(q)))
  }

  /** What `fdt_subnode_offset_namelen` computes is the first matching direct child. */
  lemma SubnodeIsChild(b: seq<byte>, p: Pos, o: int, n: seq<byte>)
    requires NodeAt(b, p, o)
    ensures Match(Below(Stored(b), p), 2, n) == OffsetOf(Stored(b), 0, Step(Stored(b), p, n))
  {
    hide Size, Decode, Named, Rooted, Match;
    var f := Stored(b);
    var x := At(f, p);
    var h, up := o + TokenLen(Begin(x.name)), [Spot(o, x.name)];
    MatchRest(up, Nodes(x.body, h, up), n);
    MatchChild(x.body, h, up, n);
    if ChildPos(x.body, n).Some? {
      var q := ChildPos(x.body, n).value;
      ChildValid(x.body, n);
      JoinAt(f, p, Into(q));
      OffSplit(x, Into(q));
    }
  }

  lemma MatchRest(up: Trail, ns: seq<Trail>, n: seq<byte>)
    requires |up| == 1
    ensures Match([up] + ns, 2, n) == Match(ns, 2, n)
  {
    assert ([up] + ns)[1..] == ns;
  }

  /** `q` leads to a direct child of the node at `p`: its name is `m` and it starts at `o`. */
  ghost predicate ChildAt(f: Forest, p: Pos, q: Pos, m: seq<byte>, o: int) {
    && Valid(f, p) && At(f, p).Node? && Depth(q) == 0
    && Valid(At(f, p).body, q) && At(At(f, p).body, q).Node? && At(At(f, p).body, q).name == m
    && o == Off(f, p) + TokenLen(Begin(At(f, p).name)) + Off(At(f, p).body, q)
  }

  /** `ChildPos` against all nodes of the list: it is the first whose name is `n`, or `n` up to an '@'. */
  lemma {:induction false} FirstInList(f: Forest, n: seq<byte>, q: Pos)
    requires Valid(f, q) && Depth(q) == 0 && At(f, q).Node?
    ensures var m := At(f, q).name;
            m == n || (AT !in n && n + [AT] <= m) ==>
              && ChildPos(f, n).Some? && Valid(f, ChildPos(f, n).value)
              && Off(f, ChildPos(f, n).value) <= Off(f, q)
    decreases q
  {
    hide Off;
    NameUpTo(At(f, q).name, n);
    OffSplit(f, q);
    HereOff(f);
    if q.Past? {
      FirstInList(f.rest, n, q.next);
      if ChildPos(f, n).Some? {
        ChildValid(f, n);
        OffSplit(f, ChildPos(f, n).value);
      }
    }
  }

  lemma NameUpTo(m: seq<byte>, n: seq<byte>)
    ensures NameEq(m, n) <==> m == n || (AT !in n && n + [AT] <= m)
  {
    if |n| < |m| {
      assert (n + [AT] <= m) == (m[..|n|] == n && m[|n|] == AT);
    }
  }

  /**
  The law of `fdt_subnode_offset`, in terms of the tree: it finds the first direct child whose name is `n`
  or, if `n` has no '@', begins with `n` and an '@'; and nothing exactly when there is no such child.
  */
  lemma FirstChild(b: seq<byte>, p: Pos, o: int, n: seq<byte>)
    requires NodeAt(b, p, o)
    ensures var f, r := Stored(b), Match(Below(Stored(b), p), 2, n);
            && (r >= 0 ==> exists q, m :: ChildAt(f, p, q, m, r) && (m == n || (AT !in n && n + [AT] <= m)))
            && (r < 0 ==> r == NOTFOUND)
            && forall q, m, k :: ChildAt(f, p, q, m, k) && (m == n || (AT !in n && n + [AT] <= m)) ==> 0 <= r <= k
  {
    hide Decode, Named, Rooted, Off, Match, Below;
    var f, r := Stored(b), Match(Below(Stored(b), p), 2, n);
    var x := At(f, p).body;
    SubnodeIsChild(b, p, o, n);
    if ChildPos(x, n).Some? {
      var q := ChildPos(x, n).value;
      ChildValid(x, n);
      NameUpTo(At(x, q).name, n);
      ChildOffset(f, p, q);
      assert ChildAt(f, p, q, At(x, q).name, r);
    }
    forall q, m, k | ChildAt(f, p, q, m, k) && (m == n || (AT !in n && n + [AT] <= m)) ensures 0 <= r <= k {
      FirstInList(x, n, q);
      ChildOffset(f, p, ChildPos(x, n).value);
    }
  }

  lemma ChildOffset(f: Forest, p: Pos, q: Pos)
    requires Valid(f, p) && At(f, p).Node? && Valid(At(f, p).body, q)
    ensures Valid(f, Join(p, Into(q)))
    ensures Off(f, Join(p, Into(q))) == Off(f, p) + TokenLen(Begin(At(f, p).name)) + Off(At(f, p).body, q)
  {
    hide Off;
    JoinAt(f, p, Into(q));
    OffSplit(At(f, p), Into(q));
  }

  /** The node reached from `p` by following names. */
  ghost function Resolve(f: Forest, p: Pos, names: seq<seq<byte>>): (r: Option<Pos>)
    requires Valid(f, p) && At(f, p).Node?
    ensures r.Some? ==> Valid(f, r.value) && At(f, r.value).Node?
    decreases |names|
  {
    if names == [] then Some(p)
    else
      match Step(f, p, names[0])
      case None => None
      case Some(q) => Resolve(f, q, names[1..])
  }

  ghost function SlashFrom(s: seq<byte>, i: int): (k: int)
    requires 0 <= i <= |s|
    ensures i <= k <= |s| && (k < |s| ==> s[k] == SLASH)
    ensures forall j :: i <= j < k ==> s[j] != SLASH
    decreases |s| - i
  {
    if i == |s| || s[i] == SLASH then i else SlashFrom(s, i + 1)
  }

  /** The components of a path from index `i` on; empty ones are skipped. */
  ghost function Components(s: seq<byte>, i: int): seq<seq<byte>>
    requires 0 <= i <= |s|
    decreases |s| - i
  {
    if i == |s| then []
    else if s[i] == SLASH then Components(s, i + 1)
    else [s[i..SlashFrom(s, i)]] + Components(s, SlashFrom(s, i))
  }

  /**
  The loop of `fdt_path_offset`: follows the components of the path from index `from` on, beginning at
  the node at `start`.  An error that is passed in as the start is passed on.
  */
  method FollowPath(b: seq<byte>, path: seq<byte>, from: int, start: int, ghost at: Pos) returns (offset: int)
    requires Readable(b) && CheckHeader(b) == 0 && NulFree(path) && 0 <= from <= |path|
    requires start >= 0 ==> NodeAt(b, at, start)
    ensures start < 0 ==> offset == start
    ensures start >= 0 ==> offset == OffsetOf(Stored(b), 0, Resolve(Stored(b), at, Components(path, from)))
  {
    hide Decode, Named, Off, Below, Match, Step, CheckNode, Struct, CheckHeader, TokenLen;
    ghost var f, pos := Stored(b), at;
    ghost var goal := if start >= 0 then Resolve(f, at, Components(path, from)) else None;
    offset := start;
    var p := from;
    while p < |path|
      invariant 0 <= p <= |path|
      invariant start < 0 ==> offset == start
      invariant start >= 0 ==> NodeAt(b, pos, offset) && goal == Resolve(f, pos, Components(path, p))
    {
      while p < |path| && path[p] == SLASH
        invariant 0 <= p <= |path|
        invariant start >= 0 ==> goal == Resolve(f, pos, Components(path, p))
      {
        p := p + 1;
      }
      if p == |path| {
        return;
      }
      var q := p;
      while q < |path| && path[q] != SLASH
        invariant p <= q <= |path|
        invariant SlashFrom(path, p) == SlashFrom(path, q)
      {
        q := q + 1;
      }
      ghost var names := Components(path, p);
      assert names[0] == path[p..q] && names[1..] == Components(path, q);
      if start >= 0 {
        SubnodeIsChild(b, pos, offset, path[p..q]);
        NodeFits(b, pos, offset);
      } else {
        NegativeRejected(b, start);
      }
      offset := FdtSubnodeOffset(b, offset, path[p..q], pos);
      if offset < 0 {
        return;
      }
      pos := Step(f, pos, path[p..q]).value;
      p := q;
    }
  }

  lemma NegativeRejected(b: seq<byte>, o: int)
    requires Readable(b) && o < 0
    ensures CheckNode(Struct(b), o) < 0
  {
  }
}
