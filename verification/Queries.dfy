/** Read-only queries that scan the nodes below a node: its end, and its subnodes by name. */
module Queries {
  import opened Words
  import opened Tokens
  import opened Structure
  import opened Tokenizer
  import opened Walk
  import opened Tree
  import opened Blob

  /** The node at `p` and all nodes below it, in pre-order. */
  ghost function Below(f: Forest, p: Pos): seq<Trail>
    requires Valid(f, p) && At(f, p).Node?
  {
    var x, o := At(f, p), Off(f, p);
    [[Spot(o, x.name)]] + Nodes(x.body, o + TokenLen(Begin(x.name)), [Spot(o, x.name)])
  }

  /** Just past the END_NODE tag of the node at `p`. */
  ghost function NodeEnd(f: Forest, p: Pos): int
    requires Valid(f, p) && At(f, p).Node?
  {
    Off(f, p) + TokenLen(Begin(At(f, p).name)) + Size(At(f, p).body) + 4
  }

  lemma OnwardNode(f: Forest, p: Pos)
    requires Valid(f, p) && At(f, p).Node?
    ensures var x := At(f, p);
            Onward(f, p) == Cons(Begin(x.name), Append(Flat(x.body), Cons(Close, Append(Flat(x.rest), After(f, p)))))
  {
    var x := At(f, p);
    AppendAssoc(Flat(x.body), Cons(Close, Flat(x.rest)), After(f, p));
  }

  /** The offset of a node is accepted. */
  lemma NodeFits(b: seq<byte>, p: Pos, o: int)
    requires NodeAt(b, p, o)
    ensures 0 <= CheckNode(Struct(b), o) == o + TokenLen(Begin(At(Stored(b), p).name)) <= SizeStruct(b)
  {
    hide Decode, Named, Rooted;
    OnwardSpelled(b, p);
    OnwardNode(Stored(b), p);
    CheckNodeOk(Struct(b), o, Onward(Stored(b), p));
  }

  /** A walk that starts at a node lists the nodes below it and leaves it at its end. */
  lemma CursorStart(b: seq<byte>, p: Pos, o: int)
    requires NodeAt(b, p, o)
    ensures Cursor(Struct(b), Below(Stored(b), p), NodeEnd(Stored(b), p), 0, Onward(Stored(b), p))
    ensures NodeEnd(Stored(b), p) > o >= 0
  {
    hide Decode, Named, Rooted, Off, Size, Listing, Leave, Nodes, Flat, Append, TokenLen, Spelled, Onward;
    var f, s := Stored(b), Struct(b);
    var x := At(f, p);
    OnwardSpelled(b, p);
    OnwardNode(f, p);
    OnwardIs(f, p);
    var h, k, up := o + TokenLen(Begin(x.name)), Cons(Close, Append(Flat(x.rest), After(f, p))), [Spot(o, x.name)];
    ListingFlat(x.body, k, h, up);
    LeaveFlat(x.body, k, h, 0);
    StartUnfold(k, h + Size(x.body), up, Nodes(x.body, h, up), [up]);
  }

  lemma OnwardIs(f: Forest, p: Pos)
    requires Valid(f, p)
    ensures Onward(f, p) == Append(Flat(At(f, p)), After(f, p)) && Off(f, p) >= 0
  {
  }

  lemma StartUnfold(k: Tokens, o: int, up: Trail, ns: seq<Trail>, first: seq<Trail>)
    requires |up| == 1 && |first| == 1 && k.Cons? && k.head.Close?
    ensures Listing(k, o, up) == [] && ns + Listing(k, o, up) == ns && (first + ns)[1..] == ns
    ensures Leave(k, o, 0) == o + 4
  {
  }

  /** The ghost state with which a walk from a node begins. */
  lemma Start(b: seq<byte>, p: Pos, o: int) returns (es: seq<Trail>, fin: int, i: int, l: Tokens)
    requires NodeAt(b, p, o)
    ensures es == Below(Stored(b), p) && fin == NodeEnd(Stored(b), p) >= 0 && i == 0
    ensures fin > o && Cursor(Struct(b), es, fin, 0, l) && |es| > 0 && es[0] == [Spot(o, At(Stored(b), p).name)]
  {
    CursorStart(b, p, o);
    es, fin, i, l := Below(Stored(b), p), NodeEnd(Stored(b), p), 0, Onward(Stored(b), p);
  }

  /** `_fdt_node_end_offset`: iterates until the depth counter drops below the node. */
  method FdtNodeEndOffset(s: seq<byte>, start: int, ghost b: seq<byte>, ghost p: Pos) returns (offset: int)
    requires Readable(b) && s == Struct(b) && (CheckNode(s, start) >= 0 ==> NodeAt(b, p, start))
    ensures start < 0 ==> offset == start
    ensures start >= 0 && CheckNode(s, start) < 0 ==> offset == CheckNode(s, start)
    ensures CheckNode(s, start) >= 0 ==> offset == NodeEnd(Stored(b), p) > start
  {
    hide Below, NodeEnd, Onward, Cursor, Seek, Found, Left, Onset, Standing, CheckNode, Decode, Named, Rooted;
    ghost var ok, es, fin, i, l := CheckNode(s, start) >= 0, [], 0, 0, Nil;
    if ok { es, fin, i, l := Start(b, p, start); }
    offset := start;
    var depth := 0;
    while offset >= 0 && depth >= 0
      invariant !ok ==> depth == 0 && (offset == start || (start >= 0 && offset == CheckNode(s, start)))
      invariant ok ==> 0 <= i <= |es| && (depth >= 0 <==> i < |es|)
      invariant ok && i < |es| ==>
                  Cursor(s, es, fin, i, l) && |es[i]| > 0 && offset == Last(es[i]).off >= 0 && depth == |es[i]| - 1
      invariant ok && i == |es| ==> offset == fin
      decreases if ok then |es| - i else offset
    {
      if ok { CursorNext(s, es, fin, i, l); }
      offset, depth, l := FdtNextNode(s, offset, depth, true, l);
      i := i + 1;
    }
  }

  const AT: byte := 64
  const SLASH: byte := 47

  /** `_fdt_nodename_eq` on names: exact, or equal up to an '@' when `n` has none. */
  predicate NameEq(name: seq<byte>, n: seq<byte>) {
    || name == n
    || (AT !in n && |n| < |name| && name[..|n|] == n && name[|n|] == AT)
  }

  /** `_fdt_nodename_eq`, which compares raw bytes of the structure block. */
  method FdtNodenameEq(s: seq<byte>, offset: int, n: seq<byte>, ghost name: seq<byte>) returns (r: bool)
    requires TokenAt(s, offset, Begin(name)) && NulFree(n)
    ensures r == NameEq(name, n)
    ensures r <==> name == n || (AT !in n && n + [AT] <= name)
  {
    if offset + 4 + |n| + 1 > |s| {
      return false;
    }
    assert forall k {:trigger s[k]} :: offset + 4 <= k < offset + 4 + |name| ==> s[k] == name[k - offset - 4];
    var i := 0;
    while i < |n|
      invariant 0 <= i <= |n| && i <= |name|
      invariant forall k :: 0 <= k < i ==> name[k] == n[k]
    {
      if s[offset + 4 + i] != n[i] {
        return false;
      }
      assert i < |name|;
      i := i + 1;
    }
    assert name[..|n|] == n;
    if s[offset + 4 + |n|] == 0 {
      assert |name| == |n|;
      assert name == name[..|n|];
      return true;
    }
    assert |n| < |name|;
    assert (n + [AT] <= name) == (name[|n|] == AT);
    return AT !in n && s[offset + 4 + |n|] == AT;
  }

  /** The first listed node of trail length `d` that matches `n`. */
  ghost function Match(es: seq<Trail>, d: int, n: seq<byte>): int
    requires d > 0
  {
    if es == [] then NOTFOUND
    else if |es[0]| == d && NameEq(Last(es[0]).name, n) then Last(es[0]).off
    else Match(es[1..], d, n)
  }

  lemma MatchStep(es: seq<Trail>, i: int, n: seq<byte>)
    requires 0 <= i < |es|
    ensures |es[i]| == 2 && NameEq(Last(es[i]).name, n) ==> Match(es[i..], 2, n) == Last(es[i]).off
    ensures !(|es[i]| == 2 && NameEq(Last(es[i]).name, n)) ==> Match(es[i..], 2, n) == Match(es[i + 1..], 2, n)
  {
    assert es[i..][0] == es[i] && es[i..][1..] == es[i + 1..];
  }

  lemma MatchNone(n: seq<byte>)
    ensures Match([], 2, n) == NOTFOUND
  {
  }

  /** `fdt_subnode_offset_namelen`. */
  method FdtSubnodeOffset(b: seq<byte>, start: int, n: seq<byte>, ghost p: Pos) returns (offset: int)
    requires Buffer(b) && NulFree(n)
    requires CheckHeader(b) == 0 ==> Readable(b) && (CheckNode(Struct(b), start) >= 0 ==> NodeAt(b, p, start))
    ensures CheckHeader(b) != 0 ==> offset == CheckHeader(b)
    ensures CheckHeader(b) == 0 && CheckNode(Struct(b), start) < 0 ==>
              offset == if start < 0 then start else CheckNode(Struct(b), start)
    ensures CheckHeader(b) == 0 && CheckNode(Struct(b), start) >= 0 ==> offset == Match(Below(Stored(b), p), 2, n)
  {
    hide TokenAt, Decode, Named, Rooted, Below, NodeEnd, Onward, Cursor, Seek, Found, Left, Onset, Standing,
         CheckNode, Struct, CheckHeader, Match;
    var err := FdtCheckHeader(b);
    if err != 0 {
      return err;
    }
    var s := LoadStruct(b);
    ghost var ok, es, fin, i, l := CheckNode(s, start) >= 0, [], 0, 0, Nil;
    if ok { es, fin, i, l := Start(b, p, start); }
    offset := start;
    var depth := 0;
    while offset >= 0 && depth >= 0
      invariant !ok ==> depth == 0 && (offset == start || (start >= 0 && offset == CheckNode(s, start)))
      invariant ok ==> 0 <= i <= |es| && (depth >= 0 <==> i < |es|) && Match(es, 2, n) == Match(es[i..], 2, n)
      invariant ok && i < |es| ==>
                  Cursor(s, es, fin, i, l) && |es[i]| > 0 && offset == Last(es[i]).off >= 0 && depth == |es[i]| - 1
      invariant ok && i == |es| ==> offset == fin
      decreases if ok then |es| - i else offset
    {
      if ok { MatchStep(es, i, n); }
      if depth == 1 {
        CursorToken(s, es, fin, i, l);
        var eq := FdtNodenameEq(s, offset, n, l.head.name);
        if eq {
          return offset;
        }
      }
      if ok { CursorNext(s, es, fin, i, l); }
      offset, depth, l := FdtNextNode(s, offset, depth, true, l);
      i := i + 1;
    }
    if depth < 0 {
      assert es[i..] == [];
      MatchNone(n);
      return NOTFOUND;
    }
  }

  /** The structure block, located through the header. */
  method LoadStruct(b: seq<byte>) returns (s: seq<byte>)
    requires BlocksFit(b)
    ensures s == Struct(b)
  {
    var off := Load32(b, OFF_STRUCT);
    var size := Load32(b, SIZE_STRUCT);
    s := b[off..off + size];
  }
}
