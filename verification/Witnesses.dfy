/** Blobs on which the exact conditions of `fdt_path_offset` and `fdt_get_path` fail. */
module Witnesses {
  import opened Words
  import opened Tokens
  import opened Structure
  import opened Tokenizer
  import opened Walk
  import opened Tree
  import opened Blob
  import opened Queries
  import opened Ancestors
  import opened Paths
  import opened Properties
  import opened Aliases
  import opened GetPath
  import opened Encode

  /** "a" and "c". */
  const A: seq<byte> := [97]
  const C: seq<byte> := [99]

  /** A root with a node "aliases" that says that "a" is "a". */
  const LOOP: Forest := Node([], Node(ALIASES, Leaf(Prop(0, A + [0]), Stop), Stop), Stop)

  lemma LoopFits()
    ensures Rooted(LOOP) && Named(LOOP, A + [0]) && AllStorable(Flat(LOOP)) && Size(LOOP) < 100
    ensures CString(A + [0], 0) == Some(A)
  {
    assert NulFrom(A + [0], 0) == 1;
    assert (A + [0])[0..1] == A;
    var x := LOOP.body;
    assert Named(x.body, A + [0]) && Named(x, A + [0]);
    var one := Cons(Close, Nil);
    var l2 := Cons(Close, one);
    var l1 := Cons(Begin(ALIASES), Cons(Prop(0, A + [0]), l2));
    assert Flat(x.body) == Cons(Prop(0, A + [0]), Nil) && Append(Flat(x.body), one) == Cons(Prop(0, A + [0]), one);
    assert Append(one, one) == l2 && Append(Cons(Prop(0, A + [0]), one), one) == l1.tail;
    assert Flat(LOOP) == Cons(Begin([]), l1);
    assert TokenLen(Begin([])) == 8 && TokenLen(Begin(ALIASES)) == 12 && TokenLen(Prop(0, A + [0])) == 16;
    assert Len(l2) == 8 && Len(l1.tail) == 24 && Len(l1) == 36 && Len(Flat(LOOP)) == 44;
    assert AllStorable(l2) && AllStorable(l1);
  }

  lemma LoopAlias(b: seq<byte>)
    requires Readable(b) && Stored(b) == LOOP && Strings(b) == A + [0]
    ensures AliasOf(b, A) == Some(A)
  {
    hide Decode, Named, Rooted, Struct, Strings, Get32, CString;
    LoopFits();
    var x := LOOP.body;
    assert NameEq(ALIASES, ALIASES);
    assert ChildPos(x, ALIASES) == Some(Here);
    assert AliasNode(b) == Some(Into(Here));
    assert FindProp(At(LOOP, Into(Here)).body, A + [0], A) == Some(Here);
    AliasValue(b, Into(Here), Here, A);
  }

  /** There is a well-formed blob on which looking up the path "a" never ends. */
  lemma AliasLoop() returns (b: seq<byte>)
    ensures WellFormed(b) && CheckHeader(b) == 0 && forall n: nat :: !Settles(b, A, n)
  {
    hide WellFormed, CheckHeader, AliasOf, Named, Rooted, Flat, AllStorable, Size, BlobOf, Decode, Struct, Strings;
    LoopFits();
    b := BlobOf(LOOP, A + [0]);
    BlobStores(LOOP, A + [0]);
    WellFormedReads(b);
    LoopAlias(b);
    assert Head(A) == A by {
      NoSlash(A, 0);
      assert A[..1] == A;
    }
    forall n: nat ensures !Settles(b, A, n) {
      AliasOfItself(b, A, n);
    }
  }

  lemma WellFormedReads(b: seq<byte>)
    requires WellFormed(b)
    ensures Readable(b)
  {
  }

  /** A root with the nodes "a/b" and "c". */
  const TANGLE: Forest := Node([], Node([97, 47, 98], Stop, Node(C, Stop, Stop)), Stop)

  lemma TangleFits()
    ensures Rooted(TANGLE) && Named(TANGLE, []) && AllStorable(Flat(TANGLE)) && Size(TANGLE) < 100
  {
    var l := Cons(Begin(C), Cons(Close, Cons(Close, Nil)));
    assert Flat(TANGLE.body.rest) == Cons(Begin(C), Cons(Close, Nil));
    assert Flat(TANGLE) == Cons(Begin([]), Cons(Begin([97, 47, 98]), Cons(Close, l)));
    assert TokenLen(Begin([])) == 8 && TokenLen(Begin([97, 47, 98])) == 8 && TokenLen(Begin(C)) == 8;
  }

  lemma RootListed(x: Forest, h: int)
    requires h == TokenLen(Begin([]))
    ensures Nodes(Node([], x, Stop), 0, []) == [[Spot(0, [])]] + Nodes(x, h, [Spot(0, [])])
  {
    hide TokenLen, Size;
    var up := [Spot(0, [])];
    assert [] + up == up;
    assert Nodes(Stop, h + Size(x) + 4, []) == [];
  }

  /** "a/b" and "c" as they are listed: at offsets 8 and 20, in the root. */
  lemma TangleListed()
    ensures var es, p := Nodes(TANGLE, 0, []), Into(Past(Here));
            && |es| == 3 && es[1] == [Spot(0, []), Spot(8, [97, 47, 98])]
            && Valid(TANGLE, p) && At(TANGLE, p) == Node(C, Stop, Stop) && Off(TANGLE, p) == 20
            && TrailTo(TANGLE, 0, p, []) == [Spot(0, []), Spot(20, C)]
  {
    var up := [Spot(0, [])];
    var x := TANGLE.body;
    assert TokenLen(Begin([])) == 8 && TokenLen(Begin(x.name)) == 8;
    StopSize();
    assert Nodes(x.rest, 20, up) == [up + [Spot(20, C)]];
    assert Nodes(x, 8, up) == [up + [Spot(8, x.name)], up + [Spot(20, C)]];
    RootListed(x, 8);
    FirstLen(x);
    SizeSplit(x);
    OffSplit(x, Past(Here));
    HereOff(x.rest);
    OffSplit(TANGLE, Into(Past(Here)));
    assert TrailTo(x, 8, Past(Here), up) == up + [Spot(20, C)];
  }

  lemma TangleRendered()
    ensures PathString([Spot(0, []), Spot(20, C)]) == [SLASH] + C
    ensures |Rendered([Spot(0, []), Spot(8, [97, 47, 98])])| == 5
  {
    var t, u := [Spot(0, []), Spot(20, C)], [Spot(0, []), Spot(8, [97, 47, 98])];
    NothingRendered();
    assert t[..0] == u[..0] == [];
    RenderedPush(t, 0);
    RenderedPush(u, 0);
    RenderedPush(t, 1);
    RenderedPush(u, 1);
    assert t[..2] == t && u[..2] == u;
    assert Rendered(t) == [SLASH] + C + [SLASH];
  }

  /**
  There is a well-formed blob for whose node "c" `fdt_get_path` does not write the path "/c", although it
  fits, in any buffer that holds the names of the node before it.
  */
  lemma Tangled() returns (b: seq<byte>, p: Pos, o: int)
    ensures WellFormed(b) && CheckHeader(b) == 0 && NodeAt(b, p, o)
    ensures var t := TrailTo(Stored(b), 0, p, []);
            && PathString(t) == [SLASH] + C
            && forall buflen :: buflen >= 5 ==> !Untangled(Nodes(Stored(b), 0, []), t, o, buflen)
  {
    hide WellFormed, CheckHeader, Named, Rooted, AllStorable, BlobOf, Decode, Struct, Strings, Flat, Nodes;
    hide TrailTo, Off, Rendered, PathString;
    TangleFits();
    TangleListed();
    TangleRendered();
    b, p, o := BlobOf(TANGLE, []), Into(Past(Here)), 20;
    BlobStores(TANGLE, []);
    WellFormedReads(b);
    var es: seq<Trail>, t: Trail := Nodes(TANGLE, 0, []), [Spot(0, []), Spot(20, C)];
    assert es[1][..2] == es[1] && es[1][1].name[1] == SLASH;
    assert !On(t, 1, es[1]) by { OnSame(t, 1, es[1]); }
  }
}
