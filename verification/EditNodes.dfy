/** Edits at a node as a whole, and `fdt_set_name`. */
module EditNodes {
  import opened Words
  import opened Tokens
  import opened Structure
  import opened Tokenizer
  import opened Walk
  import opened Tree
  import opened Blob
  import opened Queries
  import opened GetPath
  import opened Splice
  import opened Edit

  /** The tree with the items from the node at `p` on replaced by `c`. */
  ghost function WithItems(b: seq<byte>, p: Pos, o: int, c: Content): Content
    requires NodeAt(b, p, o)
  {
    NamedAt(Stored(b), Strings(b), p);
    MeaningAt(Stored(b), Strings(b), p);
    Replace(TreeOf(b), Place(Stored(b), p), c)
  }

  /** The node at `p` and its later siblings, as the tree has them. */
  ghost function ItemsOf(b: seq<byte>, p: Pos, o: int): (c: Content)
    requires NodeAt(b, p, o)
    ensures c.Subnode?
  {
    NamedAt(Stored(b), Strings(b), p);
    Meaning(At(Stored(b), p), Strings(b))
  }

  /** A BEGIN_NODE header whose name has been overwritten by another. */
  lemma NameStored(b: seq<byte>, c: seq<byte>, off: int, m: seq<byte>, n: seq<byte>)
    requires BlocksFit(b) && TokenAt(Struct(b), off, Begin(m)) && NulFree(n)
    requires Respliced(b, c, off + 4, Align4(|m| + 1), Align4(|n| + 1))
    ensures var d := Overlay(c, OffStruct(b) + off + 4, n + [0]);
            && Respliced(b, d, off, TokenLen(Begin(m)), TokenLen(Begin(n)))
            && BlocksFit(d) && Reads(Struct(d), off, Cons(Begin(n), Nil))
  {
    hide Get32, Overlay, Moved, Reservations, Spells, Respliced, Reads, TokenAt, Align4, Struct;
    var at, x := OffStruct(b) + off, n + [0];
    var i, j := 4 + Align4(|m| + 1), 4 + Align4(|n| + 1);
    ResplicedRoom(b, c, off + 4, i - 4, j - 4);
    TokenBounds(Struct(b), off, Begin(m));
    Widen(b, c, off + 4, i - 4, j - 4, 4);
    var d := Overlay(c, at + 4, x);
    WriteGap(b, c, off, i, j, at + 4, x);
    ResplicedBlocks(b, d, off, i, j);
    ResplicedRoom(b, d, off, i, j);
    BeginCell(b, c, off, m, i - 4, j - 4);
    OverlayGet(c, at + 4, x, at);
    OverlaySpells(c, at + 4, x);
    StructGet(d, off);
    StructSpells(d, off + 4, x);
    GapEnd(b, d, off, i, j);
    BeginAt(Struct(d), off, n);
    OneRead(Struct(d), off, Begin(n));
  }

  lemma GapEnd(b: seq<byte>, d: seq<byte>, k: int, n: int, m: int)
    requires Respliced(b, d, k, n, m)
    ensures 0 <= k && k + m <= SizeStruct(d)
  {
    hide Get32, Moved, Reservations;
  }

  lemma BeginAt(s: seq<byte>, off: int, n: seq<byte>)
    requires 0 <= off && off + 4 + Align4(|n| + 1) <= |s| && Get32(s, off) == BEGIN_NODE
             && Spells(s, off + 4, n + [0]) && NulFree(n)
    ensures TokenAt(s, off, Begin(n))
  {
    hide Get32;
    NameThenNul(s, off + 4, n);
  }

  lemma BeginCell(b: seq<byte>, c: seq<byte>, off: int, m: seq<byte>, i: int, j: int)
    requires BlocksFit(b) && TokenAt(Struct(b), off, Begin(m)) && Respliced(b, c, off + 4, i, j)
    ensures Get32(c, OffStruct(b) + off) == BEGIN_NODE
  {
    hide Get32, Moved, Reservations, Spells;
    StructGet(b, off);
    MovedGet(b, HEADER, OffStruct(b) + off + 4, c, 0, OffStruct(b) + off);
  }

  lemma NameThenNul(s: seq<byte>, i: int, n: seq<byte>)
    requires Spells(s, i, n + [0])
    ensures Spells(s, i, n) && i + |n| < |s| && s[i + |n|] == 0
  {
    var x := n + [0];
    assert x[|n|] == s[i + |n|];
    assert forall k {:trigger n[k]} :: 0 <= k < |n| ==> n[k] == x[k] == s[i + k];
  }

  /** The leading tokens of the items at a node have been replaced. */
  lemma NodeRegrafted(b: seq<byte>, c: seq<byte>, p: Pos, o: int, old': Tokens, new': Tokens, tail: Tokens, g: Forest)
    requires WellFormed(b) && NodeAt(b, p, o) && Rooted(Graft(Stored(b), p, g)) && Named(g, Strings(b))
    requires Flat(At(Stored(b), p)) == Append(old', tail) && Flat(g) == Append(new', tail)
    requires Respliced(b, c, o, Len(old'), Len(new')) && BlocksFit(c) && Reads(Struct(c), o, new')
    ensures WellFormed(c) && Reserved(c) == Reserved(b) && Strings(c) == Strings(b)
            && Stored(c) == Graft(Stored(b), p, g)
    ensures TreeOf(c) == WithItems(b, p, o, Meaning(g, Strings(b)))
  {
    hide Decode, Respliced, Reads, Off, Reservations, Meaning, Replace;
    ResplicedBlocks(b, c, o, Len(old'), Len(new'));
    EditMeans(b, c, p, old', new', tail, g);
  }

  lemma RenamedMeans(b: seq<byte>, c: seq<byte>, p: Pos, o: int, n: seq<byte>)
    requires WellFormed(b) && NodeAt(b, p, o)
    requires Respliced(b, c, o, TokenLen(Begin(At(Stored(b), p).name)), TokenLen(Begin(n)))
    requires BlocksFit(c) && Reads(Struct(c), o, Cons(Begin(n), Nil))
    ensures WellFormed(c) && Reserved(c) == Reserved(b)
    ensures TreeOf(c) == WithItems(b, p, o, Subnode(n, ItemsOf(b, p, o).body, ItemsOf(b, p, o).rest))
  {
    hide Decode, Respliced, Reads, Off, Reservations, TokenLen, WithItems;
    var x := At(Stored(b), p);
    var g := Node(n, x.body, x.rest);
    NamedAt(Stored(b), Strings(b), p);
    RootedGraft(Stored(b), p, g);
    BeginToken(x);
    BeginToken(g);
    NodeRegrafted(b, c, p, o, Cons(Begin(x.name), Nil), Cons(Begin(n), Nil),
                  Append(Flat(x.body), Cons(Close, Flat(x.rest))), g);
  }

  lemma BeginToken(x: Forest)
    requires x.Node?
    ensures Flat(x) == Append(Cons(Begin(x.name), Nil), Append(Flat(x.body), Cons(Close, Flat(x.rest))))
    ensures Len(Cons(Begin(x.name), Nil)) == TokenLen(Begin(x.name))
  {
  }

  /** `fdt_set_name`. */
  method FdtSetName(a: array<byte>, nodeoffset: int, name: seq<byte>, ghost p: Pos) returns (err: int)
    requires WellFormed(a[..]) && NulFree(name) && a.Length + |name| + 20 < INT_LIMIT
    requires CheckNode(Struct(a[..]), nodeoffset) >= 0 ==> NodeAt(a[..], p, nodeoffset)
    modifies a
    ensures WellFormed(a[..]) && Reserved(a[..]) == old(Reserved(a[..]))
    ensures old(CheckNode(Struct(a[..]), nodeoffset)) < 0 ==> err == old(CheckNode(Struct(a[..]), nodeoffset))
    ensures old(CheckNode(Struct(a[..]), nodeoffset)) >= 0 ==>
              err == if old(Room(a[..], Align4(|name| + 1) - Align4(|At(Stored(a[..]), p).name| + 1)))
                     then 0 else NOSPACE
    ensures err == 0 ==>
              && old(NodeAt(a[..], p, nodeoffset))
              && var c := old(ItemsOf(a[..], p, nodeoffset));
              TreeOf(a[..]) == old(WithItems(a[..], p, nodeoffset, Subnode(name, c.body, c.rest)))
    ensures err != 0 ==> TreeOf(a[..]) == old(TreeOf(a[..]))
  {
    hide Decode, Named, Rooted, Get32, Reservations, Respliced, Off, Reads, Meaning, Overlay, Word, Moved, WithItems,
         ItemsOf, CheckNode, Struct, Strings, TokenLen, At, RwCheck, Spells, NulFrom, TokenAt, CheckHeader;
    ghost var b := a[..];
    CheckedSame(b);
    CheckedFrame(b);
    err := FdtRwCheckHeader(a);
    if err != 0 {
      return;
    }
    ghost var c := a[..];
    CheckedHeader(c);
    if CheckNode(Struct(b), nodeoffset) >= 0 {
      SameItems(b, c, p, nodeoffset);
      NodeToken(c, p, nodeoffset);
    }
    var oldlen, oldname := FdtGetName(a[..], nodeoffset);
    if CheckNode(Struct(c), nodeoffset) < 0 {
      assert oldlen < 0;
    }
    if oldlen < 0 {
      return oldlen;
    }
    err := FdtSpliceStruct(a, nodeoffset + 4, TagAlign(oldlen + 1), TagAlign(|name| + 1));
    if err != 0 {
      return;
    }
    NameStored(c, a[..], nodeoffset, oldname, name);
    ResplicedRoom(c, a[..], nodeoffset + 4, Align4(oldlen + 1), Align4(|name| + 1));
    var offStruct := Load32(a[..], OFF_STRUCT);
    CopyIn(a, offStruct + nodeoffset + 4, name + [0]);
    RenamedMeans(c, a[..], p, nodeoffset, name);
  }

  lemma CheckedHeader(b: seq<byte>)
    requires WellFormed(b)
    ensures CheckHeader(b) == 0
  {
    hide Decode, Get32, Reservations;
  }

  lemma SameItems(b: seq<byte>, c: seq<byte>, p: Pos, o: int)
    requires SameMeaning(b, c) && NodeAt(b, p, o)
    ensures NodeAt(c, p, o) && ItemsOf(c, p, o) == ItemsOf(b, p, o)
    ensures forall d :: WithItems(c, p, o, d) == WithItems(b, p, o, d)
  {
    hide Decode, Replace;
    NamedAt(Stored(b), Strings(b), p);
    NamedAt(Stored(c), Strings(c), p);
    MeaningAt(Stored(b), Strings(b), p);
    MeaningAt(Stored(c), Strings(c), p);
  }

  /** The header of the node at `p` is where its offset says. */
  lemma NodeToken(b: seq<byte>, p: Pos, o: int)
    requires NodeAt(b, p, o)
    ensures var n := At(Stored(b), p).name;
            && 0 <= o && o % 4 == 0 && TokenAt(Struct(b), o, Begin(n)) && CheckNode(Struct(b), o) >= 0
            && o + 4 + Align4(|n| + 1) <= SizeStruct(b) && TokenLen(Begin(n)) == 4 + Align4(|n| + 1)
            && o + 4 <= |Struct(b)| && Struct(b)[o + 4..NulFrom(Struct(b), o + 4)] == n
  {
    hide Decode, Named, Rooted;
    OnwardSpelled(b, p);
    OnwardNode(Stored(b), p);
    NameIs(Struct(b), o, At(Stored(b), p).name);
  }
}
