/** Property lookup: `_nextprop`, `fdt_get_property` and what they find in a node's items. */
module Properties {
  import opened Words
  import opened Tokens
  import opened Structure
  import opened Tokenizer
  import opened Walk
  import opened Tree
  import opened Blob
  import opened Queries

  /** The first leading property of a list of items that is called `name`. */
  ghost function FindProp(f: Forest, t: seq<byte>, name: seq<byte>): Option<Pos> {
    if !f.Leaf? then None
    else if f.item.Prop? && CString(t, f.item.nameoff) == Some(name) then Some(Here)
    else
      match FindProp(f.rest, t, name)
      case Some(q) => Some(Past(q))
      case None => None
  }

  ghost predicate IsProp(f: Forest, q: Pos) {
    Valid(f, q) && At(f, q).Leaf? && At(f, q).item.Prop?
  }

  /** Finding a stored property is finding it in the tree. */
  lemma {:induction false} FindMeans(f: Forest, t: seq<byte>, name: seq<byte>)
    requires Named(f, t)
    ensures FindProp(f, t, name).Some? <==> Has(Meaning(f, t), name)
    ensures FindProp(f, t, name).Some? ==>
              var q := FindProp(f, t, name).value;
              && IsProp(f, q) && Lookup(Meaning(f, t), name) == At(f, q).item.value
              && CString(t, At(f, q).item.nameoff) == Some(name)
    decreases f
  {
    if f.Leaf? { FindMeans(f.rest, t, name); }
  }

  /** The items left after the leading NOPs. */
  ghost function SkipNops(f: Forest): Forest {
    if f.Leaf? && f.item.Nop? then SkipNops(f.rest) else f
  }

  ghost function NopBytes(f: Forest): nat {
    if f.Leaf? && f.item.Nop? then 4 + NopBytes(f.rest) else 0
  }

  /** The block spells the items `f` at `o`, then a Close. */
  ghost predicate ItemsAt(s: seq<byte>, o: int, f: Forest, k: Tokens) {
    |s| < INT_LIMIT && o >= 0 && o % 4 == 0 && Spelled(s, o, Append(Flat(f), Cons(Close, k)))
  }

  lemma ItemsStep(s: seq<byte>, o: int, f: Forest, k: Tokens)
    requires ItemsAt(s, o, f, k)
    ensures f.Stop? ==> NextTag(s, o) == (END_NODE, o + 4)
    ensures f.Node? ==> NextTag(s, o).0 == BEGIN_NODE
    ensures f.Leaf? ==> NextTag(s, o) == (TagOf(f.item), o + TokenLen(f.item)) && TokenAt(s, o, f.item)
    ensures f.Leaf? ==> ItemsAt(s, o + TokenLen(f.item), f.rest, k)
  {
    hide NextTag, TokenLen;
    Advance(s, o, Append(Flat(f), Cons(Close, k)));
    CloseLen();
  }

  lemma CloseLen()
    ensures TokenLen(Close) == 4 && TokenLen(Nop) == 4
  {
  }

  /** `_nextprop`. */
  method NextProp(s: seq<byte>, start: int, ghost f: Forest, ghost k: Tokens) returns (offset: int)
    requires ItemsAt(s, start, f, k)
    ensures var g := SkipNops(f);
            if g.Leaf? then offset == start + NopBytes(f) && ItemsAt(s, offset, g, k) && g.item.Prop?
            else offset == NOTFOUND
  {
    hide ItemsAt, NextTag, TokenAt;
    offset := start;
    ghost var g := f;
    while true
      invariant ItemsAt(s, offset, g, k) && SkipNops(f) == SkipNops(g) && offset + NopBytes(g) == start + NopBytes(f)
      decreases g
    {
      ItemsStep(s, offset, g, k);
      ItemsBound(s, offset, g, k);
      var tag, next := FdtNextTag(s, offset);
      if tag == END {
        return if next >= 0 then BADSTRUCTURE else next;
      }
      if tag == PROP {
        return;
      }
      if tag != NOP {
        return NOTFOUND;
      }
      offset := next;
      g := g.rest;
    }
  }

  lemma ItemsBound(s: seq<byte>, o: int, f: Forest, k: Tokens)
    requires ItemsAt(s, o, f, k)
    ensures |s| < INT_LIMIT && o >= 0
  {
  }

  /** `_fdt_check_prop_offset`. */
  ghost function CheckProp(s: seq<byte>, o: int): int
    requires |s| < INT_LIMIT
  {
    if o < 0 || o % 4 != 0 || NextTag(s, o).0 != PROP then BADOFFSET else NextTag(s, o).1
  }

  method FdtCheckPropOffset(s: seq<byte>, offset: int) returns (r: int)
    requires |s| < INT_LIMIT
    ensures r == CheckProp(s, offset)
  {
    if offset < 0 || offset % 4 != 0 {
      return BADOFFSET;
    }
    var tag, next := FdtNextTag(s, offset);
    if tag != PROP {
      return BADOFFSET;
    }
    return next;
  }

  /** `_fdt_string_eq`: `strlen` and `memcmp` on the strings block. */
  method FdtStringEq(t: seq<byte>, stroffset: int, n: seq<byte>) returns (r: bool)
    requires CString(t, stroffset).Some?
    ensures r == (CString(t, stroffset) == Some(n))
  {
    var e := stroffset;
    while t[e] != 0
      invariant stroffset <= e <= NulFrom(t, stroffset) < |t|
      invariant NulFrom(t, e) == NulFrom(t, stroffset)
      decreases |t| - e
    {
      e := e + 1;
    }
    r := e - stroffset == |n| && t[stroffset..e] == n;
  }

  /** `FindProp` from inside the list: what the items before `q` contribute is known. */
  ghost predicate FoundSoFar(f: Forest, t: seq<byte>, name: seq<byte>, q: Pos) {
    Valid(f, q) &&
    FindProp(f, t, name) == match FindProp(At(f, q), t, name) case Some(x) => Some(Join(q, x)) case None => None
  }

  lemma {:induction false} FoundPast(f: Forest, t: seq<byte>, name: seq<byte>, q: Pos)
    requires FoundSoFar(f, t, name, q) && At(f, q).Leaf?
    requires At(f, q).item.Prop? ==> CString(t, At(f, q).item.nameoff) != Some(name)
    ensures FoundSoFar(f, t, name, Join(q, Past(Here))) && At(f, Join(q, Past(Here))) == At(f, q).rest
    ensures Off(f, Join(q, Past(Here))) == Off(f, q) + TokenLen(At(f, q).item)
  {
    JoinAt(f, q, Past(Here));
    var g := At(f, q);
    assert Before(g, Past(Here)) == Append(First(g), Nil);
    AppendNil(First(g));
    if FindProp(g, t, name).Some? { JoinJoin(q, Past(Here), FindProp(g.rest, t, name).value); }
  }

  lemma {:induction false} JoinJoin(p: Pos, q: Pos, r: Pos)
    ensures Join(Join(p, q), r) == Join(p, Join(q, r))
    decreases p
  {
    match p
    case Here =>
    case Past(x) => JoinJoin(x, q, r);
    case Into(x) => JoinJoin(x, q, r);
  }

  /** The place behind the leading NOPs. */
  lemma {:induction false} FoundSkip(f: Forest, t: seq<byte>, name: seq<byte>, q: Pos) returns (r: Pos)
    requires FoundSoFar(f, t, name, q)
    ensures FoundSoFar(f, t, name, r) && Valid(f, r) && At(f, r) == SkipNops(At(f, q))
            && Off(f, r) == Off(f, q) + NopBytes(At(f, q))
    decreases At(f, q)
  {
    hide FoundSoFar, Off, Before;
    FoundValid(f, t, name, q);
    r := q;
    if At(f, q).Leaf? && At(f, q).item.Nop? {
      FoundPast(f, t, name, q);
      CloseLen();
      r := FoundSkip(f, t, name, Join(q, Past(Here)));
    }
  }

  lemma FoundValid(f: Forest, t: seq<byte>, name: seq<byte>, q: Pos)
    requires FoundSoFar(f, t, name, q)
    ensures Valid(f, q)
  {
  }

  lemma FoundStart(f: Forest, t: seq<byte>, name: seq<byte>)
    ensures FoundSoFar(f, t, name, Here) && Off(f, Here) == 0
  {
  }

  lemma FoundEnd(f: Forest, t: seq<byte>, name: seq<byte>, q: Pos)
    requires FoundSoFar(f, t, name, q)
    ensures !At(f, q).Leaf? ==> FindProp(f, t, name) == None
    ensures IsProp(f, q) && CString(t, At(f, q).item.nameoff) == Some(name) ==> FindProp(f, t, name) == Some(q)
  {
    JoinHere(q);
  }

  lemma {:induction false} JoinHere(q: Pos)
    ensures Join(q, Here) == q
    decreases q
  {
    match q
    case Here =>
    case Past(x) => JoinHere(x);
    case Into(x) => JoinHere(x);
  }

  /** The place of a property found in the body of the node at `p`. */
  ghost function PropPos(p: Pos, q: Pos): Pos {
    Join(p, Into(q))
  }

  /** What the lookup of `name` in the node at `p` finds. */
  ghost function Sought(b: seq<byte>, p: Pos, name: seq<byte>): Option<Pos>
    requires Readable(b) && Valid(Stored(b), p) && At(Stored(b), p).Node?
  {
    FindProp(At(Stored(b), p).body, Strings(b), name)
  }

  lemma BodyItems(b: seq<byte>, p: Pos, o: int) returns (h: int, k: Tokens)
    requires NodeAt(b, p, o)
    ensures h == o + TokenLen(Begin(At(Stored(b), p).name)) && CheckNode(Struct(b), o) == h
    ensures ItemsAt(Struct(b), h, At(Stored(b), p).body, k)
  {
    hide Decode, Named, Rooted;
    var f, s := Stored(b), Struct(b);
    OnwardSpelled(b, p);
    OnwardNode(f, p);
    h := o + TokenLen(Begin(At(f, p).name));
    k := Append(Flat(At(f, p).rest), After(f, p));
    CheckNodeOk(s, o, Onward(f, p));
  }

  /** `fdt_get_property`: the offset of the property and its length, or an error code. */
  method FdtGetProperty(b: seq<byte>, nodeoffset: int, name: seq<byte>, ghost p: Pos) returns (offset: int, len: int)
    requires Readable(b) && (CheckNode(Struct(b), nodeoffset) >= 0 ==> NodeAt(b, p, nodeoffset))
    ensures CheckNode(Struct(b), nodeoffset) < 0 ==> offset == CheckNode(Struct(b), nodeoffset)
    ensures CheckNode(Struct(b), nodeoffset) >= 0 ==>
              match Sought(b, p, name)
              case None => offset == NOTFOUND
              case Some(q) =>
                var x := At(Stored(b), p);
                && IsProp(x.body, q) && len == |At(x.body, q).item.value|
                && offset == nodeoffset + TokenLen(Begin(x.name)) + Off(x.body, q)
                && TokenAt(Struct(b), offset, At(x.body, q).item)
  {
    hide Decode, Named, Rooted, NextTag, FoundSoFar, ItemsAt, Off, Before, SkipNops, NopBytes, FindProp, CheckNode;
    len := 0;
    var s := LoadStruct(b);
    var t := LoadStrings(b);
    offset := FdtCheckNodeOffset(s, nodeoffset);
    if offset < 0 {
      return;
    }
    ghost var f := At(Stored(b), p).body;
    ghost var h, k := BodyItems(b, p, nodeoffset);
    ghost var g, q := f, Here;
    FoundStart(f, t, name);
    q := FoundSkip(f, t, name, q);
    offset := NextProp(s, offset, f, k);
    while offset >= 0
      invariant FoundSoFar(f, t, name, q) && Valid(f, q)
      invariant offset >= 0 ==> offset == h + Off(f, q) && IsProp(f, q) && ItemsAt(s, offset, At(f, q), k)
      invariant offset < 0 ==> offset == NOTFOUND && !At(f, q).Leaf?
      decreases if offset >= 0 then Size(At(f, q)) else -1
    {
      ItemsStep(s, offset, At(f, q), k);
      ItemsBound(s, offset, At(f, q), k);
      len := Load32(s, offset + 4);
      var nameoff := Load32(s, offset + 8);
      NamesKnown(b, p, q);
      var eq := FdtStringEq(t, nameoff, name);
      FoundEnd(f, t, name, q);
      if eq {
        return;
      }
      FoundPast(f, t, name, q);
      ghost var r := Join(q, Past(Here));
      SizeSplit(At(f, q));
      ItemsAligned(s, offset, At(f, q), k);
      var next := FdtCheckPropOffset(s, offset);
      q := FoundSkip(f, t, name, r);
      SkipShrinks(At(f, r));
      offset := NextProp(s, next, At(f, r), k);
    }
    FoundEnd(f, t, name, q);
  }

  lemma SkipShrinks(f: Forest)
    ensures Size(SkipNops(f)) <= Size(f)
  {
    if f.Leaf? && f.item.Nop? { SkipShrinks(f.rest); }
  }

  lemma ItemsAligned(s: seq<byte>, o: int, f: Forest, k: Tokens)
    requires ItemsAt(s, o, f, k)
    ensures o >= 0 && o % 4 == 0
  {
  }

  lemma NamesKnown(b: seq<byte>, p: Pos, q: Pos)
    requires Readable(b) && Valid(Stored(b), p) && At(Stored(b), p).Node? && IsProp(At(Stored(b), p).body, q)
    ensures CString(Strings(b), At(At(Stored(b), p).body, q).item.nameoff).Some?
  {
    hide Decode;
    NamedAt(Stored(b), Strings(b), p);
    NamedAt(At(Stored(b), p).body, Strings(b), q);
  }

  method LoadStrings(b: seq<byte>) returns (s: seq<byte>)
    requires BlocksFit(b)
    ensures s == Strings(b)
  {
    var off := Load32(b, OFF_STRINGS);
    var size := Load32(b, SIZE_STRINGS);
    s := b[off..off + size];
  }

  /** `fdt_get_property` finds what the tree holds: the value of the first leading property of that name. */
  lemma GetPropertyMeans(b: seq<byte>, p: Pos, o: int, name: seq<byte>)
    requires NodeAt(b, p, o)
    ensures ValidIn(TreeOf(b), Place(Stored(b), p)) && ContentAt(TreeOf(b), Place(Stored(b), p)).Subnode?
    ensures Sought(b, p, name).Some? <==> Has(ContentAt(TreeOf(b), Place(Stored(b), p)).body, name)
    ensures Sought(b, p, name).Some? ==>
              var x := At(Stored(b), p).body;
              && IsProp(x, Sought(b, p, name).value)
              && At(x, Sought(b, p, name).value).item.value
                 == Lookup(ContentAt(TreeOf(b), Place(Stored(b), p)).body, name)
  {
    hide Decode, FindProp;
    var f, t := Stored(b), Strings(b);
    NamedAt(f, t, p);
    MeaningAt(f, t, p);
    FindMeans(At(f, p).body, t, name);
  }
}
