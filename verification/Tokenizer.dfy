/** `fdt_next_tag` and the decoding of a structure block that rests on it. */
module Tokenizer {
  import opened Words
  import opened Tokens
  import opened Structure

  const NOTFOUND := -1
  const EXISTS := -2
  const NOSPACE := -3
  const BADOFFSET := -4
  const BADSTATE := -7
  const TRUNCATED := -8
  const BADMAGIC := -9
  const BADVERSION := -10
  const BADSTRUCTURE := -11
  const BADLAYOUT := -12
  const INTERNAL := -13

  /**
  The tag at offset `o` of the structure block and the offset of the next tag, or END and an error code.
  The end of a property is computed in 32-bit unsigned arithmetic: a stored length just below 2^32 wraps.
  */
  ghost function NextTag(s: seq<byte>, o: int): (r: (u32, int))
    requires |s| < INT_LIMIT
  {
    if o < 0 || o + 4 > |s| then (END, TRUNCATED)
    else
      var tag := Get32(s, o);
      if tag == BEGIN_NODE then
        if NulFrom(s, o + 4) == |s| then (END, BADSTRUCTURE) else (tag, Align4(NulFrom(s, o + 4) + 1))
      else if tag == PROP then
        if o + 8 > |s| then (END, BADSTRUCTURE)
        else
          var e := (o + 12 + Get32(s, o + 4)) % 0x1_0000_0000;
          if e < o || e > |s| then (END, BADSTRUCTURE) else (tag, Align4(e))
      else if tag == END || tag == END_NODE || tag == NOP then (tag, Align4(o + 4))
      else (END, BADSTRUCTURE)
  }

  /** Every answer by the bytes at the offset: which are tags, how far each reaches, and each error. */
  lemma NextTagPlainly(s: seq<byte>, o: int)
    requires |s| < INT_LIMIT
    ensures var (tag, next) := NextTag(s, o);
            && (next == -8 <==> o < 0 || o + 4 > |s|)
            && (next < 0 ==> tag == 9 && (next == -8 || next == -11))
            && (0 <= o <= |s| - 4 ==>
                  var v := Get32(s, o);
                  && (v == 2 || v == 4 || v == 9 ==> tag == v && o + 4 <= next < o + 8)
                  && (v == 0 || (4 < v && v != 9) ==> next == -11)
                  && (v == 1 ==>
                        if forall k :: o + 4 <= k < |s| ==> s[k] != 0 then next == -11
                        else tag == 1 && o + 5 <= next <= |s| + 3 && next % 4 == 0)
                  && (v == 3 && o + 8 > |s| ==> next == -11)
                  && (v == 3 && o + 8 <= |s| ==>
                        var e := (o + 12 + Get32(s, o + 4)) % 0x1_0000_0000;
                        if o <= e <= |s| then tag == 3 && e <= next < e + 4 && next % 4 == 0 else next == -11))
  {
    hide Get32;
    if 0 <= o <= |s| - 4 {
      AlignBounds(o + 4);
      if Get32(s, o) == BEGIN_NODE { AlignBounds(NulFrom(s, o + 4) + 1); }
      if Get32(s, o) == PROP && o + 8 <= |s| { AlignBounds((o + 12 + Get32(s, o + 4)) % 0x1_0000_0000); }
    }
  }

  lemma AlignBounds(n: nat)
    ensures n <= Align4(n) < n + 4 && Align4(n) % 4 == 0
  {
  }

  /** `fdt_next_tag`, which skips a node name byte by byte. */
  method FdtNextTag(s: seq<byte>, startoffset: int) returns (tag: u32, nextoffset: int)
    requires |s| < INT_LIMIT
    ensures (tag, nextoffset) == NextTag(s, startoffset)
  {
    if startoffset < 0 || startoffset + 4 > |s| {
      return END, TRUNCATED;
    }
    tag := Load32(s, startoffset);
    var offset := startoffset + 4;
    if tag == BEGIN_NODE {
      while offset < |s| && s[offset] != 0
        invariant startoffset + 4 <= offset <= |s|
        invariant NulFrom(s, startoffset + 4) == NulFrom(s, offset)
      {
        offset := offset + 1;
      }
      if offset == |s| {
        return END, BADSTRUCTURE;
      }
      offset := offset + 1;
    } else if tag == PROP {
      if offset + 4 > |s| {
        return END, BADSTRUCTURE;
      }
      var len := Load32(s, offset);
      offset := (startoffset + 12 + len) % 0x1_0000_0000;
      if offset < startoffset || offset > |s| {
        return END, BADSTRUCTURE;
      }
    } else if tag != END && tag != END_NODE && tag != NOP {
      return END, BADSTRUCTURE;
    }
    nextoffset := TagAlign(offset);
  }

  function TagOf(t: Token): u32 {
    match t
    case Nop => NOP
    case Prop(_, _) => PROP
    case Begin(_) => BEGIN_NODE
    case Close => END_NODE
  }

  /** On a stored token the tokenizer returns its tag and the offset just past its padding. */
  lemma NextTagOnToken(s: seq<byte>, o: int, t: Token)
    requires |s| < INT_LIMIT && o % 4 == 0 && TokenAt(s, o, t)
    ensures NextTag(s, o) == (TagOf(t), o + TokenLen(t))
  {
    hide Align4, Get32;
    AlignOfMultiple(o / 4 + 1);
    match t
    case Nop =>
    case Close =>
    case Prop(_, v) => NextTagOnProp(s, o, t);
    case Begin(n) => NextTagOnBegin(s, o, n);
  }

  lemma NextTagOnProp(s: seq<byte>, o: int, t: Token)
    requires |s| < INT_LIMIT && o % 4 == 0 && t.Prop? && TokenAt(s, o, t)
    ensures NextTag(s, o) == (PROP, o + TokenLen(t))
  {
    hide Align4, Get32;
    var e := o + 12 + |t.value|;
    assert e % 0x1_0000_0000 == e;
    AlignShift(o / 4 + 3, |t.value|);
  }

  lemma NextTagOnBegin(s: seq<byte>, o: int, n: seq<byte>)
    requires |s| < INT_LIMIT && o % 4 == 0 && TokenAt(s, o, Begin(n))
    ensures NextTag(s, o) == (BEGIN_NODE, o + TokenLen(Begin(n)))
  {
    hide Align4, Get32;
    assert forall k {:trigger s[k]} :: o + 4 <= k < o + 4 + |n| ==> s[k] == n[k - o - 4];
    NulFromIs(s, o + 4, o + 4 + |n|);
    AlignShift(o / 4 + 1, |n| + 1);
  }

  lemma AlignShift(c: int, n: int)
    ensures Align4(4 * c + n) == 4 * c + Align4(n)
  {
  }

  lemma NextTagOnEnd(s: seq<byte>, o: int)
    requires |s| < INT_LIMIT && o % 4 == 0 && TagAt(s, o, END)
    ensures NextTag(s, o) == (END, o + 4)
  {
    AlignOfMultiple(o / 4 + 1);
  }

  /** The token that the tokenizer has recognised at `o`. */
  ghost function TokenFrom(s: seq<byte>, o: int): Token
    requires |s| < INT_LIMIT && 0 <= o && NextTag(s, o).1 > o && NextTag(s, o).0 != END && Fits(s, o)
  {
    var tag := NextTag(s, o).0;
    if tag == NOP then Nop
    else if tag == END_NODE then Close
    else if tag == BEGIN_NODE then Begin(s[o + 4..NulFrom(s, o + 4)])
    else Prop(Get32(s, o + 8), s[o + 12..o + 12 + Get32(s, o + 4)])
  }

  /** The token at `o` lies inside the block, padding included, and its length did not wrap. */
  ghost predicate Fits(s: seq<byte>, o: int)
    requires |s| < INT_LIMIT
  {
    && NextTag(s, o).1 <= |s|
    && (NextTag(s, o).0 == PROP ==> 0 <= o && o + 12 <= |s| && o + 12 + Get32(s, o + 4) <= |s|)
  }

  lemma TokenFromStored(s: seq<byte>, o: int)
    requires |s| < INT_LIMIT && 0 <= o && o % 4 == 0 && NextTag(s, o).1 > o && NextTag(s, o).0 != END && Fits(s, o)
    ensures TokenAt(s, o, TokenFrom(s, o)) && NextTag(s, o).1 == o + TokenLen(TokenFrom(s, o))
  {
    hide TokenLen, Align4;
    var c := o / 4;
    AlignOfMultiple(c + 1);
    var t := TokenFrom(s, o);
    if t.Prop? {
      PropFromStored(s, o);
    } else if t.Begin? {
      BeginLen(c + 1, t.name);
    } else {
      ShortLen(t);
    }
  }

  lemma PropFromStored(s: seq<byte>, o: int)
    requires |s| < INT_LIMIT && 0 <= o && o % 4 == 0 && NextTag(s, o).1 > o && NextTag(s, o).0 == PROP && Fits(s, o)
    ensures TokenAt(s, o, TokenFrom(s, o)) && NextTag(s, o).1 == o + TokenLen(TokenFrom(s, o))
  {
    hide Align4;
    var e := o + 12 + Get32(s, o + 4);
    assert e % 0x1_0000_0000 == e;
    AlignShift(o / 4 + 3, Get32(s, o + 4));
  }

  lemma BeginLen(c: int, n: seq<byte>)
    ensures 4 * (c - 1) + TokenLen(Begin(n)) == Align4(4 * c + |n| + 1)
  {
    AlignShift(c, |n| + 1);
  }

  lemma ShortLen(t: Token)
    ensures t.Nop? || t.Close? ==> TokenLen(t) == 4
  {
  }

  /** Tokenizes from `o` to the END tag, which must be the last cell of the block. */
  ghost function Scan(s: seq<byte>, o: int): Option<Tokens>
    requires |s| < INT_LIMIT
    decreases |s| - o
  {
    var (tag, next) := NextTag(s, o);
    if o < 0 || next <= o || !Fits(s, o) then None
    else if tag == END then (if next == |s| then Some(Nil) else None)
    else
      match Scan(s, next)
      case Some(l) => Some(Cons(TokenFrom(s, o), l))
      case None => None
  }

  /** A token list followed by END fills the block from `o` on. */
  ghost predicate Spelled(s: seq<byte>, o: int, l: Tokens) {
    Reads(s, o, l) && TagAt(s, o + Len(l), END) && o + Len(l) + 4 == |s|
  }

  lemma {:induction false} ScanComplete(s: seq<byte>, o: int, l: Tokens)
    requires |s| < INT_LIMIT && o % 4 == 0 && Spelled(s, o, l)
    ensures Scan(s, o) == Some(l)
    decreases l
  {
    if l.Nil? {
      NextTagOnEnd(s, o);
    } else {
      NextTagOnToken(s, o, l.head);
      ScanHead(s, o, l.head);
      TokenAligned(o, l.head);
      ScanComplete(s, o + TokenLen(l.head), l.tail);
    }
  }

  lemma TokenAligned(o: int, t: Token)
    requires o % 4 == 0
    ensures (o + TokenLen(t)) % 4 == 0
  {
    hide TokenLen;
    assert o == 4 * (o / 4);
    AlignOfMultiple(o / 4 + TokenCells(t));
    assert o + TokenLen(t) == 4 * (o / 4 + TokenCells(t));
  }

  lemma ScanHead(s: seq<byte>, o: int, t: Token)
    requires |s| < INT_LIMIT && o % 4 == 0 && TokenAt(s, o, t)
    ensures NextTag(s, o) == (TagOf(t), o + TokenLen(t)) && Fits(s, o) && TokenFrom(s, o) == t
  {
    NextTagOnToken(s, o, t);
    match t
    case Nop =>
    case Close =>
    case Prop(_, v) => SliceIs(s, o + 12, v);
    case Begin(n) =>
      assert forall k {:trigger s[k]} :: o + 4 <= k < o + 4 + |n| ==> s[k] == n[k - o - 4];
      NulFromIs(s, o + 4, o + 4 + |n|);
      SliceIs(s, o + 4, n);
  }

  lemma SliceIs(s: seq<byte>, i: int, v: seq<byte>)
    requires Spells(s, i, v)
    ensures s[i..i + |v|] == v
  {
  }

  lemma EndStored(s: seq<byte>, o: int)
    requires |s| < INT_LIMIT && 0 <= o && o % 4 == 0 && NextTag(s, o).0 == END && NextTag(s, o).1 > o
    ensures TagAt(s, o, END) && NextTag(s, o).1 == o + 4
  {
    AlignOfMultiple(o / 4 + 1);
  }

  lemma {:induction false} ScanSound(s: seq<byte>, o: int)
    requires |s| < INT_LIMIT && o % 4 == 0 && Scan(s, o).Some?
    ensures Spelled(s, o, Scan(s, o).value)
    decreases |s| - o
  {
    hide NextTag, TokenAt, TokenLen, TokenFrom;
    var (tag, next) := NextTag(s, o);
    if tag == END {
      EndStored(s, o);
    } else {
      TokenFromStored(s, o);
      TokenAligned(o, TokenFrom(s, o));
      ScanSound(s, next);
    }
  }

  /** Reads a whole structure block: its tokens, nested. */
  ghost function Decode(s: seq<byte>): Option<Forest>
    requires |s| < INT_LIMIT
  {
    match Scan(s, 0)
    case None => None
    case Some(l) =>
      match Parse(l)
      case Some((f, Nil)) => Some(f)
      case _ => None
  }

  /** Decoding succeeds exactly on the blocks that spell a forest, and returns that forest. */
  lemma DecodeExact(s: seq<byte>, f: Forest)
    requires |s| < INT_LIMIT
    ensures Decode(s) == Some(f) <==> Spelled(s, 0, Flat(f))
  {
    if Spelled(s, 0, Flat(f)) {
      ScanComplete(s, 0, Flat(f));
      ParseFlat(f, Nil);
      AppendNil(Flat(f));
    }
    if Decode(s) == Some(f) {
      ScanSound(s, 0);
      ParseSound(Scan(s, 0).value);
      AppendNil(Flat(f));
    }
  }

  /**
  The tokenizer moves forward on every tag except one family: a PROP whose stored length, added to the
  offset, wraps round to at most the offset itself.
  */
  lemma Progress(s: seq<byte>, o: int)
    requires |s| < INT_LIMIT && 0 <= o && o % 4 == 0
    ensures NextTag(s, o).1 == o <==> o + 8 <= |s| && Get32(s, o) == PROP && Get32(s, o + 4) == 0x1_0000_0000 - 12
    ensures NextTag(s, o).1 < 0 || NextTag(s, o).1 >= o
  {
    AlignOfMultiple(o / 4);
    if o + 8 <= |s| && Get32(s, o) == PROP {
      var e := o + 12 + Get32(s, o + 4);
      assert e % 0x1_0000_0000 == if e < 0x1_0000_0000 then e else e - 0x1_0000_0000;
    }
  }
}
