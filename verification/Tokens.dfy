/**
The structure block as a list of tokens.  `Reads` says that a block spells a token list from some
offset on; the lemmas say what moving and splicing bytes does to the list that is spelled.
*/
module Tokens {
  import opened Words

  const BEGIN_NODE: u32 := 1
  const END_NODE: u32 := 2
  const PROP: u32 := 3
  const NOP: u32 := 4
  const END: u32 := 9

  /** A token; names and values are the stored bytes, `nameoff` the stored cell.  The final END is kept apart. */
  datatype Token = Nop | Prop(nameoff: u32, value: seq<byte>) | Begin(name: seq<byte>) | Close

  datatype Tokens = Nil | Cons(head: Token, tail: Tokens)

  /** Bytes of a token, padding included. */
  ghost function TokenLen(t: Token): (n: nat)
    ensures n >= 4
    ensures t.Begin? ==> n >= 4 + |t.name| + 1
    ensures t.Prop? ==> n >= 12 + |t.value|
  {
    match t
    case Prop(_, v) => 12 + Align4(|v|)
    case Begin(n) => 4 + Align4(|n| + 1)
    case _ => 4
  }

  ghost function Len(l: Tokens): nat {
    if l.Nil? then 0 else TokenLen(l.head) + Len(l.tail)
  }

  function Append(a: Tokens, b: Tokens): Tokens {
    if a.Nil? then b else Cons(a.head, Append(a.tail, b))
  }

  lemma AppendAssoc(a: Tokens, b: Tokens, c: Tokens)
    ensures Append(Append(a, b), c) == Append(a, Append(b, c))
  {
  }

  lemma AppendNil(a: Tokens)
    ensures Append(a, Nil) == a
  {
  }

  lemma LenAppend(a: Tokens, b: Tokens)
    ensures Len(Append(a, b)) == Len(a) + Len(b)
  {
  }

  ghost function TokenCells(t: Token): (n: nat)
    ensures TokenLen(t) == 4 * n
  {
    match t
    case Prop(_, v) => 3 + Cells(|v|)
    case Begin(n) => 1 + Cells(|n| + 1)
    case _ => 1
  }

  ghost function LenCells(l: Tokens): (n: nat)
    ensures Len(l) == 4 * n
  {
    if l.Nil? then 0 else TokenCells(l.head) + LenCells(l.tail)
  }

  lemma LenAligned(l: Tokens)
    ensures Len(l) % 4 == 0
  {
    AlignOfMultiple(LenCells(l));
  }

  /** The bytes `v` stand at offset `i` of `s`. */
  ghost predicate Spells(s: seq<byte>, i: int, v: seq<byte>) {
    0 <= i && i + |v| <= |s| && forall k {:trigger v[k]} :: 0 <= k < |v| ==> s[i + k] == v[k]
  }

  ghost predicate TagAt(s: seq<byte>, o: int, tag: u32) {
    0 <= o && o + 4 <= |s| && Get32(s, o) == tag
  }

  /** The token `t` is stored at `o`; its padding bytes are free. */
  ghost predicate TokenAt(s: seq<byte>, o: int, t: Token) {
    && 0 <= o && o + TokenLen(t) <= |s|
    && match t
       case Nop => Get32(s, o) == NOP
       case Close => Get32(s, o) == END_NODE
       case Prop(no, v) =>
         Get32(s, o) == PROP && Get32(s, o + 4) == |v| && Get32(s, o + 8) == no && Spells(s, o + 12, v)
       case Begin(n) =>
         Get32(s, o) == BEGIN_NODE && Spells(s, o + 4, n) && NulFree(n) && s[o + 4 + |n|] == 0
  }

  /** The block `s` spells the tokens `l` from offset `o` on. */
  ghost predicate Reads(s: seq<byte>, o: int, l: Tokens)
    decreases l
  {
    if l.Nil? then 0 <= o <= |s| else TokenAt(s, o, l.head) && Reads(s, o + TokenLen(l.head), l.tail)
  }

  lemma {:induction false} ReadsFits(s: seq<byte>, o: int, l: Tokens)
    requires Reads(s, o, l)
    ensures 0 <= o && o + Len(l) <= |s|
    decreases l
  {
    if l.Cons? { ReadsFits(s, o + TokenLen(l.head), l.tail); }
  }

  lemma {:induction false} ReadsAppend(s: seq<byte>, o: int, a: Tokens, b: Tokens)
    ensures Reads(s, o, Append(a, b)) <==> Reads(s, o, a) && Reads(s, o + Len(a), b)
    decreases a
  {
    hide TokenAt, TokenLen;
    if a.Cons? {
      ReadsAppend(s, o + TokenLen(a.head), a.tail, b);
    } else if Reads(s, o, b) {
      ReadsFits(s, o, b);
    }
  }

  lemma TokenBounds(s: seq<byte>, o: int, t: Token)
    requires TokenAt(s, o, t)
    ensures 0 <= o && o + TokenLen(t) <= |s|
  {
  }

  lemma OneRead(b: seq<byte>, o: int, t: Token)
    requires TokenAt(b, o, t)
    ensures Reads(b, o, Cons(t, Nil)) && Len(Cons(t, Nil)) == TokenLen(t)
  {
    hide Get32, TokenLen;
  }

  /** `t` repeats the bytes `[o..e)` of `s`, moved by `d`. */
  ghost predicate Moved(s: seq<byte>, o: int, e: int, t: seq<byte>, d: int) {
    0 <= o <= e <= |s| && 0 <= o + d && e + d <= |t| && forall i {:trigger s[i]} :: o <= i < e ==> t[i + d] == s[i]
  }

  lemma MovedGet(s: seq<byte>, o: int, e: int, t: seq<byte>, d: int, i: int)
    requires Moved(s, o, e, t, d) && o <= i && i + 4 <= e
    ensures Get32(t, i + d) == Get32(s, i)
  {
    assert s[i] == t[i + d] && s[i + 1] == t[i + 1 + d] && s[i + 2] == t[i + 2 + d] && s[i + 3] == t[i + 3 + d];
    CellsAgree(t, i + d, s, i);
  }

  lemma MovedSpells(s: seq<byte>, o: int, e: int, t: seq<byte>, d: int, i: int, v: seq<byte>)
    requires Moved(s, o, e, t, d) && o <= i && i + |v| <= e && Spells(s, i, v)
    ensures Spells(t, i + d, v)
  {
  }

  lemma MovedToken(s: seq<byte>, o: int, e: int, t: seq<byte>, d: int, k: Token, i: int)
    requires Moved(s, o, e, t, d) && o <= i && TokenAt(s, i, k) && i + TokenLen(k) <= e
    ensures TokenAt(t, i + d, k)
  {
    MovedGet(s, o, e, t, d, i);
    if k.Prop? {
      MovedGet(s, o, e, t, d, i + 4);
      MovedGet(s, o, e, t, d, i + 8);
      MovedSpells(s, o, e, t, d, i + 12, k.value);
    }
    if k.Begin? {
      MovedSpells(s, o, e, t, d, i + 4, k.name);
      assert s[i + 4 + |k.name|] == t[i + 4 + |k.name| + d];
    }
  }

  /** What a block spells does not depend on where it lies. */
  lemma {:induction false} MovedReads(s: seq<byte>, o: int, e: int, t: seq<byte>, d: int, l: Tokens, i: int)
    requires Moved(s, o, e, t, d) && o <= i && Reads(s, i, l) && i + Len(l) <= e
    ensures Reads(t, i + d, l)
    decreases l
  {
    if l.Cons? {
      MovedToken(s, o, e, t, d, l.head, i);
      MovedReads(s, o, e, t, d, l.tail, i + TokenLen(l.head));
    }
  }

  /**
  The splice theorem.  If `s` spells `a`, `b`, `c`, and `t` keeps the bytes of `a`, spells `b'` after them
  and goes on with the bytes of `c`, then `t` spells `a`, `b'`, `c`.
  */
  lemma SpliceReads(s: seq<byte>, o: int, e: int, a: Tokens, b: Tokens, c: Tokens, t: seq<byte>, b': Tokens)
    requires Reads(s, o, Append(a, Append(b, c))) && o + Len(a) + Len(b) + Len(c) <= e
    requires Moved(s, o, o + Len(a), t, 0) && Reads(t, o + Len(a), b')
    requires Moved(s, o + Len(a) + Len(b), e, t, Len(b') - Len(b))
    ensures Reads(t, o, Append(a, Append(b', c)))
  {
    hide Reads, Moved, Append, Len;
    ReadsAppend(s, o, a, Append(b, c));
    ReadsAppend(s, o + Len(a), b, c);
    MovedReads(s, o, o + Len(a), t, 0, a, o);
    MovedReads(s, o + Len(a) + Len(b), e, t, Len(b') - Len(b), c, o + Len(a) + Len(b));
    ReadsAppend(t, o + Len(a), b', c);
    ReadsAppend(t, o, a, Append(b', c));
  }
}
