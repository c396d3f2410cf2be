/** Every forest has a blob: the bytes that spell it, and a header around them. */
module Encode {
  import opened Words
  import opened Tokens
  import opened Structure
  import opened Tokenizer
  import opened Tree
  import opened Blob
  import opened Subnodes

  /** The token can be stored: no NUL in a name, a length that is a cell. */
  predicate Storable(t: Token) {
    match t
    case Begin(n) => NulFree(n)
    case Prop(_, v) => |v| < 0x1_0000_0000
    case _ => true
  }

  predicate AllStorable(l: Tokens) {
    l.Cons? ==> Storable(l.head) && AllStorable(l.tail)
  }

  ghost function TokenBytes(t: Token): (s: seq<byte>)
    requires Storable(t)
    ensures |s| == TokenLen(t)
  {
    match t
    case Nop => Word(NOP)
    case Close => Word(END_NODE)
    case Begin(n) => Word(BEGIN_NODE) + n + Zeros(Align4(|n| + 1) - |n|)
    case Prop(no, v) => Word(PROP) + Word(|v|) + Word(no) + v + Zeros(Align4(|v|) - |v|)
  }

  ghost function Bytes(l: Tokens): (s: seq<byte>)
    requires AllStorable(l)
    ensures |s| == Len(l)
  {
    if l.Nil? then [] else TokenBytes(l.head) + Bytes(l.tail)
  }

  /** A word between other bytes. */
  lemma WordAt(x: seq<byte>, v: u32, y: seq<byte>)
    ensures Get32(x + Word(v) + y, |x|) == v
  {
    hide Word;
    GetWord(x + Word(v) + y, |x|, v);
  }

  lemma TokenBytesRead(t: Token)
    requires Storable(t)
    ensures TokenAt(TokenBytes(t), 0, t)
  {
    hide Word, Get32;
    var s := TokenBytes(t);
    match t
    case Nop => WordAt([], NOP, []); assert [] + Word(NOP) + [] == s;
    case Close => WordAt([], END_NODE, []); assert [] + Word(END_NODE) + [] == s;
    case Begin(n) =>
      var z := Zeros(Align4(|n| + 1) - |n|);
      WordAt([], BEGIN_NODE, n + z);
      assert [] + Word(BEGIN_NODE) + (n + z) == s;
    case Prop(no, v) =>
      var z := Zeros(Align4(|v|) - |v|);
      PropBytesRead(no, v, z);
  }

  lemma PropBytesRead(no: u32, v: seq<byte>, z: seq<byte>)
    requires |v| < 0x1_0000_0000
    ensures var s := Word(PROP) + Word(|v|) + Word(no) + v + z;
            Get32(s, 0) == PROP && Get32(s, 4) == |v| && Get32(s, 8) == no && Spells(s, 12, v)
  {
    hide Word, Get32;
    var s := Word(PROP) + Word(|v|) + Word(no) + v + z;
    WordAt([], PROP, Word(|v|) + Word(no) + v + z);
    assert [] + Word(PROP) + (Word(|v|) + Word(no) + v + z) == s;
    WordAt(Word(PROP), |v|, Word(no) + v + z);
    assert Word(PROP) + Word(|v|) + (Word(no) + v + z) == s;
    WordAt(Word(PROP) + Word(|v|), no, v + z);
    assert Word(PROP) + Word(|v|) + Word(no) + (v + z) == s;
  }

  /** The tags and the magic number, byte by byte. */
  lemma TagBytes(name: seq<byte>, no: u32, v: seq<byte>)
    requires NulFree(name) && |v| < 0x1_0000_0000
    ensures TokenBytes(Nop) == [0, 0, 0, 4] && TokenBytes(Close) == [0, 0, 0, 2] && Word(END) == [0, 0, 0, 9]
    ensures TokenBytes(Begin(name))[..4] == [0, 0, 0, 1] && TokenBytes(Prop(no, v))[..4] == [0, 0, 0, 3]
    ensures Word(FDT_MAGIC) == [0xd0, 0x0d, 0xfe, 0xed]
  {
    assert TokenBytes(Begin(name))[..4] == Word(BEGIN_NODE);
    assert TokenBytes(Prop(no, v))[..4] == Word(PROP);
  }

  /** Bytes that are copied spell the same token. */
  lemma TokenCopied(s: seq<byte>, t: Token, x: seq<byte>, y: seq<byte>)
    requires TokenAt(s, 0, t)
    ensures TokenAt(x + s + y, |x|, t)
  {
    hide TokenAt;
    var u := x + s + y;
    assert Moved(s, 0, |s|, u, |x|) by {
      assert forall i {:trigger s[i]} :: 0 <= i < |s| ==> u[i + |x|] == s[i];
    }
    TokenInside(s, t);
    MovedToken(s, 0, |s|, u, |x|, t, 0);
  }

  lemma TokenInside(s: seq<byte>, t: Token)
    requires TokenAt(s, 0, t)
    ensures TokenLen(t) <= |s|
  {
  }

  /** What is spelled between other bytes. */
  lemma {:induction false} BytesRead(l: Tokens, x: seq<byte>, y: seq<byte>)
    requires AllStorable(l)
    ensures Reads(x + Bytes(l) + y, |x|, l)
    decreases l
  {
    hide TokenAt, TokenBytes, TokenLen;
    if l.Cons? {
      var h, r := TokenBytes(l.head), Bytes(l.tail);
      TokenBytesRead(l.head);
      TokenCopied(h, l.head, x, r + y);
      BytesRead(l.tail, x + h, y);
      assert x + Bytes(l) + y == x + h + (r + y) == x + h + r + y;
    }
  }

  /** The structure block of a forest. */
  ghost function BlockOf(f: Forest): (s: seq<byte>)
    requires AllStorable(Flat(f))
    ensures |s| == Size(f) + 4
  {
    Bytes(Flat(f)) + Word(END)
  }

  /** Encoding and decoding: the forest comes back. */
  lemma EncodeDecode(f: Forest)
    requires AllStorable(Flat(f)) && Size(f) + 4 < INT_LIMIT
    ensures Spelled(BlockOf(f), 0, Flat(f)) && Decode(BlockOf(f)) == Some(f)
  {
    hide Word, Get32, Bytes, Reads, Decode;
    var l := Flat(f);
    BytesRead(l, [], Word(END));
    assert [] + Bytes(l) + Word(END) == BlockOf(f);
    WordAt(Bytes(l), END, []);
    assert Bytes(l) + Word(END) + [] == BlockOf(f);
    DecodeExact(BlockOf(f), f);
  }

  ghost function WordsOf(ws: seq<u32>): (s: seq<byte>)
    ensures |s| == 4 * |ws|
  {
    if ws == [] then [] else Word(ws[0]) + WordsOf(ws[1..])
  }

  lemma {:induction false} WordsRead(ws: seq<u32>, x: seq<byte>, y: seq<byte>, i: int)
    requires 0 <= i < |ws|
    ensures Get32(x + WordsOf(ws) + y, |x| + 4 * i) == ws[i]
    decreases |ws|
  {
    hide Word, Get32;
    var h, r := Word(ws[0]), WordsOf(ws[1..]);
    assert x + WordsOf(ws) + y == x + h + (r + y) == x + h + r + y;
    if i == 0 {
      WordAt(x, ws[0], r + y);
    } else {
      WordsRead(ws[1..], x + h, y, i - 1);
    }
  }

  /** Where the blocks of `BlobOf` lie: an empty reservation block, the structure, the strings. */
  const RSV := 40
  const STRUCT := 56

  ghost function HeaderOf(st: nat, size: nat): (ws: seq<u32>)
    requires STRUCT + st + size < INT_LIMIT
    ensures |ws| == 10
  {
    [FDT_MAGIC, STRUCT + st + size, STRUCT, STRUCT + st, RSV, 17, 16, 0, size, st]
  }

  ghost function BlobOf(f: Forest, t: seq<byte>): (b: seq<byte>)
    requires AllStorable(Flat(f)) && STRUCT + Size(f) + 4 + |t| < INT_LIMIT
    ensures |b| == STRUCT + Size(f) + 4 + |t|
  {
    WordsOf(HeaderOf(Size(f) + 4, |t|)) + WordsOf([0, 0, 0, 0]) + BlockOf(f) + t
  }

  lemma HeaderIs(f: Forest, t: seq<byte>)
    requires AllStorable(Flat(f)) && STRUCT + Size(f) + 4 + |t| < INT_LIMIT
    ensures var b := BlobOf(f, t);
            && Get32(b, MAGIC) == FDT_MAGIC && TotalSize(b) == |b| && OffStruct(b) == STRUCT
            && OffStrings(b) == STRUCT + Size(f) + 4 && OffRsv(b) == RSV && Version(b) == 17
            && Get32(b, LAST_COMP) == 16 && SizeStrings(b) == |t| && SizeStruct(b) == Size(f) + 4
  {
    hide Get32, WordsOf, BlockOf, Size;
    var ws, b := HeaderOf(Size(f) + 4, |t|), BlobOf(f, t);
    var y := WordsOf([0, 0, 0, 0]) + BlockOf(f) + t;
    assert [] + WordsOf(ws) + y == b;
    forall i | 0 <= i < 10 ensures Get32(b, 4 * i) == ws[i] {
      WordsRead(ws, [], y, i);
    }
    assert Get32(b, 4 * 0) == ws[0] && Get32(b, 4 * 1) == ws[1] && Get32(b, 4 * 2) == ws[2];
    assert Get32(b, 4 * 3) == ws[3] && Get32(b, 4 * 4) == ws[4] && Get32(b, 4 * 5) == ws[5];
    assert Get32(b, 4 * 6) == ws[6] && Get32(b, 4 * 8) == ws[8] && Get32(b, 4 * 9) == ws[9];
  }

  lemma NoneReserved(f: Forest, t: seq<byte>)
    requires AllStorable(Flat(f)) && STRUCT + Size(f) + 4 + |t| < INT_LIMIT
    ensures Reservations(BlobOf(f, t), RSV) == Some([])
  {
    hide Get32, WordsOf, BlockOf, Size, HeaderOf;
    var x, b := WordsOf(HeaderOf(Size(f) + 4, |t|)), BlobOf(f, t);
    var zs: seq<u32> := [0, 0, 0, 0];
    assert x + WordsOf(zs) + (BlockOf(f) + t) == b;
    WordsRead(zs, x, BlockOf(f) + t, 2);
    WordsRead(zs, x, BlockOf(f) + t, 3);
    assert Get32(b, 40 + 4 * 2) == 0 && Get32(b, 40 + 4 * 3) == 0;
  }

  /** For every rooted forest whose names resolve in `t` there is a well-formed blob that stores it. */
  lemma BlobStores(f: Forest, t: seq<byte>)
    requires Rooted(f) && Named(f, t) && AllStorable(Flat(f)) && STRUCT + Size(f) + 4 + |t| < INT_LIMIT
    ensures var b := BlobOf(f, t);
            && WellFormed(b) && CheckHeader(b) == 0 && Stored(b) == f && Strings(b) == t && Reserved(b) == []
            && TreeOf(b) == Meaning(f, t)
  {
    hide Get32, WordsOf, BlockOf, Size, HeaderOf, Reservations, Decode, Rooted, Named, Spelled, Flat, AllStorable;
    var b := BlobOf(f, t);
    HeaderIs(f, t);
    NoneReserved(f, t);
    assert Struct(b) == BlockOf(f) && Strings(b) == t;
    EncodeDecode(f);
    ReadableFrom(b, f);
  }
}
