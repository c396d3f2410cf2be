/** The sequential writer on whole trees: what is written is what is read back. */
module RoundTrip {
  import opened Words
  import opened Tokens
  import opened Structure
  import opened Tokenizer
  import opened Tree
  import opened Blob
  import opened Edit
  import opened Writer
  import opened Builder
  import opened Finish

  /** The forest `g`, with name offsets counted from the end of `t`, means the items `c`. */
  ghost predicate EndMeans(g: Forest, t: seq<byte>, c: Content) {
    Named(RelocForest(g, |t|), t) && Meaning(RelocForest(g, |t|), t) == c
  }

  /** Strings added in front change no meaning. */
  lemma {:induction false} EndMeansGrows(g: Forest, t: seq<byte>, u: seq<byte>)
    requires Suffix(t, u) && Named(RelocForest(g, |t|), t)
    ensures Named(RelocForest(g, |u|), u) && Meaning(RelocForest(g, |u|), u) == Meaning(RelocForest(g, |t|), t)
    decreases g
  {
    hide Suffix, CString, FromStart;
    match g
    case Stop =>
    case Leaf(k, r) =>
      if k.Prop? { EndString(t, u, k.nameoff); }
      EndMeansGrows(r, t, u);
    case Node(n, b, r) =>
      EndMeansGrows(b, t, u);
      EndMeansGrows(r, t, u);
  }

  lemma PropertyMeans(no: u32, val: seq<byte>, r: Forest, t1: seq<byte>, t: seq<byte>, name: seq<byte>, c: Content)
    requires CString(t1, FromStart(no, |t1|)) == Some(name) && Suffix(t1, t) && EndMeans(r, t, c)
    ensures EndMeans(Leaf(Prop(no, val), r), t, Property(name, val, c))
  {
    hide Suffix, CString, FromStart;
    EndString(t1, t, no);
  }

  lemma SubnodeMeans(n: seq<byte>, b: Forest, r: Forest, t1: seq<byte>, t: seq<byte>, body: Content, rest: Content)
    requires EndMeans(b, t1, body) && Suffix(t1, t) && EndMeans(r, t, rest)
    ensures EndMeans(Node(n, b, r), t, Subnode(n, body, rest))
  {
    hide Suffix;
    EndMeansGrows(b, t1, t);
  }

  /** Names without NULs, and sizes that are C `int`s. */
  predicate Callable(c: Content) {
    match c
    case Done => true
    case Property(n, v, r) => NulFree(n) && |n| + 1 < INT_LIMIT && |v| + 16 < INT_LIMIT && Callable(r)
    case Subnode(n, b, r) => NulFree(n) && |n| + 12 < INT_LIMIT && Callable(b) && Callable(r)
  }

  /** The structure bytes of a list of items. */
  ghost function ContentLen(c: Content): nat {
    match c
    case Done => 0
    case Property(_, v, r) => TokenLen(Prop(0, v)) + ContentLen(r)
    case Subnode(n, b, r) => TokenLen(Begin(n)) + ContentLen(b) + 4 + ContentLen(r)
  }

  /** The strings block after the items have been written: each name that is not there yet goes in front. */
  ghost function TailAfter(c: Content, t: seq<byte>): (u: seq<byte>)
    ensures |u| >= |t|
    decreases c
  {
    match c
    case Done => t
    case Property(n, _, r) => TailAfter(r, Put(t, n))
    case Subnode(_, b, r) => TailAfter(r, TailAfter(b, t))
  }

  /** Bytes used once the items have been written behind `used` bytes. */
  ghost function Footprint(used: int, c: Content, t: seq<byte>): int {
    used + ContentLen(c) + |TailAfter(c, t)|
  }

  /** Whether putting a name stays inside the buffer: it does unless the name is new and exceeds it. */
  method NameAccepted(a: array<byte>, name: seq<byte>) returns (ok: bool)
    requires Buffer(a[..]) && SizeStrings(a[..]) <= a.Length && NulFree(name)
    ensures ok == !Strays(a[..], name)
  {
    hide Get32, HasString, Tail;
    var z: int := Load32(a[..], SIZE_STRINGS);
    if z + |name| + 1 <= a.Length {
      return true;
    }
    TailSlice(a[..]);
    assert a[a.Length - z..] == a[..][|a[..]| - z..|a[..]|];
    var i := FdtFindString(a[a.Length - z..], name);
    return i >= 0;
  }

  /**
  The outcome of a driver that stops in front of a call whose name strays.  It is no code of the library:
  the source makes the call, and copies the name in front of the buffer.
  */
  const STRAYED := 1

  /**
  The calls for the items `c`, behind `used` bytes of reservations and structure and with the strings `t`,
  come to a property whose name strays, and everything in front of it fits in `room` bytes.
  */
  ghost predicate ComesToStray(room: int, used: int, c: Content, t: seq<byte>)
    decreases c
  {
    match c
    case Done => false
    case Property(n, v, r) =>
      var next := used + TokenLen(Prop(0, v));
      || (!HasString(t, n) && |t| + |n| + 1 > room)
      || (next + |Put(t, n)| <= room && ComesToStray(room, next, r, Put(t, n)))
    case Subnode(n, b, r) =>
      var next := used + TokenLen(Begin(n));
      && next + |t| <= room
      && (|| ComesToStray(room, next, b, t)
          || (Footprint(next, b, t) + 4 <= room
              && ComesToStray(room, next + ContentLen(b) + 4, r, TailAfter(b, t))))
  }

  /** What the calls come to: all succeed, one strays, or one fails for lack of room. */
  ghost function Outcome(room: int, used: int, c: Content, t: seq<byte>): int {
    if Footprint(used, c, t) <= room then 0 else if ComesToStray(room, used, c, t) then STRAYED else NOSPACE
  }

  /** Items that come to a straying name do not fit. */
  lemma {:induction false} StrayExceeds(room: int, used: int, c: Content, t: seq<byte>)
    requires used >= 0 && ComesToStray(room, used, c, t)
    ensures Footprint(used, c, t) > room
    decreases c
  {
    hide HasString, TokenLen, Put;
    match c
    case Done =>
    case Property(n, v, r) =>
      PutSize(t, n);
      TokenSize(Prop(0, v));
      if !(!HasString(t, n) && |t| + |n| + 1 > room) {
        StrayExceeds(room, used + TokenLen(Prop(0, v)), r, Put(t, n));
      }
    case Subnode(n, b, r) =>
      var next := used + TokenLen(Begin(n));
      TokenSize(Begin(n));
      if ComesToStray(room, next, b, t) {
        StrayExceeds(room, next, b, t);
      } else {
        StrayExceeds(room, next + ContentLen(b) + 4, r, TailAfter(b, t));
      }
  }

  lemma PutSize(t: seq<byte>, n: seq<byte>)
    ensures |Put(t, n)| == |t| + if HasString(t, n) then 0 else |n| + 1
  {
  }

  lemma TokenSize(t: Token)
    ensures TokenLen(t) >= 4
  {
  }

  /** A property first: what the rest comes to once its call has been made. */
  lemma OutcomeProperty(room: int, used: int, c: Content, t: seq<byte>)
    requires c.Property? && used >= 0
    ensures var next, u := used + TokenLen(Prop(0, c.value)), Put(t, c.name);
            Outcome(room, used, c, t) ==
            if !HasString(t, c.name) && |t| + |c.name| + 1 > room then STRAYED
            else if next + |u| > room then NOSPACE
            else Outcome(room, next, c.rest, u)
  {
    hide HasString, TokenLen, Put;
    if ComesToStray(room, used, c, t) { StrayExceeds(room, used, c, t); }
    FootprintGrows(used + TokenLen(Prop(0, c.value)), c.rest, Put(t, c.name));
  }

  lemma FootprintGrows(used: int, c: Content, t: seq<byte>)
    ensures used + |t| <= Footprint(used, c, t)
  {
    hide TailAfter, ContentLen;
  }

  /** A subnode first: its tags and its items, then the rest. */
  lemma OutcomeSubnode(room: int, used: int, c: Content, t: seq<byte>)
    requires c.Subnode? && used >= 0
    ensures var next, u := used + TokenLen(Begin(c.name)), TailAfter(c.body, t);
            Outcome(room, used, c, t) ==
            if next + |t| > room then NOSPACE
            else if Outcome(room, next, c.body, t) != 0 then Outcome(room, next, c.body, t)
            else if Footprint(next, c.body, t) + 4 > room then NOSPACE
            else Outcome(room, next + ContentLen(c.body) + 4, c.rest, u)
  {
    hide TokenLen, HasString, Put, ComesToStray, TailAfter, ContentLen, Footprint;
    var next := used + TokenLen(Begin(c.name));
    TokenSize(Begin(c.name));
    SubnodeParts(room, used, c, t);
    if ComesToStray(room, used, c, t) { StrayExceeds(room, used, c, t); }
    if ComesToStray(room, next, c.body, t) { StrayExceeds(room, next, c.body, t); }
    FootprintGrows(next, c.body, t);
    FootprintGrows(next + ContentLen(c.body) + 4, c.rest, TailAfter(c.body, t));
  }

  lemma SubnodeParts(room: int, used: int, c: Content, t: seq<byte>)
    requires c.Subnode?
    ensures var next, u := used + TokenLen(Begin(c.name)), TailAfter(c.body, t);
            var behind := next + ContentLen(c.body) + 4;
            && Footprint(used, c, t) == Footprint(behind, c.rest, u) && Footprint(next, c.body, t) + 4 == behind + |u|
            && (ComesToStray(room, used, c, t) <==>
                && next + |t| <= room
                && (|| ComesToStray(room, next, c.body, t)
                    || (behind + |u| <= room && ComesToStray(room, behind, c.rest, u))))
  {
    hide TokenLen, HasString, Put;
  }

  /** A root whose first item is a property with a name longer than the buffer comes to it, whatever follows. */
  lemma FirstStrays(room: int, rs: seq<Reservation>, root: seq<byte>, name: seq<byte>, val: seq<byte>, rest: Content)
    requires StructAt(rs) + TokenLen(Begin(root)) <= room < |name| + 1
    ensures ComesToStray(room, StructAt(rs), Subnode(root, Property(name, val, rest), Done), [])
    ensures Outcome(room, StructAt(rs), Subnode(root, Property(name, val, rest), Done), []) == STRAYED
  {
    hide TokenLen, Footprint;
    var c := Property(name, val, rest);
    var next := StructAt(rs) + TokenLen(Begin(root));
    assert !HasString([], name);
    assert ComesToStray(room, next, c, []);
    StrayExceeds(room, StructAt(rs), Subnode(root, c, Done), []);
  }

  /** A tree that does it: a root with a property name of 199 bytes, in a buffer of 100 (`RoomTestWraps`). */
  lemma StrayExists(name: seq<byte>)
    requires |name| == 199 && NulFree(name)
    ensures Callable(Subnode([], Property(name, [], Done), Done))
    ensures Outcome(100, StructAt([]), Subnode([], Property(name, [], Done), Done), []) == STRAYED
  {
    assert TokenLen(Begin([])) == 8 && StructAt([]) == 64;
    FirstStrays(100, [], [], name, [], Done);
  }

  /** Behind `l` now stand the tokens of `g`, which take the bytes of the items `c` and mean them. */
  ghost predicate Wrote(c: Content, l: Tokens, t0: seq<byte>, g: Forest, k: Tokens, t: seq<byte>) {
    && t == TailAfter(c, t0) && Len(k) == Len(l) + ContentLen(c)
    && k == Append(l, Flat(g)) && EndMeans(g, t, c)
    && (c.Done? <==> g.Stop?) && (c.Subnode? ==> g.Node? && (c.rest.Done? ==> g.rest.Stop?))
  }

  /**
  Writes the items of a node in order, one call each, and gives up at the first failure, or in front of a
  call whose name strays; that name is then returned.
  */
  method WriteItems(a: array<byte>, c: Content, ghost l: Tokens, ghost rs: seq<Reservation>)
    returns (err: int, ghost g: Forest, ghost k: Tokens, ghost x: seq<byte>)
    requires Written(a[..], l, rs) && Callable(c)
    modifies a
    ensures Written(a[..], k, rs) && Suffix(old(Tail(a[..])), Tail(a[..]))
    ensures err == old(Outcome(a.Length, StructAt(rs) + Len(l), c, Tail(a[..])))
    ensures err == 0 ==> Wrote(c, l, old(Tail(a[..])), g, k, Tail(a[..]))
    ensures err == STRAYED ==> Strays(a[..], x) && |x| + 1 < INT_LIMIT
    decreases c, 1
  {
    hide Written, Suffix, CString, FromStart, Tail, Append, Flat, Get32, Then, TokenLen, Len, Put, Strays;
    hide Outcome, Wrote, ContentLen;
    g, k, x := Stop, l, [];
    WrittenFits(a[..], l, rs);
    SuffixSelf(Tail(a[..]));
    ghost var t0 := Tail(a[..]);
    match c {
      case Done =>
        NothingWritten(a.Length, StructAt(rs) + Len(l), l, t0);
        return 0, g, k, x;
      case Property(_, _, _) =>
        err, g, k, x := WriteProperty(a, c, l, rs);
      case Subnode(name, body, rest) =>
        OutcomeSubnode(a.Length, StructAt(rs) + Len(l), c, t0);
        err := FdtBeginNode(a, name, l, rs);
        if err != 0 {
          return err, g, k, x;
        }
        ThenLen(l, Begin(name));
        ghost var b, r, k1;
        err, b, k1, x := WriteItems(a, body, Then(l, Begin(name)), rs);
        WrittenFits(a[..], k1, rs);
        ghost var t1 := Tail(a[..]);
        if err != 0 {
          return err, g, k1, x;
        }
        WroteSize(body, Then(l, Begin(name)), t0, b, k1, t1);
        ThenLen(k1, Close);
        err := FdtEndNode(a, k1, rs);
        if err != 0 {
          return err, g, k1, x;
        }
        err, r, k, x := WriteItems(a, rest, Then(k1, Close), rs);
        WrittenFits(a[..], k, rs);
        SuffixThen(t0, t1, Tail(a[..]));
        if err == 0 {
          g := Node(name, b, r);
          WroteSubnode(c, l, t0, b, k1, t1, r, k, Tail(a[..]));
        }
    }
  }

  /** A property and the items behind it. */
  method WriteProperty(a: array<byte>, c: Content, ghost l: Tokens, ghost rs: seq<Reservation>)
    returns (err: int, ghost g: Forest, ghost k: Tokens, ghost x: seq<byte>)
    requires Written(a[..], l, rs) && Callable(c) && c.Property?
    modifies a
    ensures Written(a[..], k, rs) && Suffix(old(Tail(a[..])), Tail(a[..]))
    ensures err == old(Outcome(a.Length, StructAt(rs) + Len(l), c, Tail(a[..])))
    ensures err == 0 ==> Wrote(c, l, old(Tail(a[..])), g, k, Tail(a[..]))
    ensures err == STRAYED ==> Strays(a[..], x) && |x| + 1 < INT_LIMIT
    decreases c, 0
  {
    hide Written, Suffix, CString, FromStart, Tail, Append, Flat, Get32, Then, TokenLen, Len, Put, HasString, Strays;
    hide Outcome, Wrote, ContentLen;
    g, k, x := Stop, l, c.name;
    WrittenFits(a[..], l, rs);
    ghost var t0 := Tail(a[..]);
    SuffixSelf(t0);
    OutcomeProperty(a.Length, StructAt(rs) + Len(l), c, t0);
    StraysIs(a[..], c.name);
    var ok := NameAccepted(a, c.name);
    if !ok {
      return STRAYED, g, k, x;
    }
    ghost var no;
    err, no := FdtProperty(a, c.name, c.value, l, rs);
    if err != 0 {
      return;
    }
    ghost var k1, t1 := Then(l, Prop(no, c.value)), Tail(a[..]);
    PropLen(l, no, c.value);
    WrittenFits(a[..], k1, rs);
    ghost var r;
    err, r, k, x := WriteItems(a, c.rest, k1, rs);
    WrittenFits(a[..], k, rs);
    SuffixThen(t0, t1, Tail(a[..]));
    if err == 0 {
      g := Leaf(Prop(no, c.value), r);
      WroteProperty(c, l, t0, no, k1, t1, r, k, Tail(a[..]));
    }
  }

  lemma WroteSize(c: Content, l: Tokens, t0: seq<byte>, g: Forest, k: Tokens, t: seq<byte>)
    requires Wrote(c, l, t0, g, k, t)
    ensures t == TailAfter(c, t0) && Len(k) == Len(l) + ContentLen(c)
  {
  }

  lemma WroteProperty(c: Content, l: Tokens, t0: seq<byte>, no: u32, k1: Tokens, t1: seq<byte>, r: Forest, k: Tokens,
                      t: seq<byte>)
    requires c.Property? && k1 == Then(l, Prop(no, c.value)) && t1 == Put(t0, c.name)
    requires CString(t1, FromStart(no, |t1|)) == Some(c.name) && Suffix(t1, t) && Wrote(c.rest, k1, t1, r, k, t)
    ensures Wrote(c, l, t0, Leaf(Prop(no, c.value), r), k, t)
  {
    hide Suffix, CString, FromStart, EndMeans, Append, Flat, Then, TokenLen, Len, Put;
    PropLen(l, no, c.value);
    PropertyMeans(no, c.value, r, t1, t, c.name, c.rest);
    LeafWritten(l, Prop(no, c.value), r);
  }

  lemma WroteSubnode(c: Content, l: Tokens, t0: seq<byte>, b: Forest, k1: Tokens, t1: seq<byte>, r: Forest, k: Tokens,
                     t: seq<byte>)
    requires c.Subnode? && Wrote(c.body, Then(l, Begin(c.name)), t0, b, k1, t1)
    requires Suffix(t1, t) && Wrote(c.rest, Then(k1, Close), t1, r, k, t)
    ensures Wrote(c, l, t0, Node(c.name, b, r), k, t)
  {
    hide Suffix, EndMeans, Append, Flat, Then, TokenLen, Len;
    ThenLen(l, Begin(c.name));
    ThenLen(k1, Close);
    SubnodeMeans(c.name, b, r, t1, t, c.body, c.rest);
    NodeAppended(l, c.name, b, r);
  }

  lemma ThenLen(l: Tokens, t: Token)
    ensures Len(Then(l, t)) == Len(l) + TokenLen(t) && TokenLen(Close) == 4
  {
    LenAppend(l, Cons(t, Nil));
    assert Len(Cons(t, Nil)) == TokenLen(t);
  }

  lemma PropLen(l: Tokens, no: u32, v: seq<byte>)
    ensures Len(Then(l, Prop(no, v))) == Len(l) + TokenLen(Prop(0, v))
  {
    ThenLen(l, Prop(no, v));
  }

  lemma WrittenFits(b: seq<byte>, l: Tokens, rs: seq<Reservation>)
    requires Written(b, l, rs)
    ensures Buffer(b) && SizeStrings(b) <= |b| && StructAt(rs) + Len(l) + |Tail(b)| <= |b|
    ensures StructAt(rs) + Len(l) >= 0 && |Tail(b)| == SizeStrings(b)
  {
    hide Get32, Reads, TokensNamed, Reservations;
  }

  lemma StraysIs(b: seq<byte>, name: seq<byte>)
    requires Buffer(b) && SizeStrings(b) <= |b|
    ensures Strays(b, name) <==> !HasString(Tail(b), name) && |Tail(b)| + |name| + 1 > |b|
  {
    hide Get32, HasString;
  }

  lemma NothingWritten(room: int, used: int, l: Tokens, t: seq<byte>)
    requires used + |t| <= room
    ensures Outcome(room, used, Done, t) == 0 && Wrote(Done, l, t, Stop, l, t)
  {
    AppendNil(l);
  }

  lemma LeafWritten(l: Tokens, t: Leafy, r: Forest)
    ensures Append(Then(l, t), Flat(r)) == Append(l, Flat(Leaf(t, r)))
  {
    AppendAssoc(l, Cons(t, Nil), Flat(r));
    ConsAppend(t, Flat(r));
  }

  lemma NodeAppended(l: Tokens, n: seq<byte>, b: Forest, r: Forest)
    ensures Append(Then(Append(Then(l, Begin(n)), Flat(b)), Close), Flat(r)) == Append(l, Flat(Node(n, b, r)))
  {
    var x, y := Cons(Begin(n), Nil), Cons(Close, Nil);
    AppendAssoc(Append(Append(l, x), Flat(b)), y, Flat(r));
    AppendAssoc(Append(l, x), Flat(b), Append(y, Flat(r)));
    AppendAssoc(l, x, Append(Flat(b), Append(y, Flat(r))));
    ConsAppend(Close, Flat(r));
    ConsAppend(Begin(n), Append(Flat(b), Cons(Close, Flat(r))));
  }

  /** The finished blob of a rooted tree. */
  lemma FinishedMeans(b: seq<byte>, rs: seq<Reservation>, f: Forest, t: seq<byte>, c: Content)
    requires Finished(b, rs, Flat(f), t) && Rooted(f) && EndMeans(f, t, c)
    ensures WellFormed(b) && TreeOf(b) == c && Reserved(b) == Heeded(rs) && Stored(b) == RelocForest(f, |t|)
    ensures TotalSize(b) == StructAt(rs) + Len(Flat(f)) + 4 + |t|
  {
    hide Get32, Reservations, Spelled, Decode, Flat, Meaning, Reloc, Struct, Strings, InOrder;
    RelocFlat(f, |t|);
    RelocRooted(f, |t|);
    ReadableFrom(b, RelocForest(f, |t|));
  }

  lemma RelocRooted(f: Forest, z: nat)
    requires Rooted(f)
    ensures Rooted(RelocForest(f, z))
  {
    RelocNops(f.rest, z);
  }

  lemma {:induction false} RelocNops(f: Forest, z: nat)
    requires OnlyNops(f)
    ensures OnlyNops(RelocForest(f, z))
    decreases f
  {
    if f.Leaf? { RelocNops(f.rest, z); }
  }

  /** The calls that write the reservations and end them. */
  method WriteReservations(a: array<byte>, rs: seq<Reservation>) returns (err: int)
    requires Reserving(a[..], [])
    modifies a
    ensures err == if StructAt(rs) <= a.Length then 0 else NOSPACE
    ensures err == 0 ==> Written(a[..], Nil, rs) && Tail(a[..]) == []
  {
    hide Get32, EntriesAt, Written;
    for i := 0 to |rs|
      invariant Reserving(a[..], rs[..i])
    {
      err := FdtAddReservemapEntry(a, rs[i], rs[..i]);
      if err != 0 {
        return;
      }
      assert rs[..i] + [rs[i]] == rs[..i + 1];
    }
    assert rs[..|rs|] == rs;
    err := FdtFinishReservemap(a, rs);
  }

  /** The same for a whole blob: the reservation block, the tree and the END tag. */
  ghost function BlobOutcome(room: int, rs: seq<Reservation>, tree: Content): int {
    if StructAt(rs) > room then NOSPACE
    else if Outcome(room, StructAt(rs), tree, []) != 0 then Outcome(room, StructAt(rs), tree, [])
    else if Footprint(StructAt(rs) + 4, tree, []) > room then NOSPACE
    else 0
  }

  /** It is success exactly when everything fits, and astray exactly when the calls come to a name that strays. */
  lemma BlobOutcomes(room: int, rs: seq<Reservation>, tree: Content)
    ensures BlobOutcome(room, rs, tree) == 0 <==> Footprint(StructAt(rs) + 4, tree, []) <= room
    ensures BlobOutcome(room, rs, tree) == STRAYED <==>
            StructAt(rs) <= room && ComesToStray(room, StructAt(rs), tree, [])
    ensures BlobOutcome(room, rs, tree) in {0, STRAYED, NOSPACE}
  {
    hide ComesToStray;
    FootprintGrows(StructAt(rs) + 4, tree, []);
    if StructAt(rs) <= room && ComesToStray(room, StructAt(rs), tree, []) {
      StrayExceeds(room, StructAt(rs), tree, []);
    }
  }

  /**
  The round trip.  For every tree, reservation list and buffer, the calls create, reservations,
  begin/property/end in tree order and finish come to one of three ends.  All succeed exactly when the blob
  fits; it then reads back as exactly that tree, and as those reservations exactly when none has size zero.
  They come to a straying name exactly when everything in front of it fits; the next call would copy that
  name in front of the buffer, and is not made here.  Else one of them returns NOSPACE.
  */
  method BuildTree(a: array<byte>, rs: seq<Reservation>, name: seq<byte>, body: Content)
    returns (err: int, ghost x: seq<byte>)
    requires a.Length < INT_LIMIT && Callable(Subnode(name, body, Done))
    modifies a
    ensures err == 0 <==> Footprint(StructAt(rs) + 4, Subnode(name, body, Done), []) <= a.Length
    ensures err == STRAYED <==>
            StructAt(rs) <= a.Length && ComesToStray(a.Length, StructAt(rs), Subnode(name, body, Done), [])
    ensures err != 0 && err != STRAYED ==> err == NOSPACE
    ensures err == 0 ==> WellFormed(a[..]) && TreeOf(a[..]) == Subnode(name, body, Done)
    ensures err == 0 ==> TotalSize(a[..]) == Footprint(StructAt(rs) + 4, Subnode(name, body, Done), [])
    ensures err == 0 ==> Reserved(a[..]) == Heeded(rs) && (Reserved(a[..]) == rs <==> AllSized(rs))
    ensures err == STRAYED ==>
              && Buffer(a[..]) && SizeStrings(a[..]) <= a.Length && Strays(a[..], x)
              && CopyPlace(a[..], x).Some? && CopyPlace(a[..], x).value < 0
  {
    hide Written, Suffix, EndMeans, Tail, Append, Flat, Reserving, Finished, WellFormed, Get32, Rooted, TreeOf,
         Reserved, Len, ContentLen, TailAfter, Heeded, AllSized, ComesToStray, Strays, CopyPlace;
    x := [];
    var tree := Subnode(name, body, Done);
    HeededAll(rs);
    BlobOutcomes(a.Length, rs, tree);
    err := FdtCreate(a);
    if err != 0 {
      return;
    }
    err := WriteReservations(a, rs);
    if err != 0 {
      return;
    }
    ghost var g, k;
    NoTokens();
    err, g, k, x := WriteItems(a, tree, Nil, rs);
    WrittenFits(a[..], k, rs);
    if err != 0 {
      if err == STRAYED { StraysExactly(a[..], k, rs, x); }
      return;
    }
    ghost var t := Tail(a[..]);
    err := FdtFinish(a, k, rs);
    if err == 0 {
      OneRoot(g);
      FinishedMeans(a[..], rs, g, t, tree);
    }
  }

  lemma NoTokens()
    ensures Len(Nil) == 0
  {
  }

  lemma OneRoot(g: Forest)
    requires g.Node? && g.rest.Stop?
    ensures Append(Nil, Flat(g)) == Flat(g) && Rooted(g)
  {
  }
}
