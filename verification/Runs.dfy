/** Arbitrary runs of the sequential writer: which calls succeed, what they leave, and that the blocks never meet. */
module Runs {
  import opened Words
  import opened Tokens
  import opened Tree
  import opened Blob
  import opened Edit
  import opened Writer
  import opened RoundTrip

  /** A call of the writer after the reservation block is finished. */
  datatype Call = BeginNode(name: seq<byte>) | EndNode | PutProperty(name: seq<byte>, value: seq<byte>)

  predicate CallFits(c: Call) {
    match c
    case BeginNode(n) => NulFree(n) && |n| + 12 < INT_LIMIT
    case EndNode => true
    case PutProperty(n, v) => NulFree(n) && |n| + 1 < INT_LIMIT && |v| + 16 < INT_LIMIT
  }

  /** The token that a call adds; the name offset of a property is left open. */
  ghost function CallToken(c: Call): Token {
    match c
    case BeginNode(n) => Begin(n)
    case EndNode => Close
    case PutProperty(_, v) => Prop(0, v)
  }

  /** What the outcome of a call depends on: the bytes of reservations and structure, and the strings. */
  datatype Progress = Progress(used: int, tail: seq<byte>)

  ghost predicate Astray(room: int, s: Progress, c: Call) {
    c.PutProperty? && !HasString(s.tail, c.name) && |s.tail| + |c.name| + 1 > room
  }

  /** The strings with the name of the call, if it has one. */
  ghost function WithName(s: Progress, c: Call): seq<byte> {
    if c.PutProperty? then Put(s.tail, c.name) else s.tail
  }

  /** The call succeeds. */
  ghost predicate Taken(room: int, s: Progress, c: Call) {
    s.used + TokenLen(CallToken(c)) + |WithName(s, c)| <= room
  }

  /** A call that fails may still leave its name in the strings. */
  ghost function After(room: int, s: Progress, c: Call): Progress {
    Progress(if Taken(room, s, c) then s.used + TokenLen(CallToken(c)) else s.used,
             if s.used + |WithName(s, c)| <= room then WithName(s, c) else s.tail)
  }

  /** The calls, up to one that goes astray, and which of them succeed. */
  ghost function Played(room: int, s: Progress, calls: seq<Call>): (Progress, seq<Call>, nat)
    decreases |calls|
  {
    if calls == [] || Astray(room, s, calls[0]) then (s, [], 0)
    else
      var (e, done, n) := Played(room, After(room, s, calls[0]), calls[1..]);
      (e, (if Taken(room, s, calls[0]) then [calls[0]] else []) + done, n + 1)
  }

  /** The tokens are those of the calls, with the names read in the strings `t` from the end. */
  ghost predicate Tells(d: Tokens, calls: seq<Call>, t: seq<byte>)
    decreases d
  {
    if d.Nil? then calls == []
    else calls != [] && TellsOne(d.head, calls[0], t) && Tells(d.tail, calls[1..], t)
  }

  ghost predicate TellsOne(d: Token, c: Call, t: seq<byte>) {
    match d
    case Begin(n) => c == BeginNode(n)
    case Close => c == EndNode
    case Prop(no, v) =>
      c.PutProperty? && c.value == v && CString(t, FromStart(no, |t|)) == Some(c.name)
    case Nop => false
  }

  /** Names put in front change nothing that has been told. */
  lemma {:induction false} TellsGrows(d: Tokens, calls: seq<Call>, t: seq<byte>, u: seq<byte>)
    requires Tells(d, calls, t) && Suffix(t, u)
    ensures Tells(d, calls, u)
    decreases d
  {
    hide Suffix, CString, FromStart;
    if d.Cons? {
      if d.head.Prop? { EndString(t, u, d.head.nameoff); }
      TellsGrows(d.tail, calls[1..], t, u);
    }
  }

  lemma {:induction false} TellsThen(d: Tokens, calls: seq<Call>, t: seq<byte>, x: Token, c: Call)
    requires Tells(d, calls, t) && TellsOne(x, c, t)
    ensures Tells(Then(d, x), calls + [c], t)
    decreases d
  {
    hide TellsOne;
    if d.Cons? {
      TellsThen(d.tail, calls[1..], t, x, c);
      assert (calls + [c])[0] == calls[0] && (calls + [c])[1..] == calls[1..] + [c];
    }
  }

  lemma PlayedStep(room: int, s: Progress, calls: seq<Call>, i: nat)
    requires i < |calls|
    ensures Astray(room, s, calls[i]) ==> Played(room, s, calls[i..]) == (s, [], 0)
    ensures !Astray(room, s, calls[i]) ==>
              var (e, done, n) := Played(room, After(room, s, calls[i]), calls[i + 1..]);
              Played(room, s, calls[i..]) == (e, (if Taken(room, s, calls[i]) then [calls[i]] else []) + done, n + 1)
  {
    hide Astray, After, Taken;
    assert calls[i..][0] == calls[i] && calls[i..][1..] == calls[i + 1..];
  }

  /** The calls that write a list of items. */
  ghost function CallsOf(c: Content): seq<Call> {
    match c
    case Done => []
    case Property(n, v, r) => [PutProperty(n, v)] + CallsOf(r)
    case Subnode(n, b, r) => [BeginNode(n)] + (CallsOf(b) + ([EndNode] + CallsOf(r)))
  }

  lemma TakenFirst(room: int, s: Progress, c: Call, rest: seq<Call>)
    requires Taken(room, s, c) && s.used >= 0
    ensures var (e, done, n) := Played(room, Progress(s.used + TokenLen(CallToken(c)), WithName(s, c)), rest);
            Played(room, s, [c] + rest) == (e, [c] + done, n + 1)
  {
    hide HasString, TokenLen, Put;
    TokenSize(CallToken(c));
    if c.PutProperty? { PutSize(s.tail, c.name); }
    assert ([c] + rest)[1..] == rest;
  }

  lemma Joins(a: seq<Call>, b: seq<Call>, c: seq<Call>)
    ensures a + (b + c) == a + b + c
  {
  }

  /** One call at a time and item by item the accounts agree: what fits is taken whole. */
  lemma {:induction false} FittingPlayed(room: int, s: Progress, c: Content, more: seq<Call>)
    requires Footprint(s.used, c, s.tail) <= room && s.used >= 0
    ensures var (e, done, n) := Played(room, Progress(s.used + ContentLen(c), TailAfter(c, s.tail)), more);
            Played(room, s, CallsOf(c) + more) == (e, CallsOf(c) + done, |CallsOf(c)| + n)
    decreases c, 1
  {
    match c
    case Done =>
      assert CallsOf(c) + more == more;
      var done := Played(room, s, more).1;
      assert CallsOf(c) + done == done;
    case Property(n, v, r) =>
      FittingProperty(room, s, c, more);
    case Subnode(n, b, r) =>
      FittingSubnode(room, s, c, more);
  }

  lemma {:induction false} FittingProperty(room: int, s: Progress, c: Content, more: seq<Call>)
    requires Footprint(s.used, c, s.tail) <= room && s.used >= 0 && c.Property?
    ensures var (e, done, n) := Played(room, Progress(s.used + ContentLen(c), TailAfter(c, s.tail)), more);
            Played(room, s, CallsOf(c) + more) == (e, CallsOf(c) + done, |CallsOf(c)| + n)
    decreases c, 0
  {
    hide Played, TokenLen, Put;
    var x, xs := PutProperty(c.name, c.value), CallsOf(c.rest);
    var s1 := Progress(s.used + TokenLen(Prop(0, c.value)), Put(s.tail, c.name));
    FootprintGrows(s1.used, c.rest, s1.tail);
    TokenSize(Prop(0, c.value));
    TakenFirst(room, s, x, xs + more);
    FittingPlayed(room, s1, c.rest, more);
    Joins([x], xs, more);
    Joins([x], xs, Played(room, Progress(s.used + ContentLen(c), TailAfter(c, s.tail)), more).1);
  }

  lemma {:induction false} FittingSubnode(room: int, s: Progress, c: Content, more: seq<Call>)
    requires Footprint(s.used, c, s.tail) <= room && s.used >= 0 && c.Subnode?
    ensures var (e, done, n) := Played(room, Progress(s.used + ContentLen(c), TailAfter(c, s.tail)), more);
            Played(room, s, CallsOf(c) + more) == (e, CallsOf(c) + done, |CallsOf(c)| + n)
    decreases c, 0
  {
    hide Played, TokenLen;
    var x, bs, xs := BeginNode(c.name), CallsOf(c.body), CallsOf(c.rest);
    var s1 := Progress(s.used + TokenLen(Begin(c.name)), s.tail);
    var s2 := Progress(s1.used + ContentLen(c.body), TailAfter(c.body, s.tail));
    var s3 := Progress(s2.used + 4, s2.tail);
    TokenSize(Begin(c.name));
    CloseSize();
    FootprintGrows(s3.used, c.rest, s3.tail);
    FootprintGrows(s1.used, c.body, s1.tail);
    TakenFirst(room, s, x, bs + ([EndNode] + (xs + more)));
    FittingPlayed(room, s1, c.body, [EndNode] + (xs + more));
    TakenFirst(room, s2, EndNode, xs + more);
    FittingPlayed(room, s3, c.rest, more);
    Nested(x, bs, xs, more);
    Nested(x, bs, xs, Played(room, Progress(s3.used + ContentLen(c.rest), TailAfter(c.rest, s3.tail)), more).1);
  }

  lemma CloseSize()
    ensures TokenLen(Close) == 4
  {
  }

  lemma Nested(x: Call, bs: seq<Call>, xs: seq<Call>, more: seq<Call>)
    ensures [x] + (bs + ([EndNode] + xs)) + more == [x] + (bs + ([EndNode] + (xs + more)))
  {
  }

  /**
  One call.  It succeeds exactly when it is `Taken`, and adds its token then.
  */
  method PlayOne(a: array<byte>, c: Call, ghost k: Tokens, ghost rs: seq<Reservation>)
    returns (astray: bool, ghost k1: Tokens, ghost x: Token)
    requires Written(a[..], k, rs) && CallFits(c)
    modifies a
    ensures Written(a[..], k1, rs) && Suffix(old(Tail(a[..])), Tail(a[..]))
    ensures var s := Progress(StructAt(rs) + Len(k), old(Tail(a[..])));
            && astray == Astray(a.Length, s, c)
            && (astray ==> k1 == k && a[..] == old(a[..]))
            && (!astray ==>
                && Progress(StructAt(rs) + Len(k1), Tail(a[..])) == After(a.Length, s, c)
                && if Taken(a.Length, s, c) then k1 == Then(k, x) && TellsOne(x, c, Tail(a[..])) else k1 == k)
  {
    hide Written, Suffix, Tail, Get32, Then, Len, TokenLen, FromStart, CString, Put, Strays, HasString;
    k1, x, astray := k, Close, false;
    WrittenFits(a[..], k, rs);
    SuffixSelf(Tail(a[..]));
    match c {
      case BeginNode(name) =>
        ThenLen(k, Begin(name));
        var err := FdtBeginNode(a, name, k, rs);
        if err == 0 { x, k1 := Begin(name), Then(k, Begin(name)); }
      case EndNode =>
        ThenLen(k, Close);
        var err := FdtEndNode(a, k, rs);
        if err == 0 { k1 := Then(k, Close); }
      case PutProperty(name, value) =>
        StraysIs(a[..], name);
        var ok := NameAccepted(a, name);
        if !ok {
          return true, k, x;
        }
        var err;
        ghost var no;
        err, no := FdtProperty(a, name, value, k, rs);
        PropLen(k, no, value);
        if err == 0 { x, k1 := Prop(no, value), Then(k, Prop(no, value)); }
    }
    WrittenFits(a[..], k1, rs);
  }

  /**
  Any run of calls, in any order, nested or not, with failures ignored, up to a call whose name strays.
  Which calls succeed is arithmetic on sizes and names (`Played`): the tokens added are those of the calls
  that do, in order, and nothing else.  As after every call, the two blocks lie inside the buffer and apart.
  */
  method Run(a: array<byte>, calls: seq<Call>, ghost l: Tokens, ghost rs: seq<Reservation>)
    returns (n: nat, ghost k: Tokens, ghost d: Tokens)
    requires Written(a[..], l, rs) && forall i :: 0 <= i < |calls| ==> CallFits(calls[i])
    modifies a
    ensures Written(a[..], k, rs) && Suffix(old(Tail(a[..])), Tail(a[..]))
    ensures HEADER <= OffStruct(a[..])
            && OffStruct(a[..]) + SizeStruct(a[..]) <= a.Length - SizeStrings(a[..]) <= a.Length
    ensures var (e, done, m) := Played(a.Length, Progress(StructAt(rs) + Len(l), old(Tail(a[..]))), calls);
            && k == Append(l, d) && Tells(d, done, Tail(a[..])) && n == m
            && e == Progress(StructAt(rs) + Len(k), Tail(a[..]))
    ensures calls != [] && calls[0].PutProperty? && old(Strays(a[..], calls[0].name)) ==> n == 0
    ensures n <= |calls| && (n < |calls| ==> calls[n].PutProperty? && Strays(a[..], calls[n].name))
  {
    hide Written, Suffix, Tail, Get32, Then, Len, TokenLen, FromStart, CString, Put, Strays, HasString;
    hide Played, After, Taken, Tells, TellsOne, Append;
    k, d, n := l, Nil, 0;
    WrittenFits(a[..], k, rs);
    ghost var t := Tail(a[..]);
    ghost var s := Progress(StructAt(rs) + Len(l), t);
    ghost var (e, done, m) := Played(a.Length, s, calls);
    ghost var kept: seq<Call> := [];
    SuffixSelf(t);
    RunStart(l, t, calls);
    if calls != [] {
      PlayedStep(a.Length, s, calls, 0);
      if calls[0].PutProperty? { StraysIs(a[..], calls[0].name); }
    }
    while n < |calls|
      invariant 0 <= n <= |calls| && Written(a[..], k, rs) && Buffer(a[..]) && SizeStrings(a[..]) <= a.Length
      invariant Suffix(t, Tail(a[..])) && k == Append(l, d) && Tells(d, kept, Tail(a[..]))
      invariant s == Progress(StructAt(rs) + Len(k), Tail(a[..]))
      invariant var (e1, done1, m1) := Played(a.Length, s, calls[n..]);
                e == e1 && done == kept + done1 && m == n + m1
    {
      assert CallFits(calls[n]);
      PlayedStep(a.Length, s, calls, n);
      ghost var u := Tail(a[..]);
      ghost var k1, x;
      var astray;
      astray, k1, x := PlayOne(a, calls[n], k, rs);
      if astray {
        StraysIs(a[..], calls[n].name);
        assert kept + [] == kept;
        BlocksApart(a[..], k, rs);
        return;
      }
      WrittenFits(a[..], k1, rs);
      SuffixThen(t, u, Tail(a[..]));
      TellsGrows(d, kept, u, Tail(a[..]));
      if Taken(a.Length, s, calls[n]) {
        TellsThen(d, kept, Tail(a[..]), x, calls[n]);
        ThenAppend(l, d, x);
        d := Then(d, x);
        Regroup(kept, calls[n], Played(a.Length, After(a.Length, s, calls[n]), calls[n + 1..]).1);
        kept := kept + [calls[n]];
      } else {
        NoneAdded(Played(a.Length, After(a.Length, s, calls[n]), calls[n + 1..]).1);
      }
      k, s, n := k1, After(a.Length, s, calls[n]), n + 1;
    }
    PlayedOut(a.Length, s, calls);
    assert kept + [] == kept;
    BlocksApart(a[..], k, rs);
  }

  lemma RunStart(l: Tokens, t: seq<byte>, calls: seq<Call>)
    ensures l == Append(l, Nil) && Tells(Nil, [], t) && calls[0..] == calls
    ensures forall done: seq<Call> :: [] + done == done
  {
    AppendNil(l);
  }

  lemma ThenAppend(l: Tokens, d: Tokens, x: Token)
    ensures Then(Append(l, d), x) == Append(l, Then(d, x))
  {
    AppendAssoc(l, d, Cons(x, Nil));
  }

  lemma Regroup(kept: seq<Call>, c: Call, done: seq<Call>)
    ensures kept + ([c] + done) == kept + [c] + done
  {
  }

  lemma NoneAdded(done: seq<Call>)
    ensures [] + done == done
  {
  }

  lemma PlayedOut(room: int, s: Progress, calls: seq<Call>)
    ensures Played(room, s, calls[|calls|..]) == (s, [], 0)
  {
  }
}
