/**
The subdriver state machine of the PCIe driver: which nodes of a device tree get a subdriver, and what
the state file and the base_dtb file do to the list of subdrivers.
*/
module Subdrivers {
  import opened Errno
  import opened Literals
  import opened Words
  import opened Tokens
  import opened Structure
  import opened Tokenizer
  import opened Walk
  import opened Tree
  import opened Blob
  import opened Queries
  import opened Ancestors
  import opened PathOf
  import opened GetPath
  import opened Properties
  import opened Edit
  import opened EditMore

  /** "altr,pr-ip-core" with its terminator: the one entry of the driver table. */
  const DRIVER_ID: seq<byte> := [97, 108, 116, 114, 44, 112, 114, 45, 105, 112, 45, 99, 111, 114, 101, 0]
  const COMPATIBLE: seq<byte> := [99, 111, 109, 112, 97, 116, 105, 98, 108, 101]
  const REG: seq<byte> := [114, 101, 103]
  const NUM_BARS := 6

  lemma NamesSpelled()
    ensures DRIVER_ID == Ascii("altr,pr-ip-core") + [0]
    ensures COMPATIBLE == Ascii("compatible") && REG == Ascii("reg")
  {
  }

  /** `fpga_drv_lookup`: `strcmp` with the table entry, on the bytes of the blob from `at` on. */
  method FpgaDrvLookup(b: seq<byte>, at: int) returns (r: bool)
    requires 0 <= at
    ensures r == Spells(b, at, DRIVER_ID)
    ensures r <==> CString(b, at) == Some(Ascii("altr,pr-ip-core"))
  {
    StringThere(b, at);
    for i := 0 to |DRIVER_ID|
      invariant i > 0 ==> at + i <= |b|
      invariant forall k {:trigger DRIVER_ID[k]} :: 0 <= k < i ==> b[at + k] == DRIVER_ID[k]
    {
      if at + i >= |b| || b[at + i] != DRIVER_ID[i] {
        return false;
      }
    }
    return true;
  }

  lemma StringThere(b: seq<byte>, at: int)
    requires 0 <= at
    ensures Spells(b, at, DRIVER_ID) <==> CString(b, at) == Some(Ascii("altr,pr-ip-core"))
  {
    NamesSpelled();
    var x := Ascii("altr,pr-ip-core");
    if Spells(b, at, DRIVER_ID) {
      SpelledString(b, at, x);
    }
    if CString(b, at) == Some(x) {
      var y := x + [0];
      assert forall k {:trigger y[k]} :: 0 <= k < |y| ==> b[at + k] == y[k];
    }
  }

  /** Where the property that `q` leads to is stored, as an index into the blob. */
  ghost function DataAt(b: seq<byte>, p: Pos, o: int, q: Pos): int
    requires NodeAt(b, p, o) && Valid(At(Stored(b), p).body, q)
  {
    OffStruct(b) + o + TokenLen(Begin(At(Stored(b), p).name)) + Off(At(Stored(b), p).body, q) + 12
  }

  /** The node has a compatible string that the driver table knows. */
  ghost predicate Known(b: seq<byte>, p: Pos, o: int)
    requires NodeAt(b, p, o)
  {
    match Sought(b, p, COMPATIBLE)
    case None => false
    case Some(q) => Valid(At(Stored(b), p).body, q) && Spells(b, DataAt(b, p, o, q), DRIVER_ID)
  }

  /** The address that the node's reg property gives, if it has three cells and names a mapped BAR. */
  ghost function Mapped(b: seq<byte>, p: Pos, o: int, bars: seq<int>): Option<int>
    requires NodeAt(b, p, o) && |bars| == NUM_BARS
  {
    match Sought(b, p, REG)
    case None => None
    case Some(q) =>
      if !IsProp(At(Stored(b), p).body, q) then None
      else
        var v := At(At(Stored(b), p).body, q).item.value;
        if |v| == 12 && Get32(v, 0) < NUM_BARS && bars[Get32(v, 0)] != 0 then Some(bars[Get32(v, 0)] + Get32(v, 4))
        else None
  }

  /** The address at which the node's subdriver is to be probed, if it gets one. */
  ghost function Candidate(b: seq<byte>, p: Pos, o: int, bars: seq<int>): Option<int>
    requires NodeAt(b, p, o) && |bars| == NUM_BARS
  {
    if Known(b, p, o) then Mapped(b, p, o, bars) else None
  }

  /** Every listed node is a node of the stored forest. */
  lemma NodeListed(b: seq<byte>, i: int) returns (p: Pos)
    requires Readable(b) && 0 <= i < |AllNodes(b)|
    ensures NodeAt(b, p, Tip(AllNodes(b)[i]))
  {
    hide Decode, Named, Rooted, Off, Nodes, TrailTo;
    var f := Stored(b);
    p := Unlisted(f, 0, [OUTSIDE], i);
    TrailIsChain(f, 0, p, [OUTSIDE], Depth(p));
    AncestorSelf(p);
  }

  lemma PlaceExists(b: seq<byte>, i: int)
    requires Readable(b) && 0 <= i < |AllNodes(b)|
    ensures exists p :: NodeAt(b, p, Tip(AllNodes(b)[i]))
  {
    var p := NodeListed(b, i);
  }

  /** The place of the `i`-th node in pre-order. */
  ghost function PlaceOf(b: seq<byte>, i: int): (p: Pos)
    requires Readable(b) && 0 <= i < |AllNodes(b)|
    ensures NodeAt(b, p, Tip(AllNodes(b)[i]))
  {
    PlaceExists(b, i);
    var p :| NodeAt(b, p, Tip(AllNodes(b)[i]));
    p
  }

  /** What the `i`-th node asks for. */
  ghost function Wish(b: seq<byte>, bars: seq<int>, i: int): Option<int>
    requires Readable(b) && |bars| == NUM_BARS && 0 <= i < |AllNodes(b)|
  {
    Candidate(b, PlaceOf(b, i), Tip(AllNodes(b)[i]), bars)
  }

  /** Every node is asked, once; the root, and it alone, is the node of index 0. */
  lemma EveryNodeAsked(b: seq<byte>, bars: seq<int>, p: Pos, o: int) returns (i: int)
    requires NodeAt(b, p, o) && |bars| == NUM_BARS
    ensures 0 <= i < |AllNodes(b)| && Wish(b, bars, i) == Candidate(b, p, o, bars) && (i == 0 <==> p.Here?)
    ensures forall j :: 0 <= j < |AllNodes(b)| && j != i ==> PlaceOf(b, j) != p
  {
    hide Decode, Named, Off, Nodes, TrailTo, Candidate;
    i := VisitedOnce(b, p, o);
    OffInjective(Stored(b), PlaceOf(b, i), p);
    WholeWalk(b);
    HereOff(Stored(b));
    if i == 0 { OffInjective(Stored(b), Here, p); }
  }

  /** The addresses to probe, in pre-order, from the `i`-th node on. */
  ghost function Wanted(b: seq<byte>, bars: seq<int>, i: int): seq<int>
    requires Readable(b) && |bars| == NUM_BARS && 0 <= i <= |AllNodes(b)|
    decreases |AllNodes(b)| - i
  {
    if i == |AllNodes(b)| then []
    else (match Wish(b, bars, i) case Some(a) => [a] case None => []) + Wanted(b, bars, i + 1)
  }

  /**
  `at[k]` is the index of the node that the `k`-th address is for; the indices rise, and no node from the
  `i`-th on that asks for an address is left out.
  */
  ghost predicate Picks(b: seq<byte>, bars: seq<int>, i: int, at: seq<int>, addrs: seq<int>)
    requires Readable(b) && |bars| == NUM_BARS
  {
    && |at| == |addrs|
    && (forall k :: 0 <= k < |at| ==>
          i <= at[k] < |AllNodes(b)| && 0 <= at[k] && Wish(b, bars, at[k]) == Some(addrs[k]))
    && (forall j, k :: 0 <= j < k < |at| ==> at[j] < at[k])
    && forall j :: i <= j < |AllNodes(b)| && 0 <= j && Wish(b, bars, j).Some? ==> j in at
  }

  /** The addresses to probe are those of all nodes that ask for one, in order. */
  lemma {:induction false} WantedAll(b: seq<byte>, bars: seq<int>, i: int) returns (at: seq<int>)
    requires Readable(b) && |bars| == NUM_BARS && 0 <= i <= |AllNodes(b)|
    ensures Picks(b, bars, i, at, Wanted(b, bars, i))
    decreases |AllNodes(b)| - i
  {
    hide Wish, AllNodes, Readable, Wanted, Picks;
    if i == |AllNodes(b)| {
      at := [];
      PicksNone(b, bars);
    } else {
      at := WantedAll(b, bars, i + 1);
      WantedOne(b, bars, i);
      PicksOne(b, bars, i, at, Wanted(b, bars, i + 1));
      if Wish(b, bars, i).Some? { at := [i] + at; }
    }
  }

  lemma PicksNone(b: seq<byte>, bars: seq<int>)
    requires Readable(b) && |bars| == NUM_BARS
    ensures Picks(b, bars, |AllNodes(b)|, [], Wanted(b, bars, |AllNodes(b)|))
  {
    hide Wish, AllNodes, Readable;
  }

  lemma PicksOne(b: seq<byte>, bars: seq<int>, i: int, at: seq<int>, addrs: seq<int>)
    requires Readable(b) && |bars| == NUM_BARS && 0 <= i < |AllNodes(b)| && Picks(b, bars, i + 1, at, addrs)
    ensures Wish(b, bars, i).None? ==> Picks(b, bars, i, at, addrs)
    ensures Wish(b, bars, i).Some? ==> Picks(b, bars, i, [i] + at, [Wish(b, bars, i).value] + addrs)
  {
    hide Wish, AllNodes, Readable;
  }

  lemma WantedOne(b: seq<byte>, bars: seq<int>, i: int)
    requires Readable(b) && |bars| == NUM_BARS && 0 <= i < |AllNodes(b)|
    ensures Wish(b, bars, i).None? ==> Wanted(b, bars, i) == Wanted(b, bars, i + 1)
    ensures Wish(b, bars, i).Some? ==> Wanted(b, bars, i) == [Wish(b, bars, i).value] + Wanted(b, bars, i + 1)
  {
    hide Wish, AllNodes, Readable;
  }

  /** The cells of a stored value, read from the blob. */
  lemma ValueCells(b: seq<byte>, off: int, t: Token)
    requires BlocksFit(b) && t.Prop? && |t.value| == 12 && TokenAt(Struct(b), off, t)
    ensures 0 <= off && OffStruct(b) + off + 24 <= |b|
    ensures Get32(b, OffStruct(b) + off + 12) == Get32(t.value, 0)
            && Get32(b, OffStruct(b) + off + 16) == Get32(t.value, 4)
  {
    hide Get32;
    BufferSpells(b, off + 12, t.value);
    var at, v := OffStruct(b) + off + 12, t.value;
    assert v[0] == b[at + 0] && v[1] == b[at + 1] && v[2] == b[at + 2] && v[3] == b[at + 3];
    assert v[4] == b[at + 4] && v[5] == b[at + 5] && v[6] == b[at + 6] && v[7] == b[at + 7];
    CellsAgree(b, at, v, 0);
    CellsAgree(b, at + 4, v, 4);
  }

  /** One turn of the probe loop, up to the decision: where to probe, or nowhere. */
  method Examine(b: seq<byte>, offset: int, bars: seq<int>, ghost p: Pos) returns (r: Option<int>)
    requires NodeAt(b, p, offset) && |bars| == NUM_BARS && CheckHeader(b) == 0
    ensures r == Candidate(b, p, offset, bars)
  {
    hide Decode, Named, Rooted, Get32, CheckNode, Struct, Strings, Sought, At, Off, TokenLen, Spells, TokenAt,
         CheckHeader;
    NodeFits(b, p, offset);
    var namelen, name := FdtGetName(b, offset);
    if namelen < 0 {
      return None;
    }
    var compat, len := FdtGetProperty(b, offset, COMPATIBLE, p);
    if compat < 0 {
      return None;
    }
    var offStruct := Load32(b, OFF_STRUCT);
    var known := FpgaDrvLookup(b, offStruct + compat + 12);
    if !known {
      return None;
    }
    var reg;
    reg, len := FdtGetProperty(b, offset, REG, p);
    if reg < 0 {
      return None;
    }
    if len != 12 {
      return None;
    }
    ValueCells(b, reg, At(At(Stored(b), p).body, Sought(b, p, REG).value).item);
    var bar := Load32(b, offStruct + reg + 12);
    var addr := Load32(b, offStruct + reg + 16);
    if bar < NUM_BARS && bars[bar] != 0 {
      return Some(bars[bar] + addr);
    }
    return None;
  }

  /** The driver's name starts at `at`, where the value `v` is stored: in the value, or running on behind it. */
  ghost predicate NamesDriver(b: seq<byte>, at: int, v: seq<byte>) {
    if |v| >= |DRIVER_ID| then v[..|DRIVER_ID|] == DRIVER_ID
    else v == DRIVER_ID[..|v|] && Spells(b, at + |v|, DRIVER_ID[|v|..])
  }

  /** Where the first leading property called `name` is stored, if there is one. */
  ghost function StoredAt(b: seq<byte>, p: Pos, o: int, name: seq<byte>): int
    requires NodeAt(b, p, o)
  {
    match Sought(b, p, name)
    case None => 0
    case Some(q) => if Valid(At(Stored(b), p).body, q) then DataAt(b, p, o, q) else 0
  }

  /**
  In terms of the tree: a compatible value that starts with the terminated driver name, and a mapped
  three-cell reg.  Only a value shorter than the name depends on the bytes stored behind it.
  */
  lemma CandidateMeans(b: seq<byte>, p: Pos, o: int, bars: seq<int>)
    requires NodeAt(b, p, o) && |bars| == NUM_BARS
    ensures var c := BodyOf(b, p, o);
            Candidate(b, p, o, bars) ==
            if !Has(c, COMPATIBLE) || !Has(c, REG) then None
            else
              var v := Lookup(c, REG);
              if && NamesDriver(b, StoredAt(b, p, o, COMPATIBLE), Lookup(c, COMPATIBLE))
                 && |v| == 12 && Get32(v, 0) < NUM_BARS && bars[Get32(v, 0)] != 0
              then Some(bars[Get32(v, 0)] + Get32(v, 4)) else None
  {
    hide Decode, Named, Rooted, Get32, Sought, BodyOf, Spells, Off, TokenLen, DataAt, NamesDriver;
    FoundValue(b, p, o, COMPATIBLE);
    FoundValue(b, p, o, REG);
    if Sought(b, p, COMPATIBLE).Some? {
      KnownMeans(b, p, o, Sought(b, p, COMPATIBLE).value);
    }
  }

  lemma KnownMeans(b: seq<byte>, p: Pos, o: int, q: Pos)
    requires NodeAt(b, p, o) && IsProp(At(Stored(b), p).body, q)
    ensures Spells(b, DataAt(b, p, o, q), DRIVER_ID) <==>
            NamesDriver(b, DataAt(b, p, o, q), At(At(Stored(b), p).body, q).item.value)
  {
    hide Decode, Named, Rooted, Get32, Off, TokenLen, Spells, TokenAt, NamesDriver;
    PropPlace(b, p, o, q);
    var t := At(At(Stored(b), p).body, q).item;
    var off := DataAt(b, p, o, q) - OffStruct(b) - 12;
    PropStoredAt(b, PropPos(p, q), off);
    StoredStarts(b, off, t);
  }

  lemma PropStoredAt(b: seq<byte>, r: Pos, off: int)
    requires Readable(b) && Valid(Stored(b), r) && At(Stored(b), r).Leaf? && off == Off(Stored(b), r)
    ensures TokenAt(Struct(b), off, At(Stored(b), r).item)
  {
    hide Decode, Named, Rooted, Off;
    OnwardSpelled(b, r);
  }

  lemma StoredStarts(b: seq<byte>, off: int, t: Token)
    requires BlocksFit(b) && t.Prop? && TokenAt(Struct(b), off, t)
    ensures Spells(b, OffStruct(b) + off + 12, DRIVER_ID) <==> NamesDriver(b, OffStruct(b) + off + 12, t.value)
  {
    hide Get32, NamesDriver;
    BufferSpells(b, off + 12, t.value);
    SameStart(b, OffStruct(b) + off + 12, t.value);
  }

  lemma SameStart(b: seq<byte>, at: int, v: seq<byte>)
    requires Spells(b, at, v)
    ensures Spells(b, at, DRIVER_ID) <==> NamesDriver(b, at, v)
  {
    hide Spells;
    if |v| >= |DRIVER_ID| {
      SpellsPart(b, at, v, |DRIVER_ID|);
      SpellsOnce(b, at, v[..|DRIVER_ID|], DRIVER_ID);
    } else {
      SpellsPart(b, at, DRIVER_ID, |v|);
      SpellsOnce(b, at, v, DRIVER_ID[..|v|]);
    }
  }

  /** A spelled string is spelled in two parts. */
  lemma SpellsPart(b: seq<byte>, at: int, v: seq<byte>, k: int)
    requires 0 <= k <= |v|
    ensures Spells(b, at, v) <==> Spells(b, at, v[..k]) && Spells(b, at + k, v[k..])
  {
    var x, y := v[..k], v[k..];
    if Spells(b, at, v) {
      assert forall i {:trigger x[i]} :: 0 <= i < |x| ==> b[at + i] == v[i] == x[i];
      assert forall i {:trigger y[i]} :: 0 <= i < |y| ==> b[at + k + i] == v[k + i] == y[i];
    }
    if Spells(b, at, x) && Spells(b, at + k, y) {
      forall i {:trigger v[i]} | 0 <= i < |v| ensures b[at + i] == v[i] {
        if i < k { assert x[i] == v[i]; } else { assert y[i - k] == v[i]; }
      }
    }
  }

  lemma SpellsOnce(b: seq<byte>, at: int, x: seq<byte>, y: seq<byte>)
    requires Spells(b, at, x) && |y| == |x|
    ensures Spells(b, at, y) <==> x == y
  {
    if Spells(b, at, y) {
      forall i | 0 <= i < |x| ensures x[i] == y[i] { assert y[i] == b[at + i]; }
    }
  }

  lemma FirstNode(b: seq<byte>) returns (es: seq<Trail>, l: Tokens)
    requires Readable(b)
    ensures es == AllNodes(b) && |es| > 0 && Tip(es[0]) == 0 && BlocksFit(b) && Cursor(Struct(b), es, NOTFOUND, 0, l)
  {
    hide Decode, Named, Cursor, Nodes, Standing;
    WholeWalk(b);
    es, l := AllNodes(b), Flat(Stored(b));
  }

  /** A step of the walk without a depth counter. */
  lemma UntrackedStep(s: seq<byte>, es: seq<Trail>, i: int, l: Tokens)
    requires Cursor(s, es, NOTFOUND, i, l)
    ensures 0 <= i < |es| && Tip(es[i]) >= 0 && Standing(s, Tip(es[i]), l)
    ensures var o := Tip(es[i]);
            var r := Found(Left(o, l), 0, false);
            var n := Seek(Left(o, l), Onset(o, l), 0, false).0;
            if i + 1 < |es|
            then r.Cons? && n == Tip(es[i + 1]) && n >= 0 && (Standing(s, n, r) ==> Cursor(s, es, NOTFOUND, i + 1, r))
            else n == NOTFOUND
  {
    hide Cursor, Standing, Seek, Found, Leave;
    CursorNext(s, es, NOTFOUND, i, l);
    CursorLeaves(s, es, i, l);
    SeekUntracked(l.tail, Last(es[i]).off + TokenLen(l.head), |es[i]| - 1, 0);
  }

  datatype Phase = Idle | AerDisabled | BaseProbed

  /** A probed subdriver: the number of its probe attempt and its register address. */
  datatype Fdev = Fdev(id: nat, addr: int)

  /** The successful attempts among `addrs`, when the first of them is attempt number `n`. */
  ghost function Successes(outcome: nat -> bool, n: nat, addrs: seq<int>): seq<Fdev>
    decreases |addrs|
  {
    if addrs == [] then [] else (if outcome(n) then [Fdev(n, addrs[0])] else []) + Successes(outcome, n + 1, addrs[1..])
  }

  /** The list after the attempts: each success is put in front. */
  ghost function Pushed(outcome: nat -> bool, n: nat, addrs: seq<int>, list: seq<Fdev>): seq<Fdev>
    decreases |addrs|
  {
    if addrs == [] then list
    else Pushed(outcome, n + 1, addrs[1..], if outcome(n) then [Fdev(n, addrs[0])] + list else list)
  }

  ghost function Reversed(s: seq<Fdev>): seq<Fdev> {
    if s == [] then [] else Reversed(s[1..]) + [s[0]]
  }

  /** So the list holds the successes in reverse order. */
  lemma {:induction false} PushedReverses(outcome: nat -> bool, n: nat, addrs: seq<int>, list: seq<Fdev>)
    ensures Pushed(outcome, n, addrs, list) == Reversed(Successes(outcome, n, addrs)) + list
    decreases |addrs|
  {
    if addrs != [] {
      var rest := Successes(outcome, n + 1, addrs[1..]);
      if outcome(n) {
        var d := Fdev(n, addrs[0]);
        PushedReverses(outcome, n + 1, addrs[1..], [d] + list);
        assert ([d] + rest)[1..] == rest;
        assert Reversed(rest) + [d] + list == Reversed(rest) + ([d] + list);
      } else {
        PushedReverses(outcome, n + 1, addrs[1..], list);
        assert [] + rest == rest;
      }
    }
  }

  /** Two batches of attempts, one after the other. */
  lemma {:induction false} SuccessesSplit(outcome: nat -> bool, n: nat, a: seq<int>, b: seq<int>)
    ensures Successes(outcome, n, a + b) == Successes(outcome, n, a) + Successes(outcome, n + |a|, b)
    decreases |a|
  {
    if a == [] {
      assert a + b == b;
    } else {
      assert (a + b)[0] == a[0] && (a + b)[1..] == a[1..] + b;
      SuccessesSplit(outcome, n + 1, a[1..], b);
      Regrouped(if outcome(n) then [Fdev(n, a[0])] else [],
                Successes(outcome, n + 1, a[1..]), Successes(outcome, n + |a|, b));
    }
  }

  lemma Regrouped(a: seq<Fdev>, b: seq<Fdev>, c: seq<Fdev>)
    ensures a + (b + c) == a + b + c
  {
  }

  /** The batches one after the other. */
  ghost function Joined(bs: seq<seq<Fdev>>): seq<Fdev> {
    if bs == [] then [] else Joined(bs[..|bs| - 1]) + bs[|bs| - 1]
  }

  /** The batches one after the other, each last in, first out. */
  ghost function Unwound(bs: seq<seq<Fdev>>): seq<Fdev> {
    if bs == [] then [] else Unwound(bs[..|bs| - 1]) + Reversed(bs[|bs| - 1])
  }

  lemma OneBatchMore(bs: seq<seq<Fdev>>, x: seq<Fdev>)
    ensures Joined(bs + [x]) == Joined(bs) + x && Unwound(bs + [x]) == Unwound(bs) + Reversed(x)
  {
    assert (bs + [x])[..|bs|] == bs;
  }

  lemma {:induction false} ReversedSame(s: seq<Fdev>)
    ensures multiset(Reversed(s)) == multiset(s)
    decreases |s|
  {
    if s != [] {
      ReversedSame(s[1..]);
      assert s == [s[0]] + s[1..];
    }
  }

  /** Unwinding loses and repeats nothing. */
  lemma {:induction false} UnwoundSame(bs: seq<seq<Fdev>>)
    ensures multiset(Unwound(bs)) == multiset(Joined(bs))
    decreases |bs|
  {
    if bs != [] {
      UnwoundSame(bs[..|bs| - 1]);
      ReversedSame(bs[|bs| - 1]);
    }
  }

  lemma WantedStep(b: seq<byte>, bars: seq<int>, i: int, outcome: nat -> bool, n: nat, list: seq<Fdev>)
    requires Readable(b) && |bars| == NUM_BARS && 0 <= i < |AllNodes(b)|
    ensures Wish(b, bars, i).None? ==> Wanted(b, bars, i) == Wanted(b, bars, i + 1)
    ensures Wish(b, bars, i).Some? ==>
              var a := Wish(b, bars, i).value;
              && Wanted(b, bars, i) == [a] + Wanted(b, bars, i + 1)
              && Pushed(outcome, n, Wanted(b, bars, i), list) ==
                 Pushed(outcome, n + 1, Wanted(b, bars, i + 1), if outcome(n) then [Fdev(n, a)] + list else list)
  {
    hide Readable, AllNodes, Wish;
    var rest := Wanted(b, bars, i + 1);
    assert [] + rest == rest;
    if Wish(b, bars, i).Some? {
      var a := Wish(b, bars, i).value;
      assert ([a] + rest)[1..] == rest;
    }
  }

  lemma NoneWanted(b: seq<byte>, bars: seq<int>, outcome: nat -> bool, n: nat, list: seq<Fdev>)
    requires Readable(b) && |bars| == NUM_BARS
    ensures Wanted(b, bars, |AllNodes(b)|) == [] && Pushed(outcome, n, [], list) == list
  {
  }

  /** The driver's private data.  `outcome(n)` says whether the `n`-th probe attempt succeeds. */
  class Priv {
    const bars: seq<int>
    const outcome: nat -> bool
    var state: Phase
    var fdevs: seq<Fdev>
    var attempts: nat
    ghost var tried: seq<int>
    ghost var removed: seq<Fdev>
    ghost var batches: seq<seq<Fdev>>

    /** Subdrivers exist only while the base is probed. */
    ghost predicate Valid()
      reads this
    {
      |bars| == NUM_BARS && (fdevs != [] ==> state == BaseProbed)
    }

    /**
    The history: all successful probes, in order, are the batches one after the other; what was removed,
    in order, followed by what is listed, are the batches with each reversed.
    */
    ghost predicate Ordered()
      reads this`attempts, this`tried, this`removed, this`fdevs, this`batches
    {
      && attempts == |tried| && Successes(outcome, 0, tried) == Joined(batches)
      && removed + fdevs == Unwound(batches)
    }

    /** So every subdriver that was ever probed is in the list or was removed, once. */
    lemma Accounted()
      requires Ordered()
      ensures multiset(Successes(outcome, 0, tried)) == multiset(removed) + multiset(fdevs)
    {
      UnwoundSame(batches);
      assert multiset(removed + fdevs) == multiset(removed) + multiset(fdevs);
    }

    constructor (bars: seq<int>, outcome: nat -> bool)
      requires |bars| == NUM_BARS
      ensures Valid() && fresh(this) && state == Idle && fdevs == [] && this.bars == bars && this.outcome == outcome
      ensures attempts == 0 && tried == [] && removed == [] && batches == [] && Ordered()
    {
      this.bars, this.outcome, state, fdevs, attempts := bars, outcome, Idle, [], 0;
      tried, removed, batches := [], [], [];
    }

    /** `fpga_pcie_probe_one`: a successful probe goes to the front of the list. */
    method ProbeOne(addr: int)
      modifies this`fdevs, this`attempts, this`tried
      ensures attempts == old(attempts) + 1 && tried == old(tried) + [addr]
      ensures fdevs == if outcome(old(attempts)) then [Fdev(old(attempts), addr)] + old(fdevs) else old(fdevs)
    {
      var n := attempts;
      attempts, tried := attempts + 1, tried + [addr];
      if outcome(n) {
        fdevs := [Fdev(n, addr)] + fdevs;
      }
    }

    /**
    `fpga_pcie_probe_all_subdrivers`.  Every non-root node that asks for a subdriver is attempted, once, in
    pre-order; a blob that fails the header check changes nothing.
    */
    method ProbeAll(b: seq<byte>) returns (r: int)
      requires |bars| == NUM_BARS && Buffer(b) && (CheckHeader(b) == 0 ==> Readable(b))
      modifies this`state, this`fdevs, this`attempts, this`tried, this`batches
      ensures old(Ordered() && fdevs == []) ==> Ordered()
      ensures r == CheckHeader(b)
      ensures r == 0 ==> Get32(b, 0) == 0xd00d_feed || Get32(b, 0) == 0x2ff2_0112
      ensures r != 0 ==> r == BADMAGIC || r == BADSTATE || r == BADVERSION
      ensures r != 0 ==>
                state == old(state) && fdevs == old(fdevs) && attempts == old(attempts) && tried == old(tried)
                && batches == old(batches)
      ensures r == 0 ==>
                && state == BaseProbed && |AllNodes(b)| > 0 && tried == old(tried) + Wanted(b, bars, 1)
                && fdevs == Pushed(outcome, old(attempts), Wanted(b, bars, 1), old(fdevs))
                && batches == old(batches) + [Successes(outcome, old(attempts), Wanted(b, bars, 1))]
    {
      hide Decode, Named, Rooted, Get32, CheckHeader, Cursor, Standing, AllNodes, Struct, Candidate, Seek, Found,
           Left, Onset, Readable, Tip, Wanted, Pushed, BlocksFit, Ordered, Successes;
      HeaderPlainly(b);
      r := FdtCheckHeader(b);
      if r != 0 {
        return;
      }
      ghost var es, l := FirstNode(b);
      var s := LoadStruct(b);
      var offset, d := 0, 0;
      UntrackedStep(s, es, 0, l);
      offset, d, l := FdtNextNode(s, offset, 0, false, l);
      ghost var i := 1;
      ghost var all := Wanted(b, bars, 1);
      while offset >= 0
        invariant es == AllNodes(b) && 1 <= i <= |es| && (offset >= 0 <==> i < |es|)
        invariant i < |es| ==> Cursor(s, es, NOTFOUND, i, l) && offset == Tip(es[i])
        invariant batches == old(batches) && attempts - |tried| == old(attempts) - |old(tried)|
        invariant tried + Wanted(b, bars, i) == old(tried) + all
        invariant Pushed(outcome, attempts, Wanted(b, bars, i), fdevs)
                  == Pushed(outcome, old(attempts), all, old(fdevs))
        decreases |es| - i
      {
        var want := Examine(b, offset, bars, PlaceOf(b, i));
        WantedStep(b, bars, i, outcome, attempts, fdevs);
        if want.Some? {
          assert tried + ([want.value] + Wanted(b, bars, i + 1)) == tried + [want.value] + Wanted(b, bars, i + 1);
          ProbeOne(want.value);
        }
        UntrackedStep(s, es, i, l);
        offset, d, l := FdtNextNode(s, offset, 0, false, l);
        i := i + 1;
      }
      NoneWanted(b, bars, outcome, attempts, fdevs);
      assert tried + [] == tried;
      state := BaseProbed;
      batches := batches + [Successes(outcome, old(attempts), all)];
      if old(Ordered() && fdevs == []) {
        BatchProbed(all);
      }
    }

    /** A batch that starts with an empty list continues the history. */
    twostate lemma BatchProbed(all: seq<int>)
      requires old(Ordered()) && old(fdevs) == [] && removed == old(removed)
      requires attempts - |tried| == old(attempts) - |old(tried)| && tried == old(tried) + all
      requires fdevs == Pushed(outcome, old(attempts), all, [])
               && batches == old(batches) + [Successes(outcome, old(attempts), all)]
      ensures Ordered()
    {
      hide Successes, Pushed, Joined, Unwound, Reversed;
      var x := Successes(outcome, old(attempts), all);
      SuccessesSplit(outcome, 0, old(tried), all);
      PushedReverses(outcome, old(attempts), all, []);
      OneBatchMore(old(batches), x);
      assert Reversed(x) + [] == Reversed(x) && old(removed) + [] == old(removed);
    }

    /** `fpga_pcie_remove_all_subdrivers`: front to back, so the last probed goes first. */
    method RemoveAll()
      modifies this`state, this`fdevs, this`removed
      ensures old(Ordered()) ==> Ordered()
      ensures state == Idle && fdevs == [] && removed == old(removed) + old(fdevs)
    {
      while fdevs != []
        invariant removed + fdevs == old(removed) + old(fdevs)
        decreases |fdevs|
      {
        var d := fdevs[0];
        assert [d] + fdevs[1..] == fdevs;
        fdevs := fdevs[1..];
        removed := removed + [d];
      }
      assert removed == old(removed) + old(fdevs) && removed + [] == removed;
      state := Idle;
    }

    /** What the state file's commands leave alone. */
    twostate predicate Untouched()
      reads this
    {
      && state == old(state) && fdevs == old(fdevs) && attempts == old(attempts) && tried == old(tried)
      && removed == old(removed) && batches == old(batches)
    }

    /** `fpga_pcie_state_write_file`; `rom` is the device tree in the configuration ROM. */
    method WriteState(cmd: char, count: nat, copied: bool, rom: seq<byte>) returns (ret: int)
      requires Valid() && Buffer(rom) && (CheckHeader(rom) == 0 ==> Readable(rom))
      modifies this
      ensures Valid() && (old(Ordered()) ==> Ordered())
      ensures ret == if !copied then EFAULT
                     else if cmd == '1' || cmd == '5' || (cmd == '0' && old(state) != BaseProbed)
                             || (cmd == '3' && old(state) != AerDisabled) || (cmd == '4' && old(state) != AerDisabled)
                     then count
                     else EINVAL
      ensures ret < 0 || cmd == '5' ==> Untouched()
      ensures copied && cmd == '1' ==>
                if old(state) == AerDisabled then Untouched()
                else state == AerDisabled && fdevs == [] && removed == old(removed) + old(fdevs) && tried == old(tried)
      ensures copied && cmd == '0' && old(state) != BaseProbed ==>
                state == Idle && fdevs == [] && removed == old(removed) && tried == old(tried)
      ensures copied && cmd == '3' && old(state) == BaseProbed ==> Untouched()
      ensures copied && cmd == '3' && old(state) == Idle ==>
                && removed == old(removed)
                && if CheckHeader(rom) != 0 then Untouched()
                   else && state == BaseProbed && |AllNodes(rom)| > 0 && tried == old(tried) + Wanted(rom, bars, 1)
                        && fdevs == Reversed(Successes(outcome, old(attempts), Wanted(rom, bars, 1)))
      ensures copied && cmd == '4' && old(state) != AerDisabled ==>
                state == Idle && fdevs == [] && removed == old(removed) + old(fdevs) && tried == old(tried)
    {
      hide Readable, CheckHeader, AllNodes, Wanted, Pushed, Successes, Reversed, Ordered;
      if !copied {
        return EFAULT;
      }
      ret := count;
      if cmd == '1' {
        if state != AerDisabled {
          RemoveAll();
          state := AerDisabled;
        }
      } else if cmd == '0' {
        if state == AerDisabled {
          state := Idle;
        } else if state != Idle {
          ret := EINVAL;
        }
      } else if cmd == '3' {
        if state == Idle {
          var r := ProbeAll(rom);
          if r == 0 {
            PushedReverses(outcome, old(attempts), Wanted(rom, bars, 1), []);
            assert Reversed(Successes(outcome, old(attempts), Wanted(rom, bars, 1))) + [] == fdevs;
          }
        } else if state != BaseProbed {
          ret := EINVAL;
        }
      } else if cmd == '4' {
        if state == BaseProbed {
          RemoveAll();
        } else if state != Idle {
          ret := EINVAL;
        }
      } else if cmd != '5' {
        ret := EINVAL;
      }
    }

    /** `fpga_pcie_base_dtb_write_file`: all subdrivers go, then the written device tree is probed, in any state. */
    method WriteBaseDtb(buf: seq<byte>, count: nat, copied: bool) returns (ret: int)
      requires Valid() && Buffer(buf) && (CheckHeader(buf) == 0 ==> Readable(buf))
      modifies this
      ensures Valid() && (old(Ordered()) ==> Ordered())
      ensures ret == if copied then count else EFAULT
      ensures !copied ==> Untouched()
      ensures copied ==> removed == old(removed) + old(fdevs)
      ensures copied && CheckHeader(buf) != 0 ==> state == Idle && fdevs == [] && tried == old(tried)
      ensures copied && CheckHeader(buf) == 0 ==>
                && state == BaseProbed && |AllNodes(buf)| > 0 && tried == old(tried) + Wanted(buf, bars, 1)
                && fdevs == Reversed(Successes(outcome, old(attempts), Wanted(buf, bars, 1)))
    {
      hide Readable, CheckHeader, AllNodes, Wanted, Pushed, Successes, Reversed, Ordered;
      if !copied {
        return EFAULT;
      }
      ret := count;
      RemoveAll();
      var r := ProbeAll(buf);
      if r == 0 {
        PushedReverses(outcome, old(attempts), Wanted(buf, bars, 1), []);
        assert Reversed(Successes(outcome, old(attempts), Wanted(buf, bars, 1))) + [] == fdevs;
      }
    }
  }

  /** What user space can write; `rom` is what the configuration ROM holds when a state command is given. */
  datatype Command = StateFile(cmd: char, copied: bool, rom: seq<byte>) | BaseDtb(buf: seq<byte>, copied: bool)

  /** A blob in the domain of the model: its header is refused, or it is readable. */
  ghost predicate Acceptable(b: seq<byte>) {
    Buffer(b) && (CheckHeader(b) == 0 ==> Readable(b))
  }

  /** The device tree that the command may have probed. */
  function TreeIn(c: Command): seq<byte> {
    if c.BaseDtb? then c.buf else c.rom
  }

  ghost predicate Sensible(c: Command) {
    Acceptable(TreeIn(c))
  }

  /** The addresses that a device tree asks for, in pre-order without the root; none if its header is refused. */
  ghost function Asked(b: seq<byte>, bars: seq<int>): seq<int>
    requires Acceptable(b) && |bars| == NUM_BARS
  {
    if CheckHeader(b) != 0 then [] else WholeWalk(b); Wanted(b, bars, 1)
  }

  /** What can be told of a run from its commands. */
  datatype History = History(phase: Phase, tried: seq<int>, listed: seq<Fdev>, removed: seq<Fdev>)

  ghost function Probed(bars: seq<int>, outcome: nat -> bool, h: History, b: seq<byte>): History
    requires Acceptable(b) && |bars| == NUM_BARS
  {
    if CheckHeader(b) != 0 then h
    else
      var all := Asked(b, bars);
      History(BaseProbed, h.tried + all, Reversed(Successes(outcome, |h.tried|, all)) + h.listed, h.removed)
  }

  ghost function Cleared(h: History, phase: Phase): History {
    History(phase, h.tried, [], h.removed + h.listed)
  }

  ghost function Effect(bars: seq<int>, outcome: nat -> bool, h: History, c: Command): History
    requires Sensible(c) && |bars| == NUM_BARS
  {
    if !c.copied then h
    else
      match c
      case BaseDtb(buf, _) => Probed(bars, outcome, Cleared(h, Idle), buf)
      case StateFile(cmd, _, rom) =>
        if cmd == '1' && h.phase != AerDisabled then Cleared(h, AerDisabled)
        else if cmd == '0' && h.phase == AerDisabled then h.(phase := Idle)
        else if cmd == '3' && h.phase == Idle then Probed(bars, outcome, h, rom)
        else if cmd == '4' && h.phase == BaseProbed then Cleared(h, Idle)
        else h
  }

  ghost function Replayed(bars: seq<int>, outcome: nat -> bool, cmds: seq<Command>): History
    requires |bars| == NUM_BARS && forall i :: 0 <= i < |cmds| ==> Sensible(cmds[i])
    decreases |cmds|
  {
    if cmds == [] then History(Idle, [], [], [])
    else Effect(bars, outcome, Replayed(bars, outcome, cmds[..|cmds| - 1]), cmds[|cmds| - 1])
  }

  /** The command probes when it is given in phase `p`. */
  ghost predicate Probes(c: Command, p: Phase) {
    c.copied && (c.BaseDtb? || (c.cmd == '3' && p == Idle))
  }

  /** The phase that a command leads to depends on the phase, the command and whether its tree is refused. */
  ghost function NextPhase(c: Command, p: Phase): Phase
    requires Sensible(c)
  {
    if Probes(c, p) then
      if CheckHeader(TreeIn(c)) == 0 then BaseProbed else Idle
    else if !c.copied || c.BaseDtb? then p
    else if c.cmd == '1' then AerDisabled
    else if (c.cmd == '0' && p == AerDisabled) || (c.cmd == '4' && p == BaseProbed) then Idle
    else p
  }

  ghost function PhaseAfter(cmds: seq<Command>): Phase
    requires forall i :: 0 <= i < |cmds| ==> Sensible(cmds[i])
    decreases |cmds|
  {
    if cmds == [] then Idle else NextPhase(cmds[|cmds| - 1], PhaseAfter(cmds[..|cmds| - 1]))
  }

  /** The addresses of the probing commands, one after the other. */
  ghost function AskedBy(bars: seq<int>, cmds: seq<Command>): seq<int>
    requires |bars| == NUM_BARS && forall i :: 0 <= i < |cmds| ==> Sensible(cmds[i])
    decreases |cmds|
  {
    if cmds == [] then []
    else
      var c, before := cmds[|cmds| - 1], cmds[..|cmds| - 1];
      assert Sensible(c);
      AskedBy(bars, before) + if Probes(c, PhaseAfter(before)) then Asked(TreeIn(c), bars) else []
  }

  /**
  The attempts of a run are what its probing commands ask for, whatever the outcomes of the probes; they
  do not depend on which probes succeed, and neither does the phase.
  */
  lemma {:induction false} ReplayedAsks(bars: seq<int>, outcome: nat -> bool, cmds: seq<Command>)
    requires |bars| == NUM_BARS && forall i :: 0 <= i < |cmds| ==> Sensible(cmds[i])
    ensures Replayed(bars, outcome, cmds).phase == PhaseAfter(cmds)
    ensures Replayed(bars, outcome, cmds).tried == AskedBy(bars, cmds)
    decreases |cmds|
  {
    hide CheckHeader, Readable, Wanted, Successes, Reversed;
    if cmds != [] { ReplayedAsks(bars, outcome, cmds[..|cmds| - 1]); }
  }

  lemma ReplayedStep(bars: seq<int>, outcome: nat -> bool, cmds: seq<Command>, i: nat)
    requires |bars| == NUM_BARS && i < |cmds| && forall k :: 0 <= k < |cmds| ==> Sensible(cmds[k])
    ensures Replayed(bars, outcome, cmds[..i + 1]) ==
            Effect(bars, outcome, Replayed(bars, outcome, cmds[..i]), cmds[i])
  {
    hide Effect, Sensible;
    assert cmds[..i + 1][..i] == cmds[..i] && cmds[..i + 1][i] == cmds[i];
  }

  lemma AskedIs(b: seq<byte>, bars: seq<int>)
    requires Acceptable(b) && |bars| == NUM_BARS
    ensures CheckHeader(b) != 0 ==> Asked(b, bars) == []
    ensures CheckHeader(b) == 0 ==> |AllNodes(b)| > 0 && Asked(b, bars) == Wanted(b, bars, 1)
  {
    hide CheckHeader, Wanted;
    if CheckHeader(b) == 0 { WholeWalk(b); }
  }

  /** The driver's data as a history. */
  ghost function Told(priv: Priv): History
    reads priv
  {
    History(priv.state, priv.tried, priv.fdevs, priv.removed)
  }

  /** One command, whichever file it is written to. */
  method Execute(priv: Priv, c: Command)
    requires priv.Valid() && priv.Ordered() && Sensible(c)
    modifies priv
    ensures priv.Valid() && priv.Ordered() && Told(priv) == Effect(priv.bars, priv.outcome, old(Told(priv)), c)
    ensures c.BaseDtb? && c.copied ==>
              && priv.removed == old(priv.removed) + old(priv.fdevs)
              && priv.state == (if CheckHeader(c.buf) == 0 then BaseProbed else Idle)
              && priv.tried == old(priv.tried) + Asked(c.buf, priv.bars)
    ensures c.StateFile? && c.copied && c.cmd == '3' && old(priv.state) == Idle ==>
              && priv.removed == old(priv.removed)
              && priv.state == (if CheckHeader(c.rom) == 0 then BaseProbed else Idle)
              && priv.tried == old(priv.tried) + Asked(c.rom, priv.bars)
    ensures c.StateFile? && c.copied && (c.cmd == '1' || (c.cmd == '4' && old(priv.state) == BaseProbed)) ==>
              && priv.fdevs == [] && priv.tried == old(priv.tried)
              && priv.removed == old(priv.removed) + old(priv.fdevs)
              && priv.state == (if c.cmd == '1' then AerDisabled else Idle)
    ensures c.StateFile? && c.copied && c.cmd == '0' && old(priv.state) == AerDisabled ==>
              priv.state == Idle && priv.fdevs == [] && priv.tried == old(priv.tried)
  {
    hide Readable, CheckHeader, AllNodes, Wanted, Pushed, Successes, Reversed, Joined, Unwound;
    AskedIs(TreeIn(c), priv.bars);
    assert priv.tried + [] == priv.tried;
    assert priv.removed + [] == priv.removed;
    match c {
      case StateFile(cmd, copied, rom) =>
        NothingListed(priv.outcome, |priv.tried|, Asked(rom, priv.bars));
        var r := priv.WriteState(cmd, 1, copied, rom);
      case BaseDtb(buf, copied) =>
        NothingListed(priv.outcome, |priv.tried|, Asked(buf, priv.bars));
        var r := priv.WriteBaseDtb(buf, |buf|, copied);
    }
  }

  lemma NothingListed(outcome: nat -> bool, n: nat, all: seq<int>)
    ensures Reversed(Successes(outcome, n, all)) + [] == Reversed(Successes(outcome, n, all))
  {
  }

  /**
  Any run of commands from the start, with the device exchanged and probes failing as they like.  Phase,
  attempts, list and removals are those of the commands, replayed: the attempts are what the probing
  commands ask for (`ReplayedAsks`).  Between commands subdrivers exist only in the probed state, and they
  are removed batch by batch, each batch in the reverse order of its successful probes.
  */
  method RunCommands(bars: seq<int>, outcome: nat -> bool, cmds: seq<Command>) returns (priv: Priv)
    requires |bars| == NUM_BARS && forall i :: 0 <= i < |cmds| ==> Sensible(cmds[i])
    ensures fresh(priv) && priv.Valid() && priv.Ordered() && priv.outcome == outcome
    ensures Told(priv) == Replayed(bars, outcome, cmds)
    ensures priv.state == PhaseAfter(cmds) && priv.tried == AskedBy(bars, cmds)
    ensures priv.fdevs != [] ==> priv.state == BaseProbed
    ensures multiset(Successes(outcome, 0, priv.tried)) == multiset(priv.removed) + multiset(priv.fdevs)
  {
    hide Readable, CheckHeader, AllNodes, Wanted, Pushed, Successes, Reversed, Joined, Unwound, Effect, Replayed;
    hide PhaseAfter, AskedBy;
    priv := new Priv(bars, outcome);
    ReplayedNone(bars, outcome, cmds);
    for i := 0 to |cmds|
      invariant fresh(priv) && priv.Valid() && priv.Ordered() && priv.outcome == outcome && priv.bars == bars
      invariant Told(priv) == Replayed(bars, outcome, cmds[..i])
    {
      assert Sensible(cmds[i]);
      ReplayedStep(bars, outcome, cmds, i);
      Execute(priv, cmds[i]);
    }
    assert cmds[..|cmds|] == cmds;
    ReplayedAsks(bars, outcome, cmds);
    priv.Accounted();
  }

  lemma ReplayedNone(bars: seq<int>, outcome: nat -> bool, cmds: seq<Command>)
    requires |bars| == NUM_BARS
    ensures cmds[..0] == [] && Replayed(bars, outcome, []) == History(Idle, [], [], [])
  {
  }
}
