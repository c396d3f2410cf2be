/** `fdt_get_path`: the output buffer is a stack of names, popped by looking for the slash in front of the last. */
module GetPath {
  import opened Words
  import opened Tokens
  import opened Structure
  import opened Tokenizer
  import opened Walk
  import opened Tree
  import opened Blob
  import opened Queries
  import opened Ancestors

  /** The names of a trail, each followed by a slash. */
  ghost function Rendered(t: Trail): seq<byte> {
    if t == [] then [] else Rendered(t[..|t| - 1]) + t[|t| - 1].name + [SLASH]
  }

  /** The path that a trail spells: names joined by slashes, "/" for a nameless root alone. */
  ghost function PathString(t: Trail): seq<byte> {
    if |Rendered(t)| <= 1 then [SLASH] else Rendered(t)[..|Rendered(t)| - 1]
  }

  lemma {:induction false} RenderedGrows(t: Trail, m: int)
    requires 0 <= m <= |t|
    ensures |Rendered(t[..m])| <= |Rendered(t)|
    ensures m < |t| ==> |Rendered(t[..m])| < |Rendered(t)|
    decreases |t| - m
  {
    if m == |t| {
      assert t[..m] == t;
    } else {
      RenderedGrows(t, m + 1);
      assert t[..m + 1][..m] == t[..m];
    }
  }

  lemma RenderedWithin(t: Trail, m: int, n: int)
    requires 0 <= m <= n <= |t|
    ensures |Rendered(t[..m])| <= |Rendered(t[..n])|
  {
    RenderedGrows(t[..n], m);
    assert t[..n][..m] == t[..m];
  }

  lemma RenderedPush(t: Trail, m: int)
    requires 0 <= m < |t|
    ensures Rendered(t[..m + 1]) == Rendered(t[..m]) + t[m].name + [SLASH]
  {
    assert t[..m + 1][..m] == t[..m];
  }

  lemma RenderedEnd(t: Trail)
    requires t != []
    ensures |Rendered(t)| > 0 && Rendered(t)[|Rendered(t)| - 1] == SLASH
  {
  }

  ghost predicate Slashless(name: seq<byte>) {
    SLASH !in name
  }

  ghost function Slashes(s: seq<byte>): nat {
    multiset(s)[SLASH]
  }

  /** How many slashes the names of a trail hold. */
  ghost function NameSlashes(t: Trail): nat {
    if t == [] then 0 else NameSlashes(t[..|t| - 1]) + Slashes(Last(t).name)
  }

  lemma {:induction false} RenderedCount(t: Trail)
    ensures Slashes(Rendered(t)) == |t| + NameSlashes(t)
    decreases |t|
  {
    if t != [] { RenderedCount(t[..|t| - 1]); }
  }

  /** The name at depth `k` of the stack has not been pushed in front of `ms[k]`, and fits behind it. */
  ghost predicate Marked(c: seq<byte>, t: Trail, ms: seq<int>, k: int)
    requires 0 <= k < |t| == |ms|
  {
    && 0 <= ms[k] && ms[k] + |t[k].name| + 1 <= (if k + 1 < |t| then ms[k + 1] else |c|) && ms[k] <= |c|
    && (ms[k] > 0 ==> c[ms[k] - 1] == SLASH)
  }

  /**
  What the buffer holds when the stack is `t`: every name and slash of it, in order, and what popping has
  failed to remove, with `extra` slashes.  Every push adds one slash and those of the name, every pop takes
  one away, so the slashes of popped names stay.
  */
  ghost predicate Stacked(c: seq<byte>, t: Trail, ms: seq<int>, extra: nat) {
    && |ms| == |t| && (forall k :: 0 <= k < |t| ==> Marked(c, t, ms, k))
    && (c != [] ==> c[|c| - 1] == SLASH) && NulFree(c)
    && (if t == [] then c == [] else c != [] && (t[0].name == [] ==> c[0] == SLASH))
    && Slashes(c) == |t| + NameSlashes(t) + extra
    && (extra == 0 ==> c == Rendered(t))
  }

  lemma {:induction false} StackedLong(c: seq<byte>, t: Trail, ms: seq<int>, extra: nat, k: int)
    requires Stacked(c, t, ms, extra) && 0 <= k <= |t|
    ensures |Rendered(t[..k])| <= if k < |t| then ms[k] else |c|
    decreases k
  {
    hide Rendered;
    if k > 0 {
      StackedLong(c, t, ms, extra, k - 1);
      RenderedPush(t, k - 1);
      assert Marked(c, t, ms, k - 1);
    } else {
      assert t[..0] == [];
      NothingRendered();
      if k < |t| { assert Marked(c, t, ms, k); }
    }
  }

  lemma NothingRendered()
    ensures Rendered([]) == []
  {
  }

  /** The buffer holds the bare stack exactly when nothing is left over. */
  lemma LeftOver(c: seq<byte>, t: Trail, ms: seq<int>, extra: nat)
    requires Stacked(c, t, ms, extra)
    ensures c == Rendered(t) <==> extra == 0
  {
    RenderedCount(t);
  }

  /** A pop leaves the slashes of the popped name. */
  lemma NamePopped(c: seq<byte>, t: Trail, ms: seq<int>, extra: nat, p: int)
    requires Stacked(c, t, ms, extra) && |t| >= 2 && ms[|t| - 1] <= p < |c|
    requires p > 0 && c[p - 1] == SLASH && Slashless(c[p..|c| - 1])
    ensures Stacked(c[..p], t[..|t| - 1], ms[..|t| - 1], extra + Slashes(Last(t).name))
  {
    hide Rendered, NameSlashes;
    var d, u, ns := c[..p], t[..|t| - 1], ms[..|t| - 1];
    assert Marked(c, t, ms, |t| - 1);
    forall k | 0 <= k < |u| ensures Marked(d, u, ns, k) {
      assert Marked(c, t, ms, k) && Marked(c, t, ms, k + 1);
      MarksRise(c, t, ms, k);
    }
    PopCount(c, p);
    SlashesSplit(t);
    if extra + Slashes(Last(t).name) == 0 { PopExact(c, t, p); }
  }

  lemma SlashesSplit(t: Trail)
    requires t != []
    ensures NameSlashes(t) == NameSlashes(t[..|t| - 1]) + Slashes(Last(t).name)
  {
  }

  lemma {:induction false} MarksRise(c: seq<byte>, t: Trail, ms: seq<int>, k: int)
    requires |ms| == |t| && (forall i :: 0 <= i < |t| ==> Marked(c, t, ms, i)) && 0 <= k < |t|
    ensures ms[k] <= ms[|t| - 1]
    decreases |t| - k
  {
    assert Marked(c, t, ms, k);
    if k < |t| - 1 { MarksRise(c, t, ms, k + 1); }
  }

  lemma PopCount(c: seq<byte>, p: int)
    requires 0 < p < |c| && c[|c| - 1] == SLASH && Slashless(c[p..|c| - 1])
    ensures Slashes(c) == Slashes(c[..p]) + 1
  {
    var m := c[p..|c| - 1];
    assert c == c[..p] + m + [SLASH];
    assert Slashes(m) == 0;
  }

  /** A name without slashes is removed whole, and nothing else. */
  lemma PopExact(c: seq<byte>, t: Trail, p: int)
    requires |t| >= 2 && c == Rendered(t) && 0 < p < |c| && c[p - 1] == SLASH && Slashless(c[p..|c| - 1])
    requires Slashes(Last(t).name) == 0
    ensures c[..p] == Rendered(t[..|t| - 1])
  {
    var r, n := Rendered(t[..|t| - 1]), Last(t).name;
    RenderedEnd(t[..|t| - 1]);
    PopPlace(c, r, n, p);
  }

  lemma PopPlace(c: seq<byte>, r: seq<byte>, n: seq<byte>, p: int)
    requires c == r + n + [SLASH] && r != [] && r[|r| - 1] == SLASH && Slashes(n) == 0
    requires 0 < p < |c| && c[p - 1] == SLASH && Slashless(c[p..|c| - 1])
    ensures p == |r| && c[..p] == r
  {
    hide Slashless;
    if p < |r| { NotInTail(c, p, |r| - 1); }
    if p > |r| { NotInName(c, r, n, p - 1); }
  }

  lemma NotInTail(c: seq<byte>, p: int, q: int)
    requires 0 <= p <= q < |c| - 1 && Slashless(c[p..|c| - 1])
    ensures c[q] != SLASH
  {
    assert c[p..|c| - 1][q - p] == c[q];
  }

  lemma NotInName(c: seq<byte>, r: seq<byte>, n: seq<byte>, q: int)
    requires c == r + n + [SLASH] && Slashes(n) == 0 && |r| <= q < |c| - 1
    ensures c[q] != SLASH
  {
    assert c[q] == n[q - |r|];
    assert SLASH !in n;
  }

  lemma NamePushed(c: seq<byte>, t: Trail, ms: seq<int>, extra: nat, x: Spot)
    requires Stacked(c, t, ms, extra) && NulFree(x.name)
    ensures Stacked(c + x.name + [SLASH], t + [x], ms + [|c|], extra)
  {
    hide Rendered, NameSlashes;
    var d, u, ns := c + x.name + [SLASH], t + [x], ms + [|c|];
    forall k | 0 <= k < |u| ensures Marked(d, u, ns, k) {
      if k < |t| { assert Marked(c, t, ms, k); }
    }
    assert u[..|t|] == t;
    SlashesSplit(u);
    RenderedPush(u, |t|);
    assert u[..|u|] == u;
  }

  lemma NothingStacked()
    ensures Stacked([], [], [], 0)
  {
  }

  /** The names pushed so far, or, as long as nothing is left over, the first name that did not fit. */
  ghost predicate StackHolds(buf: seq<byte>, buflen: int, t: Trail, pdepth: int, p: int, ms: seq<int>, extra: nat) {
    && 0 <= pdepth <= |t| && 0 <= p <= buflen <= |buf|
    && Stacked(buf[..p], t[..pdepth], ms, extra)
    && (extra == 0 && pdepth < |t| ==> |Rendered(t[..pdepth + 1])| > buflen)
  }

  lemma StackEmpty(buf: seq<byte>, buflen: int)
    requires 0 <= buflen <= |buf|
    ensures StackHolds(buf, buflen, [], 0, 0, [], 0)
  {
    NothingStacked();
    assert buf[..0] == [];
  }

  /** Pops one name: steps back to just behind the previous slash. */
  method PopName(buf: array<byte>, p0: int, ghost t: Trail, ghost ms: seq<int>, ghost extra: nat) returns (p: int)
    requires |t| >= 2 && 0 <= p0 <= buf.Length && Stacked(buf[..p0], t, ms, extra)
    ensures 0 <= p <= p0
    ensures Stacked(buf[..p], t[..|t| - 1], ms[..|t| - 1], extra + Slashes(Last(t).name))
  {
    hide Stacked;
    ghost var c := buf[..p0];
    TopMark(c, t, ms, extra);
    ghost var m := ms[|t| - 1];
    p := p0 - 1;
    while buf[p - 1] != SLASH
      invariant m <= p < p0 && c == buf[..p0]
      invariant forall k :: p <= k < p0 - 1 ==> buf[k] != SLASH
      decreases p
    {
      p := p - 1;
    }
    assert forall k :: 0 <= k < p0 ==> c[k] == buf[k];
    NamePopped(c, t, ms, extra, p);
    assert buf[..p] == c[..p];
  }

  lemma TopMark(c: seq<byte>, t: Trail, ms: seq<int>, extra: nat)
    requires |t| >= 2 && Stacked(c, t, ms, extra)
    ensures |ms| == |t| && 0 < ms[|t| - 1] < |c| && c[ms[|t| - 1] - 1] == SLASH
  {
    assert Marked(c, t, ms, |t| - 2) && Marked(c, t, ms, |t| - 1);
  }

  /** The path fits in the buffer exactly when every name and slash of the trail does. */
  lemma FitsOrNot(t: Trail, buflen: int)
    requires t != []
    ensures |Rendered(t)| > 0
    ensures |PathString(t)| + 1 <= buflen <==> buflen >= 2 && |Rendered(t)| <= buflen
  {
    RenderedEnd(t);
  }

  /** No slash in the names at the depths from `d` up to `e`. */
  ghost predicate CleanRange(t: Trail, d: int, e: int) {
    forall k :: d <= k < e && 0 <= k < |t| ==> Slashless(t[k].name)
  }

  /** The inner loop of `fdt_get_path`: pops names until at most `depth` are left. */
  method PopTo(buf: array<byte>, depth: int, pdepth0: int, p0: int, ghost t: Trail, ghost ms0: seq<int>,
               ghost extra0: nat)
    returns (pdepth: int, p: int, ghost ms: seq<int>, ghost extra: nat)
    requires 0 <= pdepth0 <= |t| && 0 <= p0 <= buf.Length && Stacked(buf[..p0], t[..pdepth0], ms0, extra0)
    requires 0 <= depth && (pdepth0 > depth ==> depth >= 1)
    ensures pdepth == if pdepth0 > depth then depth else pdepth0
    ensures 0 <= p <= p0 && Stacked(buf[..p], t[..pdepth], ms, extra)
    ensures extra == 0 <==> extra0 == 0 && CleanRange(t, depth, pdepth0)
  {
    hide Stacked;
    pdepth, p, ms, extra := pdepth0, p0, ms0, extra0;
    while pdepth > depth
      invariant 0 <= pdepth <= pdepth0 && 0 <= p <= p0 && Stacked(buf[..p], t[..pdepth], ms, extra)
      invariant pdepth0 > depth ==> pdepth >= depth
      invariant pdepth0 <= depth ==> pdepth == pdepth0
      invariant extra == 0 <==> extra0 == 0 && CleanRange(t, pdepth, pdepth0)
    {
      ghost var u := t[..pdepth];
      assert u[..|u| - 1] == t[..pdepth - 1] && Last(u) == t[pdepth - 1];
      StackedMarks(buf[..p], u, ms, extra);
      p := PopName(buf, p, u, ms, extra);
      CleanMore(t, pdepth, pdepth0);
      ms, extra := ms[..|u| - 1], extra + Slashes(Last(u).name);
      pdepth := pdepth - 1;
    }
  }

  lemma StackedMarks(c: seq<byte>, t: Trail, ms: seq<int>, extra: nat)
    requires Stacked(c, t, ms, extra)
    ensures |ms| == |t|
  {
  }

  lemma CleanMore(t: Trail, d: int, e: int)
    requires 0 < d <= e <= |t|
    ensures CleanRange(t, d - 1, e) <==> CleanRange(t, d, e) && Slashes(t[d - 1].name) == 0
  {
    assert Slashes(t[d - 1].name) == 0 <==> Slashless(t[d - 1].name);
  }

  /** What is on the stack after popping is a prefix of the next node's trail too. */
  lemma KeepPrefix(buf: seq<byte>, buflen: int, prev: Trail, next: Trail, pdepth0: int, p0: int, ms0: seq<int>,
                   extra0: nat, pdepth: int)
    requires StackHolds(buf, buflen, prev, pdepth0, p0, ms0, extra0) && next != [] && |next| <= |prev| + 1
    requires next[..|next| - 1] == prev[..|next| - 1]
    requires pdepth == if pdepth0 > |next| - 1 then |next| - 1 else pdepth0
    ensures 0 <= pdepth <= |next| - 1 && prev[..pdepth] == next[..pdepth]
    ensures extra0 == 0 && pdepth < |next| - 1 ==> |Rendered(next[..pdepth + 1])| > buflen
  {
    var m := |next| - 1;
    assert next[..pdepth] == next[..m][..pdepth] && prev[..pdepth] == prev[..m][..pdepth];
    if pdepth < m {
      assert next[..pdepth + 1] == next[..m][..pdepth + 1] && prev[..pdepth + 1] == prev[..m][..pdepth + 1];
    }
  }

  /** `fdt_get_name`. */
  method FdtGetName(b: seq<byte>, nodeoffset: int) returns (len: int, name: seq<byte>)
    requires Buffer(b) && (CheckHeader(b) == 0 ==> BlocksFit(b))
    ensures CheckHeader(b) != 0 ==> len == CheckHeader(b) && name == []
    ensures CheckHeader(b) == 0 && CheckNode(Struct(b), nodeoffset) < 0 ==>
              len == CheckNode(Struct(b), nodeoffset) && name == []
    ensures CheckHeader(b) == 0 && CheckNode(Struct(b), nodeoffset) >= 0 ==>
              var s, i := Struct(b), nodeoffset + 4;
              0 <= i <= |s| && name == s[i..NulFrom(s, i)] && len == |name|
  {
    var err := FdtCheckHeader(b);
    if err != 0 {
      return err, [];
    }
    var s := LoadStruct(b);
    var next := FdtCheckNodeOffset(s, nodeoffset);
    if next < 0 {
      return next, [];
    }
    var e := nodeoffset + 4;
    while s[e] != 0
      invariant nodeoffset + 4 <= e <= NulFrom(s, nodeoffset + 4) < |s|
      invariant NulFrom(s, e) == NulFrom(s, nodeoffset + 4)
      decreases |s| - e
    {
      e := e + 1;
    }
    name := s[nodeoffset + 4..e];
    len := |name|;
  }

  lemma NameIs(s: seq<byte>, o: int, n: seq<byte>)
    requires |s| < INT_LIMIT && o >= 0 && o % 4 == 0 && TokenAt(s, o, Begin(n))
    ensures o + 4 <= |s| && s[o + 4..NulFrom(s, o + 4)] == n && CheckNode(s, o) >= 0 && NulFree(n)
  {
    ScanHead(s, o, Begin(n));
  }

  /** What the end of `fdt_get_path` makes of the stack: the last slash goes, except the only one. */
  ghost function Text(c: seq<byte>): seq<byte> {
    if |c| <= 1 then [SLASH] else c[..|c| - 1]
  }

  method Terminate(buf: array<byte>, p0: int)
    requires 0 < p0 <= buf.Length && buf.Length >= 2 && buf[p0 - 1] == SLASH
    modifies buf
    ensures var w := Text(old(buf[..p0])); |w| + 1 <= buf.Length && buf[..|w| + 1] == w + [0]
  {
    var p := p0;
    if p > 1 {
      p := p - 1;
    }
    assert buf[..p] == Text(buf[..p0]);
    buf[p] := 0;
    assert buf[..p + 1] == buf[..p] + [0];
  }

  /** Two stacks whose texts agree agree themselves, unless one of them is a single slash. */
  lemma TextSame(c: seq<byte>, d: seq<byte>)
    requires |c| >= |d| >= 2 && c[|c| - 1] == SLASH == d[|d| - 1]
    ensures Text(c) == Text(d) <==> c == d
  {
    if Text(c) == Text(d) { assert c == Text(c) + [SLASH] && d == Text(d) + [SLASH]; }
  }

  /** One iteration of `fdt_get_path`: pop to the node's depth, then push its name if there is room. */
  method PushNode(b: seq<byte>, buf: array<byte>, buflen: int, offset: int, depth: int, pdepth0: int, p0: int,
                  ghost prev: Trail, ghost next: Trail, ghost ms0: seq<int>, ghost extra0: nat)
    returns (pdepth: int, p: int, ghost ms: seq<int>, ghost extra: nat)
    requires Buffer(b) && CheckHeader(b) == 0 && BlocksFit(b) && next != [] && depth == |next| - 1
    requires offset >= 0 && offset % 4 == 0 && TokenAt(Struct(b), offset, Begin(Last(next).name))
    requires StackHolds(buf[..], buflen, prev, pdepth0, p0, ms0, extra0) && |next| <= |prev| + 1
    requires next[..depth] == prev[..depth] && (prev == [] || depth >= 1)
    modifies buf
    ensures StackHolds(buf[..], buflen, next, pdepth, p, ms, extra)
    ensures extra == 0 <==> extra0 == 0 && CleanRange(prev, depth, pdepth0)
  {
    hide TokenAt, CheckHeader, Rendered, CleanRange, Overlay, NulFrom, Stacked;
    pdepth, p, ms, extra := PopTo(buf, depth, pdepth0, p0, prev, ms0, extra0);
    KeepPrefix(buf[..], buflen, prev, next, pdepth0, p0, ms0, extra0, pdepth);
    NameIs(Struct(b), offset, Last(next).name);
    RenderedPush(next, depth);
    assert next[..depth + 1] == next;
    if pdepth >= depth {
      var namelen, name := FdtGetName(b, offset);
      BareLength(buf[..p], next[..depth], ms, extra);
      if p + namelen + 1 <= buflen {
        ghost var c := buf[..p];
        NamePushed(c, next[..depth], ms, extra, Last(next));
        CopyIn(buf, p, name + [SLASH]);
        assert next[..depth] + [Last(next)] == next;
        p, pdepth := p + namelen + 1, pdepth + 1;
        assert buf[..p] == c + name + [SLASH];
        assert next[..pdepth] == next;
        ms := ms + [|c|];
      }
    }
  }

  lemma BareLength(c: seq<byte>, t: Trail, ms: seq<int>, extra: nat)
    requires Stacked(c, t, ms, extra)
    ensures extra == 0 ==> |c| == |Rendered(t)|
  {
  }

  /**
  No slash in the name of any node that is listed before index `j`, does not enclose the node there, and
  is pushed: it fits with the names of the nodes around it.
  */
  ghost predicate CleanTo(es: seq<Trail>, j: int, buflen: int)
    requires 0 <= j < |es|
  {
    forall i, k {:trigger es[i][k]} ::
      0 <= i < j && 0 <= k < |es[i]| && !On(es[j], k, es[i]) && |Rendered(es[i][..k + 1])| <= buflen ==>
        Slashless(es[i][k].name)
  }

  /** The trails agree down to depth `k`: the node at that depth of `u` encloses the node that `t` leads to. */
  ghost predicate On(t: Trail, k: int, u: Trail) {
    0 <= k < |t| && k < |u| && t[..k + 1] == u[..k + 1]
  }

  /** The entries of the first `i` trails start before offset `o`. */
  ghost predicate Earlier(es: seq<Trail>, i: int, o: int)
    requires i <= |es|
  {
    forall m, k {:trigger es[m][k]} :: 0 <= m < i && 0 <= k < |es[m]| ==> es[m][k].off < o
  }

  /** How the leftover slashes and the names visited so far go together, from one node to the next. */
  lemma CleanStep(es: seq<Trail>, i: int, buflen: int, pdepth: int, extra0: nat, extra: nat)
    requires 0 < i < |es| && es[i] != [] && |es[i]| <= |es[i - 1]| + 1 && 0 <= pdepth <= |es[i - 1]|
    requires es[i][..|es[i]| - 1] == es[i - 1][..|es[i]| - 1]
    requires Earlier(es, i, Last(es[i]).off)
    requires extra0 == 0 <==> CleanTo(es, i - 1, buflen)
    requires extra0 == 0 ==> |Rendered(es[i - 1][..pdepth])| <= buflen
    requires extra0 == 0 && pdepth < |es[i - 1]| ==> |Rendered(es[i - 1][..pdepth + 1])| > buflen
    requires extra == 0 <==> extra0 == 0 && CleanRange(es[i - 1], |es[i]| - 1, pdepth)
    ensures extra == 0 <==> CleanTo(es, i, buflen)
  {
    hide Rendered;
    if CleanTo(es, i, buflen) {
      CleanBefore(es, i, buflen);
      CleanPopped(es, i, buflen, pdepth);
    }
    if extra == 0 { CleanAfter(es, i, buflen, pdepth); }
  }

  /** A node that does not enclose the last node visited does not enclose the next one. */
  lemma NeverBack(es: seq<Trail>, i: int, m: int, k: int)
    requires 0 < i < |es| && es[i] != [] && |es[i]| <= |es[i - 1]| + 1 && 0 <= m < i && 0 <= k < |es[m]|
    requires es[i][..|es[i]| - 1] == es[i - 1][..|es[i]| - 1] && Earlier(es, i, Last(es[i]).off)
    ensures On(es[i], k, es[m]) <==> On(es[i - 1], k, es[m]) && k < |es[i]| - 1
  {
    var d := |es[i]| - 1;
    assert es[m][k].off < es[i][d].off;
    if k < d {
      assert es[i][..k + 1] == es[i][..d][..k + 1] == es[i - 1][..d][..k + 1] == es[i - 1][..k + 1];
    } else {
      OnSame(es[i], k, es[m]);
    }
  }

  lemma OnSame(t: Trail, k: int, u: Trail)
    ensures On(t, k, u) ==> t[k] == u[k]
  {
    if On(t, k, u) { assert t[k] == t[..k + 1][k] == u[..k + 1][k]; }
  }

  lemma CleanBefore(es: seq<Trail>, i: int, buflen: int)
    requires 0 < i < |es| && es[i] != [] && |es[i]| <= |es[i - 1]| + 1
    requires es[i][..|es[i]| - 1] == es[i - 1][..|es[i]| - 1] && Earlier(es, i, Last(es[i]).off)
    requires CleanTo(es, i, buflen)
    ensures CleanTo(es, i - 1, buflen)
  {
    hide Rendered, On, Earlier;
    forall m, k | 0 <= m < i - 1 && 0 <= k < |es[m]| && !On(es[i - 1], k, es[m])
                  && |Rendered(es[m][..k + 1])| <= buflen
      ensures Slashless(es[m][k].name)
    {
      NeverBack(es, i, m, k);
    }
  }

  lemma CleanPopped(es: seq<Trail>, i: int, buflen: int, pdepth: int)
    requires 0 < i < |es| && es[i] != [] && |es[i]| <= |es[i - 1]| + 1 && 0 <= pdepth <= |es[i - 1]|
    requires es[i][..|es[i]| - 1] == es[i - 1][..|es[i]| - 1] && Earlier(es, i, Last(es[i]).off)
    requires CleanTo(es, i, buflen) && |Rendered(es[i - 1][..pdepth])| <= buflen
    ensures CleanRange(es[i - 1], |es[i]| - 1, pdepth)
  {
    hide Rendered, Earlier;
    var t := es[i - 1];
    forall k | |es[i]| - 1 <= k < pdepth ensures Slashless(t[k].name) {
      NeverBack(es, i, i - 1, k);
      RenderedGrows(t[..pdepth], k + 1);
      assert t[..pdepth][..k + 1] == t[..k + 1];
    }
  }

  lemma CleanAfter(es: seq<Trail>, i: int, buflen: int, pdepth: int)
    requires 0 < i < |es| && es[i] != [] && |es[i]| <= |es[i - 1]| + 1 && 0 <= pdepth <= |es[i - 1]|
    requires es[i][..|es[i]| - 1] == es[i - 1][..|es[i]| - 1] && Earlier(es, i, Last(es[i]).off)
    requires CleanTo(es, i - 1, buflen) && CleanRange(es[i - 1], |es[i]| - 1, pdepth)
    requires pdepth < |es[i - 1]| ==> |Rendered(es[i - 1][..pdepth + 1])| > buflen
    ensures CleanTo(es, i, buflen)
  {
    hide Rendered, Earlier;
    var t := es[i - 1];
    forall m, k | 0 <= m < i && 0 <= k < |es[m]| && !On(es[i], k, es[m]) && |Rendered(es[m][..k + 1])| <= buflen
      ensures Slashless(es[m][k].name)
    {
      NeverBack(es, i, m, k);
      if On(t, k, es[m]) { CleanHere(t, es[m], k, |es[i]| - 1, pdepth, buflen); }
    }
  }

  lemma CleanHere(t: Trail, u: Trail, k: int, d: int, pdepth: int, buflen: int)
    requires On(t, k, u) && d <= k && 0 <= pdepth <= |t| && CleanRange(t, d, pdepth)
    requires |Rendered(u[..k + 1])| <= buflen && (pdepth < |t| ==> |Rendered(t[..pdepth + 1])| > buflen)
    ensures Slashless(u[k].name)
  {
    hide Rendered;
    OnSame(t, k, u);
    if k >= pdepth { RenderedWithin(t, pdepth + 1, k + 1); }
  }

  /** The condition in the caller's terms: the nodes that start before the one sought. */
  ghost predicate Untangled(es: seq<Trail>, t: Trail, o: int, buflen: int) {
    forall i, k {:trigger es[i][k]} ::
      && 0 <= i < |es| && 0 <= k < |es[i]| && Last(es[i]).off < o
      && !On(t, k, es[i]) && |Rendered(es[i][..k + 1])| <= buflen ==>
        Slashless(es[i][k].name)
  }

  lemma UntangledIs(es: seq<Trail>, j: int, lo: int, hi: int, buflen: int)
    requires Sorted(es, lo, hi) && 0 <= j < |es|
    ensures Untangled(es, es[j], Last(es[j]).off, buflen) <==> CleanTo(es, j, buflen)
  {
    hide Rendered, On;
    assert forall i :: 0 <= i < |es| ==> (Last(es[i]).off < Last(es[j]).off <==> i < j);
  }

  lemma EarlierNext(es: seq<Trail>, i: int, o: int)
    requires 0 <= i < |es| && es[i] != [] && Last(es[i]).off < o
    requires Earlier(es, i, Last(es[i]).off)
    requires i > 0 ==> |es[i]| <= |es[i - 1]| + 1 && es[i][..|es[i]| - 1] == es[i - 1][..|es[i]| - 1]
    requires i == 0 ==> |es[i]| == 1
    ensures Earlier(es, i + 1, o)
  {
    forall k | 0 <= k < |es[i]| - 1 ensures es[i][k].off < o {
      assert es[i][k] == es[i][..|es[i]| - 1][k] == es[i - 1][k];
      assert es[i - 1][k].off < Last(es[i]).off;
    }
  }

  /** Whether the text at the end is the path. */
  lemma TextRight(es: seq<Trail>, j: int, buf: seq<byte>, buflen: int, p: int, ms: seq<int>, extra: nat)
    requires 0 <= j < |es| && (j == 0 <==> |es[j]| == 1) && es[j] != [] && (j == 0 ==> extra == 0)
    requires StackHolds(buf, buflen, es[j], |es[j]|, p, ms, extra)
    ensures p > 0 && buf[p - 1] == SLASH && |Rendered(es[j])| <= p
    ensures Text(buf[..p]) == PathString(es[j]) <==> extra == 0
    ensures NulFree(Text(buf[..p])) && Text(buf[..p]) != []
    ensures es[j][0].name == [] ==> Text(buf[..p])[0] == SLASH
  {
    hide Rendered, Stacked;
    var t, c := es[j], buf[..p];
    assert t[..|t|] == t;
    RenderedLong(t);
    StackedLong(c, t, ms, extra, |t|);
    LeftOver(c, t, ms, extra);
    StackedEnd(c, t, ms, extra);
    RenderedEnd(t);
    if |t| > 1 { TextSame(c, Rendered(t)); }
  }

  lemma StackedEnd(c: seq<byte>, t: Trail, ms: seq<int>, extra: nat)
    requires Stacked(c, t, ms, extra) && c != []
    ensures c[|c| - 1] == SLASH && NulFree(c) && t != [] && (t[0].name == [] ==> c[0] == SLASH)
  {
  }

  lemma RenderedLong(t: Trail)
    ensures |Rendered(t)| >= |t|
  {
  }

  lemma NoneEarlier(es: seq<Trail>)
    ensures Earlier(es, 0, 0)
  {
  }

  lemma CleanVisit(es: seq<Trail>, i: int, prev: Trail, buflen: int, pdepth: int, extra0: nat, extra: nat)
    requires 0 <= i < |es| && es[i] != [] && |es[i]| <= |prev| + 1 && 0 <= pdepth <= |prev|
    requires es[i][..|es[i]| - 1] == prev[..|es[i]| - 1] && Earlier(es, i, Last(es[i]).off)
    requires if i == 0 then prev == [] && extra0 == 0 else prev == es[i - 1]
    requires i > 0 ==> (extra0 == 0 <==> CleanTo(es, i - 1, buflen))
    requires extra0 == 0 ==> |Rendered(prev[..pdepth])| <= buflen
    requires extra0 == 0 && pdepth < |prev| ==> |Rendered(prev[..pdepth + 1])| > buflen
    requires extra == 0 <==> extra0 == 0 && CleanRange(prev, |es[i]| - 1, pdepth)
    ensures extra == 0 <==> CleanTo(es, i, buflen)
    ensures i == 0 ==> extra == 0
  {
    hide Rendered, Earlier;
    if i > 0 { CleanStep(es, i, buflen, pdepth, extra0, extra); }
  }

  /** What the next step needs to know of the stack. */
  lemma StackRoom(buf: seq<byte>, buflen: int, t: Trail, pdepth: int, p: int, ms: seq<int>, extra: nat)
    requires StackHolds(buf, buflen, t, pdepth, p, ms, extra)
    ensures 0 <= pdepth <= |t| && 0 <= p <= buflen <= |buf|
    ensures extra == 0 ==> |Rendered(t[..pdepth])| <= buflen
    ensures extra == 0 && pdepth < |t| ==> |Rendered(t[..pdepth + 1])| > buflen
  {
  }

  /** All names of the trail are on the stack only if they fit, and whenever they do if nothing is left over. */
  lemma StackFits(buf: seq<byte>, buflen: int, t: Trail, pdepth: int, p: int, ms: seq<int>, extra: nat)
    requires StackHolds(buf, buflen, t, pdepth, p, ms, extra)
    ensures 0 <= pdepth <= |t| && 0 <= p <= buflen <= |buf|
    ensures extra == 0 ==> (pdepth == |t| <==> |Rendered(t)| <= buflen)
  {
    hide Rendered;
    StackRoom(buf, buflen, t, pdepth, p, ms, extra);
    assert t[..|t|] == t;
    if pdepth < |t| { RenderedGrows(t, pdepth + 1); }
  }

  lemma TrailStart(b: seq<byte>, p: Pos, o: int)
    requires NodeAt(b, p, o)
    ensures var t := TrailTo(Stored(b), 0, p, []); t != [] && t[0].name == Stored(b).name
  {
    hide Decode, Named, Off, TrailTo;
    TrailIsChain(Stored(b), 0, p, [], 0);
    RootAncestor(b, p, o);
  }

  lemma TextFits(c: seq<byte>)
    requires c != []
    ensures |Text(c)| + 1 <= if |c| < 2 then 2 else |c|
  {
  }

  /**
  `fdt_get_path`.  The text is the node's path exactly when no node that was pushed and popped on the way
  has a slash in its name.
  */
  method FdtGetPath(b: seq<byte>, nodeoffset: int, buf: array<byte>, buflen: int, ghost p0: Pos)
    returns (r: int, ghost w: seq<byte>)
    requires Buffer(b) && buflen <= buf.Length && (CheckHeader(b) == 0 ==> Query(b, p0, nodeoffset))
    requires CheckHeader(b) == 0 && !NodeAt(b, p0, nodeoffset) ==> nodeoffset < NodeEnd(Stored(b), Here)
    modifies buf
    ensures CheckHeader(b) != 0 ==> r == CheckHeader(b)
    ensures CheckHeader(b) == 0 && !NodeAt(b, p0, nodeoffset) ==> r == if buflen < 2 then NOSPACE else BADOFFSET
    ensures CheckHeader(b) == 0 && NodeAt(b, p0, nodeoffset) ==>
              var t := TrailTo(Stored(b), 0, p0, []);
              && (r == 0 || r == NOSPACE)
              && (|PathString(t)| + 1 > buflen ==> r == NOSPACE)
              && (|PathString(t)| + 1 <= buflen ==>
                    (r == 0 && w == PathString(t) <==> Untangled(Nodes(Stored(b), 0, []), t, nodeoffset, buflen)))
    ensures r == 0 ==> |w| + 1 <= buflen && buf[..|w| + 1] == w + [0]
    ensures r == 0 ==> NulFree(w) && w != [] && (Stored(b).name == [] ==> w[0] == SLASH)
  {
    hide Below, NodeEnd, Onward, Cursor, Seek, Found, Left, Onset, Standing, TokenAt, Decode, Named, Rooted, TrailTo,
         Nodes, Rendered, PathString, StackHolds, Off, CheckHeader, Struct, CleanTo, CleanRange, Untangled, Earlier,
         Text, NulFree, Size;
    w := [];
    var err := FdtCheckHeader(b);
    if err != 0 {
      return err, w;
    }
    ghost var es, j := QueryTrail(b, p0, nodeoffset);
    if j < |es| {
      FitsOrNot(es[j], buflen);
      UntangledIs(es, j, 0, Size(Stored(b)), buflen);
    }
    if buflen < 2 {
      return NOSPACE, w;
    }
    var s := LoadStruct(b);
    ghost var l, fin, i := RootCursor(b);
    ghost var prev: Trail, ms: seq<int>, extra: nat := [], [], 0;
    var offset, depth, pdepth, p := 0, 0, 0, 0;
    StackEmpty(buf[..], buflen);
    NoneEarlier(es);
    while offset >= 0 && offset <= nodeoffset
      invariant 0 <= i <= j && (i == |es| ==> offset == fin > nodeoffset)
      invariant i < |es| ==>
                  Cursor(s, es, fin, i, l) && |es[i]| > 0 && offset == Last(es[i]).off >= 0 && depth == |es[i]| - 1
      invariant i < |es| ==> |es[i]| <= |prev| + 1 && es[i][..depth] == prev[..depth]
      invariant i < |es| ==> (i > 0 <==> depth >= 1) && Earlier(es, i, offset)
      invariant if i == 0 then prev == [] && extra == 0 else prev == es[i - 1]
      invariant i > 0 ==> (extra == 0 <==> CleanTo(es, i - 1, buflen))
      invariant StackHolds(buf[..], buflen, prev, pdepth, p, ms, extra)
      decreases j - i
    {
      CursorToken(s, es, fin, i, l);
      CursorAligned(s, es, fin, i, l);
      ghost var pdepth0, extra0 := pdepth, extra;
      StackRoom(buf[..], buflen, prev, pdepth, p, ms, extra);
      pdepth, p, ms, extra := PushNode(b, buf, buflen, offset, depth, pdepth, p, prev, es[i], ms, extra);
      CleanVisit(es, i, prev, buflen, pdepth0, extra0, extra);
      if offset == nodeoffset {
        assert i == j;
        StackFits(buf[..], buflen, es[i], pdepth, p, ms, extra);
        if pdepth < depth + 1 {
          return NOSPACE, w;
        }
        TextRight(es, j, buf[..], buflen, p, ms, extra);
        TrailStart(b, p0, nodeoffset);
        w := Text(buf[..p]);
        TextFits(buf[..p]);
        Terminate(buf, p);
        return 0, w;
      }
      CursorNext(s, es, fin, i, l);
      prev := es[i];
      if i + 1 < |es| { EarlierNext(es, i, Last(es[i + 1]).off); }
      offset, depth, l := FdtNextNode(s, offset, depth, true, l);
      i := i + 1;
    }
    if offset == NOTFOUND || offset >= 0 {
      return BADOFFSET, w;
    } else if offset == BADOFFSET {
      return BADSTRUCTURE, w;
    }
    return offset, w;
  }
}
