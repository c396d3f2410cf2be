/** When `fdt_path_offset` undoes `fdt_get_path`. */
module PathOf {
  import opened Words
  import opened Tokens
  import opened Structure
  import opened Tokenizer
  import opened Walk
  import opened Tree
  import opened Blob
  import opened Queries
  import opened Ancestors
  import opened Paths
  import opened Aliases
  import opened GetPath

  /** The place, inside its parent's body, of the enclosing node at depth `k >= 1`. */
  function Level(p: Pos, k: int): Pos {
    match p
    case Here => Here
    case Past(q) => Level(q, k)
    case Into(q) => if k <= 1 then Ancestor(q, 0) else Level(q, k - 1)
  }

  lemma {:induction false} AncestorStep(p: Pos, k: int)
    requires 1 <= k <= Depth(p)
    ensures Ancestor(p, k) == Join(Ancestor(p, k - 1), Into(Level(p, k))) && Depth(Level(p, k)) == 0
    decreases p
  {
    match p
    case Here =>
    case Past(q) => AncestorStep(q, k);
    case Into(q) =>
      if k == 1 {
        AncestorOfAncestor(q, 0, 0);
      } else {
        AncestorStep(q, k - 1);
      }
  }

  /** No node before `q` in this list of items matches `n`. */
  ghost predicate NoEarlier(f: Forest, q: Pos, n: seq<byte>)
    requires Valid(f, q)
    decreases q
  {
    match q
    case Past(x) => (f.Node? ==> !NameEq(f.name, n)) && NoEarlier(f.rest, x, n)
    case _ => true
  }

  /** Lookup by a node's own name finds that node exactly when no earlier sibling matches the name. */
  lemma {:induction false} ChildFound(f: Forest, q: Pos)
    requires Valid(f, q) && At(f, q).Node? && Depth(q) == 0
    ensures ChildPos(f, At(f, q).name) == Some(q) <==> NoEarlier(f, q, At(f, q).name)
    decreases q
  {
    if q.Past? { ChildFound(f.rest, q.next); }
  }

  /** At every step of the path to `p`, no earlier sibling matches the name of the node on the path. */
  ghost predicate Unshadowed(f: Forest, p: Pos)
    requires Valid(f, p) && At(f, p).Node?
  {
    forall k :: 1 <= k <= Depth(p) ==> StepClear(f, p, k)
  }

  ghost predicate StepClear(f: Forest, p: Pos, k: int)
    requires Valid(f, p) && At(f, p).Node? && 1 <= k <= Depth(p)
  {
    && Valid(f, Ancestor(p, k - 1)) && At(f, Ancestor(p, k - 1)).Node?
    && Valid(At(f, Ancestor(p, k - 1)).body, Level(p, k))
    && At(At(f, Ancestor(p, k - 1)).body, Level(p, k)).Node?
    && NoEarlier(At(f, Ancestor(p, k - 1)).body, Level(p, k), At(At(f, Ancestor(p, k - 1)).body, Level(p, k)).name)
  }

  lemma {:induction false} JoinSplit(f: Forest, p: Pos, q: Pos)
    requires Valid(f, Join(p, q))
    ensures Valid(f, p) && Valid(At(f, p), q) && At(f, Join(p, q)) == At(At(f, p), q)
    decreases p
  {
    match p
    case Here =>
    case Past(x) => JoinSplit(f.rest, x, q);
    case Into(x) => JoinSplit(f.body, x, q);
  }

  /** The names below the root on the way to `p`. */
  ghost function NamesFrom(t: Trail, k: int): seq<seq<byte>>
    requires 0 <= k <= |t|
    decreases |t| - k
  {
    if k == |t| then [] else [t[k].name] + NamesFrom(t, k + 1)
  }

  lemma {:induction false} JoinCancel(p: Pos, q: Pos, r: Pos)
    requires Join(p, q) == Join(p, r)
    ensures q == r
    decreases p
  {
    match p
    case Here =>
    case Past(x) => JoinCancel(x, q, r);
    case Into(x) => JoinCancel(x, q, r);
  }

  lemma {:induction false} JoinDepth(p: Pos, q: Pos)
    ensures Depth(Join(p, Into(q))) == Depth(p) + 1 + Depth(q)
    ensures Ancestor(Join(p, Into(q)), Depth(p)) == p
    decreases p
  {
    hide Ancestor;
    AncestorUnfold(Join(p, Into(q)), Depth(p));
    match p
    case Here =>
    case Past(x) => JoinDepth(x, q);
    case Into(x) => JoinDepth(x, q);
  }

  lemma AncestorUnfold(p: Pos, k: int)
    ensures p.Past? ==> Ancestor(p, k) == Past(Ancestor(p.next, k))
    ensures p.Into? ==> Ancestor(p, k) == if k <= 0 then Here else Into(Ancestor(p.next, k - 1))
  {
  }

  /** Following names only goes down: what is reached lies below where the search started. */
  lemma {:induction false} ResolveBelow(f: Forest, p: Pos, names: seq<seq<byte>>)
    requires Valid(f, p) && At(f, p).Node? && Resolve(f, p, names).Some?
    ensures var r := Resolve(f, p, names).value; Depth(r) == Depth(p) + |names| && Ancestor(r, Depth(p)) == p
    decreases |names|
  {
    if names == [] {
      AncestorSelf(p);
    } else {
      var q := ChildPos(At(f, p).body, names[0]).value;
      ChildValid(At(f, p).body, names[0]);
      JoinDepth(p, q);
      ResolveBelow(f, Join(p, Into(q)), names[1..]);
      var r := Resolve(f, p, names).value;
      AncestorOfAncestor(r, Depth(p) + 1, Depth(p));
    }
  }

  ghost predicate ClearFrom(f: Forest, p: Pos, k: int)
    requires Valid(f, p) && At(f, p).Node?
  {
    forall j :: k < j && 1 <= j <= Depth(p) ==> StepClear(f, p, j)
  }

  lemma StepOnTrail(f: Forest, p: Pos, k: int)
    requires Valid(f, p) && At(f, p).Node? && 1 <= k <= Depth(p)
    requires Valid(f, Ancestor(p, k - 1)) && At(f, Ancestor(p, k - 1)).Node?
    requires Valid(f, Ancestor(p, k)) && At(f, Ancestor(p, k)).Node?
    ensures Step(f, Ancestor(p, k - 1), At(f, Ancestor(p, k)).name) == Some(Ancestor(p, k)) <==> StepClear(f, p, k)
    ensures Step(f, Ancestor(p, k - 1), At(f, Ancestor(p, k)).name).Some? ==>
              Depth(Step(f, Ancestor(p, k - 1), At(f, Ancestor(p, k)).name).value) == k
  {
    hide Before, After, First, NoEarlier, ChildPos;
    var a, q := Ancestor(p, k - 1), Level(p, k);
    AncestorStep(p, k);
    AncestorOfAncestor(p, k - 1, 0);
    JoinSplit(f, a, Into(q));
    var body := At(f, a).body;
    ChildFound(body, q);
    var n := At(body, q).name;
    if ChildPos(body, n).Some? {
      var q' := ChildPos(body, n).value;
      ChildValid(body, n);
      JoinDepth(a, q');
      if Join(a, Into(q')) == Join(a, Into(q)) { JoinCancel(a, Into(q'), Into(q)); }
    }
  }

  /** Following the names of a trail from depth `k` leads to its node exactly when no step is shadowed. */
  lemma {:induction false} ResolveTrail(f: Forest, p: Pos, k: int, t: Trail)
    requires Valid(f, p) && At(f, p).Node? && 0 <= k <= Depth(p) && t == TrailTo(f, 0, p, [])
    ensures |t| == Depth(p) + 1
    ensures Valid(f, Ancestor(p, k)) && At(f, Ancestor(p, k)).Node?
    ensures Resolve(f, Ancestor(p, k), NamesFrom(t, k + 1)) == Some(p) <==> ClearFrom(f, p, k)
    decreases Depth(p) - k
  {
    hide TrailTo, StepClear, Step, Before, After, First;
    TrailIsChain(f, 0, p, [], k);
    AncestorSelf(p);
    if k < Depth(p) {
      TrailIsChain(f, 0, p, [], k + 1);
      ResolveTrail(f, p, k + 1, t);
      StepOnTrail(f, p, k + 1);
      var a, n := Ancestor(p, k), t[k + 1].name;
      var names := NamesFrom(t, k + 1);
      assert names[0] == n && names[1..] == NamesFrom(t, k + 2);
      ClearStep(f, p, k);
      if Step(f, a, n).Some? && Step(f, a, n).value != Ancestor(p, k + 1)
         && Resolve(f, Step(f, a, n).value, names[1..]).Some? {
        ResolveBelow(f, Step(f, a, n).value, names[1..]);
      }
    }
  }

  lemma ClearStep(f: Forest, p: Pos, k: int)
    requires Valid(f, p) && At(f, p).Node? && 0 <= k < Depth(p)
    ensures ClearFrom(f, p, k) <==> StepClear(f, p, k + 1) && ClearFrom(f, p, k + 1)
  {
  }

  /** The trail's names can be told apart again: none is empty, none holds a slash, and the root has none. */
  ghost predicate Separable(t: Trail) {
    t != [] && t[0].name == [] && forall k :: 1 <= k < |t| ==> t[k].name != [] && SLASH !in t[k].name
  }

  lemma {:induction false} RenderedPrefix(t: Trail, m: int)
    requires 0 <= m <= |t|
    ensures Rendered(t[..m]) <= Rendered(t)
    decreases |t| - m
  {
    if m == |t| {
      assert t[..m] == t;
    } else {
      RenderedPrefix(t, m + 1);
      RenderedPush(t, m);
    }
  }

  /** Where the `k`-th name and the slash before it stand in the path. */
  lemma PathSpells(t: Trail, s: seq<byte>, k: int)
    requires Rendered(t) != [] && s == Rendered(t)[..|Rendered(t)| - 1] && 1 <= k < |t|
    ensures var i, n := |Rendered(t[..k])| - 1, t[k].name;
            && i >= 0 && i + 1 + |n| <= |s| && |Rendered(t[..k + 1])| - 1 == i + 1 + |n|
            && s[i] == SLASH && Spells(s, i + 1, n) && (i + 1 + |n| < |s| ==> s[i + 1 + |n|] == SLASH)
  {
    hide Rendered, Spells;
    RenderedEnd(t[..k]);
    RenderedPush(t, k);
    RenderedPrefix(t, k + 1);
    PrefixSpells(Rendered(t), s, Rendered(t[..k]), t[k].name);
  }

  lemma PrefixSpells(all: seq<byte>, s: seq<byte>, r: seq<byte>, n: seq<byte>)
    requires all != [] && s == all[..|all| - 1] && r + n + [SLASH] <= all && r != [] && r[|r| - 1] == SLASH
    ensures var i := |r| - 1;
            && i + 1 + |n| <= |s| && s[i] == SLASH && Spells(s, i + 1, n)
            && (i + 1 + |n| < |s| ==> s[i + 1 + |n|] == SLASH)
  {
    var full := r + n + [SLASH];
    assert forall j {:trigger all[j]} :: 0 <= j < |full| ==> all[j] == full[j];
    assert forall j {:trigger n[j]} :: 0 <= j < |n| ==> n[j] == full[|r| + j] == all[|r| + j] == s[|r| + j];
    assert full[|r| - 1] == r[|r| - 1] && full[|r| + |n|] == SLASH;
  }

  lemma ComponentStep(s: seq<byte>, i: int, n: seq<byte>)
    requires 0 <= i && i + 1 + |n| <= |s| && n != [] && SLASH !in n
    requires s[i] == SLASH && Spells(s, i + 1, n) && (i + 1 + |n| < |s| ==> s[i + 1 + |n|] == SLASH)
    ensures Components(s, i) == [n] + Components(s, i + 1 + |n|)
  {
    SlashAfterName(s, i + 1, n);
    SliceIs(s, i + 1, n);
    assert s[i + 1 + 0] == n[0];
    assert Components(s, i) == Components(s, i + 1);
  }

  /** Splitting the path from the slash before the `k`-th name on yields the names from there on. */
  lemma {:induction false} ComponentsFrom(t: Trail, s: seq<byte>, k: int)
    requires Separable(t) && s == Rendered(t)[..|Rendered(t)| - 1] && 1 <= k <= |t|
    ensures var i := |Rendered(t[..k])| - 1; 0 <= i <= |s| && Components(s, i) == NamesFrom(t, k)
    decreases |t| - k
  {
    hide Rendered, Spells, Components, NamesFrom;
    RenderedEnd(t);
    NamesStep(t, k);
    EndComponents(s);
    if k == |t| {
      assert t[..k] == t;
    } else {
      PathSpells(t, s, k);
      ComponentStep(s, |Rendered(t[..k])| - 1, t[k].name);
      ComponentsFrom(t, s, k + 1);
    }
  }

  lemma NamesStep(t: Trail, k: int)
    requires 1 <= k <= |t|
    ensures NamesFrom(t, k) == if k == |t| then [] else [t[k].name] + NamesFrom(t, k + 1)
  {
  }

  lemma EndComponents(s: seq<byte>)
    ensures Components(s, |s|) == []
  {
  }

  lemma {:induction false} SlashAfterName(s: seq<byte>, i: int, n: seq<byte>)
    requires 0 <= i && i + |n| <= |s| && SLASH !in n
    requires forall j {:trigger n[j]} :: 0 <= j < |n| ==> s[i + j] == n[j]
    requires i + |n| < |s| ==> s[i + |n|] == SLASH
    ensures SlashFrom(s, i) == i + |n|
    decreases |n|
  {
    if n != [] {
      assert s[i + 0] == n[0];
      assert forall j {:trigger n[1..][j]} :: 0 <= j < |n| - 1 ==> n[1..][j] == n[j + 1];
      SlashAfterName(s, i + 1, n[1..]);
    }
  }

  lemma ComponentsOfPath(t: Trail)
    requires Separable(t)
    ensures Components(PathString(t), 0) == NamesFrom(t, 1)
  {
    RenderedEnd(t);
    RenderedPush(t, 0);
    assert t[..0] == [];
    if |t| == 1 {
      assert Components(PathString(t), 0) == Components(PathString(t), 1);
    } else {
      ComponentsFrom(t, PathString(t), 1);
    }
  }

  /** Two nodes at the same offset are the same node. */
  lemma {:induction false} OffInjective(f: Forest, p: Pos, q: Pos)
    requires Valid(f, p) && Valid(f, q) && At(f, p).Node? && At(f, q).Node? && Off(f, p) == Off(f, q)
    ensures p == q
    decreases p
  {
    hide Off, Size;
    OffSplit(f, p);
    OffSplit(f, q);
    FirstLen(f);
    match (p, q)
    case (Here, Here) =>
    case (Past(x), Past(y)) => OffInjective(f.rest, x, y);
    case (Into(x), Into(y)) => OffInjective(f.body, x, y);
    case (Past(x), Into(y)) => NodeInside(f.body, y);
    case (Into(x), Past(y)) => NodeInside(f.body, x);
    case _ =>
  }

  lemma NodeInside(f: Forest, p: Pos)
    requires Valid(f, p) && At(f, p).Node?
    ensures Off(f, p) < Size(f)
  {
    FlatAt(f, p);
    SizeSplit(At(f, p));
  }

  /**
  `fdt_path_offset` applied to the path that `fdt_get_path` writes returns the node's own offset exactly
  when no earlier sibling matches at any step of the path.
  */
  lemma PathRoundTrip(b: seq<byte>, p: Pos, o: int)
    requires NodeAt(b, p, o) && Separable(TrailTo(Stored(b), 0, p, []))
    ensures var f := Stored(b);
            OffsetOf(f, 0, Resolve(f, Here, Components(PathString(TrailTo(f, 0, p, [])), 0))) == o <==> Unshadowed(f, p)
  {
    hide Decode, Named, Off, Separable, StepClear, TrailTo;
    var f := Stored(b);
    var t := TrailTo(f, 0, p, []);
    ComponentsOfPath(t);
    RootAncestor(b, p, o);
    ResolveTrail(f, p, 0, t);
    var r := Resolve(f, Here, NamesFrom(t, 1));
    if r.Some? && Off(f, r.value) == o { OffInjective(f, r.value, p); }
  }

  /**
  Writes the path of a node and looks up what has been written, in any blob whose root has no name.  Where
  the text is the path (`Untangled`) and its names can be told apart, the node itself is found exactly when
  nothing shadows it.
  */
  method PathThere(b: seq<byte>, nodeoffset: int, buf: array<byte>, buflen: int, ghost p: Pos)
    returns (r: int, offset: int)
    requires Buffer(b) && CheckHeader(b) == 0 && NodeAt(b, p, nodeoffset) && buflen <= buf.Length
    requires Stored(b).name == []
    modifies buf
    ensures var t := TrailTo(Stored(b), 0, p, []);
            && (r == 0 || r == NOSPACE) && (r == 0 ==> |PathString(t)| + 1 <= buflen)
            && (Untangled(Nodes(Stored(b), 0, []), t, nodeoffset, buflen) ==>
                && (r == 0 <==> |PathString(t)| + 1 <= buflen)
                && (r == 0 && Separable(t) ==> (offset == nodeoffset <==> Unshadowed(Stored(b), p))))
  {
    hide Decode, Named, Rooted, Off, TrailTo, Rendered, Untangled, Separable, Nodes, PathString, Unshadowed;
    hide CheckHeader, Components, Resolve;
    offset := NOTFOUND;
    ghost var w;
    r, w := FdtGetPath(b, nodeoffset, buf, buflen, p);
    if r != 0 {
      return;
    }
    assert forall k {:trigger buf[k]} :: 0 <= k <= |w| ==> buf[k] == (w + [0])[k];
    var n := 0;
    while buf[n] != 0
      invariant 0 <= n <= |w|
      decreases |w| - n
    {
      n := n + 1;
    }
    assert n == |w| && buf[..n] == w;
    if Separable(TrailTo(Stored(b), 0, p, [])) { PathRoundTrip(b, p, nodeoffset); }
    LocatedAbsolute(b, w, 0);
    offset := FdtPathOffset(b, buf[..n], 0);
  }
}
