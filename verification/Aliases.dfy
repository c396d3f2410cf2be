/** `fdt_path_offset` and `fdt_get_alias`: a path may begin with an alias, whose value may begin with one again. */
module Aliases {
  import opened Words
  import opened Literals
  import opened Tokens
  import opened Structure
  import opened Tokenizer
  import opened Walk
  import opened Tree
  import opened Blob
  import opened Queries
  import opened Ancestors
  import opened Paths
  import opened Properties

  const BADPATH := -5

  /** "aliases". */
  const ALIASES: seq<byte> := [0x61, 0x6c, 0x69, 0x61, 0x73, 0x65, 0x73]

  /** The node that "/aliases" leads to. */
  ghost function AliasNode(b: seq<byte>): (r: Option<Pos>)
    requires Readable(b)
    ensures r.Some? ==> Valid(Stored(b), r.value) && At(Stored(b), r.value).Node?
  {
    Step(Stored(b), Here, ALIASES)
  }

  /** The structure offset of the value of the property that the alias `name` is. */
  ghost function AliasData(b: seq<byte>, name: seq<byte>): Option<int>
    requires Readable(b)
  {
    match AliasNode(b)
    case None => None
    case Some(p) =>
      match Sought(b, p, name)
      case None => None
      case Some(q) =>
        var x := At(Stored(b), p);
        if Valid(x.body, q) then Some(Off(Stored(b), p) + TokenLen(Begin(x.name)) + Off(x.body, q) + 12) else None
  }

  /** What an alias stands for: the string at its value, which the END tag terminates at the latest. */
  ghost function AliasOf(b: seq<byte>, name: seq<byte>): Option<seq<byte>>
    requires Readable(b)
  {
    if AliasData(b, name).Some? then CString(Struct(b), AliasData(b, name).value) else None
  }

  predicate Absolute(path: seq<byte>) {
    path != [] && path[0] == SLASH
  }

  ghost function Head(path: seq<byte>): seq<byte> {
    path[..SlashFrom(path, 0)]
  }

  /** The path that the recursive call is made for. */
  ghost function Next(b: seq<byte>, path: seq<byte>): Option<seq<byte>>
    requires Readable(b)
  {
    if Absolute(path) then None else AliasOf(b, Head(path))
  }

  /** The recursion for `path` is at most `n` calls deep. */
  ghost predicate Settles(b: seq<byte>, path: seq<byte>, n: nat)
    requires Readable(b)
    decreases n
  {
    match Next(b, path)
    case None => true
    case Some(a) => n > 0 && Settles(b, a, n - 1)
  }

  /** The path with the alias in front replaced by what it stands for, until it is absolute; None without one. */
  ghost function Expanded(b: seq<byte>, path: seq<byte>, n: nat): (r: Option<seq<byte>>)
    requires Readable(b) && Settles(b, path, n)
    ensures r.Some? ==> Absolute(r.value)
    decreases n
  {
    if Absolute(path) then Some(path)
    else
      match Next(b, path)
      case None => None
      case Some(a) =>
        match Expanded(b, a, n - 1)
        case None => None
        case Some(e) => Some(e + path[SlashFrom(path, 0)..])
  }

  /** The first component and those behind it. */
  lemma ComponentsHead(s: seq<byte>, i: int)
    requires 0 <= i < |s| && s[i] != SLASH
    ensures i < SlashFrom(s, i) && Components(s, i) == [s[i..SlashFrom(s, i)]] + Components(s, SlashFrom(s, i))
  {
  }

  lemma ComponentsSkip(s: seq<byte>, i: int)
    requires 0 <= i <= |s|
    ensures i == |s| ==> Components(s, i) == []
    ensures i < |s| && s[i] == SLASH ==> Components(s, i) == Components(s, i + 1)
  {
  }

  lemma {:induction false} ComponentsShift(s: seq<byte>, t: seq<byte>, i: int)
    requires 0 <= i <= |t|
    ensures Components(s + t, |s| + i) == Components(t, i)
    decreases |t| - i
  {
    hide Components, SlashFrom;
    ComponentsSkip(t, i);
    ComponentsSkip(s + t, |s| + i);
    if i < |t| {
      assert (s + t)[|s| + i] == t[i];
      if t[i] == SLASH {
        ComponentsShift(s, t, i + 1);
      } else {
        ComponentsHead(t, i);
        ComponentsHead(s + t, |s| + i);
        SlashShift(s, t, i);
        ComponentsShift(s, t, SlashFrom(t, i));
        SliceShift(s, t, i, SlashFrom(t, i));
      }
    }
  }

  lemma SliceShift(s: seq<byte>, t: seq<byte>, i: int, k: int)
    requires 0 <= i <= k <= |t|
    ensures (s + t)[|s| + i..|s| + k] == t[i..k]
  {
  }

  lemma {:induction false} SlashShift(s: seq<byte>, t: seq<byte>, i: int)
    requires 0 <= i <= |t|
    ensures SlashFrom(s + t, |s| + i) == |s| + SlashFrom(t, i)
    decreases |t| - i
  {
    if i < |t| {
      assert (s + t)[|s| + i] == t[i];
      if t[i] != SLASH { SlashShift(s, t, i + 1); }
    }
  }

  lemma {:induction false} SlashInside(s: seq<byte>, t: seq<byte>, i: int)
    requires 0 <= i <= |s| && (t == [] || t[0] == SLASH)
    ensures SlashFrom(s + t, i) == SlashFrom(s, i)
    decreases |s| - i
  {
    if i < |s| {
      assert (s + t)[i] == s[i];
      if s[i] != SLASH { SlashInside(s, t, i + 1); }
    } else if t != [] {
      assert (s + t)[i] == t[0];
    }
  }

  /** A path continued at a slash has the components of both parts. */
  lemma {:induction false} ComponentsJoin(s: seq<byte>, t: seq<byte>, i: int)
    requires 0 <= i <= |s| && (t == [] || t[0] == SLASH)
    ensures Components(s + t, i) == Components(s, i) + Components(t, 0)
    decreases |s| - i, 1
  {
    if i == |s| {
      ComponentsShift(s, t, 0);
    } else {
      assert (s + t)[i] == s[i];
      if s[i] == SLASH {
        ComponentsJoin(s, t, i + 1);
      } else {
        ComponentsOnward(s, t, i);
      }
    }
  }

  lemma {:induction false} ComponentsOnward(s: seq<byte>, t: seq<byte>, i: int)
    requires 0 <= i < |s| && s[i] != SLASH && (t == [] || t[0] == SLASH)
    ensures Components(s + t, i) == Components(s, i) + Components(t, 0)
    decreases |s| - i, 0
  {
    hide Components, SlashFrom;
    var k := SlashFrom(s, i);
    SlashInside(s, t, i);
    ComponentsHead(s, i);
    ComponentsHead(s + t, i);
    ComponentsJoin(s, t, k);
    assert (s + t)[i..k] == s[i..k];
    assert [s[i..k]] + (Components(s, k) + Components(t, 0)) == [s[i..k]] + Components(s, k) + Components(t, 0);
  }

  lemma {:induction false} ResolveJoin(f: Forest, p: Pos, xs: seq<seq<byte>>, ys: seq<seq<byte>>)
    requires Valid(f, p) && At(f, p).Node?
    ensures Resolve(f, p, xs + ys) ==
            match Resolve(f, p, xs) case None => None case Some(q) => Resolve(f, q, ys)
    decreases |xs|
  {
    hide Step;
    if xs == [] {
      assert xs + ys == ys;
    } else {
      assert (xs + ys)[0] == xs[0] && (xs + ys)[1..] == xs[1..] + ys;
      if Step(f, p, xs[0]).Some? { ResolveJoin(f, Step(f, p, xs[0]).value, xs[1..], ys); }
    }
  }

  /** Where a path leads once its alias is replaced. */
  ghost function Located(b: seq<byte>, path: seq<byte>, n: nat): int
    requires Readable(b) && Settles(b, path, n)
  {
    match Expanded(b, path, n)
    case None => BADPATH
    case Some(e) => OffsetOf(Stored(b), 0, Resolve(Stored(b), Here, Components(e, 0)))
  }

  /** A path behind an alias goes on from where the alias leads; an error of the alias is the path's error. */
  lemma LocatedStep(b: seq<byte>, path: seq<byte>, n: nat, a: seq<byte>)
    requires Readable(b) && Settles(b, path, n) && Next(b, path) == Some(a)
    ensures n > 0 && Settles(b, a, n - 1)
    ensures Located(b, a, n - 1) < 0 ==> Located(b, path, n) == Located(b, a, n - 1)
    ensures Located(b, a, n - 1) >= 0 ==>
              && Expanded(b, a, n - 1).Some?
              && var p := Resolve(Stored(b), Here, Components(Expanded(b, a, n - 1).value, 0));
                 && p.Some? && NodeAt(b, p.value, Located(b, a, n - 1))
                 && Located(b, path, n)
                    == OffsetOf(Stored(b), 0, Resolve(Stored(b), p.value, Components(path, SlashFrom(path, 0))))
  {
    hide Decode, Named, Off, AliasOf, Head, Resolve, Components;
    if Expanded(b, a, n - 1).Some? {
      var e, k := Expanded(b, a, n - 1).value, SlashFrom(path, 0);
      var rest := path[k..];
      assert Expanded(b, path, n) == Some(e + rest);
      ComponentsJoin(e, rest, 0);
      ResolveJoin(Stored(b), Here, Components(e, 0), Components(rest, 0));
      assert path == path[..k] + rest;
      ComponentsShift(path[..k], rest, 0);
      var p := Resolve(Stored(b), Here, Components(e, 0));
      if p.Some? { NodeFits(b, p.value, Off(Stored(b), p.value)); }
    }
  }

  /** The alias is the part of the path in front of its first slash. */
  lemma AliasInFront(b: seq<byte>, name: seq<byte>, rest: seq<byte>)
    requires Readable(b) && SLASH !in name && name != [] && (rest == [] || rest[0] == SLASH)
    ensures !Absolute(name + rest) && Next(b, name + rest) == AliasOf(b, name)
    ensures (name + rest)[SlashFrom(name + rest, 0)..] == rest
  {
    hide Decode, Named, AliasOf;
    SlashInside(name, rest, 0);
    NoSlash(name, 0);
    assert (name + rest)[..|name|] == name;
  }

  /** The law of aliases: a path that begins with one leads where its value, with the rest behind it, leads. */
  lemma AliasLaw(b: seq<byte>, name: seq<byte>, rest: seq<byte>, a: seq<byte>, n: nat)
    requires Readable(b) && SLASH !in name && name != [] && (rest == [] || rest[0] == SLASH) && n > 0
    requires AliasOf(b, name) == Some(a) && Absolute(a)
    ensures Settles(b, name + rest, n) && Settles(b, a + rest, 0)
    ensures Located(b, name + rest, n) == Located(b, a + rest, 0)
  {
    hide Decode, Named, AliasOf, Resolve, Components;
    AliasInFront(b, name, rest);
    assert Expanded(b, a, n - 1) == Some(a);
    assert Expanded(b, a + rest, 0) == Some(a + rest);
  }

  /** The value of an alias has a NUL behind it, inside the structure block. */
  lemma AliasTerminated(b: seq<byte>, name: seq<byte>)
    requires Readable(b) && AliasData(b, name).Some?
    ensures 0 <= AliasData(b, name).value <= |Struct(b)|
    ensures NulFrom(Struct(b), AliasData(b, name).value) < |Struct(b)|
  {
    hide Decode, Named, Rooted, Get32, Off, Struct;
    var f, s := Stored(b), Struct(b);
    var p := AliasNode(b).value;
    var x, q := At(f, p), Sought(b, p, name).value;
    FindIsProp(x.body, Strings(b), name);
    JoinAt(f, p, Into(q));
    OffSplit(x, Into(q));
    var r := PropPos(p, q);
    OnwardSpelled(b, r);
    PropThenNul(s, Off(f, r), At(x.body, q).item, Onward(f, r));
  }

  lemma {:induction false} FindIsProp(f: Forest, t: seq<byte>, name: seq<byte>)
    requires FindProp(f, t, name).Some?
    ensures IsProp(f, FindProp(f, t, name).value)
    decreases f
  {
    if !(f.item.Prop? && CString(t, f.item.nameoff) == Some(name)) { FindIsProp(f.rest, t, name); }
  }

  lemma PropThenNul(s: seq<byte>, o: int, t: Token, l: Tokens)
    requires Spelled(s, o, l) && l.Cons? && l.head == t && t.Prop?
    ensures 0 <= o + 12 <= |s| && NulFrom(s, o + 12) < |s|
  {
    hide Get32;
    TailLen(l);
    EndIsNul(s);
    assert s[|s| - 4] == 0;
  }

  lemma TailLen(l: Tokens)
    requires l.Cons? && l.head.Prop?
    ensures Len(l) >= 12
  {
    LenNat(l.tail);
  }

  lemma {:induction false} LenNat(l: Tokens)
    ensures Len(l) >= 0
    decreases l
  {
    if l.Cons? { LenNat(l.tail); }
  }

  lemma EndIsNul(s: seq<byte>)
    requires |s| >= 4 && Get32(s, |s| - 4) == END
    ensures s[|s| - 4] == 0
  {
    var i := |s| - 4;
    CellExists(s, i);
    CellUnique(s, i, Value(s[i], s[i + 1], s[i + 2], s[i + 3]));
  }

  /** `strlen` on a string that is known to end. */
  method StringAt(s: seq<byte>, i: int) returns (a: seq<byte>)
    requires 0 <= i <= |s| && NulFrom(s, i) < |s|
    ensures CString(s, i) == Some(a) && NulFree(a)
  {
    var z := i;
    while s[z] != 0
      invariant i <= z < |s| && NulFrom(s, i) == NulFrom(s, z)
      decreases |s| - z
    {
      z := z + 1;
    }
    return s[i..z];
  }

  /** `fdt_get_alias_namelen`, with the string at the value it points to. */
  method FdtGetAlias(b: seq<byte>, name: seq<byte>, ghost n: nat) returns (a: Option<seq<byte>>)
    requires Readable(b) && CheckHeader(b) == 0
    ensures a == AliasOf(b, name)
    ensures a.Some? ==> NulFree(a.value)
    decreases n, 1
  {
    hide Decode, Named, Rooted, Off, Get32, CheckNode, Struct, TokenLen, CheckHeader, FindProp, TokenAt, CString;
    ghost var p := Here;
    AliasesPath();
    var aliasoffset := FdtPathOffset(b, [SLASH] + ALIASES, n);
    AliasesFound(b, n);
    if aliasoffset < 0 {
      return None;
    }
    p := AliasNode(b).value;
    var offset, len := FdtGetProperty(b, aliasoffset, name, p);
    if offset < 0 {
      return None;
    }
    var s := LoadStruct(b);
    AliasTerminated(b, name);
    var text := StringAt(s, offset + 12);
    return Some(text);
  }

  lemma AliasesPath()
    ensures NulFree([SLASH] + ALIASES) && Absolute([SLASH] + ALIASES)
    ensures Components([SLASH] + ALIASES, 0) == [ALIASES]
    ensures ALIASES == Ascii("aliases")
  {
    var s := [SLASH] + ALIASES;
    ComponentsShift([SLASH], ALIASES, 0);
    NoSlash(ALIASES, 0);
    assert ALIASES[0..|ALIASES|] == ALIASES;
    assert Components(ALIASES, 0) == [ALIASES] + Components(ALIASES, |ALIASES|);
  }

  lemma {:induction false} NoSlash(s: seq<byte>, i: int)
    requires 0 <= i <= |s| && forall k :: i <= k < |s| ==> s[k] != SLASH
    ensures SlashFrom(s, i) == |s|
    decreases |s| - i
  {
    if i < |s| { NoSlash(s, i + 1); }
  }

  lemma AliasesFound(b: seq<byte>, n: nat)
    requires Readable(b)
    ensures Settles(b, [SLASH] + ALIASES, n)
    ensures Located(b, [SLASH] + ALIASES, n) == OffsetOf(Stored(b), 0, AliasNode(b))
    ensures AliasNode(b).Some? ==>
              && NodeAt(b, AliasNode(b).value, Off(Stored(b), AliasNode(b).value))
              && Off(Stored(b), AliasNode(b).value) >= 0
              && CheckNode(Struct(b), Off(Stored(b), AliasNode(b).value)) >= 0
  {
    hide Decode, Named, Off, Step, Components, CheckNode;
    AliasesPath();
    assert Resolve(Stored(b), Here, [ALIASES]) == AliasNode(b);
    if AliasNode(b).Some? {
      var p := AliasNode(b).value;
      NodeFits(b, p, Off(Stored(b), p));
      OffNat(b, p);
    }
  }

  lemma OffNat(b: seq<byte>, p: Pos)
    requires Readable(b) && Valid(Stored(b), p)
    ensures Off(Stored(b), p) >= 0
  {
    hide Decode, Named, Rooted, Off;
    OnwardSpelled(b, p);
    ReadsFits(Struct(b), Off(Stored(b), p), Onward(Stored(b), p));
  }

  /**
  `fdt_path_offset`.  An alias in front of the path is replaced by what it stands for, as text, and so on
  while the replacement does not begin with a slash; BADPATH when there is no such alias.  The recursion
  has no bound of its own: `n` bounds it, and `SettlesExactly` says when such a bound exists.
  */
  method FdtPathOffset(b: seq<byte>, path: seq<byte>, ghost n: nat) returns (offset: int)
    requires Buffer(b) && (CheckHeader(b) == 0 ==> Readable(b) && Settles(b, path, n)) && NulFree(path)
    ensures CheckHeader(b) != 0 ==> offset == CheckHeader(b)
    ensures CheckHeader(b) == 0 ==> offset == Located(b, path, n)
    decreases n, if Absolute(path) then 0 else 2
  {
    hide Decode, Named, Off, Step, CheckNode, Struct, CheckHeader, AliasOf, Components, Resolve, Located;
    var err := FdtCheckHeader(b);
    if err != 0 {
      return err;
    }
    ghost var pos := Here;
    var p := 0;
    offset := 0;
    HereOff(Stored(b));
    if !Absolute(path) {
      var q := 0;
      while q < |path| && path[q] != SLASH
        invariant 0 <= q <= |path| && SlashFrom(path, 0) == SlashFrom(path, q)
      {
        q := q + 1;
      }
      var a := FdtGetAlias(b, path[..q], n);
      if a == None {
        LocatedNone(b, path, n);
        return BADPATH;
      }
      LocatedStep(b, path, n, a.value);
      offset := FdtPathOffset(b, a.value, n - 1);
      if offset >= 0 { pos := Resolve(Stored(b), Here, Components(Expanded(b, a.value, n - 1).value, 0)).value; }
      p := q;
    } else {
      LocatedAbsolute(b, path, n);
    }
    offset := FollowPath(b, path, p, offset, pos);
  }

  lemma LocatedNone(b: seq<byte>, path: seq<byte>, n: nat)
    requires Readable(b) && Settles(b, path, n) && !Absolute(path) && Next(b, path).None?
    ensures Located(b, path, n) == BADPATH
  {
  }

  lemma LocatedAbsolute(b: seq<byte>, path: seq<byte>, n: nat)
    requires Readable(b) && Absolute(path)
    ensures Settles(b, path, n)
    ensures Located(b, path, n) == OffsetOf(Stored(b), 0, Resolve(Stored(b), Here, Components(path, 0)))
  {
  }

  /** An alias whose value holds its terminator stands for the bytes in front of that. */
  lemma AliasValue(b: seq<byte>, p: Pos, q: Pos, name: seq<byte>)
    requires Readable(b) && AliasNode(b) == Some(p) && Sought(b, p, name) == Some(q)
    ensures IsProp(At(Stored(b), p).body, q)
    ensures var v := At(At(Stored(b), p).body, q).item.value; CString(v, 0).Some? ==> AliasOf(b, name) == CString(v, 0)
  {
    hide Decode, Named, Rooted, Off, Struct, Get32, FindProp;
    var f, s := Stored(b), Struct(b);
    var x := At(f, p);
    FindIsProp(x.body, Strings(b), name);
    JoinAt(f, p, Into(q));
    OffSplit(x, Into(q));
    OnwardSpelled(b, PropPos(p, q));
    var v, o := At(x.body, q).item.value, Off(f, PropPos(p, q)) + 12;
    if CString(v, 0).Some? { StringWithin(s, o, v); }
  }

  lemma StringWithin(s: seq<byte>, o: int, v: seq<byte>)
    requires Spells(s, o, v) && CString(v, 0).Some?
    ensures CString(s, o) == CString(v, 0)
  {
    var z := NulFrom(v, 0);
    assert forall k :: o <= k <= o + z ==> s[k] == v[k - o];
    NulFromIs(s, o, o + z);
    assert s[o..o + z] == v[0..z];
  }

  /** The names of the leading properties of a node. */
  ghost function Names(f: Forest, t: seq<byte>): set<seq<byte>> {
    if !f.Leaf? then {}
    else if f.item.Prop? && CString(t, f.item.nameoff).Some? then {CString(t, f.item.nameoff).value} + Names(f.rest, t)
    else Names(f.rest, t)
  }

  lemma {:induction false} FoundNamed(f: Forest, t: seq<byte>, name: seq<byte>)
    ensures FindProp(f, t, name).Some? ==> name in Names(f, t)
    decreases f
  {
    if f.Leaf? { FoundNamed(f.rest, t, name); }
  }

  /** The names that are aliases in `b`. */
  ghost function AliasNames(b: seq<byte>): set<seq<byte>>
    requires Readable(b)
  {
    if AliasNode(b).Some? then Names(At(Stored(b), AliasNode(b).value).body, Strings(b)) else {}
  }

  lemma AliasNamed(b: seq<byte>, name: seq<byte>)
    requires Readable(b) && name !in AliasNames(b)
    ensures AliasOf(b, name).None?
  {
    hide Decode, Named, Rooted, Names;
    if AliasNode(b).Some? { FoundNamed(At(Stored(b), AliasNode(b).value).body, Strings(b), name); }
  }

  /** The recursion for any path that begins with this alias is at most `n` deep. */
  ghost predicate NameSettles(b: seq<byte>, name: seq<byte>, n: nat)
    requires Readable(b)
  {
    match AliasOf(b, name)
    case None => true
    case Some(a) => n > 0 && Settles(b, a, n - 1)
  }

  lemma {:induction false} SettlesMore(b: seq<byte>, path: seq<byte>, n: nat)
    requires Readable(b) && Settles(b, path, n)
    ensures Settles(b, path, n + 1)
    decreases n
  {
    hide Readable, AliasOf;
    if Next(b, path).Some? { SettlesMore(b, Next(b, path).value, n - 1); }
  }

  /** The aliases that are resolved within `n` steps. */
  ghost function Done(b: seq<byte>, n: nat): set<seq<byte>>
    requires Readable(b)
  {
    set x | x in AliasNames(b) && NameSettles(b, x, n)
  }

  lemma DoneGrows(b: seq<byte>, n: nat)
    requires Readable(b)
    ensures Done(b, n) <= Done(b, n + 1) <= AliasNames(b)
  {
    hide Readable, AliasOf, AliasNames;
    forall x | x in Done(b, n) ensures x in Done(b, n + 1) {
      if AliasOf(b, x).Some? { SettlesMore(b, AliasOf(b, x).value, n - 1); }
    }
  }

  /** When one more step resolves no further alias, no number of steps does. */
  lemma DoneStays(b: seq<byte>, n: nat)
    requires Readable(b) && Done(b, n) == Done(b, n + 1)
    ensures Done(b, n + 1) == Done(b, n + 2)
  {
    hide Readable, AliasOf, AliasNames, Head;
    DoneGrows(b, n + 1);
    forall x | x in AliasNames(b) && NameSettles(b, x, n + 2) ensures NameSettles(b, x, n + 1) {
      if AliasOf(b, x).Some? {
        var a := AliasOf(b, x).value;
        assert Settles(b, a, n + 1);
        if !Absolute(a) {
          var y := Head(a);
          if y !in AliasNames(b) {
            AliasNamed(b, y);
          } else {
            assert y in Done(b, n + 1);
            assert y in Done(b, n);
          }
        }
        assert Settles(b, a, n);
      }
    }
  }

  lemma {:induction false} DoneCounts(b: seq<byte>, n: nat)
    requires Readable(b)
    ensures |Done(b, n)| >= n || Done(b, n) == Done(b, n + 1)
    decreases n
  {
    hide Readable, Done;
    if n > 0 {
      DoneCounts(b, n - 1);
      DoneGrows(b, n - 1);
      if Done(b, n - 1) == Done(b, n) {
        DoneStays(b, n - 1);
      } else {
        Larger(Done(b, n - 1), Done(b, n));
      }
    }
  }

  lemma Larger<T>(s: set<T>, t: set<T>)
    requires s < t
    ensures |s| < |t|
  {
    assert t == s + (t - s) && |t - s| > 0;
  }

  /** After as many steps as there are aliases, every alias that is ever resolved is. */
  lemma {:induction false} DoneByThen(b: seq<byte>, m: nat)
    requires Readable(b)
    ensures Done(b, m) <= Done(b, |AliasNames(b)|)
    ensures m >= |AliasNames(b)| ==> Done(b, m) == Done(b, |AliasNames(b)|) == Done(b, m + 1)
    decreases m
  {
    hide Readable, Done, AliasNames;
    var k := |AliasNames(b)|;
    if m < k {
      DoneReaches(b, m, k);
    } else if m == k {
      DoneCounts(b, k);
      DoneGrows(b, k);
      if Done(b, k) != AliasNames(b) { Larger(Done(b, k), AliasNames(b)); }
    } else {
      DoneByThen(b, m - 1);
      DoneStays(b, m - 1);
    }
  }

  lemma {:induction false} DoneReaches(b: seq<byte>, m: nat, k: nat)
    requires Readable(b) && m <= k
    ensures Done(b, m) <= Done(b, k)
    decreases k - m
  {
    hide Readable, Done, AliasNames;
    if m < k {
      DoneGrows(b, m);
      DoneReaches(b, m + 1, k);
    }
  }

  /**
  `fdt_path_offset` comes back for a path if and only if its recursion is no deeper than there are
  aliases: a caller can tell by following the aliases that often.
  */
  lemma SettlesExactly(b: seq<byte>, path: seq<byte>)
    requires Readable(b)
    ensures (exists n: nat :: Settles(b, path, n)) <==> Settles(b, path, |AliasNames(b)|)
  {
    hide Readable, AliasOf, AliasNames, Head;
    if n: nat :| Settles(b, path, n) {
      if !Absolute(path) {
        var x := Head(path);
        if x in AliasNames(b) {
          assert x in Done(b, n);
          DoneByThen(b, n);
          assert x in Done(b, |AliasNames(b)|);
        } else {
          AliasNamed(b, x);
        }
      }
    }
  }

  /** An alias that stands for a path beginning with that alias is never resolved. */
  lemma {:induction false} AliasOfItself(b: seq<byte>, path: seq<byte>, n: nat)
    requires Readable(b) && !Absolute(path)
    requires match AliasOf(b, Head(path)) case None => false case Some(a) => !Absolute(a) && Head(a) == Head(path)
    ensures !Settles(b, path, n)
    decreases n
  {
    hide Readable, AliasOf, Head;
    if n > 0 { AliasOfItself(b, AliasOf(b, Head(path)).value, n - 1); }
  }
}
