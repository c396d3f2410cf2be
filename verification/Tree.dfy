/**
The device tree that a blob means: `Content` is the list of properties and subnodes of a node, in
order, with names resolved.  `Meaning` abstracts a stored forest; NOPs vanish and name offsets become
the strings they point at.
*/
module Tree {
  import opened Words
  import opened Structure

  datatype Content =
    | Done
    | Property(name: seq<byte>, value: seq<byte>, rest: Content)
    | Subnode(name: seq<byte>, body: Content, rest: Content)

  /** Every property's name offset points at a terminated string of the strings block `t`. */
  ghost predicate Named(f: Forest, t: seq<byte>) {
    match f
    case Stop => true
    case Leaf(k, r) => (k.Prop? ==> CString(t, k.nameoff).Some?) && Named(r, t)
    case Node(_, b, r) => Named(b, t) && Named(r, t)
  }

  ghost function Meaning(f: Forest, t: seq<byte>): Content
    requires Named(f, t)
  {
    match f
    case Stop => Done
    case Leaf(Nop, r) => Meaning(r, t)
    case Leaf(Prop(o, v), r) => Property(CString(t, o).value, v, Meaning(r, t))
    case Node(n, b, r) => Subnode(n, Meaning(b, t), Meaning(r, t))
  }

  ghost predicate ValidIn(c: Content, p: Pos)
    decreases p
  {
    match p
    case Here => true
    case Past(q) => !c.Done? && ValidIn(c.rest, q)
    case Into(q) => c.Subnode? && ValidIn(c.body, q)
  }

  /** The items of the tree from `p` on. */
  ghost function ContentAt(c: Content, p: Pos): Content
    requires ValidIn(c, p)
    decreases p
  {
    match p
    case Here => c
    case Past(q) => ContentAt(c.rest, q)
    case Into(q) => ContentAt(c.body, q)
  }

  /** The tree with the items from `p` on replaced by `d`, and nothing else changed. */
  ghost function Replace(c: Content, p: Pos, d: Content): Content
    requires ValidIn(c, p)
    decreases p
  {
    match p
    case Here => d
    case Past(q) => c.(rest := Replace(c.rest, q, d))
    case Into(q) => c.(body := Replace(c.body, q, d))
  }

  /** The place in the tree that a place in the stored forest means: steps over NOPs are dropped. */
  ghost function Place(f: Forest, p: Pos): Pos
    requires Valid(f, p)
    decreases p
  {
    match p
    case Here => Here
    case Past(q) => if f.Leaf? && f.item.Nop? then Place(f.rest, q) else Past(Place(f.rest, q))
    case Into(q) => Into(Place(f.body, q))
  }

  lemma {:induction false} NamedAt(f: Forest, t: seq<byte>, p: Pos)
    requires Valid(f, p) && Named(f, t)
    ensures Named(At(f, p), t)
    decreases p
  {
    match p
    case Here =>
    case Past(q) => NamedAt(f.rest, t, q);
    case Into(q) => NamedAt(f.body, t, q);
  }

  lemma {:induction false} MeaningAt(f: Forest, t: seq<byte>, p: Pos)
    requires Valid(f, p) && Named(f, t) && Named(At(f, p), t)
    ensures ValidIn(Meaning(f, t), Place(f, p))
    ensures ContentAt(Meaning(f, t), Place(f, p)) == Meaning(At(f, p), t)
    decreases p
  {
    match p
    case Here =>
    case Past(q) => MeaningAt(f.rest, t, q);
    case Into(q) => MeaningAt(f.body, t, q);
  }

  /** A graft in the stored forest is a replacement at the same place of the tree. */
  lemma {:induction false} MeaningGraft(f: Forest, t: seq<byte>, p: Pos, g: Forest)
    requires Valid(f, p) && Named(f, t) && Named(g, t)
    ensures Named(Graft(f, p, g), t) && ValidIn(Meaning(f, t), Place(f, p))
    ensures Meaning(Graft(f, p, g), t) == Replace(Meaning(f, t), Place(f, p), Meaning(g, t))
    decreases p
  {
    match p
    case Here =>
    case Past(q) => MeaningGraft(f.rest, t, q, g);
    case Into(q) => MeaningGraft(f.body, t, q, g);
  }

  /** Adding strings behind the existing ones changes no meaning. */
  lemma {:induction false} MeaningGrows(f: Forest, t: seq<byte>, u: seq<byte>)
    requires Named(f, t) && |t| <= |u| && u[..|t|] == t
    ensures Named(f, u) && Meaning(f, u) == Meaning(f, t)
    decreases f
  {
    if f.Leaf? && f.item.Prop? { StringGrows(t, u, f.item.nameoff); }
    if f.Node? { MeaningGrows(f.body, t, u); }
    if !f.Stop? { MeaningGrows(f.rest, t, u); }
  }

  lemma StringGrows(t: seq<byte>, u: seq<byte>, i: int)
    requires |t| <= |u| && u[..|t|] == t && CString(t, i).Some?
    ensures CString(u, i) == CString(t, i)
  {
    var z := NulFrom(t, i);
    assert forall k {:trigger u[k]} :: 0 <= k < |t| ==> u[k] == u[..|t|][k] == t[k];
    NulFromIs(u, i, z);
    assert u[i..z] == t[i..z];
  }

  /** Among the leading properties of `c` (those before the first subnode) there is one called `name`. */
  predicate Has(c: Content, name: seq<byte>) {
    c.Property? && (c.name == name || Has(c.rest, name))
  }

  /** The value of the first leading property called `name`. */
  function Lookup(c: Content, name: seq<byte>): seq<byte>
    requires Has(c, name)
  {
    if c.name == name then c.value else Lookup(c.rest, name)
  }

  function Update(c: Content, name: seq<byte>, value: seq<byte>): Content
    requires Has(c, name)
  {
    if c.name == name then Property(name, value, c.rest) else Property(c.name, c.value, Update(c.rest, name, value))
  }

  function Remove(c: Content, name: seq<byte>): Content
    requires Has(c, name)
  {
    if c.name == name then c.rest else Property(c.name, c.value, Remove(c.rest, name))
  }

  /** What `fdt_setprop` promises: replace the value in place, or add the property in front. */
  function Assign(c: Content, name: seq<byte>, value: seq<byte>): Content {
    if Has(c, name) then Update(c, name, value) else Property(name, value, c)
  }

  /** The new child goes after the leading properties, before the first subnode. */
  function AddChild(c: Content, name: seq<byte>): Content {
    if c.Property? then Property(c.name, c.value, AddChild(c.rest, name)) else Subnode(name, Done, c)
  }

  /** The leading properties as a list, and what stands behind them. */
  function Props(c: Content): seq<(seq<byte>, seq<byte>)> {
    if c.Property? then [(c.name, c.value)] + Props(c.rest) else []
  }

  function Behind(c: Content): (d: Content)
    ensures !d.Property?
  {
    if c.Property? then Behind(c.rest) else c
  }

  /** List and remainder determine the items. */
  lemma {:induction false} ListDetermines(c: Content, d: Content)
    requires Props(c) == Props(d) && Behind(c) == Behind(d)
    ensures c == d
    decreases c
  {
    if c.Property? {
      assert Props(c)[0] == Props(d)[0] && Props(c)[1..] == Props(c.rest) && Props(d)[1..] == Props(d.rest);
      ListDetermines(c.rest, d.rest);
    }
  }

  lemma {:induction false} NotNamed(c: Content, name: seq<byte>)
    requires !Has(c, name)
    ensures forall j :: 0 <= j < |Props(c)| ==> Props(c)[j].0 != name
    decreases c
  {
    if c.Property? { NotNamed(c.rest, name); }
  }

  /**
  Lookup, update and removal on the list: all three concern the first property of the name, and nothing
  else of the list or behind it.
  */
  lemma {:induction false} FirstNamed(c: Content, name: seq<byte>, value: seq<byte>) returns (i: nat)
    requires Has(c, name)
    ensures i < |Props(c)| && Props(c)[i].0 == name && forall j :: 0 <= j < i ==> Props(c)[j].0 != name
    ensures Lookup(c, name) == Props(c)[i].1
    ensures Props(Update(c, name, value)) == Props(c)[i := (name, value)] && Behind(Update(c, name, value)) == Behind(c)
    ensures Props(Remove(c, name)) == Props(c)[..i] + Props(c)[i + 1..] && Behind(Remove(c, name)) == Behind(c)
    decreases c
  {
    var ps := Props(c.rest);
    assert Props(c)[1..] == ps;
    if c.name == name {
      i := 0;
    } else {
      var j := FirstNamed(c.rest, name, value);
      i := j + 1;
      assert Props(c)[..i] == [(c.name, c.value)] + ps[..j] && Props(c)[i + 1..] == ps[j + 1..];
    }
  }

  /** A new child stands behind the leading properties and in front of all other items, and has none itself. */
  lemma {:induction false} AddChildIs(c: Content, name: seq<byte>)
    ensures Props(AddChild(c, name)) == Props(c) && Behind(AddChild(c, name)) == Subnode(name, Done, Behind(c))
    decreases c
  {
    if c.Property? { AddChildIs(c.rest, name); }
  }

  lemma {:induction false} UpdateSpec(c: Content, name: seq<byte>, value: seq<byte>, other: seq<byte>)
    requires Has(c, name)
    ensures Has(Update(c, name, value), name) && Lookup(Update(c, name, value), name) == value
    ensures other != name ==> (Has(Update(c, name, value), other) <==> Has(c, other))
    ensures other != name && Has(c, other) ==> Lookup(Update(c, name, value), other) == Lookup(c, other)
    decreases c
  {
    if c.name != name { UpdateSpec(c.rest, name, value, other); }
  }

  /** After an assignment the name has the new value and every other name the value it had. */
  lemma AssignSpec(c: Content, name: seq<byte>, value: seq<byte>, other: seq<byte>)
    ensures Has(Assign(c, name, value), name) && Lookup(Assign(c, name, value), name) == value
    ensures other != name ==> (Has(Assign(c, name, value), other) <==> Has(c, other))
    ensures other != name && Has(c, other) ==> Lookup(Assign(c, name, value), other) == Lookup(c, other)
    ensures !Has(c, name) ==> Props(Assign(c, name, value)) == [(name, value)] + Props(c)
    ensures Behind(Assign(c, name, value)) == Behind(c)
  {
    if Has(c, name) { var i := FirstNamed(c, name, value); }
    if Has(c, name) { UpdateSpec(c, name, value, other); }
  }

  /** The tree with the items of the node at `p` replaced. */
  ghost function EditBody(t: Content, p: Pos, c: Content): Content
    requires ValidIn(t, p) && ContentAt(t, p).Subnode?
  {
    Replace(t, p, Subnode(ContentAt(t, p).name, c, ContentAt(t, p).rest))
  }
}
