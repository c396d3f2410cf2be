/**
The tree structure behind a token list.  A `Forest` is the list of items of a node: NOPs, properties
and subnodes, in order.  `Flat` lists its tokens, `Parse` reads it back, `Pos` names a place in it and
`Graft` edits at a place.
*/
module Structure {
  import opened Words
  import opened Tokens

  type Leafy = t: Token | t.Nop? || t.Prop? witness Nop

  datatype Forest = Stop | Leaf(item: Leafy, rest: Forest) | Node(name: seq<byte>, body: Forest, rest: Forest)

  function Flat(f: Forest): Tokens {
    match f
    case Stop => Nil
    case Leaf(t, r) => Cons(t, Flat(r))
    case Node(n, b, r) => Cons(Begin(n), Append(Flat(b), Cons(Close, Flat(r))))
  }

  ghost function Size(f: Forest): nat {
    Len(Flat(f))
  }

  lemma SizeSplit(f: Forest)
    ensures f.Leaf? ==> Size(f) == TokenLen(f.item) + Size(f.rest)
    ensures f.Node? ==> Size(f) == TokenLen(Begin(f.name)) + Size(f.body) + 4 + Size(f.rest)
  {
    if f.Node? { LenAppend(Flat(f.body), Cons(Close, Flat(f.rest))); }
  }

  function Count(l: Tokens): nat {
    if l.Nil? then 0 else 1 + Count(l.tail)
  }

  /** Reads items until the list ends or a Close comes that the items do not open. */
  function Parse(l: Tokens): (r: Option<(Forest, Tokens)>)
    ensures r.Some? ==> Count(r.value.1) <= Count(l)
    decreases Count(l)
  {
    if l.Nil? || l.head.Close? then Some((Stop, l))
    else if l.head.Begin? then
      match Parse(l.tail)
      case Some((b, Cons(Close, l2))) =>
        (match Parse(l2)
         case Some((r, l3)) => Some((Node(l.head.name, b, r), l3))
         case None => None)
      case _ => None
    else
      match Parse(l.tail)
      case Some((r, l2)) => Some((Leaf(l.head, r), l2))
      case None => None
  }

  predicate Ends(k: Tokens) {
    k.Nil? || k.head.Close?
  }

  lemma {:induction false} ParseFlat(f: Forest, k: Tokens)
    requires Ends(k)
    ensures Parse(Append(Flat(f), k)) == Some((f, k))
    decreases f
  {
    match f
    case Stop =>
    case Leaf(t, r) => ParseFlat(r, k);
    case Node(n, b, r) =>
      var l2 := Append(Flat(r), k);
      AppendAssoc(Flat(b), Cons(Close, Flat(r)), k);
      assert Append(Cons(Close, Flat(r)), k) == Cons(Close, l2);
      ParseFlat(b, Cons(Close, l2));
      ParseFlat(r, k);
  }

  lemma {:induction false} ParseSound(l: Tokens)
    requires Parse(l).Some?
    ensures Ends(Parse(l).value.1) && l == Append(Flat(Parse(l).value.0), Parse(l).value.1)
    decreases Count(l)
  {
    if l.Nil? || l.head.Close? {
    } else if l.head.Begin? {
      ParseSound(l.tail);
      var Some((b, Cons(_, l2))) := Parse(l.tail);
      ParseSound(l2);
      var Some((r, l3)) := Parse(l2);
      AppendAssoc(Flat(b), Cons(Close, Flat(r)), l3);
    } else {
      ParseSound(l.tail);
    }
  }

  /** A place in a forest: before the current item, past it, or inside the node it is. */
  datatype Pos = Here | Past(next: Pos) | Into(next: Pos)

  ghost predicate Valid(f: Forest, p: Pos)
    decreases p
  {
    match p
    case Here => true
    case Past(q) => !f.Stop? && Valid(f.rest, q)
    case Into(q) => f.Node? && Valid(f.body, q)
  }

  /** The items from `p` to the end of its enclosing node. */
  ghost function At(f: Forest, p: Pos): Forest
    requires Valid(f, p)
    decreases p
  {
    match p
    case Here => f
    case Past(q) => At(f.rest, q)
    case Into(q) => At(f.body, q)
  }

  /** `f` with the items from `p` on replaced by `g`. */
  ghost function Graft(f: Forest, p: Pos, g: Forest): Forest
    requires Valid(f, p)
    decreases p
  {
    match p
    case Here => g
    case Past(q) => f.(rest := Graft(f.rest, q, g))
    case Into(q) => f.(body := Graft(f.body, q, g))
  }

  /** The tokens of the first item. */
  ghost function First(f: Forest): Tokens
    requires !f.Stop?
  {
    if f.Leaf? then Cons(f.item, Nil) else Cons(Begin(f.name), Append(Flat(f.body), Cons(Close, Nil)))
  }

  /** The tokens before `p`. */
  ghost function Before(f: Forest, p: Pos): Tokens
    requires Valid(f, p)
    decreases p
  {
    match p
    case Here => Nil
    case Past(q) => Append(First(f), Before(f.rest, q))
    case Into(q) => Cons(Begin(f.name), Before(f.body, q))
  }

  /** The tokens after the items at `p`. */
  ghost function After(f: Forest, p: Pos): Tokens
    requires Valid(f, p)
    decreases p
  {
    match p
    case Here => Nil
    case Past(q) => After(f.rest, q)
    case Into(q) => Append(After(f.body, q), Cons(Close, Flat(f.rest)))
  }

  /** Byte offset of `p` from the start of `f`. */
  ghost function Off(f: Forest, p: Pos): nat
    requires Valid(f, p)
  {
    Len(Before(f, p))
  }

  lemma HereOff(f: Forest)
    ensures Off(f, Here) == 0
  {
  }

  lemma FirstThenRest(f: Forest)
    requires !f.Stop?
    ensures Flat(f) == Append(First(f), Flat(f.rest))
  {
    if f.Node? {
      AppendAssoc(Flat(f.body), Cons(Close, Nil), Flat(f.rest));
      assert Append(Cons(Close, Nil), Flat(f.rest)) == Cons(Close, Flat(f.rest));
    }
  }

  /** A graft changes the tokens of the items at `p` and no others. */
  lemma {:induction false} GraftFlat(f: Forest, p: Pos, g: Forest)
    requires Valid(f, p)
    ensures Flat(Graft(f, p, g)) == Append(Before(f, p), Append(Flat(g), After(f, p)))
    decreases p
  {
    match p
    case Here => AppendNil(Flat(g));
    case Past(q) =>
      GraftFlat(f.rest, q, g);
      FirstThenRest(f.(rest := Graft(f.rest, q, g)));
      AppendAssoc(First(f), Before(f.rest, q), Append(Flat(g), After(f.rest, q)));
    case Into(q) =>
      GraftFlat(f.body, q, g);
      var c := Cons(Close, Flat(f.rest));
      AppendAssoc(Before(f.body, q), Append(Flat(g), After(f.body, q)), c);
      AppendAssoc(Flat(g), After(f.body, q), c);
  }

  lemma {:induction false} GraftSelf(f: Forest, p: Pos)
    requires Valid(f, p)
    ensures Graft(f, p, At(f, p)) == f
    decreases p
  {
    match p
    case Here =>
    case Past(q) => GraftSelf(f.rest, q);
    case Into(q) => GraftSelf(f.body, q);
  }

  /** The tokens around a place. */
  lemma FlatAt(f: Forest, p: Pos)
    requires Valid(f, p)
    ensures Flat(f) == Append(Before(f, p), Append(Flat(At(f, p)), After(f, p)))
    ensures Size(f) == Off(f, p) + Size(At(f, p)) + Len(After(f, p))
  {
    GraftSelf(f, p);
    GraftFlat(f, p, At(f, p));
    LenAppend(Before(f, p), Append(Flat(At(f, p)), After(f, p)));
    LenAppend(Flat(At(f, p)), After(f, p));
  }

  lemma {:induction false} GraftAt(f: Forest, p: Pos, g: Forest)
    requires Valid(f, p)
    ensures Valid(Graft(f, p, g), p) && At(Graft(f, p, g), p) == g
    ensures Before(Graft(f, p, g), p) == Before(f, p) && After(Graft(f, p, g), p) == After(f, p)
    decreases p
  {
    match p
    case Here =>
    case Past(q) => GraftAt(f.rest, q, g);
    case Into(q) => GraftAt(f.body, q, g);
  }

  /** The place reached by going to `p` and then, inside the items found there, to `q`. */
  function Join(p: Pos, q: Pos): Pos {
    match p
    case Here => q
    case Past(x) => Past(Join(x, q))
    case Into(x) => Into(Join(x, q))
  }

  lemma {:induction false} JoinAt(f: Forest, p: Pos, q: Pos)
    requires Valid(f, p) && Valid(At(f, p), q)
    ensures Valid(f, Join(p, q)) && At(f, Join(p, q)) == At(At(f, p), q)
    ensures Before(f, Join(p, q)) == Append(Before(f, p), Before(At(f, p), q))
    ensures Off(f, Join(p, q)) == Off(f, p) + Off(At(f, p), q)
    decreases p
  {
    match p {
    case Here =>
    case Past(x) =>
      JoinAt(f.rest, x, q);
      AppendAssoc(First(f), Before(f.rest, x), Before(At(f, p), q));
    case Into(x) =>
      JoinAt(f.body, x, q);
    }
    LenAppend(Before(f, p), Before(At(f, p), q));
  }

  lemma {:induction false} JoinGraft(f: Forest, p: Pos, q: Pos, g: Forest)
    requires Valid(f, p) && Valid(At(f, p), q) && Valid(f, Join(p, q))
    ensures Graft(f, Join(p, q), g) == Graft(f, p, Graft(At(f, p), q, g))
    decreases p
  {
    match p
    case Here =>
    case Past(x) => JoinGraft(f.rest, x, q, g);
    case Into(x) => JoinGraft(f.body, x, q, g);
  }
}
