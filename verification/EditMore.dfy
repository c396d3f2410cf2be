/** More read-write operations on properties: `fdt_appendprop` and `fdt_delprop`. */
module EditMore {
  import opened Words
  import opened Tokens
  import opened Structure
  import opened Tokenizer
  import opened Walk
  import opened Tree
  import opened Blob
  import opened Properties
  import opened Splice
  import opened Edit

  /** The gap behind an old value, opened for more bytes, leaves the property header and the value in place. */
  lemma AppendStored(b: seq<byte>, c: seq<byte>, off: int, no: u32, v: seq<byte>, val: seq<byte>)
    requires BlocksFit(b) && TokenAt(Struct(b), off, Prop(no, v)) && |v| + |val| < INT_LIMIT
    requires Respliced(b, c, off + 12 + Align4(|v|), 0, Align4(|v| + |val|) - Align4(|v|))
    ensures var at := OffStruct(b) + off;
            var d := Overlay(Overlay(c, at + 4, Word(|v| + |val|)), at + 12 + |v|, val);
            && Respliced(b, d, off, TokenLen(Prop(no, v)), TokenLen(Prop(no, v + val)))
            && BlocksFit(d) && Reads(Struct(d), off, Cons(Prop(no, v + val), Nil))
  {
    hide Get32, Overlay, Word, Moved, Reservations, Respliced, Spells;
    var at, n, m := OffStruct(b) + off, 12 + Align4(|v|), 12 + Align4(|v| + |val|);
    ResplicedRoom(b, c, off + n, 0, m - n);
    Widen(b, c, off + n, 0, m - n, n);
    var w := Word(|v| + |val|);
    var c1 := Overlay(c, at + 4, w);
    var d := Overlay(c1, at + 12 + |v|, val);
    WriteGap(b, c, off, n, m, at + 4, w);
    WriteGap(b, c1, off, n, m, at + 12 + |v|, val);
    ResplicedBlocks(b, d, off, n, m);
    ResplicedRoom(b, d, off, n, m);
    AppendCells(b, c, off, no, v, val);
    StructGet(d, off);
    StructGet(d, off + 4);
    StructGet(d, off + 8);
    StructSpells(d, off + 12, v + val);
  }

  lemma AppendCells(b: seq<byte>, c: seq<byte>, off: int, no: u32, v: seq<byte>, val: seq<byte>)
    requires BlocksFit(b) && TokenAt(Struct(b), off, Prop(no, v)) && |v| + |val| < INT_LIMIT
    requires Respliced(b, c, off + 12 + Align4(|v|), 0, Align4(|v| + |val|) - Align4(|v|))
    ensures var at := OffStruct(b) + off;
            var d := Overlay(Overlay(c, at + 4, Word(|v| + |val|)), at + 12 + |v|, val);
            && Get32(d, at) == PROP && Get32(d, at + 4) == |v| + |val| && Get32(d, at + 8) == no
            && Spells(d, at + 12, v + val)
  {
    hide Get32, Overlay, Word, Moved, Reservations, Spells;
    var at, e := OffStruct(b) + off, OffStruct(b) + off + 12 + Align4(|v|);
    var w := Word(|v| + |val|);
    var c1 := Overlay(c, at + 4, w);
    var d := Overlay(c1, at + 12 + |v|, val);
    StructGet(b, off);
    StructGet(b, off + 8);
    MovedGet(b, HEADER, e, c, 0, at);
    MovedGet(b, HEADER, e, c, 0, at + 8);
    OverlayWord(c, at + 4, |v| + |val|);
    OverlayGet(c, at + 4, w, at);
    OverlayGet(c, at + 4, w, at + 8);
    OverlayGet(c1, at + 12 + |v|, val, at);
    OverlayGet(c1, at + 12 + |v|, val, at + 4);
    OverlayGet(c1, at + 12 + |v|, val, at + 8);
    BufferSpells(b, off + 12, v);
    MovedSpells(b, HEADER, e, c, 0, at + 12, v);
    OverlayMoved(c, at + 4, w, at + 8, |c|);
    MovedSpells(c, at + 8, |c|, c1, 0, at + 12, v);
    SpellsAppend(c1, at + 12, v, val);
  }

  lemma BufferSpells(b: seq<byte>, i: int, v: seq<byte>)
    requires BlocksFit(b) && Spells(Struct(b), i, v)
    ensures Spells(b, OffStruct(b) + i, v)
  {
    hide Get32;
    var s := Struct(b);
    forall k {:trigger v[k]} | 0 <= k < |v| ensures b[OffStruct(b) + i + k] == v[k] {
      assert s[i + k] == v[k];
    }
  }

  lemma SpellsAppend(c: seq<byte>, at: int, v: seq<byte>, val: seq<byte>)
    requires Spells(c, at, v) && at + |v| + |val| <= |c|
    ensures Spells(Overlay(c, at + |v|, val), at, v + val)
  {
    var d, x := Overlay(c, at + |v|, val), v + val;
    forall k {:trigger x[k]} | 0 <= k < |x| ensures d[at + k] == x[k] {
      if k < |v| { assert v[k] == c[at + k]; }
    }
  }

  /** What `fdt_appendprop` promises. */
  function Extend(c: Content, name: seq<byte>, val: seq<byte>): Content {
    if Has(c, name) then Update(c, name, Lookup(c, name) + val) else Property(name, val, c)
  }

  /** The part of `fdt_appendprop` that finds the property present: make room behind the value and copy. */
  method AppendValue(a: array<byte>, prop: int, oldlen: int, val: seq<byte>, ghost item: Token) returns (err: int)
    requires InOrder(a[..]) && BlocksFit(a[..]) && item.Prop? && TokenAt(Struct(a[..]), prop, item)
    requires oldlen == |item.value| && a.Length + |val| < INT_LIMIT
    modifies a
    ensures err == 0 || (err == NOSPACE && a[..] == old(a[..]))
    ensures err == 0 <==> old(Room(a[..], Align4(|item.value| + |val|) - Align4(|item.value|)))
    ensures err == 0 ==>
              var t := Prop(item.nameoff, item.value + val);
              && Respliced(old(a[..]), a[..], prop, TokenLen(item), TokenLen(t))
              && BlocksFit(a[..]) && Reads(Struct(a[..]), prop, Cons(t, Nil))
  {
    hide Get32, Reservations, Respliced, Reads, Overlay, Word, Moved, Struct, TokenLen, Spells, TokenAt, Align4;
    ghost var c := a[..];
    PropFits(c, prop, item);
    var newlen := |val| + oldlen;
    err := FdtSpliceStruct(a, prop + 12, TagAlign(oldlen), TagAlign(newlen));
    if err != 0 {
      return;
    }
    ghost var c1 := a[..];
    AppendStored(c, c1, prop, item.nameoff, item.value, val);
    ResplicedRoom(c, c1, prop + 12, Align4(oldlen), Align4(newlen));
    var offStruct := Load32(a[..], OFF_STRUCT);
    Store32(a, offStruct + prop + 4, newlen);
    CopyIn(a, offStruct + prop + 12 + oldlen, val);
  }

  /** `fdt_appendprop`. */
  method FdtAppendProp(a: array<byte>, nodeoffset: int, name: seq<byte>, val: seq<byte>, ghost p: Pos)
    returns (err: int)
    requires WellFormed(a[..]) && NulFree(name) && a.Length + |name| + |val| + 20 < INT_LIMIT
    requires CheckNode(Struct(a[..]), nodeoffset) >= 0 ==> NodeAt(a[..], p, nodeoffset)
    modifies a
    ensures WellFormed(a[..]) && Reserved(a[..]) == old(Reserved(a[..]))
    ensures old(CheckNode(Struct(a[..]), nodeoffset)) < 0 ==> err == old(CheckNode(Struct(a[..]), nodeoffset))
    ensures old(CheckNode(Struct(a[..]), nodeoffset)) >= 0 ==>
              err == if old(Room(a[..], PropNeed(a[..], p, nodeoffset, name, Held(a[..], p, nodeoffset, name) + |val|)))
                     then 0 else NOSPACE
    ensures err == 0 ==>
              && old(NodeAt(a[..], p, nodeoffset))
              && var c := old(BodyOf(a[..], p, nodeoffset));
              TreeOf(a[..]) == old(WithBody(a[..], p, nodeoffset,
                                            if Has(c, name) then Update(c, name, Lookup(c, name) + val)
                                            else Property(name, val, c)))
    ensures err != 0 ==> TreeOf(a[..]) == old(TreeOf(a[..]))
    ensures old(CheckNode(Struct(a[..]), nodeoffset)) >= 0 ==>
              var c, t := old(BodyOf(a[..], p, nodeoffset)), old(Strings(a[..]));
              var free := old(TotalSize(a[..]) - OffStrings(a[..]) - SizeStrings(a[..]));
              && (Has(c, name) ==>
                    var v := |Lookup(c, name)|;
                    (err == 0 <==> Align4(v + |val|) - Align4(v) <= free))
              && (!Has(c, name) && (exists j :: CString(t, j) == Some(name)) ==>
                    (err == 0 <==> 12 + Align4(|val|) <= free))
              && (!Has(c, name) && (forall j :: CString(t, j) != Some(name)) ==>
                    (err == 0 <==> |name| + 1 + 12 + Align4(|val|) <= free))
              && (err == 0 && (Has(c, name) || exists j :: CString(t, j) == Some(name)) ==> Strings(a[..]) == t)
  {
    hide Decode, Named, Rooted, Get32, Reservations, Respliced, Off, Reads, Meaning, CString, Overlay, Word, Moved,
         WithBody, BodyOf, Sought, CheckNode, PropOpen, Struct, Strings, TokenLen, Align4, At, RwCheck, Checked,
         Spells, StringNeed, Room;
    ghost var b := a[..];
    CheckedSame(b);
    err := FdtRwCheckHeader(a);
    if err != 0 {
      return;
    }
    ghost var c := a[..];
    if CheckNode(Struct(b), nodeoffset) >= 0 {
      SameEdits(b, c, p, nodeoffset, Extend(BodyOf(b, p, nodeoffset), name, val));
      FoundValue(c, p, nodeoffset, name);
      CheckedNeed(b, p, nodeoffset, name, Held(b, p, nodeoffset, name) + |val|);
      NeedPlainly(b, p, nodeoffset, name, Held(b, p, nodeoffset, name) + |val|);
    }
    var prop, oldlen := FdtGetProperty(a[..], nodeoffset, name, p);
    if prop >= 0 {
      ghost var item := At(At(Stored(c), p).body, Sought(c, p, name).value).item;
      err := AppendValue(a, prop, oldlen, val, item);
      if err != 0 {
        return;
      }
      ResizedMeans(c, a[..], p, nodeoffset, name, item.value + val);
    } else {
      ghost var base, no;
      err, prop, base, no := FdtAddProperty(a, nodeoffset, name, |val|, p);
      if err != 0 {
        return;
      }
      SameEdits(c, base, p, nodeoffset, Extend(BodyOf(c, p, nodeoffset), name, val));
      FillProp(base, a[..], prop, 0, no, val);
      PropRoom(base, a[..], prop, 0, no, val);
      var offStruct := Load32(a[..], OFF_STRUCT);
      CopyIn(a, offStruct + prop + 12, val);
      InsertedMeans(base, a[..], p, nodeoffset, no, name, val);
    }
  }

  lemma PropFits(b: seq<byte>, off: int, t: Token)
    requires BlocksFit(b) && t.Prop? && TokenAt(Struct(b), off, t)
    ensures 0 <= off && off + 12 + Align4(|t.value|) <= SizeStruct(b) && TokenLen(t) == 12 + Align4(|t.value|)
    ensures Align4(|t.value|) >= 0
  {
    hide Get32;
  }

  /** The property found in the node at `p` has been cut out. */
  lemma RemovedMeans(b: seq<byte>, c: seq<byte>, p: Pos, o: int, name: seq<byte>)
    requires WellFormed(b) && NodeAt(b, p, o) && Sought(b, p, name).Some?
    requires var x := At(Stored(b), p);
             var q := Sought(b, p, name).value;
             IsProp(x.body, q)
             && Respliced(b, c, o + TokenLen(Begin(x.name)) + Off(x.body, q), TokenLen(At(x.body, q).item), 0)
    ensures WellFormed(c) && Reserved(c) == Reserved(b) && Strings(c) == Strings(b)
    ensures Has(BodyOf(b, p, o), name) && TreeOf(c) == WithBody(b, p, o, Remove(BodyOf(b, p, o), name))
    ensures var x := At(Stored(b), p);
            var q := Sought(b, p, name).value;
            Stored(c) == Graft(Stored(b), p, Node(x.name, Graft(x.body, q, At(x.body, q).rest), x.rest))
  {
    hide Decode, Respliced, Off, FindProp, TokenLen, Reservations;
    var f, t := Stored(b), Strings(b);
    var x, q := At(f, p), Sought(b, p, name).value;
    var y := At(x.body, q);
    PropPlace(b, p, o, q);
    NamedAt(f, t, p);
    NamedAt(x.body, t, q);
    RemoveMeans(x.body, t, name);
    var body := Graft(x.body, q, y.rest);
    RootedGraft(f, p, Node(x.name, body, x.rest));
    OneToken(y, y);
    NilLen();
    var k := Off(f, PropPos(p, q));
    ResplicedBlocks(b, c, k, TokenLen(y.item), 0);
    NothingThere(b, c, k, TokenLen(y.item));
    EditMeans(b, c, PropPos(p, q), Cons(y.item, Nil), Nil, Flat(y.rest), y.rest);
    BodyEdited(b, c, p, o, body);
  }

  lemma NothingThere(b: seq<byte>, c: seq<byte>, k: int, n: int)
    requires Respliced(b, c, k, n, 0) && BlocksFit(c)
    ensures Reads(Struct(c), k, Nil)
  {
    hide Get32, Moved, Reservations;
  }

  /** `fdt_delprop`: fails only when the node or the property is not there. */
  method FdtDelProp(a: array<byte>, nodeoffset: int, name: seq<byte>, ghost p: Pos) returns (err: int)
    requires WellFormed(a[..])
    requires CheckNode(Struct(a[..]), nodeoffset) >= 0 ==> NodeAt(a[..], p, nodeoffset)
    modifies a
    ensures WellFormed(a[..]) && Reserved(a[..]) == old(Reserved(a[..]))
    ensures old(CheckNode(Struct(a[..]), nodeoffset)) < 0 ==> err == old(CheckNode(Struct(a[..]), nodeoffset))
    ensures old(CheckNode(Struct(a[..]), nodeoffset)) >= 0 ==>
              var c := old(BodyOf(a[..], p, nodeoffset));
              if Has(c, name) then err == 0 && TreeOf(a[..]) == old(WithBody(a[..], p, nodeoffset, Remove(c, name)))
              else err == NOTFOUND
    ensures err != 0 ==> TreeOf(a[..]) == old(TreeOf(a[..]))
  {
    hide Decode, Named, Rooted, Get32, Reservations, Respliced, Off, Reads, Meaning, CString, Overlay, Word, Moved,
         WithBody, BodyOf, Sought, CheckNode, Struct, Strings, TokenLen, Align4, At, RwCheck, Checked, Spells;
    ghost var b := a[..];
    CheckedSame(b);
    err := FdtRwCheckHeader(a);
    if err != 0 {
      return;
    }
    ghost var c := a[..];
    if CheckNode(Struct(b), nodeoffset) >= 0 {
      SameEdits(b, c, p, nodeoffset, Done);
      FoundValue(c, p, nodeoffset, name);
    }
    var prop, len := FdtGetProperty(a[..], nodeoffset, name, p);
    if prop < 0 {
      return prop;
    }
    ghost var item := At(At(Stored(c), p).body, Sought(c, p, name).value).item;
    PropFits(c, prop, item);
    SpaceBelow(c);
    err := FdtSpliceStruct(a, prop, 12 + TagAlign(len), 0);
    RemovedMeans(c, a[..], p, nodeoffset, name);
    SameEdits(b, c, p, nodeoffset, Remove(BodyOf(b, p, nodeoffset), name));
  }

  lemma SpaceBelow(b: seq<byte>)
    requires InOrder(b)
    ensures OffStrings(b) + SizeStrings(b) <= TotalSize(b)
  {
  }
}
