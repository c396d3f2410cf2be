/** Bytes, big-endian 32-bit cells and the alignment rule of the flattened device tree format. */
module Words {

  type byte = x: int | 0 <= x < 256

  type u32 = x: int | 0 <= x < 0x1_0000_0000

  /** Buffer sizes and offsets are C `int`s. */
  const INT_LIMIT := 0x8000_0000

  datatype Option<+T> = None | Some(value: T)

  /** The `k`-th of the four bytes of `v`, most significant first. */
  function Digit(v: u32, k: int): byte
    requires 0 <= k < 4
  {
    if k == 0 then v / 0x100_0000
    else if k == 1 then v / 0x1_0000 % 0x100
    else if k == 2 then v / 0x100 % 0x100
    else v % 0x100
  }

  /** `v` is the number whose big-endian digits stand at `s[i..i + 4]`. */
  ghost predicate IsCell(s: seq<byte>, i: int, v: u32)
    requires 0 <= i && i + 4 <= |s|
  {
    forall k {:trigger Digit(v, k)} :: 0 <= k < 4 ==> s[i + k] == Digit(v, k)
  }

  /** The big-endian cell at index `i`: `fdt32_to_cpu` of a load. */
  ghost function Get32(s: seq<byte>, i: int): (v: u32)
    requires 0 <= i && i + 4 <= |s|
  {
    CellExists(s, i);
    var v: u32 :| IsCell(s, i, v);
    v
  }

  /** The value of four digits. */
  function Value(a: byte, b: byte, c: byte, d: byte): u32 {
    (a as int) * 0x100_0000 + (b as int) * 0x1_0000 + (c as int) * 0x100 + d
  }

  lemma ValueDigits(a: byte, b: byte, c: byte, d: byte)
    ensures Digit(Value(a, b, c, d), 0) == a && Digit(Value(a, b, c, d), 1) == b
    ensures Digit(Value(a, b, c, d), 2) == c && Digit(Value(a, b, c, d), 3) == d
  {
    var x, y := (a as int) * 0x100 + b, (a as int) * 0x1_0000 + (b as int) * 0x100 + c;
    var v := Value(a, b, c, d);
    assert v / 0x100 == y && v % 0x100 == d by { assert v == y * 0x100 + d; }
    assert v / 0x1_0000 == x by { assert v == x * 0x1_0000 + ((c as int) * 0x100 + d); }
    assert v / 0x100_0000 == a by {
      assert v == (a as int) * 0x100_0000 + ((b as int) * 0x1_0000 + (c as int) * 0x100 + d);
    }
    assert x % 0x100 == b;
    assert y % 0x100 == c by { assert y == x * 0x100 + c; }
  }

  lemma DigitsValue(v: u32)
    ensures Value(Digit(v, 0), Digit(v, 1), Digit(v, 2), Digit(v, 3)) == v
  {
    hide Digit;
    var r := v % 0x100_0000;
    var q := r % 0x1_0000;
    assert v == v / 0x100_0000 * 0x100_0000 + r && r == r / 0x1_0000 * 0x1_0000 + q
           && q == q / 0x100 * 0x100 + q % 0x100;
    ValueDigits(v / 0x100_0000, r / 0x1_0000, q / 0x100, q % 0x100);
  }

  lemma CellExists(s: seq<byte>, i: int)
    requires 0 <= i && i + 4 <= |s|
    ensures IsCell(s, i, Value(s[i], s[i + 1], s[i + 2], s[i + 3]))
  {
    ValueDigits(s[i], s[i + 1], s[i + 2], s[i + 3]);
  }

  lemma CellUnique(s: seq<byte>, i: int, v: u32)
    requires 0 <= i && i + 4 <= |s| && IsCell(s, i, v)
    ensures Get32(s, i) == v
  {
    var w := Get32(s, i);
    assert Digit(v, 0) == s[i + 0] == Digit(w, 0) && Digit(v, 1) == s[i + 1] == Digit(w, 1);
    assert Digit(v, 2) == s[i + 2] == Digit(w, 2) && Digit(v, 3) == s[i + 3] == Digit(w, 3);
    DigitsValue(v);
    DigitsValue(w);
  }

  /** Equal bytes are equal cells, wherever they lie. */
  lemma CellsAgree(s: seq<byte>, i: int, t: seq<byte>, j: int)
    requires 0 <= i && i + 4 <= |s| && 0 <= j && j + 4 <= |t|
    requires s[i] == t[j] && s[i + 1] == t[j + 1] && s[i + 2] == t[j + 2] && s[i + 3] == t[j + 3]
    ensures Get32(s, i) == Get32(t, j)
  {
    var w := Get32(t, j);
    assert s[i + 0] == Digit(w, 0) && s[i + 1] == Digit(w, 1) && s[i + 2] == Digit(w, 2) && s[i + 3] == Digit(w, 3);
    CellUnique(s, i, w);
  }

  /** The four bytes that `cpu_to_fdt32` stores for `v`. */
  function Word(v: u32): (w: seq<byte>)
    ensures |w| == 4
  {
    seq(4, k requires 0 <= k < 4 => Digit(v, k))
  }

  /** A cell of `s` that was stored from `v` loads as `v`. */
  lemma GetWord(s: seq<byte>, i: int, v: u32)
    requires 0 <= i && i + 4 <= |s|
    requires forall k :: 0 <= k < 4 ==> s[i + k] == Word(v)[k]
    ensures Get32(s, i) == v
  {
    assert forall k {:trigger Digit(v, k)} :: 0 <= k < 4 ==> Word(v)[k] == Digit(v, k);
    CellUnique(s, i, v);
  }

  /** The most significant byte comes first. */
  lemma CellValue(s: seq<byte>, i: int)
    requires 0 <= i && i + 4 <= |s|
    ensures Get32(s, i) == (s[i] as int) * 0x100_0000 + (s[i + 1] as int) * 0x1_0000 + (s[i + 2] as int) * 0x100
                           + (s[i + 3] as int)
  {
    CellExists(s, i);
    CellUnique(s, i, Value(s[i], s[i + 1], s[i + 2], s[i + 3]));
  }

  /** A 32-bit big-endian load. */
  method Load32(s: seq<byte>, i: int) returns (v: u32)
    requires 0 <= i && i + 4 <= |s|
    ensures v == Get32(s, i)
  {
    v := Value(s[i], s[i + 1], s[i + 2], s[i + 3]);
    CellExists(s, i);
    CellUnique(s, i, v);
  }

  /** How many 4-byte cells hold `n` bytes. */
  ghost function Cells(n: int): (c: int)
    ensures n <= 4 * c < n + 4
  {
    assert n <= 4 * ((n + 3) / 4) < n + 4;
    var c :| n <= 4 * c < n + 4;
    c
  }

  /** The next 4-byte boundary at or after `n`. */
  ghost function Align4(n: int): (r: int)
    ensures n <= r < n + 4
  {
    4 * Cells(n)
  }

  lemma AlignOfMultiple(c: int)
    ensures Align4(4 * c) == 4 * c && 4 * c % 4 == 0
  {
  }

  /** `FDT_TAGALIGN`, which computes that boundary. */
  function TagAlign(n: int): (r: int)
    ensures r == Align4(n)
  {
    (n + 3) / 4 * 4
  }

  /** `b` with the bytes from index `at` on replaced by `x`: the effect of a memcpy. */
  function Overlay(b: seq<byte>, at: int, x: seq<byte>): (r: seq<byte>)
    requires 0 <= at && at + |x| <= |b|
    ensures |r| == |b|
    ensures forall i :: 0 <= i < |b| ==> r[i] == if at <= i < at + |x| then x[i - at] else b[i]
  {
    b[..at] + x + b[at + |x|..]
  }

  /** Index of the first NUL at or after `i`, or |s| when there is none. */
  function NulFrom(s: seq<byte>, i: int): (z: int)
    requires 0 <= i <= |s|
    ensures i <= z <= |s|
    ensures forall k :: i <= k < z ==> s[k] != 0
    ensures z < |s| ==> s[z] == 0
    decreases |s| - i
  {
    if i == |s| || s[i] == 0 then i else NulFrom(s, i + 1)
  }

  predicate NulFree(s: seq<byte>) {
    forall k :: 0 <= k < |s| ==> s[k] != 0
  }

  lemma NulFromIs(s: seq<byte>, i: int, z: int)
    requires 0 <= i <= z < |s| && s[z] == 0
    requires forall k :: i <= k < z ==> s[k] != 0
    ensures NulFrom(s, i) == z
  {
  }

  /** The NUL-terminated string at offset `i` of the strings block `t` (`fdt_string` followed by `strlen`). */
  function CString(t: seq<byte>, i: int): (r: Option<seq<byte>>)
    ensures r.Some? ==> NulFree(r.value)
  {
    if 0 <= i <= |t| && NulFrom(t, i) < |t| then Some(t[i..NulFrom(t, i)]) else None
  }

  /** `memcpy(a + at, x, |x|)`. */
  method CopyIn(a: array<byte>, at: int, x: seq<byte>)
    requires 0 <= at && at + |x| <= a.Length
    modifies a
    ensures a[..] == Overlay(old(a[..]), at, x)
  {
    for i := 0 to |x|
      invariant forall k :: 0 <= k < a.Length ==> a[k] == if at <= k < at + i then x[k - at] else old(a[k])
    {
      a[at + i] := x[i];
    }
  }

  /** `memmove(a + dst, a + src, n)`: copies upwards or downwards so that overlapping ranges are safe. */
  method MoveWithin(a: array<byte>, dst: int, src: int, n: int)
    requires 0 <= dst && dst + n <= a.Length && 0 <= src && src + n <= a.Length && 0 <= n
    modifies a
    ensures a[..] == Overlay(old(a[..]), dst, old(a[..])[src..src + n])
  {
    if dst <= src {
      for i := 0 to n
        invariant forall k :: 0 <= k < a.Length ==>
                    a[k] == if dst <= k < dst + i then old(a[src + k - dst]) else old(a[k])
      {
        a[dst + i] := a[src + i];
      }
    } else {
      for i := n downto 0
        invariant forall k :: 0 <= k < a.Length ==>
                    a[k] == if dst + i <= k < dst + n then old(a[src + k - dst]) else old(a[k])
      {
        a[dst + i] := a[src + i];
      }
    }
  }

  /** A 32-bit big-endian store. */
  method Store32(a: array<byte>, at: int, v: u32)
    requires 0 <= at && at + 4 <= a.Length
    modifies a
    ensures a[..] == Overlay(old(a[..]), at, Word(v))
  {
    CopyIn(a, at, Word(v));
  }
}
