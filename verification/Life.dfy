/**
The host-side Game of Life that checks the accelerator.  A board is a 64-bit word, modelled by its
binary digits; a scratch array of 64 counters is reused from generation to generation.
*/
module Life {

  const ROWS := 8
  const COLS := 8

  /** A `uint64_t` by its binary digits, least significant first. */
  type Board = b: seq<bool> | |b| == 64 witness seq(64, i => false)

  /** `getbit`: a shift and a mask. */
  function GetBit(value: Board, position: int): int
    requires 0 <= position < 64
  {
    if value[position] then 1 else 0
  }

  /** A coordinate one step off the board, brought back by the remainder. */
  function Wrap(a: int): (r: int)
    requires -1 <= a <= 8
    ensures 0 <= r < 8
  {
    (a + 8) % 8
  }

  /** `calculate_coord`. */
  function CalculateCoord(x: int, y: int): (r: int)
    requires -1 <= x <= 8 && -1 <= y <= 8
    ensures 0 <= r < 64
  {
    Wrap(x) + Wrap(y) * ROWS
  }

  /** A place on the 8 by 8 torus. */
  datatype Cell = Cell(x: int, y: int)

  ghost predicate OnTorus(c: Cell) {
    0 <= c.x < 8 && 0 <= c.y < 8
  }

  ghost function Torus(): (t: set<Cell>)
    ensures forall c :: c in t <==> OnTorus(c)
  {
    set x, y | 0 <= x < 8 && 0 <= y < 8 :: Cell(x, y)
  }

  function Index(c: Cell): (i: int)
    ensures 0 <= c.x < 8 && 0 <= c.y < 8 ==> 0 <= i < 64
  {
    c.x + 8 * c.y
  }

  ghost function CellAt(i: int): (c: Cell)
    requires 0 <= i < 64
    ensures OnTorus(c) && Index(c) == i
  {
    Cell(i % 8, i / 8)
  }

  /** The cells that live on a board. */
  ghost function Alive(b: Board): set<Cell> {
    set c | c in Torus() && b[Index(c)]
  }

  /** Two coordinates at most one step apart on a ring of eight. */
  ghost predicate Near(a: int, b: int) {
    a == b || a == (b + 1) % 8 || b == (a + 1) % 8
  }

  /** The cells next to `c`, diagonals included. */
  ghost function Neighbours(c: Cell): set<Cell> {
    set d | d in Torus() && d != c && Near(d.x, c.x) && Near(d.y, c.y)
  }

  lemma {:induction false} TallyAll(r: seq<Cell>, i: int)
    requires 0 <= i <= |r| && forall j :: 0 <= j < |r| ==> r[j] in Torus()
    ensures Tally(r, Torus(), i) == |r| - i
    decreases |r| - i
  {
    hide Torus;
    if i < |r| { TallyAll(r, i + 1); }
  }

  /** The cell so many columns and rows away, the edges joined. */
  ghost function Away(c: Cell, dx: int, dy: int): Cell {
    Cell((c.x + dx + 8) % 8, (c.y + dy + 8) % 8)
  }

  lemma AwayNear(c: Cell, dx: int, dy: int)
    requires OnTorus(c) && -1 <= dx <= 1 && -1 <= dy <= 1 && (dx != 0 || dy != 0)
    ensures Away(c, dx, dy) in Neighbours(c)
  {
    hide Near;
    OneStep(c.x, dx);
    OneStep(c.y, dy);
  }

  lemma OneStep(a: int, d: int)
    requires 0 <= a < 8 && -1 <= d <= 1
    ensures var r := (a + d + 8) % 8; 0 <= r < 8 && Near(r, a) && (d != 0 ==> r != a)
  {
    var r := (a + d + 8) % 8;
    assert r == if a + d < 0 then 7 else if a + d > 7 then 0 else a + d;
  }

  /** On the torus every cell has eight neighbours, corners included: those one step away, the edges joined. */
  lemma EightNeighbours(c: Cell)
    requires OnTorus(c)
    ensures |Neighbours(c)| == 8
    ensures forall dx, dy {:trigger Away(c, dx, dy)} ::
              -1 <= dx <= 1 && -1 <= dy <= 1 && (dx != 0 || dy != 0) ==> Away(c, dx, dy) in Neighbours(c)
  {
    hide Ring, Neighbours, Torus, Tally, Away;
    RingIs(c);
    CountIs(c, Torus());
    TallyAll(Ring(c), 0);
    AllOnTorus(c);
    forall dx, dy {:trigger Away(c, dx, dy)} | -1 <= dx <= 1 && -1 <= dy <= 1 && (dx != 0 || dy != 0)
      ensures Away(c, dx, dy) in Neighbours(c)
    {
      AwayNear(c, dx, dy);
    }
  }

  lemma AllOnTorus(c: Cell)
    ensures Neighbours(c) * Torus() == Neighbours(c)
  {
    hide Near, Torus;
  }

  /** Conway's rule: a live cell with two or three live neighbours stays, a dead cell with three is born. */
  ghost predicate Lives(s: set<Cell>, c: Cell) {
    var n := |Neighbours(c) * s|;
    if c in s then n == 2 || n == 3 else n == 3
  }

  ghost function Step(s: set<Cell>): set<Cell> {
    set c | c in Torus() && Lives(s, c)
  }

  ghost function Generations(s: set<Cell>, n: nat): set<Cell> {
    if n == 0 then s else Step(Generations(s, n - 1))
  }

  /** Generations are iterated steps, and runs can be split anywhere. */
  lemma {:induction false} GenerationsAdd(s: set<Cell>, m: nat, n: nat)
    ensures Generations(s, m + n) == Generations(Generations(s, m), n)
    ensures Generations(s, 0) == s && Generations(s, 1) == Step(s)
    decreases n
  {
    hide Step;
    assert Generations(s, 1) == Step(Generations(s, 0));
    if n > 0 { GenerationsAdd(s, m, n - 1); }
  }

  ghost function Members(r: seq<Cell>): set<Cell> {
    set d | d in r
  }

  function Up(a: int): int { (a + 1) % 8 }
  function Down(a: int): int { (a + 7) % 8 }

  /** The eight cells around `c`, listed. */
  ghost function Ring(c: Cell): (r: seq<Cell>)
    ensures |r| == 8
  {
    [Cell(Up(c.x), Up(c.y)), Cell(Up(c.x), c.y), Cell(Up(c.x), Down(c.y)), Cell(c.x, Down(c.y)),
     Cell(c.x, Up(c.y)), Cell(Down(c.x), Up(c.y)), Cell(Down(c.x), c.y), Cell(Down(c.x), Down(c.y))]
  }

  lemma NearIs(a: int, b: int)
    requires 0 <= a < 8 && 0 <= b < 8
    ensures Near(a, b) <==> a == b || a == Up(b) || a == Down(b)
    ensures Up(b) != b && Down(b) != b && Up(b) != Down(b) && 0 <= Up(b) < 8 && 0 <= Down(b) < 8
  {
  }

  lemma RingIs(c: Cell)
    requires OnTorus(c)
    ensures Members(Ring(c)) == Neighbours(c)
    ensures forall i, j :: 0 <= i < j < 8 ==> Ring(c)[i] != Ring(c)[j]
    ensures forall i :: 0 <= i < 8 ==> OnTorus(Ring(c)[i])
  {
    hide Near, Up, Down;
    NearIs(c.x, c.x);
    NearIs(c.y, c.y);
    var r := Ring(c);
    forall d ensures d in r <==> d in Neighbours(c) {
      if OnTorus(d) {
        NearIs(d.x, c.x);
        NearIs(d.y, c.y);
      }
      if d in r {
        assert d == r[0] || d == r[1] || d == r[2] || d == r[3] || d == r[4] || d == r[5] || d == r[6] || d == r[7];
      }
    }
  }

  /** How many of the listed cells from the `i`-th on are in `s`. */
  ghost function Tally(r: seq<Cell>, s: set<Cell>, i: int): int
    requires 0 <= i <= |r|
    decreases |r| - i
  {
    if i == |r| then 0 else (if r[i] in s then 1 else 0) + Tally(r, s, i + 1)
  }

  /** The listed cells from the `i`-th on that are in `s`. */
  ghost function Live(r: seq<Cell>, s: set<Cell>, i: int): (t: set<Cell>)
    requires 0 <= i <= |r|
    ensures forall d :: d in t <==> d in s && exists j :: i <= j < |r| && r[j] == d
    decreases |r| - i
  {
    if i == |r| then {} else (if r[i] in s then {r[i]} else {}) + Live(r, s, i + 1)
  }

  /** Counting a list without repetitions counts the set. */
  lemma {:induction false} TallyIs(r: seq<Cell>, s: set<Cell>, i: int)
    requires 0 <= i <= |r| && forall j, k :: 0 <= j < k < |r| ==> r[j] != r[k]
    ensures |Live(r, s, i)| == Tally(r, s, i)
    decreases |r| - i
  {
    if i < |r| {
      TallyIs(r, s, i + 1);
      assert r[i] !in Live(r, s, i + 1);
    }
  }

  lemma CountIs(c: Cell, s: set<Cell>)
    requires OnTorus(c)
    ensures |Neighbours(c) * s| == Tally(Ring(c), s, 0)
  {
    hide Ring, Neighbours, Tally;
    RingIs(c);
    TallyIs(Ring(c), s, 0);
    assert Live(Ring(c), s, 0) == Members(Ring(c)) * s;
  }

  /** The sum of the eight bits around `c`. */
  ghost function Around(b: Board, c: Cell): int
    requires OnTorus(c)
  {
    RingIs(c);
    var r := Ring(c);
    GetBit(b, Index(r[0])) + GetBit(b, Index(r[1])) + GetBit(b, Index(r[2])) + GetBit(b, Index(r[3])) +
    GetBit(b, Index(r[4])) + GetBit(b, Index(r[5])) + GetBit(b, Index(r[6])) + GetBit(b, Index(r[7]))
  }

  /** It is the number of live neighbours. */
  lemma AroundIs(b: Board, c: Cell)
    requires OnTorus(c)
    ensures Around(b, c) == |Neighbours(c) * Alive(b)|
  {
    hide Ring, Neighbours, Torus;
    RingIs(c);
    CountIs(c, Alive(b));
    var r, s := Ring(c), Alive(b);
    assert Tally(r, s, 8) == 0;
    assert Tally(r, s, 6) == GetBit(b, Index(r[6])) + GetBit(b, Index(r[7]));
    assert Tally(r, s, 4) == GetBit(b, Index(r[4])) + GetBit(b, Index(r[5])) + Tally(r, s, 6);
    assert Tally(r, s, 2) == GetBit(b, Index(r[2])) + GetBit(b, Index(r[3])) + Tally(r, s, 4);
    assert Tally(r, s, 0) == GetBit(b, Index(r[0])) + GetBit(b, Index(r[1])) + Tally(r, s, 2);
  }

  /** The counters hold, for every cell, the sum of the eight bits around it. */
  ghost predicate Counted(b: Board, n: seq<int>) {
    |n| == 64 && forall x, y {:trigger Cell(x, y)} :: 0 <= x < 8 && 0 <= y < 8 ==>
      n[Index(Cell(x, y))] == Around(b, Cell(x, y))
  }

  lemma WrapIs(a: int)
    requires 0 <= a < 8
    ensures Wrap(a) == a && Wrap(a + 1) == Up(a) && Wrap(a - 1) == Down(a)
  {
  }

  lemma CoordIs(x: int, y: int)
    requires 0 <= x < 8 && 0 <= y < 8
    ensures CalculateCoord(x, y) == Index(Cell(x, y))
    ensures CalculateCoord(x + 1, y + 1) == Index(Cell(Up(x), Up(y)))
            && CalculateCoord(x + 1, y) == Index(Cell(Up(x), y))
    ensures CalculateCoord(x + 1, y - 1) == Index(Cell(Up(x), Down(y)))
            && CalculateCoord(x, y - 1) == Index(Cell(x, Down(y)))
    ensures CalculateCoord(x, y + 1) == Index(Cell(x, Up(y)))
            && CalculateCoord(x - 1, y + 1) == Index(Cell(Down(x), Up(y)))
    ensures CalculateCoord(x - 1, y) == Index(Cell(Down(x), y))
            && CalculateCoord(x - 1, y - 1) == Index(Cell(Down(x), Down(y)))
  {
    hide Wrap, Up, Down;
    WrapIs(x);
    WrapIs(y);
  }

  lemma AroundSum(b: Board, x: int, y: int)
    requires 0 <= x < 8 && 0 <= y < 8
    ensures 0 <= Up(x) < 8 && 0 <= Down(x) < 8 && 0 <= Up(y) < 8 && 0 <= Down(y) < 8
    ensures Around(b, Cell(x, y)) ==
            GetBit(b, Index(Cell(Up(x), Up(y)))) + GetBit(b, Index(Cell(Up(x), y))) +
            GetBit(b, Index(Cell(Up(x), Down(y)))) +
            GetBit(b, Index(Cell(x, Down(y)))) + GetBit(b, Index(Cell(x, Up(y)))) +
            GetBit(b, Index(Cell(Down(x), Up(y)))) +
            GetBit(b, Index(Cell(Down(x), y))) + GetBit(b, Index(Cell(Down(x), Down(y))))
  {
    hide GetBit, Index;
  }

  /** One counter, as the version with `calculate_coord` fills it. */
  method CountCell(b: Board, i: int, j: int, neighbors: array<int>)
    requires 0 <= i < 8 && 0 <= j < 8 && neighbors.Length == 64
    modifies neighbors
    ensures neighbors[..] == old(neighbors[..])[Index(Cell(i, j)) := Around(b, Cell(i, j))]
  {
    hide CalculateCoord, Up, Down, GetBit, Around, Index;
    CoordIs(i, j);
    AroundSum(b, i, j);
    neighbors[CalculateCoord(i, j)] := 0;
    neighbors[CalculateCoord(i, j)] := neighbors[CalculateCoord(i, j)] + GetBit(b, CalculateCoord(i + 1, j + 1));
    neighbors[CalculateCoord(i, j)] := neighbors[CalculateCoord(i, j)] + GetBit(b, CalculateCoord(i + 1, j));
    neighbors[CalculateCoord(i, j)] := neighbors[CalculateCoord(i, j)] + GetBit(b, CalculateCoord(i + 1, j - 1));
    neighbors[CalculateCoord(i, j)] := neighbors[CalculateCoord(i, j)] + GetBit(b, CalculateCoord(i, j - 1));
    neighbors[CalculateCoord(i, j)] := neighbors[CalculateCoord(i, j)] + GetBit(b, CalculateCoord(i, j + 1));
    neighbors[CalculateCoord(i, j)] := neighbors[CalculateCoord(i, j)] + GetBit(b, CalculateCoord(i - 1, j + 1));
    neighbors[CalculateCoord(i, j)] := neighbors[CalculateCoord(i, j)] + GetBit(b, CalculateCoord(i - 1, j));
    neighbors[CalculateCoord(i, j)] := neighbors[CalculateCoord(i, j)] + GetBit(b, CalculateCoord(i - 1, j - 1));
  }

  lemma OtherCell(x: int, y: int, i: int, j: int)
    requires 0 <= x < 8 && 0 <= y < 8 && 0 <= i < 8 && 0 <= j < 8
    ensures 0 <= Index(Cell(x, y)) < 64 && (Index(Cell(x, y)) == Index(Cell(i, j)) <==> x == i && y == j)
  {
  }

  /** The cell is counted already when the loops, `x` outermost, have come to `(i, j)`. */
  ghost predicate CountedTo(b: Board, n: seq<int>, i: int, j: int) {
    |n| == 64 &&
    forall x, y {:trigger Cell(x, y)} :: 0 <= x < 8 && 0 <= y < 8 && (x < i || (x == i && y < j)) ==>
      n[Index(Cell(x, y))] == Around(b, Cell(x, y))
  }

  lemma CountedNext(b: Board, n: seq<int>, i: int, j: int)
    requires 0 <= i < 8 && 0 <= j < 8 && CountedTo(b, n, i, j)
    ensures 0 <= Index(Cell(i, j)) < 64 && CountedTo(b, n[Index(Cell(i, j)) := Around(b, Cell(i, j))], i, j + 1)
  {
    hide Around, Index;
    OtherCell(i, j, i, j);
    var m := n[Index(Cell(i, j)) := Around(b, Cell(i, j))];
    forall x, y | 0 <= x < 8 && 0 <= y < 8 && (x < i || (x == i && y < j + 1))
      ensures m[Index(Cell(x, y))] == Around(b, Cell(x, y)) {
      OtherCell(x, y, i, j);
    }
  }

  /** `calculate_neighbors` of the partial-reconfiguration-hierarchy design. */
  method CalculateNeighbors(b: Board, neighbors: array<int>)
    requires neighbors.Length == 64
    modifies neighbors
    ensures Counted(b, neighbors[..])
  {
    hide Around, Index;
    for i := 0 to ROWS
      invariant CountedTo(b, neighbors[..], i, 0)
    {
      for j := 0 to COLS
        invariant CountedTo(b, neighbors[..], i, j)
      {
        CountedNext(b, neighbors[..], i, j);
        CountCell(b, i, j, neighbors);
      }
    }
  }

  /** The same, with the columns outermost: the order in which the inlined version visits the cells. */
  ghost predicate CountedRows(b: Board, n: seq<int>, i: int, j: int) {
    |n| == 64 &&
    forall x, y {:trigger Cell(x, y)} :: 0 <= x < 8 && 0 <= y < 8 && (y < i || (y == i && x < j)) ==>
      n[Index(Cell(x, y))] == Around(b, Cell(x, y))
  }

  lemma CountedRowsNext(b: Board, n: seq<int>, i: int, j: int)
    requires 0 <= i < 8 && 0 <= j < 8 && CountedRows(b, n, i, j)
    ensures 0 <= Index(Cell(j, i)) < 64 && CountedRows(b, n[Index(Cell(j, i)) := Around(b, Cell(j, i))], i, j + 1)
  {
    hide Around, Index;
    OtherCell(j, i, j, i);
    var m := n[Index(Cell(j, i)) := Around(b, Cell(j, i))];
    forall x, y | 0 <= x < 8 && 0 <= y < 8 && (y < i || (y == i && x < j + 1))
      ensures m[Index(Cell(x, y))] == Around(b, Cell(x, y)) {
      OtherCell(x, y, j, i);
    }
  }

  /** The index expression that the other design writes out in place. */
  function Inlined(j: int, i: int): (r: int)
    requires -1 <= i <= 8 && -1 <= j <= 8
    ensures 0 <= r < 64
  {
    Wrap(j) + Wrap(i) * COLS
  }

  lemma InlinedIs(j: int, i: int)
    requires 0 <= i < 8 && 0 <= j < 8
    ensures Inlined(j, i) == Index(Cell(j, i))
    ensures Inlined(j + 1, i - 1) == Index(Cell(Up(j), Down(i))) && Inlined(j, i - 1) == Index(Cell(j, Down(i)))
    ensures Inlined(j - 1, i - 1) == Index(Cell(Down(j), Down(i))) && Inlined(j + 1, i) == Index(Cell(Up(j), i))
    ensures Inlined(j - 1, i) == Index(Cell(Down(j), i)) && Inlined(j + 1, i + 1) == Index(Cell(Up(j), Up(i)))
    ensures Inlined(j, i + 1) == Index(Cell(j, Up(i))) && Inlined(j - 1, i + 1) == Index(Cell(Down(j), Up(i)))
  {
    hide Wrap, Up, Down;
    WrapIs(i);
    WrapIs(j);
  }

  method CountCellInlined(b: Board, i: int, j: int, neighbors: array<int>)
    requires 0 <= i < 8 && 0 <= j < 8 && neighbors.Length == 64
    modifies neighbors
    ensures neighbors[..] == old(neighbors[..])[Index(Cell(j, i)) := Around(b, Cell(j, i))]
  {
    hide Inlined, Up, Down, GetBit, Around, Index;
    InlinedIs(j, i);
    AroundSum(b, j, i);
    neighbors[Inlined(j, i)] := 0;
    neighbors[Inlined(j, i)] := neighbors[Inlined(j, i)] + GetBit(b, Inlined(j + 1, i - 1));
    neighbors[Inlined(j, i)] := neighbors[Inlined(j, i)] + GetBit(b, Inlined(j, i - 1));
    neighbors[Inlined(j, i)] := neighbors[Inlined(j, i)] + GetBit(b, Inlined(j - 1, i - 1));
    neighbors[Inlined(j, i)] := neighbors[Inlined(j, i)] + GetBit(b, Inlined(j + 1, i));
    neighbors[Inlined(j, i)] := neighbors[Inlined(j, i)] + GetBit(b, Inlined(j - 1, i));
    neighbors[Inlined(j, i)] := neighbors[Inlined(j, i)] + GetBit(b, Inlined(j + 1, i + 1));
    neighbors[Inlined(j, i)] := neighbors[Inlined(j, i)] + GetBit(b, Inlined(j, i + 1));
    neighbors[Inlined(j, i)] := neighbors[Inlined(j, i)] + GetBit(b, Inlined(j - 1, i + 1));
  }

  /** `calculate_neighbors` with the indexing written out. */
  method CalculateNeighborsInlined(b: Board, neighbors: array<int>)
    requires neighbors.Length == 64
    modifies neighbors
    ensures Counted(b, neighbors[..])
  {
    hide Around, Index;
    for i := 0 to ROWS
      invariant CountedRows(b, neighbors[..], i, 0)
    {
      for j := 0 to COLS
        invariant CountedRows(b, neighbors[..], i, j)
      {
        CountedRowsNext(b, neighbors[..], i, j);
        CountCellInlined(b, i, j, neighbors);
      }
    }
  }

  /** A board has only one right array of counters, so the two versions fill in the same one. */
  lemma CountersAgree(b: Board, m: seq<int>, n: seq<int>)
    requires Counted(b, m) && Counted(b, n)
    ensures m == n
  {
    hide Around;
    forall i | 0 <= i < 64 ensures m[i] == n[i] {
      var c := CellAt(i);
      assert c == Cell(c.x, c.y);
    }
  }

  /** The rule as the code applies it to one bit and its counter. */
  predicate Rule(alive: bool, n: int) {
    if alive then n == 2 || n == 3 else n == 3
  }

  /** `apply_gol_rules`, which leaves the counters at zero. */
  method ApplyGolRules(b: Board, neighbors: array<int>) returns (r: Board)
    requires neighbors.Length == 64
    modifies neighbors
    ensures forall i :: 0 <= i < 64 ==> r[i] == Rule(b[i], old(neighbors[i])) && neighbors[i] == 0
    ensures forall i :: 0 <= i < 64 ==>
              (r[i] <==> old(neighbors[i]) == 3 || (old(neighbors[i]) == 2 && b[i]))
  {
    r := seq(64, k => false);
    for i := 0 to ROWS * COLS
      invariant forall k :: 0 <= k < i ==> r[k] == Rule(b[k], old(neighbors[k])) && neighbors[k] == 0
      invariant forall k :: i <= k < 64 ==> !r[k] && neighbors[k] == old(neighbors[k])
    {
      if GetBit(b, i) == 1 {
        if neighbors[i] == 2 || neighbors[i] == 3 {
          r := r[i := true];
        }
      } else {
        if neighbors[i] == 3 {
          r := r[i := true];
        }
      }
      neighbors[i] := 0;
    }
  }

  /** One generation on boards is one step on sets of cells. */
  lemma RulesStep(b: Board, n: seq<int>, r: Board)
    requires Counted(b, n) && forall i :: 0 <= i < 64 ==> r[i] == Rule(b[i], n[i])
    ensures Alive(r) == Step(Alive(b))
  {
    hide Around, Neighbours;
    forall c ensures c in Alive(r) <==> c in Step(Alive(b)) {
      if OnTorus(c) {
        OtherCell(c.x, c.y, c.x, c.y);
        assert c == Cell(c.x, c.y);
        AroundIs(b, c);
      }
    }
  }

  ghost predicate AllClear(n: seq<int>) {
    forall j :: 0 <= j < |n| ==> n[j] == 0
  }

  /**
  `run_gol_verify`.  The result is the `number_of_runs`-fold Life step of the board, and the exit taken
  when a counter is not zero is never reached.  `inlined` selects the neighbour counter.
  */
  method RunGolVerify(board: Board, numberOfRuns: nat, inlined: bool) returns (current: Board, failed: bool)
    ensures !failed && Alive(current) == Generations(Alive(board), numberOfRuns)
    ensures numberOfRuns == 0 ==> current == board
    ensures numberOfRuns == 1 ==> Alive(current) == Step(Alive(board))
  {
    hide Counted, Step, Alive;
    var neighbors := new int[64](k => 0);
    current, failed := board, false;
    for i := 0 to numberOfRuns
      invariant AllClear(neighbors[..]) && !failed && Alive(current) == Generations(Alive(board), i)
      invariant i == 0 ==> current == board
      invariant i == 1 ==> Alive(current) == Step(Alive(board))
    {
      for j := 0 to 64
        invariant AllClear(neighbors[..]) && !failed
      {
        assert neighbors[..][j] == neighbors[j];
        if neighbors[j] != 0 {
          return current, true;
        }
      }
      if inlined {
        CalculateNeighborsInlined(current, neighbors);
      } else {
        CalculateNeighbors(current, neighbors);
      }
      ghost var n := neighbors[..];
      var next := ApplyGolRules(current, neighbors);
      assert forall k :: 0 <= k < 64 ==> next[k] == Rule(current[k], n[k]);
      RulesStep(current, n, next);
      current := next;
    }
  }

  /** The board turned by one whole row. */
  function RotateRow(b: Board): Board {
    b[8..] + b[..8]
  }

  function RotateRows(b: Board, k: nat): Board {
    if k == 0 then b else RotateRow(RotateRows(b, k - 1))
  }

  /** The cells turned by one row. */
  ghost function Shift(s: set<Cell>): set<Cell> {
    set c | c in Torus() && Cell(c.x, Up(c.y)) in s
  }

  lemma RotateShifts(b: Board)
    ensures Alive(RotateRow(b)) == Shift(Alive(b))
  {
    forall c ensures c in Alive(RotateRow(b)) <==> c in Shift(Alive(b)) {
      if OnTorus(c) { assert RotateRow(b)[Index(c)] == b[Index(Cell(c.x, Up(c.y)))]; }
    }
  }

  lemma UpDown(a: int)
    requires 0 <= a < 8
    ensures Up(Down(a)) == a == Down(Up(a)) && 0 <= Up(a) < 8 && 0 <= Down(a) < 8
  {
  }

  lemma {:induction false} ShiftTally(c: Cell, s: set<Cell>, i: int)
    requires OnTorus(c) && 0 <= i <= 8
    ensures Tally(Ring(c), Shift(s), i) == Tally(Ring(Cell(c.x, Up(c.y))), s, i)
    decreases 8 - i
  {
    if i < 8 {
      ShiftTally(c, s, i + 1);
      RingShifts(c, i);
      RingIs(c);
      var d := Ring(c)[i];
      assert d in Shift(s) <==> Cell(d.x, Up(d.y)) in s;
    }
  }

  lemma RingShifts(c: Cell, i: int)
    requires OnTorus(c) && 0 <= i < 8
    ensures Ring(Cell(c.x, Up(c.y)))[i] == Cell(Ring(c)[i].x, Up(Ring(c)[i].y))
  {
    hide Up, Down;
    UpDown(c.y);
  }

  /** One step commutes with the turn. */
  lemma StepShifts(s: set<Cell>)
    ensures Step(Shift(s)) == Shift(Step(s))
  {
    hide Up, Neighbours, Ring, Tally;
    forall c ensures c in Step(Shift(s)) <==> c in Shift(Step(s)) {
      if OnTorus(c) {
        UpDown(c.y);
        var d := Cell(c.x, Up(c.y));
        CountIs(c, Shift(s));
        CountIs(d, s);
        ShiftTally(c, s, 0);
      }
    }
  }

  lemma {:induction false} GenerationsShift(s: set<Cell>, n: nat)
    ensures Generations(Shift(s), n) == Shift(Generations(s, n))
    decreases n
  {
    hide Step, Shift;
    if n > 0 {
      GenerationsShift(s, n - 1);
      StepShifts(Generations(s, n - 1));
    }
  }

  /** A board is determined by its live cells. */
  lemma AliveDetermines(b: Board, c: Board)
    requires Alive(b) == Alive(c)
    ensures b == c
  {
    forall i | 0 <= i < 64 ensures b[i] == c[i] {
      assert CellAt(i) in Alive(b) <==> b[i];
      assert CellAt(i) in Alive(c) <==> c[i];
    }
  }

  /** Turning the board by whole rows and running commute, whatever the number of generations. */
  lemma {:induction false} RotationCommutes(b: Board, k: nat, n: nat, r: Board, q: Board)
    requires Alive(r) == Generations(Alive(b), n) && Alive(q) == Generations(Alive(RotateRows(b, k)), n)
    ensures q == RotateRows(r, k)
    decreases k
  {
    hide Step, Shift, Alive, RotateRow;
    if k == 0 {
      AliveDetermines(q, r);
    } else {
      var c := RotateRows(b, k - 1);
      var m := BoardOf(Generations(Alive(c), n), n, c);
      RotationCommutes(b, k - 1, n, r, m);
      RotateShifts(c);
      GenerationsShift(Alive(c), n);
      RotateShifts(m);
      AliveDetermines(q, RotateRow(m));
    }
  }

  lemma IndexCell(d: Cell)
    requires OnTorus(d)
    ensures CellAt(Index(d)) == d
  {
    assert Index(d) == 8 * d.y + d.x;
  }

  /** Every generation of a board is the set of live cells of a board. */
  ghost function BoardOf(s: set<Cell>, n: nat, c: Board): (m: Board)
    requires s == Generations(Alive(c), n)
    ensures Alive(m) == s
  {
    var m := seq(64, i requires 0 <= i < 64 => CellAt(i) in s);
    GenerationsOnTorus(Alive(c), n);
    forall d | OnTorus(d) ensures CellAt(Index(d)) == d { IndexCell(d); }
    m
  }

  lemma GenerationsOnTorus(s: set<Cell>, n: nat)
    requires s <= Torus()
    ensures Generations(s, n) <= Torus()
  {
    hide Lives;
  }
}
