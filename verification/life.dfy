/**
 * The `Life` animation: Conway's Game of Life (birth on 3, survival on 2
 * or 3) on a toroidal 8x8 board, stepped at two of every 24 ticks.
 *
 * The board is indexed `data[x][y]`, `x` being the column of the rendered
 * frame and `y` its row.
 */
module Life {
  import opened Pixels
  import Arith

  /** An 8x8 board of cells, alive or dead. */
  type Board = b: seq<seq<bool>> | |b| == 8 && forall i :: 0 <= i < 8 ==> |b[i]| == 8
    witness seq(8, _ => seq(8, _ => false))

  /** `Life { data, increment_counter }`. */
  datatype State = State(data: Board, counter: nat)

  /** The usize values written into the hasher up to and including cell number `k`. */
  function Writes(k: nat): (w: seq<nat>)
    ensures |w| == k + 1
    ensures forall n :: 0 <= n <= k ==> w[n] == n
  {
    seq(k + 1, n => n)
  }

  /**
   * `Life::new`. `finish(key1, key2, ws)` stands for the foreign
   * `SipHasher::new_with_keys(key1, key2)` after writing the values `ws`
   * and calling `finish`. One hasher is shared by all cells, so cell
   * `(i, j)` is alive iff the digest of every index written so far,
   * `0 ..= 8 i + j`, is even. The counter starts at 0.
   */
  function New(key1: U64, key2: U64, finish: (U64, U64, seq<nat>) -> U64): (s: State)
    ensures s.counter == 0
    ensures forall i, j :: 0 <= i < 8 && 0 <= j < 8 ==>
      (s.data[i][j] <==> finish(key1, key2, Writes(8 * i + j)) % 2 == 0)
  {
    var b := seq(8, i requires 0 <= i < 8 => seq(8, j requires 0 <= j < 8 => finish(key1, key2, Writes(8 * i + j)) % 2 == 0));
    assert |b| == 8 && forall i :: 0 <= i < 8 ==> |b[i]| == 8;
    State(b, 0)
  }

  /** `Life::default()` is the board of keys (0, 0). */
  function Default(finish: (U64, U64, seq<nat>) -> U64): (s: State)
    ensures s.counter == 0
    ensures forall i, j :: 0 <= i < 8 && 0 <= j < 8 ==>
      (s.data[i][j] <==> finish(0, 0, Writes(8 * i + j)) % 2 == 0)
  {
    New(0, 0, finish)
  }

  /** A cell coordinate on the board. */
  type Cell = (nat, nat)

  predicate Alive(b: Board, c: Cell) {
    c.0 < 8 && c.1 < 8 && b[c.0][c.1]
  }

  /** The offsets `(dx, dy)` `count_neighbors` visits, in order, skipping `(1, 1)`. */
  const Offsets: seq<(nat, nat)> := [(0, 0), (0, 1), (0, 2), (1, 0), (1, 2), (2, 0), (2, 1), (2, 2)]

  /** The cell offset `(dx - 1, dy - 1)` from `(x, y)`, wrapping around the torus. */
  function Neighbour(x: nat, y: nat, d: (nat, nat)): (c: Cell)
    ensures c.0 < 8 && c.1 < 8
  {
    ((x + d.0 + 7) % 8, (y + d.1 + 7) % 8)
  }

  /** The eight neighbour cells of `(x, y)` in visiting order. */
  function Cells(x: nat, y: nat): (cs: seq<Cell>)
    ensures |cs| == 8
    ensures forall p :: 0 <= p < 8 ==> cs[p] == Neighbour(x, y, Offsets[p])
  {
    seq(8, p requires 0 <= p < 8 => Neighbour(x, y, Offsets[p]))
  }

  /** How many cells of `cs` are alive. */
  function CountAlive(b: Board, cs: seq<Cell>): (n: nat)
    ensures n <= |cs|
  {
    if |cs| == 0 then 0
    else CountAlive(b, cs[..|cs| - 1]) + (if Alive(b, cs[|cs| - 1]) then 1 else 0)
  }

  /** The neighbour count of cell `(x, y)`. */
  function NeighbourCount(b: Board, x: nat, y: nat): (n: nat)
    ensures n <= 8
  {
    CountAlive(b, Cells(x, y))
  }

  /** Number of offsets visited before position `k = 3 dx + dy` of the 3x3 loop. */
  function Before(k: nat): nat {
    if k <= 4 then k else k - 1
  }

  /** Position `3 dx + dy` of the 3x3 loop, centre skipped, is offset `(dx, dy)`. */
  lemma OffsetAt(dx: nat, dy: nat)
    requires dx < 3 && dy < 3 && !(dx == 1 && dy == 1)
    ensures Before(3 * dx + dy) < 8 && Offsets[Before(3 * dx + dy)] == (dx, dy)
    ensures Before(3 * dx + dy + 1) == Before(3 * dx + dy) + 1
  {
  }

  /** Counting one more cell adds one exactly when that cell is alive. */
  lemma CountOneMore(b: Board, cs: seq<Cell>, p: nat)
    requires p < |cs|
    ensures CountAlive(b, cs[..p + 1]) == CountAlive(b, cs[..p]) + (if Alive(b, cs[p]) then 1 else 0)
  {
    assert cs[..p + 1][..p] == cs[..p];
  }

  /**
   * `Life::count_neighbors`: the nested loops over `dx, dy` in `0..3`,
   * skipping the centre, counting live cells at `((x + dx + 7) % 8,
   * (y + dy + 7) % 8)`. The count fits the source's `u8`.
   */
  method CountNeighbors(b: Board, x: nat, y: nat) returns (count: nat)
    requires x < 8 && y < 8
    ensures count == NeighbourCount(b, x, y)
    ensures count <= 8
  {
    var cs := Cells(x, y);
    count := 0;
    var dx := 0;
    while dx < 3
      invariant 0 <= dx <= 3
      invariant count == CountAlive(b, cs[..Before(3 * dx)])
    {
      var dy := 0;
      while dy < 3
        invariant 0 <= dy <= 3
        invariant count == CountAlive(b, cs[..Before(3 * dx + dy)])
      {
        if !(dx == 1 && dy == 1) {
          OffsetAt(dx, dy);
          CountOneMore(b, cs, Before(3 * dx + dy));
          var nx := (x + dx + 7) % 8;
          var ny := (y + dy + 7) % 8;
          if b[nx][ny] {
            count := count + 1;
          }
        }
        dy := dy + 1;
      }
      dx := dx + 1;
    }
    assert cs[..8] == cs;
  }

  /** `a` is `x - 1`, `x` or `x + 1` on the 8-cell ring. */
  predicate Near(a: nat, x: nat) {
    a == (x + 7) % 8 || a == x || a == (x + 1) % 8
  }

  /** The cells toroidally adjacent to `(x, y)`, the cell itself excluded. */
  function Adjacent(x: nat, y: nat): set<Cell> {
    set a: nat, c: nat | a < 8 && c < 8 && Near(a, x) && Near(c, y) && (a, c) != (x, y) :: (a, c)
  }

  /** No cell of `cs` appears twice. */
  predicate Distinct(cs: seq<Cell>) {
    forall p, q :: 0 <= p < q < |cs| ==> cs[p] != cs[q]
  }

  /** The wrapped coordinates `x - 1`, `x`, `x + 1` on the 8-cell ring. */
  lemma RingSteps(x: nat)
    requires x < 8
    ensures (x + 7) % 8 == if x == 0 then 7 else x - 1
    ensures (x + 8) % 8 == x
    ensures (x + 9) % 8 == (x + 1) % 8 == if x == 7 then 0 else x + 1
  {
  }

  /** The eight visited cells are pairwise distinct. */
  lemma CellsDistinct(x: nat, y: nat)
    requires x < 8 && y < 8
    ensures Distinct(Cells(x, y))
  {
    RingSteps(x);
    RingSteps(y);
  }

  /** Every visited cell is adjacent to `(x, y)`. */
  lemma CellsAdjacent(x: nat, y: nat)
    requires x < 8 && y < 8
    ensures forall p :: 0 <= p < 8 ==> Cells(x, y)[p] in Adjacent(x, y)
  {
    RingSteps(x);
    RingSteps(y);
    forall p | 0 <= p < 8
      ensures Cells(x, y)[p] in Adjacent(x, y)
    {
      var c := Cells(x, y)[p];
      assert Near(c.0, x) && Near(c.1, y) && c != (x, y);
    }
  }

  /** Every cell adjacent to `(x, y)` is visited. */
  lemma AdjacentVisited(x: nat, y: nat, c: Cell)
    requires x < 8 && y < 8
    requires c in Adjacent(x, y)
    ensures c in Cells(x, y)
  {
    RingSteps(x);
    RingSteps(y);
    var dx: nat := if c.0 == (x + 7) % 8 then 0 else if c.0 == x then 1 else 2;
    var dy: nat := if c.1 == (y + 7) % 8 then 0 else if c.1 == y then 1 else 2;
    assert (dx, dy) != (1, 1);
    var p := Before(3 * dx + dy);
    assert Offsets[p] == (dx, dy);
    assert Cells(x, y)[p] == c;
  }

  /** The eight visited cells are exactly the adjacent cells. */
  lemma CellsAreAdjacent(x: nat, y: nat)
    requires x < 8 && y < 8
    ensures forall c :: c in Cells(x, y) <==> c in Adjacent(x, y)
  {
    CellsAdjacent(x, y);
    forall c | c in Adjacent(x, y)
      ensures c in Cells(x, y)
    {
      AdjacentVisited(x, y, c);
    }
  }

  /** Counting the live cells of a duplicate-free list is counting the live set. */
  lemma {:induction false} CountAliveIsCardinality(b: Board, cs: seq<Cell>)
    requires Distinct(cs)
    ensures CountAlive(b, cs) == |set c | c in cs && Alive(b, c)|
  {
    if |cs| > 0 {
      var init := cs[..|cs| - 1];
      var last := cs[|cs| - 1];
      CountAliveIsCardinality(b, init);
      assert CountAlive(b, cs) == CountAlive(b, init) + (if Alive(b, last) then 1 else 0);
      assert cs == init + [last];
      assert last !in init;
      LiveSetGrows(b, init, last);
    }
  }

  /** Appending a cell not yet listed adds it to the live set exactly when it is alive. */
  lemma LiveSetGrows(b: Board, init: seq<Cell>, last: Cell)
    requires last !in init
    ensures |set c | c in init + [last] && Alive(b, c)| ==
            |set c | c in init && Alive(b, c)| + (if Alive(b, last) then 1 else 0)
  {
    var before := set c | c in init && Alive(b, c);
    var after := set c | c in init + [last] && Alive(b, c);
    assert forall c :: c in init + [last] <==> c in init || c == last;
    if Alive(b, last) {
      assert after == before + {last};
    } else {
      assert after == before;
    }
  }

  /**
   * The neighbour count is the number of live cells among the eight cells
   * adjacent to `(x, y)` on the torus, not counting `(x, y)` itself.
   */
  lemma NeighbourCountIsLiveAdjacent(b: Board, x: nat, y: nat)
    requires x < 8 && y < 8
    ensures NeighbourCount(b, x, y) == |set c | c in Adjacent(x, y) && Alive(b, c)|
    ensures (x, y) !in Adjacent(x, y)
  {
    CellsDistinct(x, y);
    CellsAreAdjacent(x, y);
    CountAliveIsCardinality(b, Cells(x, y));
    assert (set c | c in Cells(x, y) && Alive(b, c)) == (set c | c in Adjacent(x, y) && Alive(b, c));
  }

  /**
   * One generation, applied to every cell at once: a live cell survives
   * with 2 or 3 live neighbours, a dead cell is born with exactly 3, and
   * every other cell is dead afterwards.
   */
  function Generation(b: Board): (r: Board)
    ensures forall x, y :: 0 <= x < 8 && 0 <= y < 8 ==>
      (r[x][y] <==> if b[x][y] then 2 <= NeighbourCount(b, x, y) <= 3 else NeighbourCount(b, x, y) == 3)
  {
    var r := seq(8, i requires 0 <= i < 8 =>
      seq(8, j requires 0 <= j < 8 => (b[i][j] && NeighbourCount(b, i, j) == 2) || NeighbourCount(b, i, j) == 3));
    assert |r| == 8 && forall i :: 0 <= i < 8 ==> |r[i]| == 8;
    r
  }

  /** A generation of a board with no live cell has no live cell. */
  lemma {:induction false} EmptyStaysEmpty(b: Board)
    requires forall x, y :: 0 <= x < 8 && 0 <= y < 8 ==> !b[x][y]
    ensures forall x, y :: 0 <= x < 8 && 0 <= y < 8 ==> !Generation(b)[x][y]
  {
    forall x, y | 0 <= x < 8 && 0 <= y < 8
      ensures NeighbourCount(b, x, y) == 0
    {
      NoneAlive(b, Cells(x, y));
    }
  }

  /** On a board with no live cell every count is zero. */
  lemma {:induction false} NoneAlive(b: Board, cs: seq<Cell>)
    requires forall x, y :: 0 <= x < 8 && 0 <= y < 8 ==> !b[x][y]
    ensures CountAlive(b, cs) == 0
  {
    if |cs| > 0 {
      NoneAlive(b, cs[..|cs| - 1]);
    }
  }

  /**
   * `Life::next`: the sub-tick counter advances modulo 24, and the board
   * is replaced by its next generation exactly when the counter becomes 0
   * or 12; otherwise the board is kept.
   */
  function Next(s: State): (r: State)
    ensures r.counter == (s.counter + 1) % 24
    ensures r.counter == 0 || r.counter == 12 ==> r.data == Generation(s.data)
    ensures r.counter != 0 && r.counter != 12 ==> r.data == s.data
  {
    var c := (s.counter + 1) % 24;
    if !(c == 0 || c == 12) then State(s.data, c)
    else State(Generation(s.data), c)
  }

  /** The state after `n` ticks. */
  function Ticks(s: State, n: nat): State
    decreases n
  {
    if n == 0 then s else Next(Ticks(s, n - 1))
  }

  /** The board after `g` generations. */
  function Generations(b: Board, g: nat): Board
    decreases g
  {
    if g == 0 then b else Generation(Generations(b, g - 1))
  }

  /**
   * After `n` ticks from counter `c`, the board has gone through one
   * generation per multiple of 12 in `c + 1 ..= c + n`, that is
   * `(c + n) / 12 - c / 12` generations.
   */
  lemma {:induction false} TicksGenerations(s: State, n: nat)
    ensures Ticks(s, n).counter == if n == 0 then s.counter else (s.counter + n) % 24
    ensures (s.counter + n) / 12 >= s.counter / 12
    ensures Ticks(s, n).data == Generations(s.data, (s.counter + n) / 12 - s.counter / 12)
  {
    if n > 0 {
      TicksGenerations(s, n - 1);
      var c := s.counter;
      var prev := Ticks(s, n - 1);
      assert Ticks(s, n) == Next(prev);
      if n > 1 {
        Arith.ModSuccOfMod(c + n - 1, 24);
      }
      GateStep(c + n - 1);
    }
  }

  /**
   * Stepping from `a` to `a + 1` crosses a multiple of 12 exactly when
   * `a + 1` is 0 or 12 modulo 24.
   */
  lemma GateStep(a: nat)
    ensures (a + 1) / 12 == a / 12 + (if (a + 1) % 24 == 0 || (a + 1) % 24 == 12 then 1 else 0)
  {
    var q := a / 12;
    var r := a % 12;
    assert a == q * 12 + r;
    var h := (a + 1) / 24;
    var k := (a + 1) % 24;
    assert a + 1 == h * 24 + k;
    if k < 12 {
      Arith.ModUnique(a + 1, 12, 2 * h, k);
    } else {
      Arith.ModUnique(a + 1, 12, 2 * h + 1, k - 12);
    }
    if r + 1 < 12 {
      Arith.ModUnique(a + 1, 12, q, r + 1);
    } else {
      Arith.ModUnique(a + 1, 12, q + 1, 0);
    }
  }

  /** Every 12 ticks the board advances by exactly one generation. */
  lemma TwelveTicksOneGeneration(s: State)
    ensures Ticks(s, 12).data == Generation(s.data)
  {
    TicksGenerations(s, 12);
    var c := s.counter;
    Arith.ModUnique(c + 12, 12, c / 12 + 1, c % 12);
  }

  /** `Life::to_list`: the pixel at column `x`, row `y` is white iff cell `data[x][y]` is alive. */
  function Render(s: State): (f: Frame)
    ensures forall k :: 0 <= k < 64 ==> (f[k] == White <==> s.data[Col(k)][Row(k)])
    ensures forall k :: 0 <= k < 64 ==> f[k] == White || f[k] == Black
  {
    var f := seq(64, k requires 0 <= k < 64 => if s.data[Col(k)][Row(k)] then White else Black);
    assert |f| == 64;
    f
  }

  /** Reads a board back from a frame: a cell is alive iff its pixel is white. */
  function BoardOf(f: Frame): Board {
    var b := seq(8, x requires 0 <= x < 8 => seq(8, y requires 0 <= y < 8 => f[Index(y, x)] == White));
    assert |b| == 8 && forall x :: 0 <= x < 8 ==> |b[x]| == 8;
    b
  }

  /** Rendering loses nothing: the board can be read back from the frame. */
  lemma RenderRoundTrip(s: State)
    ensures BoardOf(Render(s)) == s.data
  {
    var f := Render(s);
    forall x | 0 <= x < 8
      ensures BoardOf(f)[x] == s.data[x]
    {
      forall y | 0 <= y < 8
        ensures BoardOf(f)[x][y] == s.data[x][y]
      {
        var k := Index(y, x);
        assert Col(k) == x && Row(k) == y;
      }
    }
  }
}
