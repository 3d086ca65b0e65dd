/** The index arithmetic of `Firefly::inform_neighbours`: the four neighbours of
    the firefly at column x, row y of a rows × cols grid (stored as grid[y][x]),
    in the order up, down, left, right. */
module Topology {
  import opened Outcomes

  /** A grid position: column x, row y. */
  datatype Pos = Pos(x: nat, y: nat)

  /** 2^32: `usize` is 32 bits wide on the wasm32 target the crate is built for. */
  const USIZE_MODULUS: nat := 0x1_0000_0000

  predicate InGrid(p: Pos, rows: nat, cols: nat) {
    p.y < rows && p.x < cols
  }

  /** The next index on a ring of n indices, as the source computes it: `(i + 1) % n`. */
  function Succ(i: nat, n: nat): (r: nat)
    requires i < n
    ensures r < n
    ensures r == 0 <==> i == n - 1
    ensures i < n - 1 ==> r == i + 1
  {
    (i + 1) % n
  }

  /** The previous index on a ring of n indices, wrapping 0 round to n - 1: the
      step that Succ undoes. */
  function Pred(i: nat, n: nat): (r: nat)
    requires i < n
    ensures r < n && Succ(r, n) == i
  {
    if i == 0 then n - 1 else i - 1
  }

  lemma SuccInjective(i: nat, j: nat, n: nat)
    requires i < n && j < n && Succ(i, n) == Succ(j, n)
    ensures i == j
  {
  }

  /** Pred also undoes Succ: the two are inverse bijections of the ring. */
  lemma PredSucc(i: nat, n: nat)
    requires i < n
    ensures Pred(Succ(i, n), n) == i
  {
    SuccInjective(Pred(Succ(i, n), n), i, n);
  }

  /** Succ moves every index exactly when the ring has more than one index. */
  lemma SuccFixed(i: nat, n: nat)
    requires i < n
    ensures Succ(i, n) == i <==> n == 1
  {
  }

  /** Independent statement of the torus neighbour relation: one Succ step along
      one axis takes one position to the other. */
  predicate Adjacent(p: Pos, q: Pos, rows: nat, cols: nat)
    requires InGrid(p, rows, cols) && InGrid(q, rows, cols)
  {
    || (p.x == q.x && (Succ(p.y, rows) == q.y || Succ(q.y, rows) == p.y))
    || (p.y == q.y && (Succ(p.x, cols) == q.x || Succ(q.x, cols) == p.x))
  }

  /** The four neighbours up, down, left, right on the torus, which is what the
      grid is meant to be (src/lib.rs:177); the source gets up and left wrong at
      the first row and column, see Neighbours and WrappingNeighbours. */
  function TorusNeighbours(x: nat, y: nat, rows: nat, cols: nat): (r: seq<Pos>)
    requires x < cols && y < rows
    ensures |r| == 4
    ensures forall i | 0 <= i < 4 :: InGrid(r[i], rows, cols) && Adjacent(Pos(x, y), r[i], rows, cols)
  {
    [Pos(x, Pred(y, rows)), Pos(x, Succ(y, rows)), Pos(Pred(x, cols), y), Pos(Succ(x, cols), y)]
  }

  /** The four positions are exactly the adjacent ones. */
  lemma NeighboursAreAdjacent(x: nat, y: nat, rows: nat, cols: nat, q: Pos)
    requires x < cols && y < rows && InGrid(q, rows, cols)
    ensures q in TorusNeighbours(x, y, rows, cols) <==> Adjacent(Pos(x, y), q, rows, cols)
  {
    var ns := TorusNeighbours(x, y, rows, cols);
    if Adjacent(Pos(x, y), q, rows, cols) {
      if q.x == x && Succ(q.y, rows) == y {
        PredSucc(q.y, rows);
        assert q == ns[0];
      } else if q.x == x && Succ(y, rows) == q.y {
        assert q == ns[1];
      } else if Succ(q.x, cols) == x {
        PredSucc(q.x, cols);
        assert q == ns[2];
      } else {
        assert q == ns[3];
      }
    }
  }

  /** The neighbour relation is symmetric: q is informed by p exactly when p is
      informed by q. */
  lemma NeighboursSymmetric(p: Pos, q: Pos, rows: nat, cols: nat)
    requires InGrid(p, rows, cols) && InGrid(q, rows, cols)
    ensures q in TorusNeighbours(p.x, p.y, rows, cols) <==> p in TorusNeighbours(q.x, q.y, rows, cols)
  {
    NeighboursAreAdjacent(p.x, p.y, rows, cols, q);
    NeighboursAreAdjacent(q.x, q.y, rows, cols, p);
  }

  /** A firefly is its own neighbour exactly in a one-row or one-column grid. */
  lemma SelfNeighbour(x: nat, y: nat, rows: nat, cols: nat)
    requires x < cols && y < rows
    ensures Pos(x, y) in TorusNeighbours(x, y, rows, cols) <==> rows == 1 || cols == 1
  {
    NeighboursAreAdjacent(x, y, rows, cols, Pos(x, y));
    SuccFixed(y, rows);
    SuccFixed(x, cols);
  }

  /** From three rows and three columns on, the four neighbours are four distinct
      other positions, so each of them gets exactly one message. */
  lemma NeighboursDistinct(x: nat, y: nat, rows: nat, cols: nat)
    requires x < cols && y < rows && rows >= 3 && cols >= 3
    ensures var ns := TorusNeighbours(x, y, rows, cols);
      Pos(x, y) !in ns && forall i, j | 0 <= i < j < 4 :: ns[i] != ns[j]
  {
    SelfNeighbour(x, y, rows, cols);
    var ns := TorusNeighbours(x, y, rows, cols);
    if ns[0] == ns[1] {
      assert Succ(Pred(y, rows), rows) == y;
      assert Succ(y, rows) == Pred(y, rows);
      SuccOfSuccMoves(Pred(y, rows), rows);
    }
    if ns[2] == ns[3] {
      assert Succ(Pred(x, cols), cols) == x;
      SuccOfSuccMoves(Pred(x, cols), cols);
    }
  }

  /** Two Succ steps never return to the start on a ring of three or more. */
  lemma SuccOfSuccMoves(i: nat, n: nat)
    requires i < n && n >= 3
    ensures Succ(Succ(i, n), n) != i
  {
  }

  /** From three rows and three columns on, a step sends exactly one message to
      each adjacent position and none to any other. */
  lemma MessagesPerPosition(x: nat, y: nat, rows: nat, cols: nat, q: Pos)
    requires x < cols && y < rows && rows >= 3 && cols >= 3 && InGrid(q, rows, cols)
    ensures multiset(TorusNeighbours(x, y, rows, cols))[q] == if Adjacent(Pos(x, y), q, rows, cols) then 1 else 0
  {
    NeighboursDistinct(x, y, rows, cols);
    NeighboursAreAdjacent(x, y, rows, cols, q);
  }

  /** In a one-row grid of three or more columns, up and down are the firefly
      itself, so it sends itself two messages. */
  lemma OneRowSelfMessages(x: nat, cols: nat)
    requires x < cols && cols >= 3
    ensures multiset(TorusNeighbours(x, 0, 1, cols))[Pos(x, 0)] == 2
  {
    var ns := TorusNeighbours(x, 0, 1, cols);
    assert ns[0] == ns[1] == Pos(x, 0);
    assert ns[2] != Pos(x, 0) by {
      SuccFixed(Pred(x, cols), cols);
    }
    assert ns[3] != Pos(x, 0) by {
      SuccFixed(x, cols);
    }
  }

  /** In a single cell grid all four neighbours are the cell itself. */
  lemma SingleCellNeighbours()
    ensures TorusNeighbours(0, 0, 1, 1) == [Pos(0, 0), Pos(0, 0), Pos(0, 0), Pos(0, 0)]
  {
  }

  // ----- The arithmetic as written -----

  /** `a - b` on `usize` in an overflow-checked build: None is the
      "attempt to subtract with overflow" panic. */
  function CheckedSub(a: nat, b: nat): (r: Option<nat>)
    ensures r.Some? <==> b <= a
    ensures r.Some? ==> r.value + b == a
  {
    if b <= a then Some(a - b) else None
  }

  /** The neighbours `inform_neighbours` computes in an overflow-checked build:
      `(y - 1) % rows`, `(y + 1) % rows`, `(x - 1) % cols`, `(x + 1) % cols`.
      None is the panic at the first row or the first column. */
  function Neighbours(x: nat, y: nat, rows: nat, cols: nat): (r: Option<seq<Pos>>)
    requires x < cols && y < rows
    ensures r.None? <==> x == 0 || y == 0
    ensures r.Some? ==> r.value == TorusNeighbours(x, y, rows, cols)
  {
    match CheckedSub(y, 1)
    case None => None
    case Some(yUp) =>
      ModSmall(yUp, rows);
      var up := Pos(x, yUp % rows);
      var down := Pos(x, (y + 1) % rows);
      match CheckedSub(x, 1)
      case None => None
      case Some(xLeft) =>
        ModSmall(xLeft, cols);
        var left := Pos(xLeft % cols, y);
        var right := Pos((x + 1) % cols, y);
        Some([up, down, left, right])
  }

  /** `a - b` on `usize` in a build without overflow checks: it wraps modulo 2^32. */
  function WrappingSub(a: nat, b: nat): (r: nat)
    requires a < USIZE_MODULUS && b < USIZE_MODULUS
    ensures r < USIZE_MODULUS
    ensures (r + b) % USIZE_MODULUS == a
    ensures b <= a ==> r == a - b
  {
    (a - b) % USIZE_MODULUS
  }

  /** `(i - 1) % n` with wrapping subtraction. */
  function WrappingPred(i: nat, n: nat): (r: nat)
    requires i < n < USIZE_MODULUS
    ensures r < n
  {
    WrappingSub(i, 1) % n
  }

  /** The neighbours `inform_neighbours` computes in a build without overflow checks. */
  function WrappingNeighbours(x: nat, y: nat, rows: nat, cols: nat): (r: seq<Pos>)
    requires x < cols < USIZE_MODULUS && y < rows < USIZE_MODULUS
    ensures |r| == 4 && forall i | 0 <= i < 4 :: InGrid(r[i], rows, cols)
  {
    [Pos(x, WrappingPred(y, rows)), Pos(x, (y + 1) % rows), Pos(WrappingPred(x, cols), y), Pos((x + 1) % cols, y)]
  }

  /** Away from index 0 the wrapping predecessor is the torus predecessor. */
  lemma WrappingPredAwayFromZero(i: nat, n: nat)
    requires 0 < i < n < USIZE_MODULUS
    ensures WrappingPred(i, n) == Pred(i, n)
  {
  }

  /** Away from the first row and column the wrapping build informs the torus
      neighbours. */
  lemma WrappingNeighboursAwayFromEdge(x: nat, y: nat, rows: nat, cols: nat)
    requires 0 < x < cols < USIZE_MODULUS && 0 < y < rows < USIZE_MODULUS
    ensures WrappingNeighbours(x, y, rows, cols) == TorusNeighbours(x, y, rows, cols)
  {
    WrappingPredAwayFromZero(y, rows);
    WrappingPredAwayFromZero(x, cols);
  }

  /** a % n for a written as q * n + r with 0 <= r < n. */
  lemma ModUnique(a: int, n: int, q: int, r: int)
    requires n > 0 && 0 <= r < n && a == q * n + r
    ensures a % n == r
  {
    var q', r' := a / n, a % n;
    assert a == q' * n + r';
    var d := q - q';
    assert d * n == r' - r by {
      assert q * n - q' * n == (q - q') * n;
    }
    if d > 0 {
      MulAtLeast(d, n);
    } else if d < 0 {
      MulAtLeast(-d, n);
    }
  }

  lemma MulAtLeast(d: int, n: int)
    requires d >= 1 && n > 0
    ensures d * n >= n
  {
    assert d * n == n + (d - 1) * n;
  }

  /** An index below n is its own remainder. */
  lemma ModSmall(a: nat, n: nat)
    requires a < n
    ensures a % n == a
  {
    ModUnique(a, n, 0, a);
  }

  /** At index 0 the wrapping predecessor is n - 1 exactly when n divides 2^32,
      that is, when n is a power of two. */
  lemma WrappingPredAtZero(n: nat)
    requires 0 < n < USIZE_MODULUS
    ensures WrappingPred(0, n) == Pred(0, n) <==> USIZE_MODULUS % n == 0
  {
    var q := (USIZE_MODULUS - 1) / n;
    var r := (USIZE_MODULUS - 1) % n;
    assert WrappingPred(0, n) == r;
    if r == n - 1 {
      assert USIZE_MODULUS == (q + 1) * n;
      ModUnique(USIZE_MODULUS, n, q + 1, 0);
    }
    if USIZE_MODULUS % n == 0 {
      var k := USIZE_MODULUS / n;
      assert USIZE_MODULUS == k * n;
      assert k >= 1;
      assert USIZE_MODULUS - 1 == (k - 1) * n + (n - 1);
      ModUnique(USIZE_MODULUS - 1, n, k - 1, n - 1);
    }
  }

  /** The 9-row grid of index.js:11: the wrapping build sends row 0's "up"
      message to row 3, not to the last row 8. */
  lemma WrappingUpNineRows()
    ensures WrappingNeighbours(0, 0, 9, 16)[0] == Pos(0, 3)
    ensures TorusNeighbours(0, 0, 9, 16)[0] == Pos(0, 8)
  {
  }

  /** A 3-column grid: the wrapping build sends column 0's "left" message to
      column 0 itself, not to column 2. With the 16 columns of index.js:12 it
      is right by accident, since 16 divides 2^32. */
  lemma WrappingLeftThreeColumns()
    ensures WrappingNeighbours(0, 0, 9, 3)[2] == Pos(0, 0)
    ensures TorusNeighbours(0, 0, 9, 3)[2] == Pos(2, 0)
    ensures WrappingNeighbours(0, 0, 9, 16)[2] == TorusNeighbours(0, 0, 9, 16)[2]
  {
  }
}
