/**
 * The playing field: integer cells `(x, y)` with `x` the column and `y` the
 * row, rows growing downward as on the screen.
 */
module Grid {
  import opened Compass

  type Cell = (int, int)

  predicate InGrid(c: Cell, w: int, h: int) {
    0 <= c.0 < w && 0 <= c.1 < h
  }

  predicate AllInGrid(s: seq<Cell>, w: int, h: int) {
    forall c :: c in s ==> InGrid(c, w, h)
  }

  predicate NoDuplicates(s: seq<Cell>) {
    forall i, j :: 0 <= i < j < |s| ==> s[i] != s[j]
  }

  /**
   * The neighbour of `c` one cell away in direction `d`: it keeps the
   * coordinate across `d`'s axis and moves one cell along it, toward higher
   * numbers for RIGHT and DOWN (rows grow downward) and lower for LEFT and UP.
   */
  function Step(c: Cell, d: Direction): (r: Cell)
    ensures IsHorizontal(d) ==> r.1 == c.1
    ensures !IsHorizontal(d) ==> r.0 == c.0
    ensures r.0 + r.1 == c.0 + c.1 + (if d == Right || d == Down then 1 else -1)
  {
    match d
    case Up => (c.0, c.1 - 1)
    case Down => (c.0, c.1 + 1)
    case Left => (c.0 - 1, c.1)
    case Right => (c.0 + 1, c.1)
  }

  /** A new cell put in front of a body without repeats keeps it without repeats. */
  lemma PrependDistinct(body: seq<Cell>, head: Cell)
    requires NoDuplicates(body) && head !in body
    ensures NoDuplicates([head] + body)
  {
    var s := [head] + body;
    forall i, j | 0 <= i < j < |s| ensures s[i] != s[j] {
      if i > 0 {
        assert s[i] == body[i - 1] && s[j] == body[j - 1];
      } else {
        assert s[j] in body;
      }
    }
  }

  /** Every cell of a `w` by `h` field. */
  function Cells(w: nat, h: nat): set<Cell> {
    set x, y | 0 <= x < w && 0 <= y < h :: (x, y)
  }

  function Column(x: int, h: nat): set<Cell> {
    set y | 0 <= y < h :: (x, y)
  }

  lemma {:induction false} ColumnCount(x: int, h: nat)
    ensures |Column(x, h)| == h
  {
    if h > 0 {
      ColumnCount(x, h - 1);
      assert Column(x, h) == Column(x, h - 1) + {(x, h - 1)};
    } else {
      assert Column(x, h) == {};
    }
  }

  /** The field has exactly `w * h` cells. */
  lemma {:induction false} CellsCount(w: nat, h: nat)
    ensures |Cells(w, h)| == w * h
  {
    if w > 0 {
      CellsCount(w - 1, h);
      ColumnCount(w - 1, h);
      CellsSplit(w, h);
      assert (w - 1) * h + h == w * h;
    } else {
      assert Cells(w, h) == {};
    }
  }

  lemma CellsSplit(w: nat, h: nat)
    requires w > 0
    ensures Cells(w, h) == Cells(w - 1, h) + Column(w - 1, h)
    ensures Cells(w - 1, h) !! Column(w - 1, h)
  {
    forall c | c in Cells(w, h) ensures c in Cells(w - 1, h) + Column(w - 1, h) {
      if c.0 < w - 1 {
        assert c in Cells(w - 1, h);
      } else {
        assert c in Column(w - 1, h);
      }
    }
  }

  /** The cells a body occupies, as a set. */
  function Occupied(s: seq<Cell>): (r: set<Cell>)
    ensures forall c :: c in r <==> c in s
  {
    if s == [] then {} else Occupied(s[..|s| - 1]) + {s[|s| - 1]}
  }

  /** A body without repeated cells occupies as many cells as it is long. */
  lemma {:induction false} OccupiedCount(s: seq<Cell>)
    requires NoDuplicates(s)
    ensures |Occupied(s)| == |s|
  {
    if s != [] {
      var init := s[..|s| - 1];
      assert NoDuplicates(init);
      OccupiedCount(init);
      assert s[|s| - 1] !in init;
    }
  }

  /**
   * Pigeonhole: a duplicate-free body inside the field that is shorter than
   * the number of cells leaves at least one free cell, so the retry loop that
   * places the fruit has something to find.
   */
  lemma FreeCellExists(body: seq<Cell>, w: int, h: int)
    requires 0 <= w && 0 <= h
    requires AllInGrid(body, w, h) && NoDuplicates(body)
    requires |body| < w * h
    ensures exists c :: InGrid(c, w, h) && c !in body
  {
    CellsCount(w, h);
    OccupiedCount(body);
    assert Occupied(body) <= Cells(w, h) by {
      forall c | c in Occupied(body) ensures c in Cells(w, h) {
        assert InGrid(c, w, h);
      }
    }
    var free := Cells(w, h) - Occupied(body);
    assert |free| > 0;
    var c :| c in free;
    assert InGrid(c, w, h) && c !in body;
  }
}
