/** Minesweeper: the board's neighbourhood count and the knowledge base of
    the AI player. The AI keeps a list of Sentence objects, each a set of
    cells and the number of mines among them, and updates them in place as
    cells become known to be safe or mines. */
module Minesweeper {
  import opened Wrappers

  /** A cell (i, j): row i, column j. */
  type Cell = (int, int)

  predicate IsGrid(board: seq<seq<bool>>, height: int, width: int) {
    |board| == height && forall i :: 0 <= i < height ==> |board[i]| == width
  }

  /** The eight cells around `cell`, in bounds or not. */
  function Ring(cell: Cell): set<Cell> {
    var (i, j) := cell;
    {(i - 1, j - 1), (i - 1, j), (i - 1, j + 1), (i, j - 1), (i, j + 1), (i + 1, j - 1), (i + 1, j), (i + 1, j + 1)}
  }

  /** d differs from c by at most one row and at most one column. */
  predicate Adjacent(c: Cell, d: Cell) {
    d != c && -1 <= d.0 - c.0 <= 1 && -1 <= d.1 - c.1 <= 1
  }

  /** The ring is exactly the set of adjacent cells. */
  lemma RingMeaning(c: Cell)
    ensures forall d :: d in Ring(c) <==> Adjacent(c, d)
  {
  }

  /** The ring has eight cells. */
  lemma RingSize(c: Cell)
    ensures |Ring(c)| == 8
  {
    var (i, j) := c;
    var r0 := {(i - 1, j - 1), (i - 1, j), (i - 1, j + 1)};
    var r1 := {(i, j - 1), (i, j + 1)};
    var r2 := {(i + 1, j - 1), (i + 1, j), (i + 1, j + 1)};
    assert |r0| == 3 && |r1| == 2 && |r2| == 3;
    assert r0 !! r1 && r0 !! r2 && r1 !! r2;
    assert Ring(c) == r0 + r1 + r2;
  }

  predicate InBounds(d: Cell, height: int, width: int) {
    0 <= d.0 < height && 0 <= d.1 < width
  }

  /** The in-bounds cells around `cell`. */
  function Neighbourhood(cell: Cell, height: int, width: int): set<Cell> {
    set d | d in Ring(cell) && InBounds(d, height, width)
  }

  /** A cell has at most eight neighbours. */
  lemma NeighbourhoodSize(cell: Cell, height: int, width: int)
    ensures |Neighbourhood(cell, height, width)| <= 8
  {
    RingSize(cell);
    SubsetCard(Neighbourhood(cell, height, width), Ring(cell));
  }

  lemma NeighbourhoodMeaning(cell: Cell, height: int, width: int)
    ensures forall d :: d in Neighbourhood(cell, height, width) <==> Adjacent(cell, d) && InBounds(d, height, width)
  {
    RingMeaning(cell);
  }

  /** The cells holding a mine. */
  function MinesOf(board: seq<seq<bool>>, height: int, width: int): set<Cell>
    requires IsGrid(board, height, width)
  {
    set a, b | 0 <= a < height && 0 <= b < width && board[a][b] :: (a, b)
  }

  /** The mines next to `cell`. */
  function MinesAround(board: seq<seq<bool>>, height: int, width: int, cell: Cell): set<Cell>
    requires IsGrid(board, height, width)
  {
    set d | d in Neighbourhood(cell, height, width) && board[d.0][d.1]
  }

  predicate IsMineNear(board: seq<seq<bool>>, height: int, width: int, cell: Cell, d: Cell)
    requires IsGrid(board, height, width)
  {
    Adjacent(cell, d) && InBounds(d, height, width) && board[d.0][d.1]
  }

  /** d comes before (a, b) in a row-by-row scan. */
  predicate Before(d: Cell, a: int, b: int) {
    d.0 < a || (d.0 == a && d.1 < b)
  }

  /** Minesweeper.nearby_mines: the number of mines among the in-bounds
      cells around `cell`, which is at most eight. */
  method NearbyMines(board: seq<seq<bool>>, height: int, width: int, cell: Cell) returns (count: int)
    requires IsGrid(board, height, width)
    ensures count == |MinesAround(board, height, width, cell)|
    ensures 0 <= count <= 8
  {
    ghost var seen: set<Cell> := {};
    count := 0;
    var i := cell.0 - 1;
    while i < cell.0 + 2
      invariant cell.0 - 1 <= i <= cell.0 + 2
      invariant count == |seen|
      invariant forall d :: d in seen <==> IsMineNear(board, height, width, cell, d) && Before(d, i, cell.1 - 1)
    {
      var j := cell.1 - 1;
      while j < cell.1 + 2
        invariant cell.1 - 1 <= j <= cell.1 + 2
        invariant count == |seen|
        invariant forall d :: d in seen <==> IsMineNear(board, height, width, cell, d) && Before(d, i, j)
      {
        if (i, j) != cell && 0 <= i < height && 0 <= j < width && board[i][j] {
          count := count + 1;
          seen := seen + {(i, j)};
        }
        j := j + 1;
      }
      i := i + 1;
    }
    ghost var around := MinesAround(board, height, width, cell);
    NeighbourhoodMeaning(cell, height, width);
    assert seen == around;
    NeighbourhoodSize(cell, height, width);
    SubsetCard(around, Neighbourhood(cell, height, width));
  }

  /** The value of a Sentence: a set of cells and how many of them are mines.
      Sentence.__eq__ compares exactly these two fields. */
  datatype Fact = Fact(cells: set<Cell>, count: int) {

    /** All cells are mines when there are as many mines as cells. */
    function KnownMines(): (r: set<Cell>)
      ensures r == {} || r == cells
      ensures r != {} <==> cells != {} && |cells| == count
    {
      if |cells| == count then cells else {}
    }

    /** All cells are safe when there are no mines. */
    function KnownSafes(): (r: set<Cell>)
      ensures r == {} || r == cells
      ensures r != {} <==> cells != {} && count == 0
    {
      if count == 0 then cells else {}
    }

    /** The fact once c is known to be a mine: c leaves the cells and, if
        it was among them, takes one mine with it. */
    function MarkedMine(c: Cell): (r: Fact)
      ensures r == MarkedMines({c})
    {
      assert c in cells ==> cells * {c} == {c};
      assert c !in cells ==> cells - {c} == cells && cells * {c} == {};
      if c in cells then Fact(cells - {c}, count - 1) else this
    }

    /** The fact once c is known to be safe: c leaves the cells and the
        number of mines stays. */
    function MarkedSafe(c: Cell): (r: Fact)
      ensures r == MarkedSafes({c})
    {
      assert c !in cells ==> cells - {c} == cells;
      if c in cells then Fact(cells - {c}, count) else this
    }

    /** The fact with every cell of m marked as a mine, in any order. */
    function MarkedMines(m: set<Cell>): Fact {
      Fact(cells - m, count - |cells * m|)
    }

    /** The fact with every cell of s marked as safe, in any order. */
    function MarkedSafes(s: set<Cell>): Fact {
      Fact(cells - s, count)
    }

    /** The fact is true on a board whose mines are `mines`. */
    ghost predicate HoldsFor(mines: set<Cell>) {
      |cells * mines| == count
    }

    /** Nothing is left to conclude from the fact on its own. */
    predicate Quiet() {
      KnownMines() == {} && KnownSafes() == {}
    }
  }

  /** The conclusions a true sentence draws are correct: every cell of
      KnownMines is a mine and no cell of KnownSafes is. */
  lemma KnownCellsSound(f: Fact, mines: set<Cell>)
    requires f.HoldsFor(mines)
    ensures f.KnownMines() <= mines
    ensures f.KnownSafes() !! mines
  {
    if |f.cells| == f.count {
      SubsetCard(f.cells * mines, f.cells);
      assert f.cells - f.cells * mines == {} by {
        assert |f.cells - f.cells * mines| == |f.cells| - |f.cells * mines|;
      }
    }
    if f.count == 0 {
      forall c | c in f.cells
        ensures c !in mines
      {
        assert c !in f.cells * mines;
      }
    }
  }

  /** A correct mark loses no information: on a board where c is a mine
      (or safe), the marked sentence is true exactly when the sentence is. */
  lemma MarksSound(f: Fact, c: Cell, mines: set<Cell>)
    ensures c in mines ==> (f.MarkedMine(c).HoldsFor(mines) <==> f.HoldsFor(mines))
    ensures c !in mines ==> (f.MarkedSafe(c).HoldsFor(mines) <==> f.HoldsFor(mines))
  {
    if c in f.cells {
      assert (f.cells - {c}) * mines == f.cells * mines - {c};
    }
  }

  /** The same for a whole set of correct marks at once. */
  lemma MarkedSetsSound(f: Fact, m: set<Cell>, s: set<Cell>, mines: set<Cell>)
    ensures m <= mines ==> (f.MarkedMines(m).HoldsFor(mines) <==> f.HoldsFor(mines))
    ensures s !! mines ==> (f.MarkedSafes(s).HoldsFor(mines) <==> f.HoldsFor(mines))
  {
    if m <= mines {
      var hit := f.cells * m;
      assert (f.cells - m) * mines == f.cells * mines - hit;
      assert hit <= f.cells * mines;
      assert |f.cells * mines - hit| == |f.cells * mines| - |hit|;
    }
    if s !! mines {
      assert (f.cells - s) * mines == f.cells * mines;
    }
  }

  /** Marking one more cell of a set: the set forms grow by that cell. */
  lemma MarkedOneMore(f: Fact, m: set<Cell>, c: Cell)
    ensures f.MarkedSafes(m).MarkedSafe(c) == f.MarkedSafes(m + {c})
    ensures c !in m ==> f.MarkedMines(m).MarkedMine(c) == f.MarkedMines(m + {c})
  {
    assert f.cells - m - {c} == f.cells - (m + {c});
    if c !in m {
      if c in f.cells {
        assert f.cells * (m + {c}) == f.cells * m + {c};
        assert c !in f.cells * m;
      } else {
        assert f.cells * (m + {c}) == f.cells * m;
      }
    }
  }

  /** The sentence `inferences` builds from s1 and s2: the cells of s2 not in
      s1, with the difference of the counts. */
  function Difference(s1: Fact, s2: Fact): Fact {
    Fact(s2.cells - s1.cells, s2.count - s1.count)
  }

  /** When s1's cells lie inside s2's, the difference of two true sentences
      is true. */
  lemma DifferenceSound(s1: Fact, s2: Fact, mines: set<Cell>)
    requires s1.cells <= s2.cells && s1.HoldsFor(mines) && s2.HoldsFor(mines)
    ensures Difference(s1, s2).HoldsFor(mines)
  {
    assert (s2.cells - s1.cells) * mines == s2.cells * mines - s1.cells * mines;
    assert s1.cells * mines <= s2.cells * mines;
  }

  /** The sentence the game's report yields is true: the cells around
      `cell` hold exactly `nearby_mines` mines. */
  lemma ReportedSentenceHolds(board: seq<seq<bool>>, height: int, width: int, cell: Cell)
    requires IsGrid(board, height, width)
    ensures Fact(Neighbourhood(cell, height, width), |MinesAround(board, height, width, cell)|)
              .HoldsFor(MinesOf(board, height, width))
  {
    var near := Neighbourhood(cell, height, width);
    var mines := MinesOf(board, height, width);
    forall d | d in near
      ensures d in mines <==> board[d.0][d.1]
    {
      if board[d.0][d.1] {
        assert d == (d.0, d.1);
      }
    }
    assert near * mines == MinesAround(board, height, width, cell);
  }

  /** A sentence of the knowledge base, updated in place. */
  class Sentence {
    var cells: set<Cell>
    var count: int

    constructor (cells: set<Cell>, count: int)
      ensures Value() == Fact(cells, count)
    {
      this.cells := cells;
      this.count := count;
    }

    function Value(): Fact
      reads this
    {
      Fact(cells, count)
    }

    /** A cell of the sentence is a mine: drop it and count one mine fewer. */
    method MarkMine(c: Cell)
      modifies this
      ensures Value() == old(Value()).MarkedMine(c)
    {
      if c !in cells {
        return;
      }
      cells := cells - {c};
      count := count - 1;
    }

    /** A cell of the sentence is safe: drop it. */
    method MarkSafe(c: Cell)
      modifies this
      ensures Value() == old(Value()).MarkedSafe(c)
    {
      if c !in cells {
        return;
      }
      cells := cells - {c};
    }
  }

  /** The values of a list of sentences. */
  function ValuesOf(ks: seq<Sentence>): (r: seq<Fact>)
    reads ks
    ensures |r| == |ks|
  {
    seq(|ks|, k requires 0 <= k < |ks| reads ks => ks[k].Value())
  }

  lemma ValuesOfConcat(xs: seq<Sentence>, ys: seq<Sentence>)
    ensures ValuesOf(xs + ys) == ValuesOf(xs) + ValuesOf(ys)
  {
  }

  predicate Distinct(ks: seq<Sentence>) {
    forall i, j :: 0 <= i < j < |ks| ==> ks[i] != ks[j]
  }

  lemma DistinctConcat(xs: seq<Sentence>, ys: seq<Sentence>)
    requires Distinct(xs) && Distinct(ys)
    requires forall k :: 0 <= k < |xs| ==> xs[k] !in ys
    ensures Distinct(xs + ys)
  {
    forall a, b | 0 <= a < b < |xs + ys|
      ensures (xs + ys)[a] != (xs + ys)[b]
    {
      if a < |xs| && |xs| <= b {
        assert (xs + ys)[b] == ys[b - |xs|];
      }
    }
  }

  /** The sentences whose cells are not empty, in their order. */
  function NonEmpty(ks: seq<Sentence>): (r: seq<Sentence>)
    reads ks
    ensures forall k :: 0 <= k < |r| ==> r[k] in ks && r[k].cells != {}
    ensures forall k :: 0 <= k < |ks| && ks[k].cells != {} ==> ks[k] in r
    ensures Distinct(ks) ==> Distinct(r)
    ensures (forall k :: 0 <= k < |ks| ==> ks[k].cells != {}) ==> r == ks
  {
    if ks == [] then []
    else
      var rest := NonEmpty(ks[1..]);
      assert Distinct(ks) ==> ks[0] !in ks[1..];
      if ks[0].cells != {} then [ks[0]] + rest else rest
  }

  lemma AllNonEmpty(ks: seq<Sentence>)
    requires forall f :: f in ValuesOf(ks) ==> f.cells != {}
    ensures NonEmpty(ks) == ks
  {
    forall k | 0 <= k < |ks|
      ensures ks[k].cells != {}
    {
      assert ValuesOf(ks)[k] in ValuesOf(ks);
    }
  }

  /** Allocating objects does not change the values of sentences. */
  twostate lemma ValuesOfStable(ks: seq<Sentence>)
    requires forall k :: 0 <= k < |ks| ==> unchanged(ks[k])
    ensures ValuesOf(ks) == old(ValuesOf(ks))
  {
  }

  /** Appending new objects to a list of old or new objects. */
  twostate lemma FreshConcat(new xs: seq<Sentence>, new ys: seq<Sentence>, base: seq<Sentence>)
    requires forall k :: 0 <= k < |xs| ==> xs[k] in base || fresh(xs[k])
    requires forall s :: s in ys ==> s in base || fresh(s)
    ensures forall k :: 0 <= k < |xs + ys| ==> (xs + ys)[k] in base || fresh((xs + ys)[k])
  {
    forall k | 0 <= k < |xs + ys|
      ensures (xs + ys)[k] in base || fresh((xs + ys)[k])
    {
      if k < |xs| {
        assert (xs + ys)[k] == xs[k];
      } else {
        assert (xs + ys)[k] == ys[k - |xs|] && ys[k - |xs|] in ys;
      }
    }
  }

  /** Allocating objects does not change which sentences are non-empty. */
  twostate lemma NonEmptyStable(ks: seq<Sentence>)
    requires forall k :: 0 <= k < |ks| ==> unchanged(ks[k])
    ensures NonEmpty(ks) == old(NonEmpty(ks))
  {
  }

  /** The sentences whose value is not listed in `removed`, in their order. */
  function Without(ks: seq<Sentence>, removed: seq<Fact>): (r: seq<Sentence>)
    reads ks
  {
    if ks == [] then []
    else
      var rest := Without(ks[1..], removed);
      if ks[0].Value() !in removed then [ks[0]] + rest else rest
  }

  /** Dropping the sentences whose value is among the empty ones keeps
      exactly the non-empty sentences. */
  lemma {:induction false} WithoutEmpties(ks: seq<Sentence>, removed: seq<Fact>)
    requires forall f :: f in removed ==> f.cells == {}
    requires forall k :: 0 <= k < |ks| && ValuesOf(ks)[k].cells == {} ==> ValuesOf(ks)[k] in removed
    ensures Without(ks, removed) == NonEmpty(ks)
  {
    if ks != [] {
      assert ValuesOf(ks)[0] == ks[0].Value();
      forall k | 0 <= k < |ks| - 1 && ValuesOf(ks[1..])[k].cells == {}
        ensures ValuesOf(ks[1..])[k] in removed
      {
        assert ValuesOf(ks[1..])[k] == ValuesOf(ks)[k + 1];
      }
      WithoutEmpties(ks[1..], removed);
    }
  }

  /** Each sentence marked with c as a mine. */
  function MarkMineAll(fs: seq<Fact>, c: Cell): (r: seq<Fact>) {
    seq(|fs|, k requires 0 <= k < |fs| => fs[k].MarkedMine(c))
  }

  /** Each sentence marked with c as safe. */
  function MarkSafeAll(fs: seq<Fact>, c: Cell): (r: seq<Fact>) {
    seq(|fs|, k requires 0 <= k < |fs| => fs[k].MarkedSafe(c))
  }

  /** Each sentence with every cell of m marked as a mine. */
  function MarkMinesAll(fs: seq<Fact>, m: set<Cell>): (r: seq<Fact>)
    ensures |r| == |fs|
  {
    if fs == [] then [] else [fs[0].MarkedMines(m)] + MarkMinesAll(fs[1..], m)
  }

  /** Each sentence with every cell of s marked as safe. */
  function MarkSafesAll(fs: seq<Fact>, s: set<Cell>): (r: seq<Fact>)
    ensures |r| == |fs|
  {
    if fs == [] then [] else [fs[0].MarkedSafes(s)] + MarkSafesAll(fs[1..], s)
  }

  /** Sentence k of the marked list is sentence k marked. */
  lemma {:induction false} MarkedAt(fs: seq<Fact>, m: set<Cell>, s: set<Cell>)
    ensures forall k :: 0 <= k < |fs| ==> MarkMinesAll(fs, m)[k] == fs[k].MarkedMines(m)
    ensures forall k :: 0 <= k < |fs| ==> MarkSafesAll(fs, s)[k] == fs[k].MarkedSafes(s)
  {
    if fs != [] {
      MarkedAt(fs[1..], m, s);
    }
  }

  /** Marking no cell changes nothing. */
  lemma MarkNoneAll(fs: seq<Fact>)
    ensures MarkMinesAll(fs, {}) == fs && MarkSafesAll(fs, {}) == fs
  {
    forall k | 0 <= k < |fs|
      ensures fs[k].MarkedMines({}) == fs[k] && fs[k].MarkedSafes({}) == fs[k]
    {
      assert fs[k].cells * {} == {};
    }
  }

  /** Marking the cells of a set one at a time, in any order, marks the
      whole set. */
  lemma MarkAllOneMore(fs: seq<Fact>, m: set<Cell>, c: Cell)
    ensures MarkSafeAll(MarkSafesAll(fs, m), c) == MarkSafesAll(fs, m + {c})
    ensures c !in m ==> MarkMineAll(MarkMinesAll(fs, m), c) == MarkMinesAll(fs, m + {c})
  {
    MarkedAt(fs, m, m);
    MarkedAt(fs, m + {c}, m + {c});
    forall k | 0 <= k < |fs|
      ensures fs[k].MarkedSafes(m).MarkedSafe(c) == fs[k].MarkedSafes(m + {c})
      ensures c !in m ==> fs[k].MarkedMines(m).MarkedMine(c) == fs[k].MarkedMines(m + {c})
    {
      MarkedOneMore(fs[k], m, c);
    }
  }

  /** One more cell c of `rest` marked: the marked part of `known` grows
      by c. */
  lemma MarkNextAll(fs: seq<Fact>, known: set<Cell>, rest: set<Cell>, c: Cell)
    requires c in rest && rest <= known
    ensures MarkSafeAll(MarkSafesAll(fs, known - rest), c) == MarkSafesAll(fs, known - (rest - {c}))
    ensures MarkMineAll(MarkMinesAll(fs, known - rest), c) == MarkMinesAll(fs, known - (rest - {c}))
  {
    var done := known - rest;
    assert c !in done && done + {c} == known - (rest - {c});
    MarkAllOneMore(fs, done, c);
  }

  /** Taking c out of the part `rest` still to do adds it to the part done. */
  lemma NextOfRest<T>(base: set<T>, known: set<T>, rest: set<T>, c: T)
    requires c in rest && rest <= known
    ensures base + (known - rest) + {c} == base + (known - (rest - {c}))
  {
  }

  /** Marking a set of correct marks keeps every true sentence true. */
  lemma MarkSetSound(fs: seq<Fact>, m: set<Cell>, s: set<Cell>, truth: set<Cell>)
    requires AllHold(fs, truth)
    ensures m <= truth ==> AllHold(MarkMinesAll(fs, m), truth)
    ensures s !! truth ==> AllHold(MarkSafesAll(fs, s), truth)
  {
    forall k | 0 <= k < |fs|
      ensures m <= truth ==> fs[k].MarkedMines(m).HoldsFor(truth)
      ensures s !! truth ==> fs[k].MarkedSafes(s).HoldsFor(truth)
    {
      MarkedSetsSound(fs[k], m, s, truth);
    }
  }

  /** Marking a set of cells shrinks the total, strictly when the set meets
      the cells of some sentence. */
  lemma MarkSetShrinks(fs: seq<Fact>, m: set<Cell>, k: int)
    ensures TotalCells(MarkSafesAll(fs, m)) <= TotalCells(fs)
    ensures TotalCells(MarkMinesAll(fs, m)) <= TotalCells(fs)
    ensures 0 <= k < |fs| && fs[k].cells * m != {} ==> TotalCells(MarkSafesAll(fs, m)) < TotalCells(fs)
    ensures 0 <= k < |fs| && fs[k].cells * m != {} ==> TotalCells(MarkMinesAll(fs, m)) < TotalCells(fs)
  {
    MarkedAt(fs, m, m);
    if 0 <= k < |fs| && fs[k].cells * m != {} {
      var c :| c in fs[k].cells * m;
      assert c !in MarkSafesAll(fs, m)[k].cells && c !in MarkMinesAll(fs, m)[k].cells;
    }
    TotalCellsShrinks(fs, MarkSafesAll(fs, m), k);
    TotalCellsShrinks(fs, MarkMinesAll(fs, m), k);
  }

  /** The number of cells over all sentences. */
  function TotalCells(fs: seq<Fact>): nat {
    if fs == [] then 0 else |fs[0].cells| + TotalCells(fs[1..])
  }

  /** Shrinking the cells of the sentences shrinks the total, strictly when
      one sentence loses a cell. */
  lemma {:induction false} TotalCellsShrinks(fs: seq<Fact>, gs: seq<Fact>, k: int)
    requires |fs| == |gs|
    requires forall i :: 0 <= i < |fs| ==> gs[i].cells <= fs[i].cells
    ensures TotalCells(gs) <= TotalCells(fs)
    ensures 0 <= k < |fs| && gs[k].cells != fs[k].cells ==> TotalCells(gs) < TotalCells(fs)
  {
    if fs != [] {
      TotalCellsShrinks(fs[1..], gs[1..], k - 1);
      SubsetCard(gs[0].cells, fs[0].cells);
      if k == 0 && gs[0].cells != fs[0].cells {
        assert |fs[0].cells - gs[0].cells| == |fs[0].cells| - |gs[0].cells|;
        assert fs[0].cells - gs[0].cells != {};
      }
    }
  }

  /** Marking a cell shrinks the total, strictly when some sentence holds it. */
  lemma MarkShrinks(fs: seq<Fact>, c: Cell, k: int)
    ensures TotalCells(MarkSafeAll(fs, c)) <= TotalCells(fs)
    ensures TotalCells(MarkMineAll(fs, c)) <= TotalCells(fs)
    ensures 0 <= k < |fs| && c in fs[k].cells ==> TotalCells(MarkSafeAll(fs, c)) < TotalCells(fs)
    ensures 0 <= k < |fs| && c in fs[k].cells ==> TotalCells(MarkMineAll(fs, c)) < TotalCells(fs)
  {
    TotalCellsShrinks(fs, MarkSafeAll(fs, c), k);
    TotalCellsShrinks(fs, MarkMineAll(fs, c), k);
  }

  /** What `inferences` proposes from the pairs (fs[h], fs[k]) with h < i,
      then from (fs[i], fs[k]) with k < j: the difference s2 - s1 of every
      pair of value-distinct sentences with s1's non-empty cells inside
      s2's, unless that difference is already known. */
  function InferredUpTo(fs: seq<Fact>, i: int, j: int): seq<Fact>
    requires 0 <= i <= |fs| && 0 <= j <= |fs| && (i == |fs| ==> j == 0)
    decreases i, j
  {
    if j == 0 then (if i == 0 then [] else InferredUpTo(fs, i - 1, |fs|))
    else
      var d := Difference(fs[i], fs[j - 1]);
      InferredUpTo(fs, i, j - 1) +
      (if fs[i].cells != {} && fs[i] != fs[j - 1] && fs[i].cells <= fs[j - 1].cells && d !in fs then [d] else [])
  }

  function Inferred(fs: seq<Fact>): seq<Fact> {
    InferredUpTo(fs, |fs|, 0)
  }

  /** What the inner loop of `inferences` proposes for sentence i, paired
      with fs[0..j). */
  function InferredWith(fs: seq<Fact>, i: int, j: int): seq<Fact>
    requires 0 <= i < |fs| && 0 <= j <= |fs|
  {
    if j == 0 then []
    else
      var d := Difference(fs[i], fs[j - 1]);
      InferredWith(fs, i, j - 1) +
      (if fs[i].cells != {} && fs[i] != fs[j - 1] && fs[i].cells <= fs[j - 1].cells && d !in fs then [d] else [])
  }

  /** The proposals are made row by row: those of sentence i follow those
      of the sentences before it, and a sentence without cells proposes
      nothing. */
  lemma {:induction false} InferredRows(fs: seq<Fact>, i: int, j: int)
    requires 0 <= i < |fs| && 0 <= j <= |fs|
    ensures InferredUpTo(fs, i, j) == InferredUpTo(fs, i, 0) + InferredWith(fs, i, j)
    ensures fs[i].cells == {} ==> InferredWith(fs, i, j) == []
  {
    if j > 0 {
      InferredRows(fs, i, j - 1);
    }
  }

  /** The proposals of the first i sentences, row by row. */
  lemma InferredNext(fs: seq<Fact>, i: int)
    requires 0 < i <= |fs|
    ensures InferredUpTo(fs, i, 0) == InferredUpTo(fs, i - 1, 0) + InferredWith(fs, i - 1, |fs|)
  {
    InferredRows(fs, i - 1, |fs|);
  }

  lemma {:induction false} InferredUpToMeaning(fs: seq<Fact>, i: int, d: Fact)
    requires 0 <= i <= |fs|
    ensures d in InferredUpTo(fs, i, 0) <==> exists h :: 0 <= h < i && d in InferredWith(fs, h, |fs|)
  {
    if i > 0 {
      InferredUpToMeaning(fs, i - 1, d);
      InferredNext(fs, i);
      if d in InferredWith(fs, i - 1, |fs|) {
        assert 0 <= i - 1 < i;
      }
    }
  }


  /** The pair of sentences (fs[i], fs[j]) yields d. */
  predicate Yields(fs: seq<Fact>, i: int, j: int, d: Fact)
    requires 0 <= i < |fs| && 0 <= j < |fs|
  {
    && fs[i].cells != {}
    && fs[i] != fs[j]
    && fs[i].cells <= fs[j].cells
    && d == Difference(fs[i], fs[j])
  }

  lemma {:induction false} InferredWithMeaning(fs: seq<Fact>, i: int, j: int, d: Fact)
    requires 0 <= i < |fs| && 0 <= j <= |fs|
    ensures d in InferredWith(fs, i, j) <==> d !in fs && exists k :: 0 <= k < j && Yields(fs, i, k, d)
  {
    if j > 0 {
      InferredWithMeaning(fs, i, j - 1, d);
      var e := Difference(fs[i], fs[j - 1]);
      var step := if fs[i].cells != {} && fs[i] != fs[j - 1] && fs[i].cells <= fs[j - 1].cells && e !in fs then [e] else [];
      assert InferredWith(fs, i, j) == InferredWith(fs, i, j - 1) + step;
      if d !in fs && Yields(fs, i, j - 1, d) {
        assert d in step;
      }
      if d in step {
        assert Yields(fs, i, j - 1, d);
      }
    }
  }

  /** `inferences` proposes exactly the differences s2 - s1 of value-distinct
      sentences with s1's non-empty cells inside s2's, that are not known
      already. */
  lemma InferredMeaning(fs: seq<Fact>, d: Fact)
    ensures d in Inferred(fs) <==>
              d !in fs && exists i, j :: 0 <= i < |fs| && 0 <= j < |fs| && Yields(fs, i, j, d)
  {
    InferredUpToMeaning(fs, |fs|, d);
    if d in Inferred(fs) {
      var h :| 0 <= h < |fs| && d in InferredWith(fs, h, |fs|);
      InferredWithMeaning(fs, h, |fs|, d);
    }
    if d !in fs && exists i, j :: 0 <= i < |fs| && 0 <= j < |fs| && Yields(fs, i, j, d) {
      var i, j :| 0 <= i < |fs| && 0 <= j < |fs| && Yields(fs, i, j, d);
      InferredWithMeaning(fs, i, |fs|, d);
      assert d in InferredWith(fs, i, |fs|);
    }
  }

  /** Inferring from true sentences gives true sentences. */
  lemma InferredSound(fs: seq<Fact>, mines: set<Cell>)
    requires forall f :: f in fs ==> f.HoldsFor(mines)
    ensures forall d :: d in Inferred(fs) ==> d.HoldsFor(mines)
  {
    forall d | d in Inferred(fs)
      ensures d.HoldsFor(mines)
    {
      InferredMeaning(fs, d);
      var i, j :| 0 <= i < |fs| && 0 <= j < |fs| && Yields(fs, i, j, d);
      DifferenceSound(fs[i], fs[j], mines);
    }
  }

  /** Every fact is true on a board whose mines are `truth`. */
  ghost predicate AllHold(fs: seq<Fact>, truth: set<Cell>) {
    forall k :: 0 <= k < |fs| ==> fs[k].HoldsFor(truth)
  }

  lemma AllHoldConcat(fs: seq<Fact>, gs: seq<Fact>, truth: set<Cell>)
    requires AllHold(fs, truth) && AllHold(gs, truth)
    ensures AllHold(fs + gs, truth)
  {
  }

  /** Marking every sentence with a correct mark keeps them all true. */
  lemma MarkAllSound(fs: seq<Fact>, c: Cell, truth: set<Cell>)
    requires AllHold(fs, truth)
    ensures c in truth ==> AllHold(MarkMineAll(fs, c), truth)
    ensures c !in truth ==> AllHold(MarkSafeAll(fs, c), truth)
  {
    forall k | 0 <= k < |fs|
      ensures c in truth ==> fs[k].MarkedMine(c).HoldsFor(truth)
      ensures c !in truth ==> fs[k].MarkedSafe(c).HoldsFor(truth)
    {
      MarksSound(fs[k], c, truth);
    }
  }

  /** The facts fs[0..i) are all quiet. */
  predicate QuietUpTo(fs: seq<Fact>, i: int)
    requires 0 <= i <= |fs|
  {
    i == 0 || (QuietUpTo(fs, i - 1) && fs[i - 1].Quiet())
  }

  lemma {:induction false} QuietUpToMeaning(fs: seq<Fact>, i: int)
    requires 0 <= i <= |fs| && QuietUpTo(fs, i)
    ensures forall k :: 0 <= k < i ==> fs[k].Quiet()
  {
    if i > 0 {
      QuietUpToMeaning(fs, i - 1);
    }
  }

  // ---- The knowledge base as a value ----

  /** What the AI knows: the values of its sentences in order, and the
      cells known to be mines and known to be safe. */
  datatype Knowledge = Knowledge(facts: seq<Fact>, mines: set<Cell>, safes: set<Cell>)

  /** The sentences after step i of a pass of mark_cells: every sentence
      with the cells sentence i proves safe marked, or else with the cells
      it proves mines marked. */
  function StepFacts(fs: seq<Fact>, i: int): (r: seq<Fact>)
    requires 0 <= i < |fs|
    ensures |r| == |fs|
  {
    var s := fs[i].KnownSafes();
    if s != {} then MarkSafesAll(fs, s) else MarkMinesAll(fs, fs[i].KnownMines())
  }

  /** Step i of a pass of mark_cells: mark the cells sentence i proves safe,
      then the cells it (as marked) proves mines. A sentence never proves
      both, so at most one of the two sets added is non-empty. */
  function MarkStep(k: Knowledge, i: int): (r: Knowledge)
    requires 0 <= i < |k.facts|
    ensures |r.facts| == |k.facts|
  {
    var f := k.facts[i];
    Knowledge(StepFacts(k.facts, i), k.mines + f.KnownMines(), k.safes + f.KnownSafes())
  }

  /** The step as mark_cells performs it, in two halves: the mines are
      found in sentence i after its safe cells are marked. When that
      sentence proves cells safe it has none left, so the second half
      marks nothing and the step is the one defined above. */
  lemma MarkStepHalves(k: Knowledge, i: int)
    requires 0 <= i < |k.facts|
    ensures var s := k.facts[i].KnownSafes();
            var fs := MarkSafesAll(k.facts, s);
            var m := fs[i].KnownMines();
            && MarkStep(k, i) == Knowledge(MarkMinesAll(fs, m), k.mines + m, k.safes + s)
            && (Marks(k, i) <==> s != {} || m != {})
  {
    var s := k.facts[i].KnownSafes();
    var fs := MarkSafesAll(k.facts, s);
    MarkedAt(k.facts, {}, s);
    MarkNoneAll(fs);
    if s != {} {
      assert fs[i].cells == {};
      assert k.mines + {} == k.mines + k.facts[i].KnownMines();
    } else {
      MarkNoneAll(k.facts);
      assert k.safes + {} == k.safes;
    }
  }

  /** Everything known is true of the mines `truth`. */
  ghost predicate Sound(k: Knowledge, truth: set<Cell>) {
    k.mines <= truth && k.safes !! truth && AllHold(k.facts, truth)
  }

  /** A step draws only correct conclusions, so it keeps the knowledge
      true. */
  lemma MarkStepSound(k: Knowledge, i: int, truth: set<Cell>)
    requires 0 <= i < |k.facts| && Sound(k, truth)
    ensures Sound(MarkStep(k, i), truth)
  {
    var f := k.facts[i];
    assert f.HoldsFor(truth);
    KnownCellsSound(f, truth);
    MarkSetSound(k.facts, f.KnownMines(), f.KnownSafes(), truth);
  }

  /** The first i steps of a pass over the sentences. */
  function PassTo(k: Knowledge, i: int): (r: Knowledge)
    requires 0 <= i <= |k.facts|
    ensures |r.facts| == |k.facts|
  {
    if i == 0 then k else MarkStep(PassTo(k, i - 1), i - 1)
  }

  /** Step i of a pass marks some cell. */
  predicate Marks(k: Knowledge, i: int)
    requires 0 <= i < |k.facts|
  {
    !k.facts[i].Quiet()
  }

  /** The sentences after the first i steps of a pass. */
  function FactsAfter(fs: seq<Fact>, i: int): (r: seq<Fact>)
    requires 0 <= i <= |fs|
    ensures |r| == |fs|
  {
    if i == 0 then fs else StepFacts(FactsAfter(fs, i - 1), i - 1)
  }

  /** The sentences of the first i steps of a pass are those of PassTo. */
  lemma {:induction false} PassToFacts(k: Knowledge, i: int)
    requires 0 <= i <= |k.facts|
    ensures PassTo(k, i).facts == FactsAfter(k.facts, i)
  {
    if i == 0 {
      assert PassTo(k, 0) == k;
      assert FactsAfter(k.facts, 0) == k.facts;
    } else {
      PassToFacts(k, i - 1);
      var before := PassTo(k, i - 1);
      assert PassTo(k, i).facts == MarkStep(before, i - 1).facts == StepFacts(before.facts, i - 1);
      assert FactsAfter(k.facts, i) == StepFacts(FactsAfter(k.facts, i - 1), i - 1);
    }
  }

  /** One of the first i steps of a pass over the sentences fs marks some
      cell. */
  predicate MarksUpTo(fs: seq<Fact>, i: int)
    requires 0 <= i <= |fs|
  {
    i > 0 && (MarksUpTo(fs, i - 1) || !FactsAfter(fs, i - 1)[i - 1].Quiet())
  }

  /** Step i extends the first i steps of a pass, and marks a cell when
      its sentence, as the first i steps left it, is not quiet. */
  lemma PassToNext(k: Knowledge, i: int)
    requires 0 <= i < |k.facts|
    ensures PassTo(k, i + 1) == MarkStep(PassTo(k, i), i)
    ensures MarksUpTo(k.facts, i + 1) <==> MarksUpTo(k.facts, i) || Marks(PassTo(k, i), i)
  {
    PassToFacts(k, i);
  }

  /** A step never adds cells, and removes one when it marks one. */
  lemma StepFactsShrinks(fs: seq<Fact>, i: int)
    requires 0 <= i < |fs|
    ensures TotalCells(StepFacts(fs, i)) <= TotalCells(fs)
    ensures !fs[i].Quiet() ==> TotalCells(StepFacts(fs, i)) < TotalCells(fs)
  {
    var s := fs[i].KnownSafes();
    var m := fs[i].KnownMines();
    MarkSetShrinks(fs, s, i);
    MarkSetShrinks(fs, m, i);
    assert s != {} ==> fs[i].cells * s != {};
    assert m != {} ==> fs[i].cells * m != {};
  }

  /** A step that marks nothing changes nothing: its sentence is quiet. */
  lemma MarkStepQuiet(k: Knowledge, i: int)
    requires 0 <= i < |k.facts| && !Marks(k, i)
    ensures MarkStep(k, i) == k && k.facts[i].Quiet()
  {
    MarkNoneAll(k.facts);
    assert k.mines + {} == k.mines && k.safes + {} == k.safes;
  }

  /** The first i steps of a pass never add cells, and remove some when
      one of them marks a cell. */
  lemma {:induction false} FactsAfterShrinks(fs: seq<Fact>, i: int)
    requires 0 <= i <= |fs|
    ensures TotalCells(FactsAfter(fs, i)) <= TotalCells(fs)
    ensures MarksUpTo(fs, i) ==> TotalCells(FactsAfter(fs, i)) < TotalCells(fs)
  {
    if i > 0 {
      var before := FactsAfter(fs, i - 1);
      FactsAfterShrinks(fs, i - 1);
      StepFactsShrinks(before, i - 1);
      assert FactsAfter(fs, i) == StepFacts(before, i - 1);
    }
  }

  /** The same of the knowledge after the first i steps. */
  lemma PassToShrinks(k: Knowledge, i: int)
    requires 0 <= i <= |k.facts|
    ensures TotalCells(PassTo(k, i).facts) <= TotalCells(k.facts)
    ensures MarksUpTo(k.facts, i) ==> TotalCells(PassTo(k, i).facts) < TotalCells(k.facts)
  {
    PassToFacts(k, i);
    FactsAfterShrinks(k.facts, i);
  }

  /** When none of the first i steps of a pass marks a cell, they change
      nothing and every sentence they visited is quiet. */
  lemma {:induction false} PassToUnmarked(k: Knowledge, i: int)
    requires 0 <= i <= |k.facts| && !MarksUpTo(k.facts, i)
    ensures PassTo(k, i) == k && QuietUpTo(k.facts, i)
  {
    if i > 0 {
      PassToUnmarked(k, i - 1);
      PassToFacts(k, i - 1);
      MarkStepQuiet(k, i - 1);
    }
  }

  /** A whole pass. */
  function Pass(k: Knowledge): Knowledge {
    PassTo(k, |k.facts|)
  }

  /** A pass that marks nothing changes nothing. */
  lemma PassUnmarked(k: Knowledge)
    requires !MarksUpTo(k.facts, |k.facts|)
    ensures Pass(k) == k
  {
    PassToUnmarked(k, |k.facts|);
  }

  /** The first i steps of a pass keep true knowledge true. */
  lemma {:induction false} PassToSound(k: Knowledge, i: int, truth: set<Cell>)
    requires 0 <= i <= |k.facts| && Sound(k, truth)
    ensures Sound(PassTo(k, i), truth)
  {
    if i > 0 {
      PassToSound(k, i - 1, truth);
      MarkStepSound(PassTo(k, i - 1), i - 1, truth);
    }
  }

  /** The first i steps of a pass keep every cell known to be a mine or
      safe, and add to them. */
  lemma {:induction false} PassToGrows(k: Knowledge, i: int)
    requires 0 <= i <= |k.facts|
    ensures k.mines <= PassTo(k, i).mines && k.safes <= PassTo(k, i).safes
  {
    if i > 0 {
      PassToGrows(k, i - 1);
    }
  }

  /** The loop of mark_cells: passes until one marks nothing. A pass that
      marks a cell removes it from the sentences, so there are fewer passes
      than cells. */
  function Settle(k: Knowledge): Knowledge
    decreases TotalCells(k.facts)
  {
    if MarksUpTo(k.facts, |k.facts|) then
      PassToShrinks(k, |k.facts|);
      Settle(Pass(k))
    else k
  }

  /** After the loop of mark_cells no sentence concludes anything on its
      own, and the known mines and safe cells have only grown. */
  lemma {:induction false} SettleQuiet(k: Knowledge)
    ensures forall f :: f in Settle(k).facts ==> f.Quiet()
    ensures k.mines <= Settle(k).mines && k.safes <= Settle(k).safes
    decreases TotalCells(k.facts)
  {
    var n := |k.facts|;
    if MarksUpTo(k.facts, n) {
      PassToShrinks(k, n);
      PassToGrows(k, n);
      SettleQuiet(Pass(k));
    } else {
      PassToUnmarked(k, n);
      QuietUpToMeaning(k.facts, n);
    }
  }

  /** The facts that have cells, in their order. */
  function NonEmptyFacts(fs: seq<Fact>): (r: seq<Fact>)
    ensures forall f :: f in r <==> f in fs && f.cells != {}
  {
    if fs == [] then []
    else if fs[0].cells != {} then [fs[0]] + NonEmptyFacts(fs[1..])
    else NonEmptyFacts(fs[1..])
  }

  /** Dropping sentences keeps the others true. */
  lemma NonEmptyFactsSound(fs: seq<Fact>, truth: set<Cell>)
    requires AllHold(fs, truth)
    ensures AllHold(NonEmptyFacts(fs), truth)
  {
    var r := NonEmptyFacts(fs);
    forall k | 0 <= k < |r|
      ensures r[k].HoldsFor(truth)
    {
      assert r[k] in fs;
    }
  }

  /** The values of the sentences kept are the values kept. */
  lemma {:induction false} ValuesOfNonEmpty(ks: seq<Sentence>)
    ensures ValuesOf(NonEmpty(ks)) == NonEmptyFacts(ValuesOf(ks))
  {
    if ks != [] {
      ValuesOfNonEmpty(ks[1..]);
      assert ValuesOf(ks)[1..] == ValuesOf(ks[1..]);
      if ks[0].cells != {} {
        ValuesOfConcat([ks[0]], NonEmpty(ks[1..]));
      }
    }
  }

  /** The knowledge without the sentences left without cells. */
  function Dropped(k: Knowledge): Knowledge {
    Knowledge(NonEmptyFacts(k.facts), k.mines, k.safes)
  }

  /** The loop of mark_cells keeps true knowledge true. */
  lemma {:induction false} SettleSound(k: Knowledge, truth: set<Cell>)
    requires Sound(k, truth)
    ensures Sound(Settle(k), truth)
    decreases TotalCells(k.facts)
  {
    if MarksUpTo(k.facts, |k.facts|) {
      PassToShrinks(k, |k.facts|);
      PassToSound(k, |k.facts|, truth);
      SettleSound(Pass(k), truth);
    }
  }

  /** mark_cells as a whole. */
  function Round(k: Knowledge): Knowledge {
    Dropped(Settle(k))
  }

  /** After mark_cells every sentence has cells and none concludes anything
      on its own; the known mines and safe cells have only grown. */
  lemma RoundQuiet(k: Knowledge)
    ensures forall f :: f in Round(k).facts ==> f.cells != {} && f.Quiet()
    ensures k.mines <= Round(k).mines && k.safes <= Round(k).safes
  {
    SettleQuiet(k);
  }

  /** mark_cells keeps true knowledge true: every cell it marks as a mine
      is one, every cell it marks safe is, and every sentence it keeps
      still holds. */
  lemma RoundSound(k: Knowledge, truth: set<Cell>)
    requires Sound(k, truth)
    ensures Sound(Round(k), truth)
  {
    SettleSound(k, truth);
    NonEmptyFactsSound(Settle(k).facts, truth);
  }

  /** The knowledge with the sentences `inferences` proposes appended. */
  function Extended(k: Knowledge): Knowledge {
    Knowledge(k.facts + Inferred(k.facts), k.mines, k.safes)
  }

  /** The loop of add_knowledge, at most `fuel` times: while something new
      is inferred, append it and mark the cells again. */
  function Grow(k: Knowledge, fuel: nat): Knowledge
    decreases fuel
  {
    if fuel == 0 || Inferred(k.facts) == [] then k else Grow(Round(Extended(k)), fuel - 1)
  }

  /** One round of the loop of add_knowledge. */
  lemma GrowStep(k: Knowledge, fuel: nat)
    requires fuel > 0 && Inferred(k.facts) != []
    ensures Grow(k, fuel) == Grow(Round(Extended(k)), fuel - 1)
  {
  }

  /** The first steps of add_knowledge: `cell` is safe, and the sentence
      about its neighbours is appended. */
  function Reported(k: Knowledge, cell: Cell, f: Fact): Knowledge {
    Knowledge(MarkSafeAll(k.facts, cell) + [f], k.mines, k.safes + {cell})
  }

  /** A report from a cell that is safe, with a true count, keeps true
      knowledge true. */
  lemma ReportedSound(k: Knowledge, cell: Cell, f: Fact, truth: set<Cell>)
    requires Sound(k, truth) && cell !in truth && f.HoldsFor(truth)
    ensures Sound(Reported(k, cell, f), truth)
  {
    MarkAllSound(k.facts, cell, truth);
    AllHoldConcat(MarkSafeAll(k.facts, cell), [f], truth);
  }

  /** The AI player: the cells played, the cells known to be mines or safe,
      and the list of sentences known to be true. */
  class MinesweeperAI {
    const height: int
    const width: int
    var movesMade: set<Cell>
    var mines: set<Cell>
    var safes: set<Cell>
    var knowledge: seq<Sentence>

    /** No sentence object is listed twice, so updating one leaves the
        others as they were. */
    ghost predicate Valid()
      reads this
    {
      Distinct(knowledge)
    }

    ghost function Facts(): seq<Fact>
      reads this, knowledge
    {
      ValuesOf(knowledge)
    }

    ghost function State(): Knowledge
      reads this, knowledge
    {
      Knowledge(Facts(), mines, safes)
    }

    /** Everything the AI knows is true of the mines `truth`. */
    ghost predicate SoundFor(truth: set<Cell>)
      reads this, knowledge
    {
      Sound(State(), truth)
    }

    constructor (height: int, width: int)
      ensures Valid()
      ensures this.height == height && this.width == width
      ensures movesMade == {} && mines == {} && safes == {} && knowledge == []
    {
      this.height := height;
      this.width := width;
      movesMade := {};
      mines := {};
      safes := {};
      knowledge := [];
    }

    /** Record c as a mine and mark it so in every sentence; the list itself
        keeps its length and order. */
    method MarkMine(c: Cell)
      requires Valid()
      modifies this, knowledge
      ensures Valid() && knowledge == old(knowledge)
      ensures mines == old(mines) + {c} && safes == old(safes) && movesMade == old(movesMade)
      ensures Facts() == MarkMineAll(old(Facts()), c)
    {
      mines := mines + {c};
      var i := 0;
      while i < |knowledge|
        invariant 0 <= i <= |knowledge| && knowledge == old(knowledge)
        invariant mines == old(mines) + {c} && safes == old(safes) && movesMade == old(movesMade)
        invariant forall k :: 0 <= k < i ==> knowledge[k].Value() == old(knowledge[k].Value()).MarkedMine(c)
        invariant forall k :: i <= k < |knowledge| ==> knowledge[k].Value() == old(knowledge[k].Value())
      {
        knowledge[i].MarkMine(c);
        i := i + 1;
      }
    }

    /** Record c as safe and mark it so in every sentence. */
    method MarkSafe(c: Cell)
      requires Valid()
      modifies this, knowledge
      ensures Valid() && knowledge == old(knowledge)
      ensures safes == old(safes) + {c} && mines == old(mines) && movesMade == old(movesMade)
      ensures Facts() == MarkSafeAll(old(Facts()), c)
    {
      safes := safes + {c};
      var i := 0;
      while i < |knowledge|
        invariant 0 <= i <= |knowledge| && knowledge == old(knowledge)
        invariant safes == old(safes) + {c} && mines == old(mines) && movesMade == old(movesMade)
        invariant forall k :: 0 <= k < i ==> knowledge[k].Value() == old(knowledge[k].Value()).MarkedSafe(c)
        invariant forall k :: i <= k < |knowledge| ==> knowledge[k].Value() == old(knowledge[k].Value())
      {
        knowledge[i].MarkSafe(c);
        i := i + 1;
      }
    }

    /** The first half of one step of mark_cells: mark every cell that
        sentence i proves safe. */
    method MarkKnownSafes(i: int) returns (marked: bool)
      requires Valid() && 0 <= i < |knowledge|
      modifies this, knowledge
      ensures Valid() && knowledge == old(knowledge)
      ensures movesMade == old(movesMade) && mines == old(mines)
      ensures safes == old(safes) + old(Facts())[i].KnownSafes()
      ensures Facts() == MarkSafesAll(old(Facts()), old(Facts())[i].KnownSafes())
      ensures marked <==> old(Facts())[i].KnownSafes() != {}
    {
      marked := false;
      var safeCells := knowledge[i].Value().KnownSafes();
      ghost var known := safeCells;
      ghost var start := Facts();
      MarkNoneAll(start);
      assert known - safeCells == {};
      while safeCells != {}
        invariant Valid() && knowledge == old(knowledge)
        invariant movesMade == old(movesMade) && mines == old(mines)
        invariant safeCells <= known
        invariant safes == old(safes) + (known - safeCells)
        invariant Facts() == MarkSafesAll(start, known - safeCells)
        invariant marked <==> safeCells != known
        decreases safeCells
      {
        var c :| c in safeCells;
        MarkSafe(c);
        MarkNextAll(start, known, safeCells, c);
        NextOfRest(old(safes), known, safeCells, c);
        safeCells := safeCells - {c};
        marked := true;
      }
      assert known - safeCells == known;
    }

    /** The second half of one step of mark_cells: mark every cell that
        sentence i proves a mine. */
    method MarkKnownMines(i: int) returns (marked: bool)
      requires Valid() && 0 <= i < |knowledge|
      modifies this, knowledge
      ensures Valid() && knowledge == old(knowledge)
      ensures movesMade == old(movesMade) && safes == old(safes)
      ensures mines == old(mines) + old(Facts())[i].KnownMines()
      ensures Facts() == MarkMinesAll(old(Facts()), old(Facts())[i].KnownMines())
      ensures marked <==> old(Facts())[i].KnownMines() != {}
    {
      marked := false;
      var mineCells := knowledge[i].Value().KnownMines();
      ghost var known := mineCells;
      ghost var start := Facts();
      MarkNoneAll(start);
      assert known - mineCells == {};
      while mineCells != {}
        invariant Valid() && knowledge == old(knowledge)
        invariant movesMade == old(movesMade) && safes == old(safes)
        invariant mineCells <= known
        invariant mines == old(mines) + (known - mineCells)
        invariant Facts() == MarkMinesAll(start, known - mineCells)
        invariant marked <==> mineCells != known
        decreases mineCells
      {
        var c :| c in mineCells;
        MarkMine(c);
        MarkNextAll(start, known, mineCells, c);
        NextOfRest(old(mines), known, mineCells, c);
        mineCells := mineCells - {c};
        marked := true;
      }
      assert known - mineCells == known;
    }

    /** One step of a pass of mark_cells: mark what sentence i proves
        safe, then what it, as marked, proves mines; the second half marks
        nothing when the first marked something. */
    method MarkSentence(i: int) returns (marked: bool)
      requires Valid() && 0 <= i < |knowledge|
      modifies this, knowledge
      ensures Valid() && knowledge == old(knowledge) && movesMade == old(movesMade)
      ensures State() == MarkStep(old(State()), i)
      ensures marked == Marks(old(State()), i)
    {
      var markedSafe := MarkKnownSafes(i);
      var markedMine := MarkKnownMines(i);
      marked := markedSafe || markedMine;
      MarkStepHalves(old(State()), i);
    }

    /** One pass of mark_cells over the sentences in order. `repeat` says
        whether a cell was marked (PassToShrinks: which shrinks the
        sentences; PassUnmarked: when none was, nothing changed). */
    method MarkPass() returns (repeat: bool)
      requires Valid()
      modifies this, knowledge
      ensures Valid() && knowledge == old(knowledge)
      ensures movesMade == old(movesMade)
      ensures State() == Pass(old(State()))
      ensures repeat == MarksUpTo(old(Facts()), |knowledge|)
    {
      repeat := false;
      ghost var start := State();
      var i := 0;
      while i < |knowledge|
        invariant 0 <= i <= |knowledge|
        invariant Valid() && knowledge == old(knowledge)
        invariant movesMade == old(movesMade)
        invariant State() == PassTo(start, i)
        invariant repeat == MarksUpTo(start.facts, i)
      {
        ghost var current := State();
        PassToNext(start, i);
        var marked := MarkSentence(i);
        assert State() == MarkStep(current, i) && marked == Marks(current, i);
        repeat := repeat || marked;
        i := i + 1;
      }
    }

    /** mark_cells: mark every cell some sentence proves safe or a mine,
        pass after pass, until a pass marks nothing; then drop the
        sentences left without cells. */
    method MarkCells(ghost truth: set<Cell>)
      requires Valid()
      modifies this, knowledge
      ensures old(SoundFor(truth)) ==> SoundFor(truth)
      ensures Valid() && movesMade == old(movesMade)
      ensures State() == Round(old(State()))
      ensures forall s :: s in knowledge ==> s in old(knowledge)
      ensures forall f :: f in Facts() ==> f.cells != {} && f.Quiet()
      ensures old(mines) <= mines && old(safes) <= safes
    {
      ghost var start := State();
      var repeat := true;
      while repeat
        invariant Valid() && knowledge == old(knowledge) && movesMade == old(movesMade)
        invariant repeat ==> Settle(State()) == Settle(start)
        invariant !repeat ==> State() == Settle(start)
        decreases TotalCells(Facts()), repeat
      {
        ghost var before := State();
        repeat := MarkPass();
        PassToShrinks(before, |before.facts|);
        if !repeat {
          PassUnmarked(before);
        }
      }
      DropEmptySentences(truth);
      RoundQuiet(start);
      if old(SoundFor(truth)) {
        RoundSound(start, truth);
      }
    }

    /** The last step of mark_cells: keep the sentences that have cells. */
    method DropEmptySentences(ghost truth: set<Cell>)
      requires Valid()
      modifies this
      ensures old(SoundFor(truth)) ==> SoundFor(truth)
      ensures Valid() && knowledge == old(NonEmpty(knowledge))
      ensures movesMade == old(movesMade)
      ensures State() == Dropped(old(State()))
    {
      ValuesOfNonEmpty(knowledge);
      knowledge := NonEmpty(knowledge);
      if old(SoundFor(truth)) {
        NonEmptyFactsSound(old(Facts()), truth);
      }
    }

    /** The inner loop of `inferences` for sentence i: the differences it
        proposes with every sentence, and the values of the sentences found
        without cells. Nothing is modified. */
    method InferWith(i: int) returns (proposed: seq<Sentence>, emptied: seq<Fact>)
      requires 0 <= i < |knowledge| && knowledge[i].cells != {}
      ensures ValuesOf(proposed) == InferredWith(Facts(), i, |knowledge|)
      ensures Distinct(proposed) && forall s :: s in proposed ==> fresh(s)
      ensures forall f :: f in emptied ==> f.cells == {}
    {
      ghost var fs := Facts();
      var sentence1 := knowledge[i];
      proposed := [];
      emptied := [];
      var j := 0;
      while j < |knowledge|
        invariant 0 <= j <= |knowledge| && Facts() == fs
        invariant ValuesOf(proposed) == InferredWith(fs, i, j)
        invariant Distinct(proposed) && forall s :: s in proposed ==> fresh(s)
        invariant forall f :: f in emptied ==> f.cells == {}
      {
        var sentence2 := knowledge[j];
        assert sentence1.Value() == fs[i] && sentence2.Value() == fs[j];
        if sentence2.cells == {} {
          emptied := emptied + [sentence2.Value()];
        }
        if sentence1.Value() != sentence2.Value() && sentence1.cells <= sentence2.cells {
          label BeforeNew:
          var candidate := new Sentence(sentence2.cells - sentence1.cells, sentence2.count - sentence1.count);
          ValuesOfStable@BeforeNew(proposed);
          ValuesOfStable@BeforeNew(knowledge);
          if candidate.Value() !in ValuesOf(knowledge) {
            assert candidate !in proposed;
            ValuesOfConcat(proposed, [candidate]);
            assert ValuesOf([candidate]) == [Difference(fs[i], fs[j])];
            proposed := proposed + [candidate];
          }
        }
        j := j + 1;
      }
    }

    /** The loops of `inferences`: the differences proposed over all pairs
        of sentences, and the values of the sentences found without cells.
        Nothing is modified. */
    method ProposeAll() returns (newSentences: seq<Sentence>, removed: seq<Fact>)
      ensures ValuesOf(newSentences) == Inferred(Facts())
      ensures Distinct(newSentences) && forall s :: s in newSentences ==> fresh(s)
      ensures forall f :: f in removed ==> f.cells == {}
      ensures forall k :: 0 <= k < |knowledge| && Facts()[k].cells == {} ==> Facts()[k] in removed
    {
      ghost var fs := Facts();
      newSentences := [];
      removed := [];
      var i := 0;
      while i < |knowledge|
        invariant 0 <= i <= |knowledge| && Facts() == fs
        invariant ValuesOf(newSentences) == InferredUpTo(fs, i, 0)
        invariant Distinct(newSentences) && forall s :: s in newSentences ==> fresh(s)
        invariant forall f :: f in removed ==> f.cells == {}
        invariant forall k :: 0 <= k < i && fs[k].cells == {} ==> fs[k] in removed
      {
        var sentence1 := knowledge[i];
        assert sentence1.Value() == fs[i];
        InferredNext(fs, i + 1);
        if sentence1.cells == {} {
          InferredRows(fs, i, |fs|);
          removed := removed + [sentence1.Value()];
        } else {
          var proposed, emptied := InferWith(i);
          forall k | 0 <= k < |newSentences|
            ensures newSentences[k] !in proposed
          {
          }
          DistinctConcat(newSentences, proposed);
          ValuesOfConcat(newSentences, proposed);
          newSentences := newSentences + proposed;
          ghost var kept := removed;
          removed := removed + emptied;
          assert forall f :: f in kept ==> f in removed;
        }
        i := i + 1;
      }
    }

    /** Propose the differences of the sentences, unless already known, and
        drop the sentences without cells. */
    method Inferences() returns (newSentences: seq<Sentence>)
      requires Valid()
      modifies this
      ensures Valid()
      ensures movesMade == old(movesMade) && mines == old(mines) && safes == old(safes)
      ensures knowledge == old(NonEmpty(knowledge))
      ensures ValuesOf(newSentences) == Inferred(old(Facts()))
      ensures Distinct(newSentences)
      ensures forall s :: s in newSentences ==> fresh(s)
    {
      var removed;
      newSentences, removed := ProposeAll();
      WithoutEmpties(knowledge, removed);
      NonEmptyStable(knowledge);
      knowledge := Without(knowledge, removed);
    }

    /** The step add_knowledge repeats: mark what the sentences prove, then
        compute the sentences that can be inferred, which are new objects. */
    method MarkAndInfer(ghost truth: set<Cell>) returns (inferred: seq<Sentence>)
      requires Valid()
      modifies this, knowledge
      ensures old(SoundFor(truth)) ==> SoundFor(truth) && AllHold(ValuesOf(inferred), truth)
      ensures Valid()
      ensures movesMade == old(movesMade) && old(mines) <= mines && old(safes) <= safes
      ensures State() == Round(old(State()))
      ensures forall f :: f in Facts() ==> f.cells != {} && f.Quiet()
      ensures ValuesOf(inferred) == Inferred(Facts())
      ensures Distinct(inferred) && forall k :: 0 <= k < |knowledge| ==> knowledge[k] !in inferred
      ensures forall k :: 0 <= k < |knowledge| ==> knowledge[k] in old(knowledge)
      ensures forall s :: s in inferred ==> fresh(s)
    {
      MarkCells(truth);
      AllNonEmpty(knowledge);
      label Marked:
      inferred := Inferences();
      ValuesOfStable@Marked(knowledge);
      if old(SoundFor(truth)) {
        InferredSound(Facts(), truth);
      }
    }

    /** The first steps of add_knowledge: record the move and the safe
        cell, and append the sentence that `count` of the cells around
        `cell` are mines. */
    method RecordReport(cell: Cell, count: int, ghost truth: set<Cell>) returns (sentence: Sentence)
      requires Valid()
      modifies this, knowledge
      ensures old(SoundFor(truth)) && cell !in truth && Fact(Neighbourhood(cell, height, width), count).HoldsFor(truth)
              ==> SoundFor(truth)
      ensures Valid() && fresh(sentence)
      ensures movesMade == old(movesMade) + {cell}
      ensures safes == old(safes) + {cell} && mines == old(mines)
      ensures knowledge == old(knowledge) + [sentence]
      ensures State() == Reported(old(State()), cell, Fact(Neighbourhood(cell, height, width), count))
    {
      movesMade := movesMade + {cell};
      MarkSafe(cell);
      var cells := SurroundingCells(cell);
      label BeforeNew:
      sentence := new Sentence(cells, count);
      ValuesOfStable@BeforeNew(knowledge);
      ValuesOfConcat(knowledge, [sentence]);
      assert ValuesOf([sentence]) == [Fact(cells, count)];
      knowledge := knowledge + [sentence];
      assert Facts() == MarkSafeAll(old(Facts()), cell) + [Fact(cells, count)];
      if old(SoundFor(truth)) && cell !in truth && Fact(cells, count).HoldsFor(truth) {
        ReportedSound(old(State()), cell, Fact(cells, count), truth);
      }
    }

    /** Append sentences, new to the list, at its end. */
    method AppendSentences(sentences: seq<Sentence>, ghost truth: set<Cell>)
      requires Valid() && Distinct(sentences)
      requires forall k :: 0 <= k < |knowledge| ==> knowledge[k] !in sentences
      modifies this
      ensures old(SoundFor(truth) && AllHold(ValuesOf(sentences), truth)) ==> SoundFor(truth)
      ensures Valid() && knowledge == old(knowledge) + sentences
      ensures movesMade == old(movesMade) && mines == old(mines) && safes == old(safes)
      ensures Facts() == old(Facts()) + ValuesOf(sentences)
    {
      DistinctConcat(knowledge, sentences);
      ValuesOfConcat(knowledge, sentences);
      if SoundFor(truth) && AllHold(ValuesOf(sentences), truth) {
        AllHoldConcat(Facts(), ValuesOf(sentences), truth);
      }
      knowledge := knowledge + sentences;
    }

    /** The game reports that the safe cell `cell` has `count` mines around
        it. Record the move and the safe cell, add the sentence about the
        cells around it, mark what follows, and add inferred sentences until
        none is new. When the report is right and the knowledge was true of
        the mines `truth`, it stays true. */
    method AddKnowledge(cell: Cell, count: int, fuel: nat, ghost truth: set<Cell>) returns (settled: bool)
      requires Valid()
      modifies this, knowledge
      ensures old(SoundFor(truth)) && cell !in truth && Fact(Neighbourhood(cell, height, width), count).HoldsFor(truth)
              ==> SoundFor(truth)
      ensures Valid()
      ensures movesMade == old(movesMade) + {cell}
      ensures State() == Grow(Round(Reported(old(State()), cell, Fact(Neighbourhood(cell, height, width), count))), fuel)
      ensures cell in safes && old(safes) <= safes && old(mines) <= mines
      ensures forall f :: f in Facts() ==> f.cells != {} && f.Quiet()
      ensures settled <==> Inferred(Facts()) == []
    {
      var sentence := RecordReport(cell, count, truth);
      ghost var reported := State();
      ghost var recorded := knowledge;
      var inferred := MarkAndInfer(truth);
      assert State() == Round(reported);
      forall s | s in knowledge
        ensures s in old(knowledge) || fresh(s)
      {
        assert s in recorded;
      }
      settled := AddInferences(inferred, fuel, truth);
    }

    /** The loop of add_knowledge: while `inferences` proposed sentences,
        append them, mark what follows and infer again. The source repeats
        without a bound; here at most `fuel` rounds are run, and `settled`
        says whether nothing new was inferred at the end. */
    method AddInferences(inferred: seq<Sentence>, fuel: nat, ghost truth: set<Cell>) returns (settled: bool)
      requires Valid()
      requires forall f :: f in Facts() ==> f.cells != {} && f.Quiet()
      requires ValuesOf(inferred) == Inferred(Facts())
      requires Distinct(inferred) && forall k :: 0 <= k < |knowledge| ==> knowledge[k] !in inferred
      modifies this, knowledge, set s | s in inferred
      ensures old(SoundFor(truth) && AllHold(ValuesOf(inferred), truth)) ==> SoundFor(truth)
      ensures Valid() && movesMade == old(movesMade)
      ensures State() == Grow(old(State()), fuel)
      ensures old(mines) <= mines && old(safes) <= safes
      ensures forall f :: f in Facts() ==> f.cells != {} && f.Quiet()
      ensures settled <==> Inferred(Facts()) == []
    {
      ghost var sound := SoundFor(truth) && AllHold(ValuesOf(inferred), truth);
      ghost var first := State();
      ghost var base := knowledge + inferred;
      var pending := inferred;
      var rounds := 0;
      while pending != [] && rounds < fuel
        invariant 0 <= rounds <= fuel
        invariant Valid() && movesMade == old(movesMade)
        invariant Grow(State(), fuel - rounds) == Grow(first, fuel)
        invariant old(mines) <= mines && old(safes) <= safes
        invariant forall f :: f in Facts() ==> f.cells != {} && f.Quiet()
        invariant ValuesOf(pending) == Inferred(Facts())
        invariant Distinct(pending) && forall k :: 0 <= k < |knowledge| ==> knowledge[k] !in pending
        invariant forall k :: 0 <= k < |knowledge| ==> knowledge[k] in base || fresh(knowledge[k])
        invariant forall s :: s in pending ==> s in base || fresh(s)
        invariant sound ==> SoundFor(truth) && AllHold(ValuesOf(pending), truth)
        decreases fuel - rounds
      {
        ghost var before := State();
        FreshConcat(knowledge, pending, base);
        AppendSentences(pending, truth);
        assert State() == Extended(before);
        pending := MarkAndInfer(truth);
        GrowStep(before, fuel - rounds);
        rounds := rounds + 1;
      }
      settled := pending == [];
    }

    /** A cell known to be safe and not played yet, or None. Nothing is
        modified. */
    method MakeSafeMove(ghost truth: set<Cell>) returns (move: Option<Cell>)
      ensures move.Some? ==> move.value in safes && move.value !in movesMade
      ensures move.Some? && SoundFor(truth) ==> move.value !in truth
      ensures move == None ==> safes <= movesMade
    {
      if |safes| == 0 {
        return None;
      }
      var rest := safes;
      while rest != {}
        invariant rest <= safes
        invariant forall x :: x in safes - rest ==> x in movesMade
        decreases rest
      {
        var x :| x in rest;
        if x !in movesMade {
          return Some(x);
        }
        rest := rest - {x};
      }
      return None;
    }

    /** The in-bounds cells around `cell`, at most eight. */
    method SurroundingCells(cell: Cell) returns (neighbours: set<Cell>)
      ensures neighbours == Neighbourhood(cell, height, width)
      ensures |neighbours| <= 8
    {
      var (i, j) := cell;
      neighbours := {};
      var a := Max(0, i - 1);
      while a < Min(i + 2, height)
        invariant Max(0, i - 1) <= a
        invariant forall d :: d in neighbours <==> Adjacent(cell, d) && InBounds(d, height, width) && Before(d, a, Max(0, j - 1))
      {
        var b := Max(0, j - 1);
        while b < Min(j + 2, width)
          invariant Max(0, j - 1) <= b
          invariant forall d :: d in neighbours <==> Adjacent(cell, d) && InBounds(d, height, width) && Before(d, a, b)
        {
          if (a, b) != (i, j) {
            neighbours := neighbours + {(a, b)};
          }
          b := b + 1;
        }
        a := a + 1;
      }
      ghost var around := Neighbourhood(cell, height, width);
      NeighbourhoodMeaning(cell, height, width);
      assert neighbours == around;
      NeighbourhoodSize(cell, height, width);
    }
  }

}
