/**
  The board, its cells and the words a board spells.

  A cell is a (row, column) pair; two distinct cells are adjacent when they
  are at most one row and one column apart (diagonals included).  A cell
  holding 'Q' stands for the two letters "QU".  A word is spelled on the
  board when it is the concatenation of the tiles along a simple path of
  adjacent cells.

  `Reach(board, W, U, c)` is the set of words a depth-first search started at
  `c` collects when the cells in `U` are still free and `W` is the set of
  words still possible at that point (relative to the letters already
  consumed).  ReachSound and ReachComplete tie it to simple paths.
 */
module Grid {
  import opened Letters

  /** The side of the board, fixed at 4 in boggle.cpp. */
  const N := 4

  type Cell = (int, int)

  predicate InGrid(c: Cell) {
    0 <= c.0 < N && 0 <= c.1 < N
  }

  /** The cells of row `a`. */
  function Row(a: int): (r: set<Cell>)
    ensures forall c :: c in r <==> c.0 == a && 0 <= c.1 < N
    ensures |r| == N
  {
    var r := {(a, 0), (a, 1), (a, 2), (a, 3)};
    assert |{(a, 0), (a, 1)}| == 2;
    assert |{(a, 0), (a, 1), (a, 2)}| == 3;
    r
  }

  /** The sixteen cells of the board. */
  function AllCells(): (cells: set<Cell>)
    ensures forall c :: c in cells <==> InGrid(c)
    ensures |cells| == N * N
  {
    var r0, r1, r2, r3 := Row(0), Row(1), Row(2), Row(3);
    assert |r0 + r1| == 2 * N by { assert r0 !! r1; }
    assert |r0 + r1 + r2| == 3 * N by { assert (r0 + r1) !! r2; }
    assert (r0 + r1 + r2) !! r3;
    r0 + r1 + r2 + r3
  }

  /** Distinct cells at most one row and one column apart. */
  predicate Adjacent(c: Cell, d: Cell) {
    c != d && -1 <= c.0 - d.0 <= 1 && -1 <= c.1 - d.1 <= 1
  }

  function Neighbours(c: Cell): (ns: set<Cell>)
    ensures forall d :: d in ns <==> InGrid(d) && Adjacent(c, d)
  {
    set a, b | 0 <= a < N && 0 <= b < N && Adjacent(c, (a, b)) :: (a, b)
  }

  /** A subset has no more elements than the set containing it. */
  lemma {:induction false} SubsetSize<T>(a: set<T>, b: set<T>)
    requires a <= b
    ensures |a| <= |b|
    decreases |a|
  {
    if a != {} {
      var x :| x in a;
      SubsetSize(a - {x}, b - {x});
    }
  }

  /** A cell has at most the eight cells around it as neighbours. */
  lemma NeighboursAtMostEight(c: Cell)
    ensures |Neighbours(c)| <= 8
  {
    var (i, j) := c;
    var box := {(i - 1, j - 1), (i - 1, j), (i - 1, j + 1), (i, j - 1), (i, j + 1), (i + 1, j - 1), (i + 1, j), (i + 1, j + 1)};
    assert Neighbours(c) <= box;
    SubsetSize(Neighbours(c), box);
  }

  /** The three cells from (i, j) towards the middle of the board are its neighbours. */
  lemma NeighboursAtLeastThree(c: Cell)
    requires InGrid(c)
    ensures 3 <= |Neighbours(c)|
  {
    var (i, j) := c;
    var di, dj := if i < N - 1 then 1 else -1, if j < N - 1 then 1 else -1;
    var near := {(i + di, j), (i, j + dj), (i + di, j + dj)};
    assert |near| == 3;
    assert near <= Neighbours(c);
    SubsetSize(near, Neighbours(c));
  }

  /**
    A cell is not its own neighbour, being neighbours is symmetric, and a
    cell of the board has from three (in a corner) to eight neighbours.
   */
  lemma NeighboursShape(c: Cell)
    requires InGrid(c)
    ensures c !in Neighbours(c)
    ensures forall d :: d in Neighbours(c) ==> c in Neighbours(d)
    ensures 3 <= |Neighbours(c)| <= 8
  {
    NeighboursAtMostEight(c);
    NeighboursAtLeastThree(c);
  }

  /** The board, row by row; boggle.cpp only ever reads it. */
  type Board = seq<seq<char>>

  /**
    An N-by-N board of upper-case letters.  boggle.cpp does not check the
    letters it reads; any other character would index the trie out of range.
   */
  ghost predicate IsBoard(board: Board) {
    && |board| == N
    && (forall a :: 0 <= a < N ==> |board[a]| == N)
    && forall a, b :: 0 <= a < N && 0 <= b < N ==> IsUpper(board[a][b])
  }

  /** The letters one cell contributes to a word: "QU" for a 'Q', else its own letter. */
  function Tile(board: Board, c: Cell): (t: string)
    requires IsBoard(board) && InGrid(c)
    ensures 1 <= |t| <= 2 && t[0] == board[c.0][c.1] && IsUpperWord(t)
    ensures |t| == 2 <==> board[c.0][c.1] == 'Q'
    ensures |t| == 2 ==> t[1] == 'U'
  {
    if board[c.0][c.1] == 'Q' then "QU" else [board[c.0][c.1]]
  }

  /** The word spelled along a sequence of cells. */
  ghost function Spell(board: Board, p: seq<Cell>): string
    requires IsBoard(board) && forall k :: 0 <= k < |p| ==> InGrid(p[k])
  {
    if p == [] then [] else Tile(board, p[0]) + Spell(board, p[1..])
  }

  /** A non-empty simple path of adjacent cells of the board, all in `U`. */
  ghost predicate Trail(U: set<Cell>, p: seq<Cell>) {
    && |p| > 0
    && (forall k :: 0 <= k < |p| ==> p[k] in U && InGrid(p[k]))
    && (forall k, l :: 0 <= k < l < |p| ==> p[k] != p[l])
    && (forall k :: 0 < k < |p| ==> Adjacent(p[k - 1], p[k]))
  }

  /** `w` is spelled by some simple path of adjacent cells. */
  ghost predicate Spellable(board: Board, w: string)
    requires IsBoard(board)
  {
    exists p :: Trail(AllCells(), p) && Spell(board, p) == w
  }

  /**
    The words collected by a search that enters cell `c` with free cells `U`
    and still-possible words `W`: nothing when `c` is not free; otherwise the
    cell's tile if it completes a word, and the tile followed by whatever a
    search from each neighbour collects once `c` is taken.
   */
  ghost function Reach(board: Board, W: set<string>, U: set<Cell>, c: Cell): set<string>
    requires IsBoard(board) && InGrid(c)
    decreases U
  {
    if c !in U then
      {}
    else
      var t := Tile(board, c);
      var W' := Residual(W, t);
      (if [] in W' then {t} else {}) +
      (set n, s | n in Neighbours(c) && s in Reach(board, W', U - {c}, n) :: t + s)
  }

  /**
    The words collected by searches started at each cell of `C` with the same
    free cells and still-possible words, each put after the prefix `P`.
   */
  ghost function Around(board: Board, W: set<string>, U: set<Cell>, P: string, C: set<Cell>): set<string>
    requires IsBoard(board) && forall c :: c in C ==> InGrid(c)
  {
    set c, s | c in C && s in Reach(board, W, U, c) :: P + s
  }

  /** Putting a cell in front of distinct cells that differ from it gives distinct cells. */
  lemma ConsDistinct(c: Cell, p: seq<Cell>)
    requires forall k, l :: 0 <= k < l < |p| ==> p[k] != p[l]
    requires forall k :: 0 <= k < |p| ==> p[k] != c
    ensures forall k, l :: 0 <= k < l < |[c] + p| ==> ([c] + p)[k] != ([c] + p)[l]
  {
    var q := [c] + p;
    forall k, l | 0 <= k < l < |q|
      ensures q[k] != q[l]
    {
      assert q[l] == p[l - 1];
      if k > 0 {
        assert q[k] == p[k - 1];
      }
    }
  }

  /** A free cell adjacent to the start of a trail through the other free cells extends it. */
  lemma TrailCons(U: set<Cell>, c: Cell, p: seq<Cell>)
    requires c in U && InGrid(c) && Trail(U - {c}, p) && Adjacent(c, p[0])
    ensures Trail(U, [c] + p)
  {
    var q := [c] + p;
    assert forall k :: 0 <= k < |q| ==> q[k] in U && InGrid(q[k]) by {
      assert forall k :: 0 < k < |q| ==> q[k] == p[k - 1];
    }
    forall k | 0 < k < |q|
      ensures Adjacent(q[k - 1], q[k])
    {
      if k > 1 {
        assert q[k - 1] == p[k - 2] && q[k] == p[k - 1];
      }
    }
    assert forall k :: 0 <= k < |p| ==> p[k] != c by {
      assert forall k :: 0 <= k < |p| ==> p[k] in U - {c};
    }
    ConsDistinct(c, p);
  }

  /** The tail of a trail of two or more cells is a trail through the other cells. */
  lemma TrailTail(U: set<Cell>, p: seq<Cell>)
    requires Trail(U, p) && |p| > 1
    ensures Trail(U - {p[0]}, p[1..]) && Adjacent(p[0], p[1])
  {
    var q := p[1..];
    assert forall k :: 0 <= k < |q| ==> q[k] == p[k + 1];
    forall k | 0 <= k < |q|
      ensures q[k] in U - {p[0]}
    {
      assert q[k] == p[k + 1] && p[0] != p[k + 1];
    }
  }

  /** Every collected word is in `W` and is spelled by a simple path from `c` through free cells. */
  lemma {:induction false} ReachSound(board: Board, W: set<string>, U: set<Cell>, c: Cell, s: string)
    returns (p: seq<Cell>)
    requires IsBoard(board) && InGrid(c) && s in Reach(board, W, U, c)
    ensures Trail(U, p) && p[0] == c && Spell(board, p) == s && s in W
    decreases U
  {
    var t := Tile(board, c);
    var W' := Residual(W, t);
    if s == t && [] in W' {
      p := [c];
      assert Spell(board, p) == t + Spell(board, []);
      assert t + [] == t;
    } else {
      var n, s' := ReachSplit(board, W, U, c, s);
      var p' := ReachSound(board, W', U - {c}, n, s');
      p := [c] + p';
      TrailCons(U, c, p');
      assert p[1..] == p';
    }
  }

  /** Every word of `W` spelled by a simple path through free cells is collected from the path's first cell. */
  lemma {:induction false} ReachComplete(board: Board, W: set<string>, U: set<Cell>, p: seq<Cell>)
    requires IsBoard(board) && Trail(U, p) && Spell(board, p) in W
    ensures Spell(board, p) in Reach(board, W, U, p[0])
    decreases |p|
  {
    var c := p[0];
    var t := Tile(board, c);
    var W' := Residual(W, t);
    var p' := p[1..];
    assert Spell(board, p) == t + Spell(board, p');
    if |p| == 1 {
      assert t + [] == t;
    } else {
      TrailTail(U, p);
      ReachComplete(board, W', U - {c}, p');
      assert p'[0] in Neighbours(c);
    }
  }

  /** Nothing is collected once no word is possible. */
  lemma {:induction false} ReachNone(board: Board, U: set<Cell>, c: Cell)
    requires IsBoard(board) && InGrid(c)
    ensures Reach(board, {}, U, c) == {}
    decreases U
  {
    if c in U {
      var t := Tile(board, c);
      var E: set<string> := {};
      assert Residual(E, t) == E;
      forall n | n in Neighbours(c)
        ensures Reach(board, E, U - {c}, n) == {}
      {
        ReachNone(board, U - {c}, n);
      }
    }
  }

  /** One search step: a free cell gives its tile, when that completes a word, and the searches from its neighbours. */
  lemma AroundStep(board: Board, W: set<string>, U: set<Cell>, P: string, c: Cell)
    requires IsBoard(board) && InGrid(c)
    ensures c !in U ==> Around(board, W, U, P, {c}) == {}
    ensures c in U ==>
      var t := Tile(board, c);
      var W' := Residual(W, t);
      Around(board, W, U, P, {c}) ==
        (if [] in W' then {P + t} else {}) + Around(board, W', U - {c}, P + t, Neighbours(c))
  {
    if c in U {
      AroundStepLeft(board, W, U, P, c);
      AroundStepRight(board, W, U, P, c);
    }
  }

  /** The first half of AroundStep: what a free cell collects is its tile or comes from a neighbour. */
  lemma AroundStepLeft(board: Board, W: set<string>, U: set<Cell>, P: string, c: Cell)
    requires IsBoard(board) && InGrid(c) && c in U
    ensures forall w :: w in Around(board, W, U, P, {c}) ==>
      w in (if [] in Residual(W, Tile(board, c)) then {P + Tile(board, c)} else {}) ||
      w in Around(board, Residual(W, Tile(board, c)), U - {c}, P + Tile(board, c), Neighbours(c))
  {
    var t := Tile(board, c);
    var W' := Residual(W, t);
    forall w | w in Around(board, W, U, P, {c})
      ensures w in (if [] in W' then {P + t} else {}) || w in Around(board, W', U - {c}, P + t, Neighbours(c))
    {
      var s :| s in Reach(board, W, U, c) && w == P + s;
      if s != t || [] !in W' {
        var n, s' := ReachSplit(board, W, U, c, s);
        ConcatAssoc(P, t, s');
      }
    }
  }

  /** The second half of AroundStep: a free cell collects its tile, when it completes a word, and what its neighbours collect. */
  lemma AroundStepRight(board: Board, W: set<string>, U: set<Cell>, P: string, c: Cell)
    requires IsBoard(board) && InGrid(c) && c in U
    ensures [] in Residual(W, Tile(board, c)) ==> P + Tile(board, c) in Around(board, W, U, P, {c})
    ensures forall w :: w in Around(board, Residual(W, Tile(board, c)), U - {c}, P + Tile(board, c), Neighbours(c)) ==>
      w in Around(board, W, U, P, {c})
  {
    var t := Tile(board, c);
    var W' := Residual(W, t);
    if [] in W' {
      assert t in Reach(board, W, U, c);
    }
    forall w | w in Around(board, W', U - {c}, P + t, Neighbours(c))
      ensures w in Around(board, W, U, P, {c})
    {
      var n, s' :| n in Neighbours(c) && s' in Reach(board, W', U - {c}, n) && w == (P + t) + s';
      assert t + s' in Reach(board, W, U, c);
      ConcatAssoc(P, t, s');
    }
  }

  /** A collected word other than the cell's own tile is the tile followed by a word collected from a neighbour. */
  lemma ReachSplit(board: Board, W: set<string>, U: set<Cell>, c: Cell, s: string) returns (n: Cell, s': string)
    requires IsBoard(board) && InGrid(c) && s in Reach(board, W, U, c)
    requires s != Tile(board, c) || [] !in Residual(W, Tile(board, c))
    ensures c in U && n in Neighbours(c) && s == Tile(board, c) + s'
    ensures s' in Reach(board, Residual(W, Tile(board, c)), U - {c}, n)
  {
    n, s' :| n in Neighbours(c) && s' in Reach(board, Residual(W, Tile(board, c)), U - {c}, n) && s == Tile(board, c) + s';
  }

  /** Kept as a lemma: stated inline, the sequence equality is costly in the contexts that use it. */
  lemma ConcatAssoc(a: string, b: string, c: string)
    ensures a + (b + c) == (a + b) + c
  {
  }

  /** Following a cell's tile from `W` follows its letter and, after a 'Q', a 'U'. */
  lemma TileResidual(board: Board, W: set<string>, c: Cell)
    requires IsBoard(board) && InGrid(c)
    ensures board[c.0][c.1] != 'Q' ==> Residual(W, Tile(board, c)) == Derivative(W, board[c.0][c.1])
    ensures board[c.0][c.1] == 'Q' ==> Residual(W, Tile(board, c)) == Derivative(Derivative(W, 'Q'), 'U')
    ensures Derivative(W, board[c.0][c.1]) == {} ==> Residual(W, Tile(board, c)) == {}
  {
    var t := Tile(board, c);
    var x := board[c.0][c.1];
    ResidualCons(W, x, t[1..]);
    assert t == [x] + t[1..];
    if x == 'Q' {
      ResidualCons(Derivative(W, 'Q'), 'U', []);
      assert t[1..] == ['U'] + [];
    } else {
      assert t[1..] == [];
    }
    if Derivative(W, x) == {} {
      assert forall s :: s !in Residual(W, t);
    }
  }

  /**
    A search entering a cell that is taken, or whose letter (or the 'U' after
    its 'Q') continues no word, collects nothing.
   */
  lemma AroundDead(board: Board, W: set<string>, U: set<Cell>, P: string, c: Cell)
    requires IsBoard(board) && InGrid(c)
    requires || c !in U
             || Derivative(W, board[c.0][c.1]) == {}
             || (board[c.0][c.1] == 'Q' && Derivative(Derivative(W, 'Q'), 'U') == {})
    ensures Around(board, W, U, P, {c}) == {}
  {
    TileResidual(board, W, c);
    AroundStep(board, W, U, P, c);
    if c in U {
      AroundNone(board, U - {c}, P + Tile(board, c), Neighbours(c));
    }
  }

  /**
    A search entering a free cell continues with `W'`, what is left of `W`
    after the cell's letter (and the 'U' after a 'Q').
   */
  lemma AroundEnter(board: Board, W: set<string>, U: set<Cell>, P: string, c: Cell, W': set<string>)
    requires IsBoard(board) && InGrid(c) && c in U
    requires W' == if board[c.0][c.1] == 'Q' then Derivative(Derivative(W, 'Q'), 'U') else Derivative(W, board[c.0][c.1])
    ensures Around(board, W, U, P, {c}) ==
      (if [] in W' then {P + Tile(board, c)} else {}) + Around(board, W', U - {c}, P + Tile(board, c), Neighbours(c))
  {
    TileResidual(board, W, c);
    AroundStep(board, W, U, P, c);
  }

  /** Searches from no cell, or with no possible word, collect nothing. */
  lemma AroundNone(board: Board, U: set<Cell>, P: string, C: set<Cell>)
    requires IsBoard(board) && forall c :: c in C ==> InGrid(c)
    ensures Around(board, {}, U, P, C) == {}
  {
    forall c | c in C {
      ReachNone(board, U, c);
    }
  }

  /** Searches from no cell collect nothing. */
  lemma AroundEmpty(board: Board, W: set<string>, U: set<Cell>, P: string, C: set<Cell>)
    requires IsBoard(board) && C == {}
    ensures Around(board, W, U, P, C) == {}
  {
    assert forall w :: w !in Around(board, W, U, P, C);
  }

  /** Collecting from one more start cell adds what that cell collects. */
  lemma AroundAdd(board: Board, W: set<string>, U: set<Cell>, P: string, C: set<Cell>, c: Cell)
    requires IsBoard(board) && (forall d :: d in C ==> InGrid(d)) && InGrid(c)
    ensures Around(board, W, U, P, C + {c}) == Around(board, W, U, P, C) + Around(board, W, U, P, {c})
  {
  }

  /** A collected word has at most two letters per free cell. */
  lemma {:induction false} ReachLength(board: Board, W: set<string>, U: set<Cell>, c: Cell, s: string)
    requires IsBoard(board) && InGrid(c) && s in Reach(board, W, U, c)
    ensures 1 <= |s| <= 2 * |U|
    decreases U
  {
    var t := Tile(board, c);
    var W' := Residual(W, t);
    assert c in U;
    if s == t && [] in W' {
    } else {
      var n, s' :| n in Neighbours(c) && s' in Reach(board, W', U - {c}, n) && s == t + s';
      ReachLength(board, W', U - {c}, n, s');
      assert |U - {c}| == |U| - 1;
    }
  }

  /** A spelled word is made of upper-case letters, and is not empty when the path is not. */
  lemma {:induction false} SpellUpper(board: Board, p: seq<Cell>)
    requires IsBoard(board) && forall k :: 0 <= k < |p| ==> InGrid(p[k])
    ensures IsUpperWord(Spell(board, p))
    ensures p != [] ==> Spell(board, p) != []
  {
    if p != [] {
      var t, s' := Tile(board, p[0]), Spell(board, p[1..]);
      SpellUpper(board, p[1..]);
      assert Spell(board, p) == t + s';
      assert forall k :: |t| <= k < |t + s'| ==> (t + s')[k] == s'[k - |t|];
    }
  }

  /** Every 'Q' of `s` is followed by a 'U'. */
  predicate QThenU(s: string) {
    forall k :: 0 <= k < |s| && s[k] == 'Q' ==> k + 1 < |s| && s[k + 1] == 'U'
  }

  /** In a spelled word every 'Q' is followed by a 'U'. */
  lemma {:induction false} SpellQU(board: Board, p: seq<Cell>)
    requires IsBoard(board) && forall k :: 0 <= k < |p| ==> InGrid(p[k])
    ensures QThenU(Spell(board, p))
  {
    if p != [] {
      var t, s' := Tile(board, p[0]), Spell(board, p[1..]);
      SpellQU(board, p[1..]);
      var s := t + s';
      assert s == Spell(board, p);
      forall k | 0 <= k < |s| && s[k] == 'Q'
        ensures k + 1 < |s| && s[k + 1] == 'U'
      {
        if k >= |t| {
          var m := k - |t|;
          assert s'[m] == s[k] == 'Q';
          assert m + 1 < |s'| && s'[m + 1] == 'U';
          assert s[k + 1] == s'[m + 1];
        } else {
          assert t == "QU" && k == 0;
        }
      }
    }
  }

  /** The words found by searching from every cell of a fresh board are words of `W` spelled on the board. */
  lemma AroundAllSound(board: Board, W: set<string>, w: string)
    requires IsBoard(board) && w in Around(board, W, AllCells(), [], AllCells())
    ensures w in W && Spellable(board, w) && 1 <= |w| <= 2 * N * N
  {
    var U := AllCells();
    var c, s :| c in U && s in Reach(board, W, U, c) && w == [] + s;
    assert [] + s == s;
    var p := ReachSound(board, W, U, c, w);
    ReachLength(board, W, U, c, w);
  }

  /** Every word of `W` spelled on the board is found by searching from every cell of a fresh board. */
  lemma AroundAllComplete(board: Board, W: set<string>, w: string)
    requires IsBoard(board) && w in W && Spellable(board, w)
    ensures w in Around(board, W, AllCells(), [], AllCells())
  {
    var U := AllCells();
    var p :| Trail(U, p) && Spell(board, p) == w;
    ReachComplete(board, W, U, p);
    assert [] + w == w;
  }

  /**
    The words found by searching from every cell of a fresh board are exactly
    the words of `W` spelled by some simple path of adjacent cells, and each
    has at most two letters per cell.
   */
  lemma AroundAllSpellable(board: Board, W: set<string>)
    requires IsBoard(board)
    ensures forall w :: w in Around(board, W, AllCells(), [], AllCells()) <==> w in W && Spellable(board, w)
    ensures forall w :: w in Around(board, W, AllCells(), [], AllCells()) ==> 1 <= |w| <= 2 * N * N
  {
    forall w | w in Around(board, W, AllCells(), [], AllCells()) {
      AroundAllSound(board, W, w);
    }
    forall w | w in W && Spellable(board, w) {
      AroundAllComplete(board, W, w);
    }
  }
}
