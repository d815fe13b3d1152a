/**
  The depth-first search of boggle.cpp and the loop that runs it from every
  cell of the board.

  `search_board` is modelled by a group of methods that follow its code in
  order: `SearchBoard` returns at once for a marked cell and otherwise calls
  `Enter`, which follows the child of the current node for the cell's letter
  (and `EnterU` for the 'U' after a 'Q') while writing the tile into the
  word buffer with `Push` (and clearing a failed 'U' with `Pop`); `Visit`
  marks the cell, records the word when the node ends one, recurses into
  the neighbours through `SearchNeighbours`, `SearchRow` and `SearchBeside`
  in the source's order, and backtracks with `Restore`.

  Their contracts are stated with `Collect`, which takes the same steps on
  the set of words a node stores instead of on the node itself, and threads
  the result set through the calls as the source does.  CollectAround shows
  that `Collect` adds exactly what `Around` collects from the cell, and
  FindWords that searching from every cell of a fresh board finds exactly the
  stored words spelled on the board.
 */
module Search {
  import opened Letters
  import opened Grid
  import opened Trie

  /** The marked cells are exactly the cells of the board outside `U`. */
  ghost predicate Marks(marked: array2<bool>, U: set<Cell>)
    reads marked
  {
    && marked.Length0 == N && marked.Length1 == N
    && forall a, b :: 0 <= a < N && 0 <= b < N ==> (marked[a, b] <==> (a, b) !in U)
  }

  /** The words left after the tile of `c`: after its letter, and after the 'U' that follows a 'Q'. */
  ghost function Follow(board: Board, W: set<string>, c: Cell): set<string>
    requires IsBoard(board) && InGrid(c)
  {
    if board[c.0][c.1] == 'Q' then Derivative(Derivative(W, 'Q'), 'U') else Derivative(W, board[c.0][c.1])
  }

  // ---------------------------------------------------------------------
  // The search on word sets

  /**
    The result set after a search enters cell `c` with `acc` found so far,
    free cells `U`, words `W` still possible and prefix `P`: unchanged when
    `c` is taken; otherwise the prefix with the tile when it completes a word,
    then the searches from the neighbours.
   */
  ghost function Collect(board: Board, W: set<string>, U: set<Cell>, P: string, c: Cell, acc: set<string>): set<string>
    requires IsBoard(board) && InGrid(c)
    decreases U, 0
  {
    if c !in U then
      acc
    else
      var t := Tile(board, c);
      var W' := Follow(board, W, c);
      CollectNeighbours(board, W', U - {c}, P + t, c, if [] in W' then acc + {P + t} else acc)
  }

  /** The searches from the neighbours of `c` on the board: the row above, the same row, the row below. */
  ghost function CollectNeighbours(board: Board, W: set<string>, U: set<Cell>, P: string, c: Cell, acc: set<string>): set<string>
    requires IsBoard(board) && InGrid(c)
    decreases U, 2
  {
    var (i, j) := c;
    var above := if i > 0 then CollectRow(board, W, U, P, i - 1, j, acc) else acc;
    var beside := CollectBeside(board, W, U, P, i, j, above);
    if i < 3 then CollectRow(board, W, U, P, i + 1, j, beside) else beside
  }

  /** The searches from the cells of row `r` in columns j - 1, j and j + 1 that are on the board, left to right. */
  ghost function CollectRow(board: Board, W: set<string>, U: set<Cell>, P: string, r: int, j: int, acc: set<string>): set<string>
    requires IsBoard(board) && InGrid((r, j))
    decreases U, 1
  {
    var a1 := if j > 0 then Collect(board, W, U, P, (r, j - 1), acc) else acc;
    var a2 := Collect(board, W, U, P, (r, j), a1);
    if j < 3 then Collect(board, W, U, P, (r, j + 1), a2) else a2
  }

  /** The searches from the cells left and right of (i, j) that are on the board. */
  ghost function CollectBeside(board: Board, W: set<string>, U: set<Cell>, P: string, i: int, j: int, acc: set<string>): set<string>
    requires IsBoard(board) && InGrid((i, j))
    decreases U, 1
  {
    var a1 := if j > 0 then Collect(board, W, U, P, (i, j - 1), acc) else acc;
    if j < 3 then Collect(board, W, U, P, (i, j + 1), a1) else a1
  }

  // ---------------------------------------------------------------------
  // The cells, in the order the search and the driver visit them

  /** The cells of row `r` in columns j - 1, j and j + 1 that are on the board. */
  ghost function RowCells(r: int, j: int): (cs: set<Cell>)
    requires 0 <= j < N
    ensures forall d :: d in cs <==> d.0 == r && j - 1 <= d.1 <= j + 1 && 0 <= d.1 < N
  {
    (if j > 0 then {(r, j - 1)} else {}) + {(r, j)} + (if j < 3 then {(r, j + 1)} else {})
  }

  /** The cells left and right of (i, j) that are on the board. */
  ghost function BesideCells(i: int, j: int): (cs: set<Cell>)
    requires 0 <= j < N
    ensures forall d :: d in cs <==> d.0 == i && (d.1 == j - 1 || d.1 == j + 1) && 0 <= d.1 < N
  {
    (if j > 0 then {(i, j - 1)} else {}) + (if j < 3 then {(i, j + 1)} else {})
  }

  /** The neighbours of (i, j) are the three groups the search visits. */
  lemma NeighboursInOrder(i: int, j: int)
    requires InGrid((i, j))
    ensures Neighbours((i, j)) ==
      ({} + (if i > 0 then RowCells(i - 1, j) else {})) + BesideCells(i, j) + (if i < 3 then RowCells(i + 1, j) else {})
  {
  }

  /** The cells the driver loop has visited before (i, j), row by row. */
  ghost function Visited(i: int, j: int): (cs: set<Cell>)
    ensures forall c :: c in cs <==> InGrid(c) && (c.0 < i || (c.0 == i && c.1 < j))
  {
    set a, b | 0 <= a < N && 0 <= b < N && (a < i || (a == i && b < j)) :: (a, b)
  }

  /** The loop visits one new cell at each step of a row. */
  lemma VisitedNext(i: int, j: int)
    requires InGrid((i, j))
    ensures Visited(i, j + 1) == Visited(i, j) + {(i, j)}
  {
  }

  /** A full row is the start of the next one. */
  lemma VisitedRow(i: int)
    ensures Visited(i + 1, 0) == Visited(i, N)
  {
  }

  /** Kept as a lemma: stated inline, the set equality is costly in the contexts that use it. */
  lemma UnionAssoc(a: set<string>, b: set<string>, c: set<string>)
    ensures (a + b) + c == a + (b + c)
  {
  }

  /** Kept as a lemma for the same reason as `UnionAssoc`. */
  lemma CellsAssoc(a: set<Cell>, b: set<Cell>, c: set<Cell>)
    ensures (a + b) + c == a + (b + c)
  {
  }

  // ---------------------------------------------------------------------
  // Searches that add nothing

  /** With no word possible, no search adds anything. */
  lemma {:induction false} CollectNothing(board: Board, U: set<Cell>, P: string, c: Cell, acc: set<string>)
    requires IsBoard(board) && InGrid(c)
    ensures Collect(board, {}, U, P, c, acc) == acc
    decreases U, 0
  {
    var E: set<string> := {};
    if c in U {
      assert Follow(board, E, c) == E;
      NeighboursNothing(board, U - {c}, P + Tile(board, c), c, acc);
    }
  }

  lemma {:induction false} NeighboursNothing(board: Board, U: set<Cell>, P: string, c: Cell, acc: set<string>)
    requires IsBoard(board) && InGrid(c)
    ensures CollectNeighbours(board, {}, U, P, c, acc) == acc
    decreases U, 2
  {
    var (i, j) := c;
    if i > 0 { RowNothing(board, U, P, i - 1, j, acc); }
    var above := if i > 0 then CollectRow(board, {}, U, P, i - 1, j, acc) else acc;
    assert above == acc;
    BesideNothing(board, U, P, i, j, acc);
    if i < 3 { RowNothing(board, U, P, i + 1, j, acc); }
  }

  lemma {:induction false} RowNothing(board: Board, U: set<Cell>, P: string, r: int, j: int, acc: set<string>)
    requires IsBoard(board) && InGrid((r, j))
    ensures CollectRow(board, {}, U, P, r, j, acc) == acc
    decreases U, 1
  {
    if j > 0 { CollectNothing(board, U, P, (r, j - 1), acc); }
    CollectNothing(board, U, P, (r, j), acc);
    if j < 3 { CollectNothing(board, U, P, (r, j + 1), acc); }
  }

  lemma {:induction false} BesideNothing(board: Board, U: set<Cell>, P: string, i: int, j: int, acc: set<string>)
    requires IsBoard(board) && InGrid((i, j))
    ensures CollectBeside(board, {}, U, P, i, j, acc) == acc
    decreases U, 1
  {
    if j > 0 { CollectNothing(board, U, P, (i, j - 1), acc); }
    if j < 3 { CollectNothing(board, U, P, (i, j + 1), acc); }
  }

  /** A search entering a cell whose letter (or the 'U' after its 'Q') continues no word adds nothing. */
  lemma CollectDead(board: Board, W: set<string>, U: set<Cell>, P: string, c: Cell, acc: set<string>)
    requires IsBoard(board) && InGrid(c)
    requires Derivative(W, board[c.0][c.1]) == {} || (board[c.0][c.1] == 'Q' && Derivative(Derivative(W, 'Q'), 'U') == {})
    ensures Collect(board, W, U, P, c, acc) == acc
  {
    if c in U {
      var E: set<string> := {};
      assert Derivative(E, 'U') == E;
      assert Follow(board, W, c) == E;
      NeighboursNothing(board, U - {c}, P + Tile(board, c), c, acc);
    }
  }

  // ---------------------------------------------------------------------
  // What the search adds

  /** A search entering cell `c` adds to `acc` exactly what `Around` collects from `c`. */
  lemma {:induction false} CollectAround(board: Board, W: set<string>, U: set<Cell>, P: string, c: Cell, acc: set<string>)
    requires IsBoard(board) && InGrid(c)
    ensures Collect(board, W, U, P, c, acc) == acc + Around(board, W, U, P, {c})
    decreases U, 0
  {
    if c !in U {
      AroundDead(board, W, U, P, c);
    } else {
      var t := Tile(board, c);
      var W' := Follow(board, W, c);
      var S: set<string> := if [] in W' then {P + t} else {};
      var acc' := if [] in W' then acc + {P + t} else acc;
      assert acc' == acc + S;
      CollectNeighboursAround(board, W', U - {c}, P + t, c, acc');
      AroundEnter(board, W, U, P, c, W');
      UnionAssoc(acc, S, Around(board, W', U - {c}, P + t, Neighbours(c)));
    }
  }

  /**
    Searching from cell `n`, when `g` holds, after searching from the cells
    `done`, adds what `Around` collects from `n`.
   */
  lemma {:induction false} CollectStep(board: Board, W: set<string>, U: set<Cell>, P: string,
                                       done: set<Cell>, g: bool, n: Cell, acc: set<string>, a: set<string>)
    requires IsBoard(board) && (g ==> InGrid(n)) && forall d :: d in done ==> InGrid(d)
    requires a == acc + Around(board, W, U, P, done)
    ensures (if g then Collect(board, W, U, P, n, a) else a) ==
      acc + Around(board, W, U, P, done + if g then {n} else {})
    decreases U, 1
  {
    if g {
      CollectAround(board, W, U, P, n, a);
      AroundAdd(board, W, U, P, done, n);
      UnionAssoc(acc, Around(board, W, U, P, done), Around(board, W, U, P, {n}));
    } else {
      assert done + {} == done;
    }
  }

  /** Searching from a row of cells, when `g` holds, adds what `Around` collects from them. */
  lemma {:induction false} CollectRowAround(board: Board, W: set<string>, U: set<Cell>, P: string,
                                            done: set<Cell>, g: bool, r: int, j: int, acc: set<string>, a: set<string>)
    requires IsBoard(board) && (g ==> InGrid((r, j))) && 0 <= j < N && forall d :: d in done ==> InGrid(d)
    requires a == acc + Around(board, W, U, P, done)
    ensures (if g then CollectRow(board, W, U, P, r, j, a) else a) ==
      acc + Around(board, W, U, P, done + if g then RowCells(r, j) else {})
    decreases U, 2
  {
    if g {
      var s1, n1 := if j > 0 then {(r, j - 1)} else {}, (r, j - 1);
      var s3, n3 := if j < 3 then {(r, j + 1)} else {}, (r, j + 1);
      CollectStep(board, W, U, P, done, j > 0, n1, acc, a);
      var a1 := if j > 0 then Collect(board, W, U, P, n1, a) else a;
      CollectStep(board, W, U, P, done + s1, true, (r, j), acc, a1);
      var a2 := Collect(board, W, U, P, (r, j), a1);
      CollectStep(board, W, U, P, done + s1 + {(r, j)}, j < 3, n3, acc, a2);
      CellsAssoc(done, s1, {(r, j)});
      CellsAssoc(done, s1 + {(r, j)}, s3);
    } else {
      assert done + {} == done;
    }
  }

  /** Searching from the cells left and right of (i, j) adds what `Around` collects from them. */
  lemma {:induction false} CollectBesideAround(board: Board, W: set<string>, U: set<Cell>, P: string,
                                               done: set<Cell>, i: int, j: int, acc: set<string>, a: set<string>)
    requires IsBoard(board) && InGrid((i, j)) && forall d :: d in done ==> InGrid(d)
    requires a == acc + Around(board, W, U, P, done)
    ensures CollectBeside(board, W, U, P, i, j, a) == acc + Around(board, W, U, P, done + BesideCells(i, j))
    decreases U, 2
  {
    var s1, n1 := if j > 0 then {(i, j - 1)} else {}, (i, j - 1);
    var s2, n2 := if j < 3 then {(i, j + 1)} else {}, (i, j + 1);
    CollectStep(board, W, U, P, done, j > 0, n1, acc, a);
    var a1 := if j > 0 then Collect(board, W, U, P, n1, a) else a;
    CollectStep(board, W, U, P, done + s1, j < 3, n2, acc, a1);
    CellsAssoc(done, s1, s2);
  }

  /** The searches from the neighbours of `c` add to `acc` exactly what `Around` collects from them. */
  lemma {:induction false} CollectNeighboursAround(board: Board, W: set<string>, U: set<Cell>, P: string, c: Cell, acc: set<string>)
    requires IsBoard(board) && InGrid(c)
    ensures CollectNeighbours(board, W, U, P, c, acc) == acc + Around(board, W, U, P, Neighbours(c))
    decreases U, 3
  {
    var (i, j) := c;
    var d0: set<Cell> := {};
    assert acc + Around(board, W, U, P, d0) == acc;
    CollectRowAround(board, W, U, P, d0, i > 0, i - 1, j, acc, acc);
    var above := if i > 0 then CollectRow(board, W, U, P, i - 1, j, acc) else acc;
    var d1 := d0 + if i > 0 then RowCells(i - 1, j) else {};
    CollectBesideAround(board, W, U, P, d1, i, j, acc, above);
    var beside := CollectBeside(board, W, U, P, i, j, above);
    CollectRowAround(board, W, U, P, d1 + BesideCells(i, j), i < 3, i + 1, j, acc, beside);
    NeighboursInOrder(i, j);
  }

  // ---------------------------------------------------------------------
  // The driver loop on word sets

  /** The driver loop's search from (i, j) adds what `Around` collects from that cell. */
  lemma SweepStep(board: Board, W: set<string>, i: int, j: int, acc: set<string>)
    requires IsBoard(board) && InGrid((i, j))
    requires acc == Around(board, W, AllCells(), [], Visited(i, j))
    ensures Collect(board, W, AllCells(), [], (i, j), acc) == Around(board, W, AllCells(), [], Visited(i, j + 1))
  {
    VisitedNext(i, j);
    CollectAround(board, W, AllCells(), [], (i, j), acc);
    AroundAdd(board, W, AllCells(), [], Visited(i, j), (i, j));
  }

  /** Before its first search the driver loop has collected nothing. */
  lemma SweepStart(board: Board, W: set<string>)
    requires IsBoard(board)
    ensures Around(board, W, AllCells(), [], Visited(0, 0)) == {}
  {
    var E: set<Cell> := {};
    assert Visited(0, 0) == E;
    AroundEmpty(board, W, AllCells(), [], E);
  }

  /** For a word spelled on the board, `IsWord` holds exactly when it is stored as it is. */
  lemma SpelledIsWord(board: Board, dict: Dictionary, w: string)
    requires IsBoard(board) && dict.Valid() && Spellable(board, w)
    ensures dict.IsWord(w) <==> w in dict.Words
  {
    var p :| Trail(AllCells(), p) && Spell(board, p) == w;
    SpellUpper(board, p);
    UpcaseUpper(w);
  }

  /**
    What the driver loop has collected once it has searched from every cell:
    exactly the stored words spelled by a simple path of adjacent cells, which
    are exactly the words so spelled for which `IsWord` holds, each with at
    most two letters per cell.
   */
  lemma SweepEnd(board: Board, dict: Dictionary, found: set<string>)
    requires IsBoard(board) && dict.Valid()
    requires found == Around(board, dict.Words, AllCells(), [], Visited(N, 0))
    ensures forall w :: w in found <==> w in dict.Words && Spellable(board, w)
    ensures forall w :: w in found <==> dict.IsWord(w) && Spellable(board, w)
    ensures forall w :: w in found ==> 1 <= |w| <= 2 * N * N
  {
    assert Visited(N, 0) == AllCells();
    AroundAllSpellable(board, dict.Words);
    forall w | Spellable(board, w)
      ensures dict.IsWord(w) <==> w in dict.Words
    {
      SpelledIsWord(board, dict, w);
    }
  }

  // ---------------------------------------------------------------------
  // The search

  /**
    Adds to `words` the words of `dict` that a path starting at cell (i, j)
    and continuing through unmarked cells spells, each after the `len`
    letters already in `word`.  `W` (the words of `dict`), `U` (the set of
    unmarked cells) and `P` (the letters in `word`) are ghost: they name the
    state for the contract.  The marks and those letters are as they were
    when it returns.
   */
  method SearchBoard(board: Board, marked: array2<bool>, i: int, j: int, word: array<char>, len: int,
                     dict: Dictionary, words: set<string>, ghost W: set<string>, ghost U: set<Cell>, ghost P: string)
    returns (found: set<string>)
    requires IsBoard(board) && Marks(marked, U) && InGrid((i, j))
    requires dict.Valid() && dict.Words == W && marked !in dict.Repr && word !in dict.Repr
    requires 0 <= len && len + 2 * |U| <= word.Length && word[..len] == P
    modifies marked, word
    ensures Marks(marked, U) && dict.Valid() && word[..len] == P
    ensures found == Collect(board, W, U, P, (i, j), words)
    decreases U, 1
  {
    ghost var c := (i, j);
    if marked[i, j] {
      return words;
    }
    var sub, n := Enter(board, i, j, word, len, dict, W, P);
    if sub == null {
      CollectDead(board, W, U, P, c, words);
      dict.ValidFrame();
      return words;
    }
    found := Visit(board, marked, i, j, word, len, n, sub, words, W, U, P);
    dict.ValidFrame();
  }

  /**
    The rest of `SearchBoard` once the node `sub` for the tile of (i, j) has
    been reached and the tile written after the first `len` letters: marks
    the cell, records the word when `sub` ends one, searches the neighbours,
    then unmarks the cell and clears the last letter written.
   */
  method Visit(board: Board, marked: array2<bool>, i: int, j: int, word: array<char>, len: int, n: int,
               sub: Dictionary, words: set<string>, ghost W: set<string>, ghost U: set<Cell>, ghost P: string)
    returns (found: set<string>)
    requires IsBoard(board) && Marks(marked, U) && InGrid((i, j)) && (i, j) in U
    requires sub.Valid() && sub.Words == Follow(board, W, (i, j)) && marked !in sub.Repr && word !in sub.Repr
    requires 0 <= len && len + 2 * |U| <= word.Length
    requires n == len + |Tile(board, (i, j))| && word[..n] == P + Tile(board, (i, j))
    modifies marked, word
    ensures Marks(marked, U) && word[..len] == P
    ensures found == CollectNeighbours(board, Follow(board, W, (i, j)), U - {(i, j)}, P + Tile(board, (i, j)), (i, j),
                                       if [] in Follow(board, W, (i, j)) then words + {P + Tile(board, (i, j))} else words)
    decreases U, 0
  {
    ghost var c := (i, j);
    ghost var Q := P + Tile(board, c);
    assert Q[..len] == P;
    marked[i, j] := true;
    sub.ValidFrame();
    ghost var V := U - {c};
    assert |V| == |U| - 1;
    if sub.isSelfWord {
      found := words + {word[..n]};
    } else {
      found := words;
    }
    found := SearchNeighbours(board, marked, i, j, word, n, sub, found, Follow(board, W, c), V, Q);
    assert word[..len] == P by {
      assert word[..len] == word[..n][..len];
    }
    Restore(marked, i, j, word, len, n, U);
  }

  /** The backtracking step: unmarks (i, j) and clears the last of the `n` letters written, keeping the first `len`. */
  method Restore(marked: array2<bool>, i: int, j: int, word: array<char>, len: int, n: int, ghost U: set<Cell>)
    requires Marks(marked, U - {(i, j)}) && InGrid((i, j)) && (i, j) in U
    requires 0 <= len < n <= word.Length
    modifies marked, word
    ensures Marks(marked, U) && word[..len] == old(word[..len])
  {
    marked[i, j] := false;
    var m := Pop(word, n);
    assert word[..len] == word[..m][..len];
  }

  /**
    Follows the child of `dict` for the letter of (i, j), and its child for
    'U' when the letter is 'Q', writing the letters after the first `len` of
    `word`.  Gives the node reached and the new length, or null when a child
    is missing; the first `len` letters are kept either way.
   */
  method Enter(board: Board, i: int, j: int, word: array<char>, len: int, dict: Dictionary, ghost W: set<string>, ghost P: string)
    returns (sub: Dictionary?, n: int)
    requires IsBoard(board) && InGrid((i, j))
    requires dict.Valid() && dict.Words == W && word !in dict.Repr
    requires 0 <= len && len + 2 <= word.Length && word[..len] == P
    modifies word
    ensures word[..len] == P
    ensures sub == null ==>
      Derivative(W, board[i][j]) == {} || (board[i][j] == 'Q' && Derivative(Derivative(W, 'Q'), 'U') == {})
    ensures sub != null ==> sub.Valid() && sub.Repr <= dict.Repr && sub.Words == Follow(board, W, (i, j))
    ensures sub != null ==> n == len + |Tile(board, (i, j))| && word[..n] == P + Tile(board, (i, j))
  {
    n := len;
    var letter := board[i][j];
    sub := dict.SubDictionary(letter);
    if sub == null {
      return;
    }
    n := Push(word, n, letter);
    if letter == 'Q' {
      sub.ValidFrame();
      sub, n := EnterU(word, len, sub, Derivative(W, 'Q'), P);
    } else {
      sub.ValidFrame();
    }
  }

  /**
    The 'Q' case of `Enter`, once the 'Q' is written at `len`: writes the
    'U' after it and follows the child of `dict` for 'U'.  When that child
    is missing, the 'U' is cleared again (the 'Q' stays, past the first `len`
    letters).
   */
  method EnterU(word: array<char>, len: int, dict: Dictionary, ghost W: set<string>, ghost P: string)
    returns (sub: Dictionary?, n: int)
    requires dict.Valid() && dict.Words == W && word !in dict.Repr
    requires 0 <= len && len + 2 <= word.Length && word[..len + 1] == P + "Q"
    modifies word
    ensures word[..len] == P
    ensures sub == null ==> Derivative(W, 'U') == {}
    ensures sub == null ==> word[len + 1] == '\0'
    ensures sub != null ==> sub.Valid() && sub.Repr <= dict.Repr && sub.Words == Derivative(W, 'U')
    ensures sub != null ==> n == len + 2 && word[..n] == P + "QU"
  {
    n := Push(word, len + 1, 'U');
    dict.ValidFrame();
    sub := dict.SubDictionary('U');
    if sub == null {
      n := Pop(word, n);
      assert word[..len] == word[..len + 1][..len];
    }
  }

  /** `word[len++] = ch`: puts `ch` after the first `len` letters of `word`, which are kept. */
  method Push(word: array<char>, len: int, ch: char) returns (n: int)
    requires 0 <= len < word.Length
    modifies word
    ensures n == len + 1 && word[..n] == old(word[..len]) + [ch]
  {
    word[len] := ch;
    n := len + 1;
    assert forall k :: 0 <= k < len ==> word[k] == old(word[k]);
  }

  /** `word[--len] = '\0'`: clears the last of the first `len` letters of `word`; the others are kept. */
  method Pop(word: array<char>, len: int) returns (n: int)
    requires 0 < len <= word.Length
    modifies word
    ensures n == len - 1 && word[..n] == old(word[..n]) && word[n] == '\0'
  {
    n := len - 1;
    word[n] := '\0';
    assert forall k :: 0 <= k < n ==> word[k] == old(word[k]);
  }

  /**
    The recursive calls of `SearchBoard` on the neighbours of (i, j): the row
    above, the same row and the row below, skipping those off the board.
    `U` no longer holds (i, j) and `word` holds the prefix with its tile.
   */
  method SearchNeighbours(board: Board, marked: array2<bool>, i: int, j: int, word: array<char>, len: int,
                          dict: Dictionary, words: set<string>, ghost W: set<string>, ghost U: set<Cell>, ghost P: string)
    returns (found: set<string>)
    requires IsBoard(board) && Marks(marked, U) && InGrid((i, j))
    requires dict.Valid() && dict.Words == W && marked !in dict.Repr && word !in dict.Repr
    requires 0 <= len && len + 2 * |U| <= word.Length && word[..len] == P
    modifies marked, word
    ensures Marks(marked, U) && dict.Valid() && word[..len] == P
    ensures found == CollectNeighbours(board, W, U, P, (i, j), words)
    decreases U, 3
  {
    found := words;
    if i > 0 {
      found := SearchRow(board, marked, i - 1, j, word, len, dict, found, W, U, P);
    }
    found := SearchBeside(board, marked, i, j, word, len, dict, found, W, U, P);
    if i < 3 {
      found := SearchRow(board, marked, i + 1, j, word, len, dict, found, W, U, P);
    }
  }

  /** The recursive calls on row `r`, columns j - 1, j and j + 1, skipping those off the board. */
  method SearchRow(board: Board, marked: array2<bool>, r: int, j: int, word: array<char>, len: int,
                   dict: Dictionary, words: set<string>, ghost W: set<string>, ghost U: set<Cell>, ghost P: string)
    returns (found: set<string>)
    requires IsBoard(board) && Marks(marked, U) && InGrid((r, j))
    requires dict.Valid() && dict.Words == W && marked !in dict.Repr && word !in dict.Repr
    requires 0 <= len && len + 2 * |U| <= word.Length && word[..len] == P
    modifies marked, word
    ensures Marks(marked, U) && dict.Valid() && word[..len] == P
    ensures found == CollectRow(board, W, U, P, r, j, words)
    decreases U, 2
  {
    found := words;
    if j > 0 { found := SearchBoard(board, marked, r, j - 1, word, len, dict, found, W, U, P); }
    found := SearchBoard(board, marked, r, j, word, len, dict, found, W, U, P);
    if j < 3 { found := SearchBoard(board, marked, r, j + 1, word, len, dict, found, W, U, P); }
  }

  /** The recursive calls on the cells left and right of (i, j), skipping those off the board. */
  method SearchBeside(board: Board, marked: array2<bool>, i: int, j: int, word: array<char>, len: int,
                      dict: Dictionary, words: set<string>, ghost W: set<string>, ghost U: set<Cell>, ghost P: string)
    returns (found: set<string>)
    requires IsBoard(board) && Marks(marked, U) && InGrid((i, j))
    requires dict.Valid() && dict.Words == W && marked !in dict.Repr && word !in dict.Repr
    requires 0 <= len && len + 2 * |U| <= word.Length && word[..len] == P
    modifies marked, word
    ensures Marks(marked, U) && dict.Valid() && word[..len] == P
    ensures found == CollectBeside(board, W, U, P, i, j, words)
    decreases U, 2
  {
    found := words;
    if j > 0 { found := SearchBoard(board, marked, i, j - 1, word, len, dict, found, W, U, P); }
    if j < 3 { found := SearchBoard(board, marked, i, j + 1, word, len, dict, found, W, U, P); }
  }

  /**
    One row of the driver loop: searches from each cell of row `i` in turn,
    starting every search with an empty word, and leaves the mask clear.
   */
  method SweepRow(board: Board, dict: Dictionary, marked: array2<bool>, word: array<char>, i: int,
                  words: set<string>, ghost W: set<string>) returns (found: set<string>)
    requires IsBoard(board) && 0 <= i < N && Marks(marked, AllCells()) && word.Length == 50
    requires dict.Valid() && dict.Words == W && marked !in dict.Repr && word !in dict.Repr
    requires words == Around(board, W, AllCells(), [], Visited(i, 0))
    modifies marked, word
    ensures Marks(marked, AllCells()) && dict.Valid()
    ensures found == Around(board, W, AllCells(), [], Visited(i + 1, 0))
  {
    ghost var U := AllCells();
    found := words;
    for j := 0 to N
      invariant Marks(marked, U) && dict.Valid()
      invariant found == Around(board, W, U, [], Visited(i, j))
    {
      SweepStep(board, W, i, j, found);
      found := SearchBoard(board, marked, i, j, word, 0, dict, found, W, U, []);
    }
    VisitedRow(i);
  }

  /** The two nested driver loops: every row in turn, over one mask and one buffer. */
  method SweepRows(board: Board, dict: Dictionary, marked: array2<bool>, word: array<char>, ghost W: set<string>)
    returns (found: set<string>)
    requires IsBoard(board) && Marks(marked, AllCells()) && word.Length == 50
    requires dict.Valid() && dict.Words == W && marked !in dict.Repr && word !in dict.Repr
    modifies marked, word
    ensures Marks(marked, AllCells()) && dict.Valid() && dict.Words == W
    ensures found == Around(board, W, AllCells(), [], Visited(N, 0))
  {
    found := {};
    SweepStart(board, W);
    for i := 0 to N
      invariant Marks(marked, AllCells()) && dict.Valid() && dict.Words == W
      invariant found == Around(board, W, AllCells(), [], Visited(i, 0))
    {
      found := SweepRow(board, dict, marked, word, i, found, W);
    }
  }

  /**
    The driver: searches from every cell, row by row, with a fresh mask and a
    50-character word buffer, collecting into one set.  The result is exactly
    the stored words spelled by a simple path of adjacent cells, and exactly
    the words spelled on the board for which `IsWord` holds.
   */
  method FindWords(board: Board, dict: Dictionary) returns (found: set<string>)
    requires IsBoard(board) && dict.Valid()
    ensures forall w :: w in found <==> w in dict.Words && Spellable(board, w)
    ensures dict.Valid()
    ensures forall w :: w in found <==> dict.IsWord(w) && Spellable(board, w)
    ensures forall w :: w in found ==> 1 <= |w| <= 2 * N * N
  {
    var word := new char[50](_ => '\0');
    var marked := new bool[N, N]((_, _) => false);
    dict.ValidFrame();
    found := SweepRows(board, dict, marked, word, dict.Words);
    SweepEnd(board, dict, found);
  }
}
