/** The hill-climbing crossword solver: scoring a board, and replacing one word at
    a time while that lowers the number of conflicts. */
module HillClimb {
  import opened Options

  /** A place for a word: a row or a column; other keys are malformed. */
  datatype Key = Across(index: nat) | Down(index: nat) | Other

  type Board = map<Key, string>

  /** sys.maxsize of a 64-bit machine. */
  const MAXSIZE: nat := 0x7FFF_FFFF_FFFF_FFFF

  predicate KeyFits(k: Key, n: nat) {
    !k.Other? && k.index < n
  }

  /** The places of an n by n board are exactly the keys. */
  ghost predicate IsSquare(board: Board, n: nat) {
    n > 0 && forall k: Key :: k in board <==> KeyFits(k, n)
  }

  /** A square board with words of the right length. */
  ghost predicate IsBoard(board: Board, n: nat) {
    IsSquare(board, n) && forall k :: k in board ==> |board[k]| == n
  }

  /** Row i and column j disagree on the cell that they share. */
  predicate Clash(board: Board, i: nat, j: nat)
    requires Across(i) in board && Down(j) in board && j < |board[Across(i)]| && i < |board[Down(j)]|
  {
    board[Across(i)][j] != board[Down(j)][i]
  }

  /** The words in the first rows have the right length, and so have all columns if
      there is such a row. */
  ghost predicate Measured(board: Board, n: nat, rows: nat) {
    && IsSquare(board, n) && rows <= n
    && (forall i: nat :: i < rows ==> |board[Across(i)]| == n)
    && (rows > 0 ==> forall j: nat :: j < n ==> |board[Down(j)]| == n)
  }

  /** The cells in the first rows on which row and column disagree. */
  ghost function Clashes(board: Board, n: nat, rows: nat): set<(nat, nat)>
    requires Measured(board, n, rows)
  {
    set i: nat, j: nat | i < rows && j < n && Clash(board, i, j) :: (i, j)
  }

  ghost function Conflicts(board: Board, n: nat): nat
    requires IsBoard(board, n)
  {
    |Clashes(board, n, n)|
  }

  /** A board has no conflicts if and only if all rows and columns agree. */
  lemma NoConflictsIff(board: Board, n: nat)
    requires IsBoard(board, n)
    ensures Conflicts(board, n) == 0 <==>
      forall i: nat, j: nat :: i < n && j < n ==> board[Across(i)][j] == board[Down(j)][i]
  {
    if Conflicts(board, n) == 0 {
      forall i: nat, j: nat | i < n && j < n ensures board[Across(i)][j] == board[Down(j)][i] {
        assert (i, j) !in Clashes(board, n, n);
      }
    } else {
      var c :| c in Clashes(board, n, n);
      assert Clash(board, c.0, c.1);
    }
  }

  ghost predicate IsFull(board: Board, words: seq<string>) {
    forall k :: k in board ==> board[k] in words
  }

  /** -1 for a board that is not full. */
  ghost function Score(board: Board, words: seq<string>, n: nat): int
    requires IsSquare(board, n) && WordsFit(words, n)
  {
    if IsFull(board, words) then Conflicts(board, n) else -1
  }

  ghost predicate WordsFit(words: seq<string>, n: nat) {
    forall w :: w in words ==> |w| == n
  }

  lemma {:induction false} ClashesBound(board: Board, n: nat, rows: nat)
    requires Measured(board, n, rows)
    ensures |Clashes(board, n, rows)| <= n * rows
  {
    if rows == 0 {
      assert Clashes(board, n, 0) == {};
    } else {
      ClashesBound(board, n, rows - 1);
      RowBound(board, n, rows - 1, n);
      RowAdded(board, n, rows - 1);
      assert n * rows == n * (rows - 1) + n;
    }
  }

  /** The same for the first words of the columns, and one row. */
  ghost predicate RowMeasured(board: Board, n: nat, i: nat, cols: nat) {
    && IsSquare(board, n) && i < n && cols <= n && |board[Across(i)]| == n
    && forall j: nat :: j < cols ==> |board[Down(j)]| == n
  }

  /** The cells among the first of one row on which row and column disagree. */
  ghost function RowClashes(board: Board, n: nat, i: nat, cols: nat): set<(nat, nat)>
    requires RowMeasured(board, n, i, cols)
  {
    set j: nat | j < cols && Clash(board, i, j) :: (i, j)
  }

  lemma {:induction false} RowBound(board: Board, n: nat, i: nat, cols: nat)
    requires RowMeasured(board, n, i, cols)
    ensures |RowClashes(board, n, i, cols)| <= cols
  {
    if cols == 0 {
      assert RowClashes(board, n, i, 0) == {};
    } else {
      RowBound(board, n, i, cols - 1);
      RowGrows(board, n, i, cols - 1);
    }
  }

  lemma RowGrows(board: Board, n: nat, i: nat, j: nat)
    requires RowMeasured(board, n, i, j + 1)
    ensures |RowClashes(board, n, i, j + 1)| == |RowClashes(board, n, i, j)| + if Clash(board, i, j) then 1 else 0
  {
    var last: set<(nat, nat)> := if Clash(board, i, j) then {(i, j)} else {};
    assert RowClashes(board, n, i, j + 1) == RowClashes(board, n, i, j) + last;
  }

  lemma RowAdded(board: Board, n: nat, i: nat)
    requires Measured(board, n, i + 1)
    ensures |Clashes(board, n, i + 1)| == |Clashes(board, n, i)| + |RowClashes(board, n, i, n)|
  {
    assert Clashes(board, n, i + 1) == Clashes(board, n, i) + RowClashes(board, n, i, n);
    assert Clashes(board, n, i) !! RowClashes(board, n, i, n);
  }

  // ----- scoring

  /** The size that the keys imply: the largest index plus one; None for a board
      with a malformed key, or with no key at all. */
  method ImpliedSize(board: Board) returns (r: Option<nat>)
    ensures r.None? ==> forall n: nat :: !IsSquare(board, n)
    ensures r.Some? ==> r.value > 0 && forall k :: k in board ==> KeyFits(k, r.value)
    ensures r.Some? ==> exists k :: k in board && !k.Other? && k.index + 1 == r.value
  {
    var keys := board.Keys;
    var size: nat := 0;
    while keys != {}
      invariant keys <= board.Keys
      invariant forall k :: k in board && k !in keys ==> KeyFits(k, size)
      invariant size > 0 ==> exists k :: k in board && !k.Other? && k.index + 1 == size
      invariant board.Keys != {} && keys == {} ==> size > 0
      decreases |keys|
    {
      var k :| k in keys;
      if k.Other? {
        forall n: nat ensures !IsSquare(board, n) {
          assert k in board && !KeyFits(k, n);
        }
        return None;
      }
      if k.index >= size {
        size := k.index + 1;
      }
      keys := keys - {k};
    }
    if size == 0 {
      forall n: nat ensures !IsSquare(board, n) {
        assert KeyFits(Across(0), n) <==> n > 0;
      }
      return None;
    }
    r := Some(size);
  }

  /** Every place of the implied square is on the board. */
  method HasAllPlaces(board: Board, n: nat) returns (ok: bool)
    requires n > 0 && forall k :: k in board ==> KeyFits(k, n)
    ensures ok <==> IsSquare(board, n)
  {
    var i := 0;
    while i < n
      invariant i <= n && forall k: Key :: !k.Other? && k.index < i ==> k in board
    {
      if Across(i) !in board || Down(i) !in board {
        assert KeyFits(Across(i), n) && KeyFits(Down(i), n);
        return false;
      }
      i := i + 1;
    }
    ok := true;
  }

  /** The number of cells on which the words disagree; None where the program gives
      up on a board that is not square or has a word of the wrong length. */
  method CountConflicts(board: Board) returns (r: Option<nat>)
    ensures r.Some? ==> exists n: nat :: IsBoard(board, n)
    ensures forall n: nat :: IsBoard(board, n) ==> r == Some(Conflicts(board, n))
  {
    var size := ImpliedSize(board);
    if size.None? {
      return None;
    }
    var n := size.value;
    OnlyThisSize(board, n);
    var square := HasAllPlaces(board, n);
    if !square {
      return None;
    }
    var conflicts, i := 0, 0;
    while i < n
      invariant i <= n && Measured(board, n, i) && conflicts == |Clashes(board, n, i)|
    {
      assert KeyFits(Across(i), n);
      if |board[Across(i)]| != n {
        return None;
      }
      var count := CountRow(board, n, i);
      if count.None? {
        return None;
      }
      RowAdded(board, n, i);
      conflicts, i := conflicts + count.value, i + 1;
    }
    assert IsBoard(board, n);
    r := Some(conflicts);
  }

  /** The inner loop; None at a column word of the wrong length. */
  method CountRow(board: Board, n: nat, i: nat) returns (r: Option<nat>)
    requires RowMeasured(board, n, i, 0)
    ensures r.None? ==> !IsBoard(board, n)
    ensures r.Some? ==> RowMeasured(board, n, i, n) && r.value == |RowClashes(board, n, i, n)|
  {
    var conflicts, j := 0, 0;
    while j < n
      invariant RowMeasured(board, n, i, j) && conflicts == |RowClashes(board, n, i, j)|
    {
      assert KeyFits(Down(j), n);
      if |board[Down(j)]| != n {
        return None;
      }
      RowGrows(board, n, i, j);
      if board[Across(i)][j] != board[Down(j)][i] {
        conflicts := conflicts + 1;
      }
      j := j + 1;
    }
    r := Some(conflicts);
  }

  lemma OnlyThisSize(board: Board, size: nat)
    requires size > 0 && (forall k :: k in board ==> KeyFits(k, size))
    requires exists k :: k in board && !k.Other? && k.index + 1 == size
    ensures forall n: nat :: IsSquare(board, n) ==> n == size
  {
    forall n: nat | IsSquare(board, n) ensures n == size {
      var k :| k in board && !k.Other? && k.index + 1 == size;
      assert KeyFits(k, n);
      assert KeyFits(Across(n - 1), n);
      assert Across(n - 1) in board;
    }
  }

  /** Every place holds a word of the list. */
  method IsFullState(board: Board, words: seq<string>) returns (full: bool)
    ensures full <==> IsFull(board, words)
  {
    full := true;
    var keys := board.Keys;
    while keys != {}
      invariant keys <= board.Keys
      invariant full <==> forall k :: k in board && k !in keys ==> board[k] in words
      decreases |keys|
    {
      var k :| k in keys;
      if board[k] !in words {
        full := false;
      }
      keys := keys - {k};
    }
  }

  method ScoreState(board: Board, words: seq<string>, ghost n: nat) returns (score: int)
    requires IsSquare(board, n) && WordsFit(words, n)
    ensures score == Score(board, words, n)
  {
    var full := IsFullState(board, words);
    if full {
      assert IsBoard(board, n);
      var conflicts := CountConflicts(board);
      score := conflicts.value;
    } else {
      score := -1;
    }
  }

  // ----- climbing

  /** b is the board with one place given a word of the list. */
  ghost predicate IsNeighbour(board: Board, words: seq<string>, b: Board) {
    exists k, w :: k in board && w in words && b == board[k := w]
  }

  lemma NeighbourKeeps(board: Board, words: seq<string>, b: Board, n: nat)
    requires IsSquare(board, n) && IsNeighbour(board, words, b)
    ensures IsSquare(b, n) && b.Keys == board.Keys && (IsFull(board, words) ==> IsFull(b, words))
  {
    var k, w :| k in board && w in words && b == board[k := w];
    assert b.Keys == board.Keys;
    forall j: Key ensures j in b <==> KeyFits(j, n) {
      assert j in b.Keys <==> j in board.Keys;
    }
  }

  /** The list holds exactly the boards that differ in at most one place. */
  ghost predicate AreNeighbours(board: Board, words: seq<string>, neighbours: seq<Board>) {
    && (forall b :: b in neighbours ==> IsNeighbour(board, words, b))
    && (forall k, w :: k in board && w in words ==> board[k := w] in neighbours)
  }

  lemma SquareNeighbours(board: Board, words: seq<string>, neighbours: seq<Board>, n: nat)
    requires IsSquare(board, n) && AreNeighbours(board, words, neighbours)
    ensures AllSquare(neighbours, n)
  {
    hide IsSquare, IsNeighbour;
    forall b | b in neighbours ensures IsSquare(b, n) {
      NeighbourKeeps(board, words, b, n);
    }
  }

  lemma NoneBetter(board: Board, words: seq<string>, neighbours: seq<Board>, n: nat, minConflicts: int)
    requires IsSquare(board, n) && WordsFit(words, n) && AreNeighbours(board, words, neighbours) && AllSquare(neighbours, n)
    requires forall b :: b in neighbours ==> minConflicts <= Score(b, words, n)
    requires Score(board, words, n) <= minConflicts
    ensures LocallyBest(board, words, n)
  {
    hide IsSquare, Score, WordsFit;
    forall b | IsNeighbour(board, words, b) ensures IsSquare(b, n) && Score(board, words, n) <= Score(b, words, n) {
      assert b in neighbours;
    }
  }

  /** All boards that differ in at most one place. */
  method Neighbours(board: Board, words: seq<string>) returns (neighbours: seq<Board>)
    ensures AreNeighbours(board, words, neighbours)
  {
    neighbours := [];
    var keys := board.Keys;
    while keys != {}
      invariant keys <= board.Keys
      invariant forall b :: b in neighbours ==> IsNeighbour(board, words, b)
      invariant forall k, w :: k in board && k !in keys && w in words ==> board[k := w] in neighbours
      decreases |keys|
    {
      var k :| k in keys;
      var i := 0;
      while i < |words|
        invariant i <= |words|
        invariant forall b :: b in neighbours ==> IsNeighbour(board, words, b)
        invariant forall j, w :: j in board && j !in keys && w in words ==> board[j := w] in neighbours
        invariant forall w :: w in words[..i] ==> board[k := w] in neighbours
      {
        var temp := board[k := words[i]];
        assert k in board && words[i] in words;
        assert words[..i + 1] == words[..i] + [words[i]];
        neighbours := neighbours + [temp];
        i := i + 1;
      }
      assert words[..i] == words;
      keys := keys - {k};
    }
  }

  ghost predicate AllSquare(boards: seq<Board>, n: nat) {
    forall b :: b in boards ==> IsSquare(b, n)
  }

  /** The first of the neighbours with the lowest score. */
  method Best(neighbours: seq<Board>, words: seq<string>, start: Board, ghost n: nat) returns (best: Board, minConflicts: int)
    requires AllSquare(neighbours, n) && WordsFit(words, n)
    ensures forall b :: b in neighbours ==> minConflicts <= Score(b, words, n)
    ensures minConflicts <= MAXSIZE
    ensures minConflicts < MAXSIZE ==> best in neighbours && Score(best, words, n) == minConflicts
  {
    best, minConflicts := start, MAXSIZE;
    var i := 0;
    while i < |neighbours|
      invariant i <= |neighbours| && minConflicts <= MAXSIZE
      invariant forall j: nat :: j < i ==> minConflicts <= Score(neighbours[j], words, n)
      invariant minConflicts < MAXSIZE ==> best in neighbours && IsSquare(best, n) && Score(best, words, n) == minConflicts
    {
      assert neighbours[i] in neighbours;
      var score := ScoreState(neighbours[i], words, n);
      if score < minConflicts {
        best := neighbours[i];
        minConflicts := ScoreState(neighbours[i], words, n);
      }
      i := i + 1;
    }
  }

  lemma ScoreBounds(board: Board, words: seq<string>, n: nat)
    requires IsSquare(board, n) && WordsFit(words, n)
    ensures -1 <= Score(board, words, n) <= n * n
  {
    if IsFull(board, words) {
      ClashesBound(board, n, n);
    }
  }

  /** No replacement of a single word lowers the score. */
  ghost predicate LocallyBest(board: Board, words: seq<string>, n: nat)
    requires IsSquare(board, n) && WordsFit(words, n)
  {
    forall b :: IsNeighbour(board, words, b) ==>
      IsSquare(b, n) && Score(board, words, n) <= Score(b, words, n)
  }

  /** next is a neighbour with the lowest score of all, and better than the board. */
  ghost predicate BestStep(board: Board, words: seq<string>, next: Board, n: nat)
    requires WordsFit(words, n)
  {
    && IsSquare(board, n) && IsNeighbour(board, words, next) && IsSquare(next, n)
    && Score(next, words, n) < Score(board, words, n)
    && forall b :: IsNeighbour(board, words, b) ==> IsSquare(b, n) && Score(next, words, n) <= Score(b, words, n)
  }

  lemma NeighboursListed(board: Board, words: seq<string>, neighbours: seq<Board>)
    requires AreNeighbours(board, words, neighbours)
    ensures forall b :: IsNeighbour(board, words, b) <==> b in neighbours
  {
  }

  lemma NoneLower(board: Board, words: seq<string>, neighbours: seq<Board>, n: nat, next: Board)
    requires IsSquare(board, n) && IsSquare(next, n) && WordsFit(words, n) && AllSquare(neighbours, n)
    requires AreNeighbours(board, words, neighbours) && next in neighbours
    requires forall b :: b in neighbours ==> Score(next, words, n) <= Score(b, words, n)
    requires Score(next, words, n) < Score(board, words, n)
    ensures BestStep(board, words, next, n)
  {
    hide IsSquare, Score, WordsFit, IsNeighbour, AreNeighbours;
    NeighboursListed(board, words, neighbours);
    forall b | IsNeighbour(board, words, b) ensures IsSquare(b, n) && Score(next, words, n) <= Score(b, words, n) {
      assert b in neighbours;
    }
  }

  /** Every board of the path but the last is followed by one of its best neighbours. */
  ghost predicate Climbs(path: seq<Board>, words: seq<string>, n: nat)
    requires WordsFit(words, n)
  {
    forall i: nat :: i + 1 < |path| ==> BestStep(path[i], words, path[i + 1], n)
  }

  /** One round: the best neighbour, if it is better than the board. */
  method Round(board: Board, words: seq<string>, ghost n: nat) returns (next: Board, better: bool)
    requires IsSquare(board, n) && WordsFit(words, n) && n * n < MAXSIZE
    ensures !better ==> next == board && LocallyBest(board, words, n)
    ensures better ==> BestStep(board, words, next, n)
  {
    hide IsSquare, WordsFit, LocallyBest, IsNeighbour, BestStep;
    var numConflicts := ScoreState(board, words, n);
    ScoreBounds(board, words, n);
    var neighbours := Neighbours(board, words);
    SquareNeighbours(board, words, neighbours, n);
    var best, minConflicts := Best(neighbours, words, board, n);
    if numConflicts <= minConflicts {
      NoneBetter(board, words, neighbours, n, minConflicts);
      return board, false;
    }
    NoneLower(board, words, neighbours, n, best);
    next, better := best, true;
  }

  /** Climbs, always to a best neighbour, until no single replacement helps; path
      holds the boards on the way. */
  method Climb(start: Board, words: seq<string>, ghost n: nat)
    returns (board: Board, ghost rounds: nat, ghost path: seq<Board>)
    requires IsSquare(start, n) && WordsFit(words, n) && n * n < MAXSIZE
    ensures |path| == rounds > 0 && path[0] == start && path[rounds - 1] == board && Climbs(path, words, n)
    ensures IsSquare(board, n) && board.Keys == start.Keys && LocallyBest(board, words, n)
    ensures IsFull(start, words) ==> IsFull(board, words) && Conflicts(board, n) + rounds <= Conflicts(start, n) + 1
    ensures !IsFull(start, words) ==> board == start && rounds == 1
  {
    hide IsSquare, WordsFit, LocallyBest, IsNeighbour;
    board, rounds, path := start, 0, [start];
    ScoreBounds(start, words, n);
    var continueClimb := true;
    while continueClimb
      invariant IsSquare(board, n) && board.Keys == start.Keys
      invariant IsFull(start, words) ==> IsFull(board, words)
      invariant Score(board, words, n) + rounds <= Score(start, words, n) + if continueClimb then 0 else 1
      invariant !IsFull(start, words) ==> board == start && rounds == if continueClimb then 0 else 1
      invariant !continueClimb ==> LocallyBest(board, words, n)
      invariant |path| == rounds + (if continueClimb then 1 else 0) && |path| > 0
      invariant path[0] == start && path[|path| - 1] == board && Climbs(path, words, n)
      decreases Score(board, words, n) + if continueClimb then 2 else 1
    {
      var next, better := Round(board, words, n);
      if better {
        NeighbourKeeps(board, words, next, n);
        ScoreBounds(next, words, n);
        path := path + [next];
      } else {
        continueClimb := false;
      }
      board, rounds := next, rounds + 1;
    }
  }
}
