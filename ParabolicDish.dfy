/** The tilting platform of puzzles/2023/src/day14.cpp. The platform is a
    grid of cells: 'O' is a round rock that rolls, '.' is empty space and
    every other character (in the puzzle, '#') is a fixed rock. A tilt
    rolls every round rock as far as it goes in one direction, by
    repeatedly swapping it with the empty cell next to it. */
module ParabolicDish {

  // ---------------------------------------------------------------------
  // Grids as rows of cells
  // ---------------------------------------------------------------------

  /** A matrix of rows, each of the given width. */
  predicate Rect(m: seq<seq<char>>, w: int) {
    forall r :: 0 <= r < |m| ==> |m[r]| == w
  }

  /** A cell that a tilt may change: a round rock or empty space. */
  predicate Loose(ch: char) {
    ch == 'O' || ch == '.'
  }

  /** Column c, from the top row down. */
  function Col(m: seq<seq<char>>, w: int, c: int): (r: seq<char>)
    requires Rect(m, w) && 0 <= c < w
    ensures |r| == |m| && forall i :: 0 <= i < |m| ==> r[i] == m[i][c]
  {
    seq(|m|, i requires 0 <= i < |m| => m[i][c])
  }

  /** The characters of the whole grid, row by row. */
  function Bag(m: seq<seq<char>>): multiset<char> {
    if |m| == 0 then multiset{} else Bag(m[..|m| - 1]) + multiset(m[|m| - 1])
  }

  /** The characters of the first k columns. */
  function ColumnsBag(m: seq<seq<char>>, w: int, k: int): multiset<char>
    requires Rect(m, w) && 0 <= k <= w
    decreases k
  {
    if k == 0 then multiset{} else ColumnsBag(m, w, k - 1) + multiset(Col(m, w, k - 1))
  }

  /** m2 is m1 with only round rocks and empty cells rearranged: every
      other cell is where it was, and no loose cell became a fixed rock. */
  predicate KeepsFixed(m1: seq<seq<char>>, m2: seq<seq<char>>, w: int) {
    |m1| == |m2| && Rect(m1, w) && Rect(m2, w) &&
    forall r, c :: 0 <= r < |m1| && 0 <= c < w ==>
      (Loose(m1[r][c]) ==> Loose(m2[r][c])) && (!Loose(m1[r][c]) ==> m2[r][c] == m1[r][c])
  }

  /** Every column holds the same characters in m1 and m2. */
  predicate SameColumns(m1: seq<seq<char>>, m2: seq<seq<char>>, w: int) {
    |m1| == |m2| && Rect(m1, w) && Rect(m2, w) &&
    forall c :: 0 <= c < w ==> multiset(Col(m2, w, c)) == multiset(Col(m1, w, c))
  }

  /** The characters of row r. */
  function RowBag(m: seq<seq<char>>, r: int): multiset<char>
    requires 0 <= r < |m|
  {
    multiset(m[r])
  }

  /** Every row holds the same characters in m1 and m2. */
  predicate SameRows(m1: seq<seq<char>>, m2: seq<seq<char>>) {
    |m1| == |m2| &&
    forall r :: 0 <= r < |m1| ==> RowBag(m2, r) == RowBag(m1, r)
  }

  // ---------------------------------------------------------------------
  // What a finished tilt leaves behind
  // ---------------------------------------------------------------------

  /** No round rock has an empty cell directly above it, for the pairs of
      rows (r - 1, r) with r < row, and with r == row in the columns left
      of col. */
  predicate NorthUpTo(m: seq<seq<char>>, w: int, row: int, col: int) {
    Rect(m, w) &&
    forall r, c {:trigger m[r][c]} :: 1 <= r < |m| && 0 <= c < w && (r < row || (r == row && c < col)) ==>
      !(m[r - 1][c] == '.' && m[r][c] == 'O')
  }

  predicate SettledNorth(m: seq<seq<char>>, w: int) {
    NorthUpTo(m, w, |m|, 0)
  }

  /** No round rock has an empty cell directly below it, for the pairs of
      rows (r, r + 1) with r > row, and with r == row in the columns left
      of col. */
  predicate SouthFrom(m: seq<seq<char>>, w: int, row: int, col: int) {
    Rect(m, w) &&
    forall r, c {:trigger m[r][c]} :: 0 <= r < |m| - 1 && 0 <= c < w && (r > row || (r == row && c < col)) ==>
      !(m[r][c] == 'O' && m[r + 1][c] == '.')
  }

  predicate SettledSouth(m: seq<seq<char>>, w: int) {
    SouthFrom(m, w, -1, 0)
  }

  /** No round rock has an empty cell directly to its left, in the rows
      above row, and in row itself for the columns c < col. */
  predicate WestUpTo(m: seq<seq<char>>, w: int, row: int, col: int) {
    Rect(m, w) &&
    forall r, c :: 0 <= r < |m| && 1 <= c < w && (r < row || (r == row && c < col)) ==>
      !(m[r][c - 1] == '.' && m[r][c] == 'O')
  }

  predicate SettledWest(m: seq<seq<char>>, w: int) {
    WestUpTo(m, w, |m|, 0)
  }

  /** No round rock has an empty cell directly to its right, in the rows
      above row, and in row itself for the columns c > col. */
  predicate EastFrom(m: seq<seq<char>>, w: int, row: int, col: int) {
    Rect(m, w) &&
    forall r, c :: 0 <= r < |m| && 0 <= c < w - 1 && (r < row || (r == row && c > col)) ==>
      !(m[r][c] == 'O' && m[r][c + 1] == '.')
  }

  predicate SettledEast(m: seq<seq<char>>, w: int) {
    EastFrom(m, w, |m|, w)
  }

  // ---------------------------------------------------------------------
  // Swaps
  // ---------------------------------------------------------------------

  /** std::swap of two cells in column c. */
  function SwapVertical(m: seq<seq<char>>, w: int, c: int, r1: int, r2: int): (r: seq<seq<char>>)
    requires Rect(m, w) && 0 <= c < w && 0 <= r1 < |m| && 0 <= r2 < |m| && r1 != r2
    ensures |r| == |m| && Rect(r, w)
  {
    var a := m[r1][c];
    var b := m[r2][c];
    m[r1 := m[r1][c := b]][r2 := m[r2][c := a]]
  }

  /** std::swap of two cells in row r. */
  function SwapHorizontal(m: seq<seq<char>>, w: int, r: int, c1: int, c2: int): (res: seq<seq<char>>)
    requires Rect(m, w) && 0 <= r < |m| && 0 <= c1 < w && 0 <= c2 < w
    ensures |res| == |m| && Rect(res, w)
  {
    m[r := m[r][c1 := m[r][c2]][c2 := m[r][c1]]]
  }

  /** Swapping a round rock with an empty cell keeps the fixed rocks. */
  lemma SwapVerticalKeeps(m0: seq<seq<char>>, m: seq<seq<char>>, w: int, c: int, r1: int, r2: int)
    requires KeepsFixed(m0, m, w) && 0 <= c < w && 0 <= r1 < |m| && 0 <= r2 < |m| && r1 != r2
    requires Loose(m[r1][c]) && Loose(m[r2][c])
    ensures KeepsFixed(m0, SwapVertical(m, w, c, r1, r2), w)
  {
  }

  lemma SwapHorizontalKeeps(m0: seq<seq<char>>, m: seq<seq<char>>, w: int, r: int, c1: int, c2: int)
    requires KeepsFixed(m0, m, w) && 0 <= r < |m| && 0 <= c1 < w && 0 <= c2 < w
    requires Loose(m[r][c1]) && Loose(m[r][c2])
    ensures KeepsFixed(m0, SwapHorizontal(m, w, r, c1, c2), w)
  {
  }

  /** A swap inside a column keeps every column's characters. */
  lemma SwapVerticalColumns(m: seq<seq<char>>, w: int, c: int, r1: int, r2: int)
    requires Rect(m, w) && 0 <= c < w && 0 <= r1 < |m| && 0 <= r2 < |m| && r1 != r2
    ensures SameColumns(m, SwapVertical(m, w, c, r1, r2), w)
  {
    var s := SwapVertical(m, w, c, r1, r2);
    forall k | 0 <= k < w
      ensures multiset(Col(s, w, k)) == multiset(Col(m, w, k))
    {
      if k == c {
        var col := Col(m, w, c);
        assert Col(s, w, k) == col[r1 := col[r2]][r2 := col[r1]];
      } else {
        assert Col(s, w, k) == Col(m, w, k);
      }
    }
  }

  /** A swap inside a row keeps every row's characters. */
  lemma SwapHorizontalRows(m: seq<seq<char>>, w: int, r: int, c1: int, c2: int)
    requires Rect(m, w) && 0 <= r < |m| && 0 <= c1 < w && 0 <= c2 < w
    ensures SameRows(m, SwapHorizontal(m, w, r, c1, c2))
  {
  }

  // ---------------------------------------------------------------------
  // Where a rock stops, and the four tilts as functions of the grid
  // ---------------------------------------------------------------------

  /** Whether x lies between a and b, in either order. */
  predicate Between(x: int, a: int, b: int) {
    a <= x <= b || b <= x <= a
  }

  /** m with the round rock at (row, col) moved along its row or column to
      (row2, col2); the cells it passes over, and the one it left, are empty. */
  function RollTo(m: seq<seq<char>>, w: int, row: int, col: int, row2: int, col2: int): (r: seq<seq<char>>)
    requires Rect(m, w) && 0 <= row < |m| && 0 <= row2 < |m| && 0 <= col < w && 0 <= col2 < w
    ensures |r| == |m| && Rect(r, w)
  {
    seq(|m|, i requires 0 <= i < |m| => seq(w, j requires 0 <= j < w =>
      if i == row2 && j == col2 then 'O'
      else if Between(i, row, row2) && Between(j, col, col2) then '.'
      else m[i][j]))
  }

  /** The row where a rock at (row, col) stops rolling north: the highest
      row it reaches through empty cells only. */
  function StopNorth(m: seq<seq<char>>, w: int, col: int, row: int): (s: int)
    requires Rect(m, w) && 0 <= col < w && 0 <= row < |m|
    ensures 0 <= s <= row
    decreases row
  {
    if row == 0 || m[row - 1][col] != '.' then row else StopNorth(m, w, col, row - 1)
  }

  /** The row where a rock at (row, col) stops rolling south. */
  function StopSouth(m: seq<seq<char>>, w: int, col: int, row: int): (s: int)
    requires Rect(m, w) && 0 <= col < w && 0 <= row < |m|
    ensures row <= s < |m|
    decreases |m| - row
  {
    if row == |m| - 1 || m[row + 1][col] != '.' then row else StopSouth(m, w, col, row + 1)
  }

  /** The column where a rock at (row, col) stops rolling west. */
  function StopWest(m: seq<seq<char>>, w: int, row: int, col: int): (s: int)
    requires Rect(m, w) && 0 <= row < |m| && 0 <= col < w
    ensures 0 <= s <= col
    decreases col
  {
    if col == 0 || m[row][col - 1] != '.' then col else StopWest(m, w, row, col - 1)
  }

  /** The column where a rock at (row, col) stops rolling east. */
  function StopEast(m: seq<seq<char>>, w: int, row: int, col: int): (s: int)
    requires Rect(m, w) && 0 <= row < |m| && 0 <= col < w
    ensures col <= s < w
    decreases w - col
  {
    if col == w - 1 || m[row][col + 1] != '.' then col else StopEast(m, w, row, col + 1)
  }

  /** A rock rolling north passes only empty cells and stops at the top
      row or under a cell that is not empty. */
  lemma {:induction false} StopNorthSpec(m: seq<seq<char>>, w: int, col: int, row: int)
    requires Rect(m, w) && 0 <= col < w && 0 <= row < |m|
    ensures var s := StopNorth(m, w, col, row);
      (forall k :: s <= k < row ==> m[k][col] == '.') && (s == 0 || m[s - 1][col] != '.')
    decreases row
  {
    if row > 0 && m[row - 1][col] == '.' {
      StopNorthSpec(m, w, col, row - 1);
    }
  }

  /** A rock rolling south passes only empty cells and stops at the bottom
      row or over a cell that is not empty. */
  lemma {:induction false} StopSouthSpec(m: seq<seq<char>>, w: int, col: int, row: int)
    requires Rect(m, w) && 0 <= col < w && 0 <= row < |m|
    ensures var s := StopSouth(m, w, col, row);
      (forall k :: row < k <= s ==> m[k][col] == '.') && (s == |m| - 1 || m[s + 1][col] != '.')
    decreases |m| - row
  {
    if row < |m| - 1 && m[row + 1][col] == '.' {
      StopSouthSpec(m, w, col, row + 1);
    }
  }

  /** A rock rolling west passes only empty cells and stops at the left
      edge or beside a cell that is not empty. */
  lemma {:induction false} StopWestSpec(m: seq<seq<char>>, w: int, row: int, col: int)
    requires Rect(m, w) && 0 <= row < |m| && 0 <= col < w
    ensures var s := StopWest(m, w, row, col);
      (forall k :: s <= k < col ==> m[row][k] == '.') && (s == 0 || m[row][s - 1] != '.')
    decreases col
  {
    if col > 0 && m[row][col - 1] == '.' {
      StopWestSpec(m, w, row, col - 1);
    }
  }

  /** A rock rolling east passes only empty cells and stops at the right
      edge or beside a cell that is not empty. */
  lemma {:induction false} StopEastSpec(m: seq<seq<char>>, w: int, row: int, col: int)
    requires Rect(m, w) && 0 <= row < |m| && 0 <= col < w
    ensures var s := StopEast(m, w, row, col);
      (forall k :: col < k <= s ==> m[row][k] == '.') && (s == w - 1 || m[row][s + 1] != '.')
    decreases w - col
  {
    if col < w - 1 && m[row][col + 1] == '.' {
      StopEastSpec(m, w, row, col + 1);
    }
  }

  /** tilt_north from cell (row, col) on: every round rock met, in the
      source's row-major order, rolls to its northern stop. */
  function TiltNorthFrom(m: seq<seq<char>>, w: int, row: int, col: int): (r: seq<seq<char>>)
    requires Rect(m, w) && 1 <= row && 0 <= col <= w
    ensures |r| == |m| && Rect(r, w)
    decreases |m| - row, w - col
  {
    if row >= |m| then m
    else if col == w then TiltNorthFrom(m, w, row + 1, 0)
    else if m[row][col] == 'O' then
      TiltNorthFrom(RollTo(m, w, row, col, StopNorth(m, w, col, row), col), w, row, col + 1)
    else TiltNorthFrom(m, w, row, col + 1)
  }

  /** tilt_south from cell (row, col) on, rows counting up towards the top. */
  function TiltSouthFrom(m: seq<seq<char>>, w: int, row: int, col: int): (r: seq<seq<char>>)
    requires Rect(m, w) && row <= |m| - 2 && 0 <= col <= w
    ensures |r| == |m| && Rect(r, w)
    decreases if row < 0 then 0 else row + 1, w - col
  {
    if row < 0 then m
    else if col == w then TiltSouthFrom(m, w, row - 1, 0)
    else if m[row][col] == 'O' then
      TiltSouthFrom(RollTo(m, w, row, col, StopSouth(m, w, col, row), col), w, row, col + 1)
    else TiltSouthFrom(m, w, row, col + 1)
  }

  /** tilt_west from cell (row, col) on, each row from its second column. */
  function TiltWestFrom(m: seq<seq<char>>, w: int, row: int, col: int): (r: seq<seq<char>>)
    requires Rect(m, w) && 0 <= row && 1 <= col
    ensures |r| == |m| && Rect(r, w)
    decreases |m| - row, w - col
  {
    if row >= |m| then m
    else if col >= w then TiltWestFrom(m, w, row + 1, 1)
    else if m[row][col] == 'O' then
      TiltWestFrom(RollTo(m, w, row, col, row, StopWest(m, w, row, col)), w, row, col + 1)
    else TiltWestFrom(m, w, row, col + 1)
  }

  /** tilt_east from cell (row, col) on, each row from its second last
      column leftwards. */
  function TiltEastFrom(m: seq<seq<char>>, w: int, row: int, col: int): (r: seq<seq<char>>)
    requires Rect(m, w) && 0 <= row && col <= w - 2
    ensures |r| == |m| && Rect(r, w)
    decreases |m| - row, col + 1
  {
    if row >= |m| then m
    else if col < 0 then TiltEastFrom(m, w, row + 1, w - 2)
    else if m[row][col] == 'O' then
      TiltEastFrom(RollTo(m, w, row, col, row, StopEast(m, w, row, col)), w, row, col - 1)
    else TiltEastFrom(m, w, row, col - 1)
  }

  function TiltedNorth(m: seq<seq<char>>, w: int): (r: seq<seq<char>>)
    requires Rect(m, w) && 0 <= w
  {
    TiltNorthFrom(m, w, 1, 0)
  }

  function TiltedSouth(m: seq<seq<char>>, w: int): (r: seq<seq<char>>)
    requires Rect(m, w) && 0 <= w
  {
    TiltSouthFrom(m, w, |m| - 2, 0)
  }

  function TiltedWest(m: seq<seq<char>>, w: int): (r: seq<seq<char>>)
    requires Rect(m, w)
  {
    TiltWestFrom(m, w, 0, 1)
  }

  function TiltedEast(m: seq<seq<char>>, w: int): (r: seq<seq<char>>)
    requires Rect(m, w)
  {
    TiltEastFrom(m, w, 0, w - 2)
  }

  /** One spin cycle: north, west, south, east. */
  function Cycled(m: seq<seq<char>>, w: int): (r: seq<seq<char>>)
    requires Rect(m, w) && 0 <= w
  {
    TiltedEast(TiltedSouth(TiltedWest(TiltedNorth(m, w), w), w), w)
  }

  /** A round rock below a cube-shaped rock stays where it is on a north
      tilt, even with empty space above the cube-shaped rock. */
  lemma CubeRockBlocks()
    ensures TiltedNorth([['.'], ['#'], ['O']], 1) == [['.'], ['#'], ['O']]
  {
    var g := [['.'], ['#'], ['O']];
    assert StopNorth(g, 1, 0, 2) == 2;
    var t := RollTo(g, 1, 2, 0, 2, 0);
    assert g[1] == ['#'];
    assert !Between(1, 2, 2);
    assert t[0][0] == '.' && t[1][0] == '#' && t[2][0] == 'O';
    SameCells(t, g, 1);
  }

  /** Two rectangular grids that agree cell by cell are equal. */
  lemma SameCells(a: seq<seq<char>>, b: seq<seq<char>>, w: int)
    requires Rect(a, w) && Rect(b, w) && |a| == |b|
    requires forall i, j :: 0 <= i < |a| && 0 <= j < w ==> a[i][j] == b[i][j]
    ensures a == b
  {
    forall i | 0 <= i < |a|
      ensures a[i] == b[i]
    {
      assert forall j :: 0 <= j < w ==> a[i][j] == b[i][j];
    }
  }


  /** A column roll that left 'O' at row2 and empty cells back to row, with
      everything else as in m0, is the roll of the rock at row to row2. */
  lemma RolledInColumn(m0: seq<seq<char>>, m: seq<seq<char>>, w: int, row: int, col: int, row2: int)
    requires Rect(m0, w) && Rect(m, w) && |m| == |m0|
    requires 0 <= row < |m| && 0 <= row2 < |m| && 0 <= col < w && m[row2][col] == 'O'
    requires forall k :: Between(k, row, row2) && k != row2 ==> m[k][col] == '.'
    requires forall r, c :: 0 <= r < |m| && 0 <= c < w && (c != col || !Between(r, row, row2)) ==>
      m[r][c] == m0[r][c]
    ensures m == RollTo(m0, w, row, col, row2, col)
  {
    var t := RollTo(m0, w, row, col, row2, col);
    forall i, j | 0 <= i < |m| && 0 <= j < w
      ensures m[i][j] == t[i][j]
    {
    }
    SameCells(m, t, w);
  }

  /** The same for a roll along a row. */
  lemma RolledInRow(m0: seq<seq<char>>, m: seq<seq<char>>, w: int, row: int, col: int, col2: int)
    requires Rect(m0, w) && Rect(m, w) && |m| == |m0|
    requires 0 <= row < |m| && 0 <= col < w && 0 <= col2 < w && m[row][col2] == 'O'
    requires forall k :: Between(k, col, col2) && k != col2 ==> m[row][k] == '.'
    requires forall r :: 0 <= r < |m| && r != row ==> m[r] == m0[r]
    requires forall c :: 0 <= c < w && !Between(c, col, col2) ==> m[row][c] == m0[row][c]
    ensures m == RollTo(m0, w, row, col, row, col2)
  {
    var t := RollTo(m0, w, row, col, row, col2);
    forall i, j | 0 <= i < |m| && 0 <= j < w
      ensures m[i][j] == t[i][j]
    {
      if i == row && j == col2 {
      } else if i == row && Between(j, col, col2) {
        assert t[i][j] == '.';
        assert m[row][j] == '.';
      } else if i == row {
        assert m[row][j] == m0[row][j];
      }
    }
    SameCells(m, t, w);
  }

  // ---------------------------------------------------------------------
  // One rock rolled: the settled region grows by one cell
  // ---------------------------------------------------------------------

  /** One swap of the rock rolling up column col from row: the invariant
      of the roll moves one row up. */
  lemma NorthStep(m0: seq<seq<char>>, m: seq<seq<char>>, w: int, col: int, row: int, row2: int)
    returns (s: seq<seq<char>>)
    requires |m0| == |m| && Rect(m0, w) && Rect(m, w) && 0 <= col < w && 0 <= row2 < row < |m|
    requires KeepsFixed(m0, m, w) && SameColumns(m0, m, w)
    requires m[row2 + 1][col] == 'O' && m[row2][col] == '.'
    requires forall k :: row2 + 1 < k <= row ==> m[k][col] == '.'
    requires forall r, c :: 0 <= r < |m| && 0 <= c < w && (c != col || r <= row2 || r > row) ==> m[r][c] == m0[r][c]
    requires StopNorth(m0, w, col, row) == StopNorth(m0, w, col, row2 + 1)
    ensures StopNorth(m0, w, col, row) == StopNorth(m0, w, col, row2)
    ensures s == SwapVertical(m, w, col, row2, row2 + 1)
    ensures KeepsFixed(m0, s, w) && SameColumns(m0, s, w)
    ensures s[row2][col] == 'O'
    ensures forall k :: row2 < k <= row ==> s[k][col] == '.'
    ensures forall r, c :: 0 <= r < |s| && 0 <= c < w && (c != col || r <= row2 - 1 || r > row) ==> s[r][c] == m0[r][c]
  {
    s := SwapVertical(m, w, col, row2, row2 + 1);
    SwapVerticalKeeps(m0, m, w, col, row2, row2 + 1);
    SwapVerticalColumns(m, w, col, row2, row2 + 1);
    SameColumnsTransitive(m0, m, s, w);
  }

  /** One swap of the rock rolling down column col from row. */
  lemma SouthStep(m0: seq<seq<char>>, m: seq<seq<char>>, w: int, col: int, row: int, row2: int)
    returns (s: seq<seq<char>>)
    requires |m0| == |m| && Rect(m0, w) && Rect(m, w) && 0 <= col < w && 0 <= row < row2 < |m|
    requires KeepsFixed(m0, m, w) && SameColumns(m0, m, w)
    requires m[row2 - 1][col] == 'O' && m[row2][col] == '.'
    requires forall k :: row <= k < row2 - 1 ==> m[k][col] == '.'
    requires forall r, c :: 0 <= r < |m| && 0 <= c < w && (c != col || r >= row2 || r < row) ==> m[r][c] == m0[r][c]
    requires StopSouth(m0, w, col, row) == StopSouth(m0, w, col, row2 - 1)
    ensures StopSouth(m0, w, col, row) == StopSouth(m0, w, col, row2)
    ensures s == SwapVertical(m, w, col, row2, row2 - 1)
    ensures KeepsFixed(m0, s, w) && SameColumns(m0, s, w)
    ensures s[row2][col] == 'O'
    ensures forall k :: row <= k < row2 ==> s[k][col] == '.'
    ensures forall r, c :: 0 <= r < |s| && 0 <= c < w && (c != col || r >= row2 + 1 || r < row) ==> s[r][c] == m0[r][c]
  {
    s := SwapVertical(m, w, col, row2, row2 - 1);
    SwapVerticalKeeps(m0, m, w, col, row2, row2 - 1);
    SwapVerticalColumns(m, w, col, row2, row2 - 1);
    SameColumnsTransitive(m0, m, s, w);
  }

  /** One swap of the rock rolling left along row from col. */
  lemma WestStep(m0: seq<seq<char>>, m: seq<seq<char>>, w: int, row: int, col: int, col2: int)
    returns (s: seq<seq<char>>)
    requires |m0| == |m| && Rect(m0, w) && Rect(m, w) && 0 <= row < |m| && 0 <= col2 < col < w
    requires KeepsFixed(m0, m, w) && SameRows(m0, m)
    requires m[row][col2 + 1] == 'O' && m[row][col2] == '.'
    requires forall k :: col2 + 1 < k <= col ==> m[row][k] == '.'
    requires forall r, c :: 0 <= r < |m| && 0 <= c < w && (r != row || c <= col2 || c > col) ==> m[r][c] == m0[r][c]
    requires StopWest(m0, w, row, col) == StopWest(m0, w, row, col2 + 1)
    ensures StopWest(m0, w, row, col) == StopWest(m0, w, row, col2)
    ensures s == SwapHorizontal(m, w, row, col2, col2 + 1)
    ensures KeepsFixed(m0, s, w) && SameRows(m0, s)
    ensures s[row][col2] == 'O'
    ensures forall k :: col2 < k <= col ==> s[row][k] == '.'
    ensures forall r, c :: 0 <= r < |s| && 0 <= c < w && (r != row || c <= col2 - 1 || c > col) ==> s[r][c] == m0[r][c]
  {
    s := SwapHorizontal(m, w, row, col2, col2 + 1);
    SwapHorizontalKeeps(m0, m, w, row, col2, col2 + 1);
    SwapHorizontalRows(m, w, row, col2, col2 + 1);
    SameRowsTransitive(m0, m, s);
  }

  /** One swap of the rock rolling right along row from col. */
  lemma EastStep(m0: seq<seq<char>>, m: seq<seq<char>>, w: int, row: int, col: int, col2: int)
    returns (s: seq<seq<char>>)
    requires |m0| == |m| && Rect(m0, w) && Rect(m, w) && 0 <= row < |m| && 0 <= col < col2 < w
    requires KeepsFixed(m0, m, w) && SameRows(m0, m)
    requires m[row][col2 - 1] == 'O' && m[row][col2] == '.'
    requires forall k :: col <= k < col2 - 1 ==> m[row][k] == '.'
    requires forall r, c :: 0 <= r < |m| && 0 <= c < w && (r != row || c >= col2 || c < col) ==> m[r][c] == m0[r][c]
    requires StopEast(m0, w, row, col) == StopEast(m0, w, row, col2 - 1)
    ensures StopEast(m0, w, row, col) == StopEast(m0, w, row, col2)
    ensures s == SwapHorizontal(m, w, row, col2, col2 - 1)
    ensures KeepsFixed(m0, s, w) && SameRows(m0, s)
    ensures s[row][col2] == 'O'
    ensures forall k :: col <= k < col2 ==> s[row][k] == '.'
    ensures forall r, c :: 0 <= r < |s| && 0 <= c < w && (r != row || c >= col2 + 1 || c < col) ==> s[r][c] == m0[r][c]
  {
    s := SwapHorizontal(m, w, row, col2, col2 - 1);
    SwapHorizontalKeeps(m0, m, w, row, col2, col2 - 1);
    SwapHorizontalRows(m, w, row, col2, col2 - 1);
    SameRowsTransitive(m0, m, s);
  }

  lemma NorthRolled(m0: seq<seq<char>>, m: seq<seq<char>>, w: int, row: int, col: int, row2: int)
    requires |m0| == |m| && Rect(m0, w) && Rect(m, w) && 1 <= row < |m| && 0 <= col < w
    requires NorthUpTo(m0, w, row, col)
    requires -1 <= row2 < row && m[row2 + 1][col] == 'O'
    requires row2 < 0 || m[row2][col] != '.'
    requires forall k :: row2 + 1 < k <= row ==> m[k][col] == '.'
    requires forall r, c :: 0 <= r < |m| && 0 <= c < w && (c != col || r <= row2 || r > row) ==> m[r][c] == m0[r][c]
    requires StopNorth(m0, w, col, row) == StopNorth(m0, w, col, row2 + 1)
    ensures NorthUpTo(m, w, row, col + 1)
    ensures m == RollTo(m0, w, row, col, StopNorth(m0, w, col, row), col)
  {
    RolledInColumn(m0, m, w, row, col, row2 + 1);
    forall r, c {:trigger m[r][c]} | 1 <= r < |m| && 0 <= c < w && (r < row || (r == row && c < col + 1))
      ensures !(m[r - 1][c] == '.' && m[r][c] == 'O')
    {
      if c == col && row2 + 1 < r {
        assert m[r][c] == '.';
      } else if c == col && r == row2 + 1 {
      } else {
        assert m[r][c] == m0[r][c] && m[r - 1][c] == m0[r - 1][c];
      }
    }
  }

  lemma SouthRolled(m0: seq<seq<char>>, m: seq<seq<char>>, w: int, row: int, col: int, row2: int)
    requires |m0| == |m| && Rect(m0, w) && Rect(m, w) && 0 <= row < |m| - 1 && 0 <= col < w
    requires SouthFrom(m0, w, row, col)
    requires row < row2 <= |m| && m[row2 - 1][col] == 'O'
    requires row2 == |m| || m[row2][col] != '.'
    requires forall k :: row <= k < row2 - 1 ==> m[k][col] == '.'
    requires forall r, c :: 0 <= r < |m| && 0 <= c < w && (c != col || r >= row2 || r < row) ==> m[r][c] == m0[r][c]
    requires StopSouth(m0, w, col, row) == StopSouth(m0, w, col, row2 - 1)
    ensures SouthFrom(m, w, row, col + 1)
    ensures m == RollTo(m0, w, row, col, StopSouth(m0, w, col, row), col)
  {
    RolledInColumn(m0, m, w, row, col, row2 - 1);
    forall r, c {:trigger m[r][c]} | 0 <= r < |m| - 1 && 0 <= c < w && (r > row || (r == row && c < col + 1))
      ensures !(m[r][c] == 'O' && m[r + 1][c] == '.')
    {
      if c == col && r < row2 - 1 {
        assert m[r][c] == '.';
      } else if c == col && r == row2 - 1 {
      } else {
        assert m[r][c] == m0[r][c] && m[r + 1][c] == m0[r + 1][c];
      }
    }
  }

  lemma WestRolled(m0: seq<seq<char>>, m: seq<seq<char>>, w: int, row: int, col: int, col2: int)
    requires |m0| == |m| && Rect(m0, w) && Rect(m, w) && 0 <= row < |m| && 1 <= col < w
    requires WestUpTo(m0, w, row, col)
    requires -1 <= col2 < col && m[row][col2 + 1] == 'O'
    requires col2 < 0 || m[row][col2] != '.'
    requires forall k :: col2 + 1 < k <= col ==> m[row][k] == '.'
    requires forall r, c :: 0 <= r < |m| && 0 <= c < w && (r != row || c <= col2 || c > col) ==> m[r][c] == m0[r][c]
    requires StopWest(m0, w, row, col) == StopWest(m0, w, row, col2 + 1)
    ensures WestUpTo(m, w, row, col + 1)
    ensures m == RollTo(m0, w, row, col, row, StopWest(m0, w, row, col))
  {
    RolledInRow(m0, m, w, row, col, col2 + 1);
    forall r, c | 0 <= r < |m| && 1 <= c < w && (r < row || (r == row && c < col + 1))
      ensures !(m[r][c - 1] == '.' && m[r][c] == 'O')
    {
      if r == row && col2 + 1 < c {
        assert m[r][c] == '.';
      } else if r == row && c == col2 + 1 {
      } else {
        assert m[r][c] == m0[r][c] && m[r][c - 1] == m0[r][c - 1];
      }
    }
  }

  lemma EastRolled(m0: seq<seq<char>>, m: seq<seq<char>>, w: int, row: int, col: int, col2: int)
    requires |m0| == |m| && Rect(m0, w) && Rect(m, w) && 0 <= row < |m| && 0 <= col < w - 1
    requires EastFrom(m0, w, row, col)
    requires col < col2 <= w && m[row][col2 - 1] == 'O'
    requires col2 == w || m[row][col2] != '.'
    requires forall k :: col <= k < col2 - 1 ==> m[row][k] == '.'
    requires forall r, c :: 0 <= r < |m| && 0 <= c < w && (r != row || c >= col2 || c < col) ==> m[r][c] == m0[r][c]
    requires StopEast(m0, w, row, col) == StopEast(m0, w, row, col2 - 1)
    ensures EastFrom(m, w, row, col - 1)
    ensures m == RollTo(m0, w, row, col, row, StopEast(m0, w, row, col))
  {
    RolledInRow(m0, m, w, row, col, col2 - 1);
    forall r, c | 0 <= r < |m| && 0 <= c < w - 1 && (r < row || (r == row && c > col - 1))
      ensures !(m[r][c] == 'O' && m[r][c + 1] == '.')
    {
      if r == row && c < col2 - 1 {
        assert m[r][c] == '.';
      } else if r == row && c == col2 - 1 {
      } else {
        assert m[r][c] == m0[r][c] && m[r][c + 1] == m0[r][c + 1];
      }
    }
  }

  // ---------------------------------------------------------------------
  // The whole grid's characters
  // ---------------------------------------------------------------------

  lemma {:induction false} BagSnoc(m: seq<seq<char>>, w: int, row: seq<char>, k: int)
    requires Rect(m, w) && |row| == w && 0 <= k <= w
    ensures Rect(m + [row], w)
    ensures ColumnsBag(m + [row], w, k) == ColumnsBag(m, w, k) + multiset(row[..k])
    decreases k
  {
    if k > 0 {
      BagSnoc(m, w, row, k - 1);
      assert Col(m + [row], w, k - 1) == Col(m, w, k - 1) + [row[k - 1]];
      assert row[..k] == row[..k - 1] + [row[k - 1]];
    }
  }

  /** Counting the characters column by column gives the same multiset as
      counting them row by row. */
  lemma {:induction false} BagByColumns(m: seq<seq<char>>, w: int)
    requires Rect(m, w) && 0 <= w
    ensures Bag(m) == ColumnsBag(m, w, w)
    decreases |m|
  {
    if |m| == 0 {
      ColumnsEmpty(m, w, w);
    } else {
      var init := m[..|m| - 1];
      BagByColumns(init, w);
      assert m == init + [m[|m| - 1]];
      BagSnoc(init, w, m[|m| - 1], w);
      assert m[|m| - 1][..w] == m[|m| - 1];
    }
  }

  lemma {:induction false} ColumnsEmpty(m: seq<seq<char>>, w: int, k: int)
    requires |m| == 0 && Rect(m, w) && 0 <= k <= w
    ensures ColumnsBag(m, w, k) == multiset{}
    decreases k
  {
    if k > 0 {
      ColumnsEmpty(m, w, k - 1);
      assert Col(m, w, k - 1) == [];
    }
  }

  lemma {:induction false} ColumnsBagSame(m1: seq<seq<char>>, m2: seq<seq<char>>, w: int, k: int)
    requires |m1| == |m2| && Rect(m1, w) && Rect(m2, w) && 0 <= k <= w
    requires SameColumns(m1, m2, w)
    ensures ColumnsBag(m1, w, k) == ColumnsBag(m2, w, k)
    decreases k
  {
    if k > 0 {
      ColumnsBagSame(m1, m2, w, k - 1);
    }
  }

  /** A rearrangement within columns keeps the characters of the grid. */
  lemma ColumnsKeepBag(m1: seq<seq<char>>, m2: seq<seq<char>>, w: int)
    requires |m1| == |m2| && Rect(m1, w) && Rect(m2, w) && 0 <= w
    requires SameColumns(m1, m2, w)
    ensures Bag(m1) == Bag(m2)
  {
    BagByColumns(m1, w);
    BagByColumns(m2, w);
    ColumnsBagSame(m1, m2, w, w);
  }

  /** A rearrangement within rows keeps the characters of the grid. */
  lemma {:induction false} RowsKeepBag(m1: seq<seq<char>>, m2: seq<seq<char>>)
    requires |m1| == |m2| && SameRows(m1, m2)
    ensures Bag(m1) == Bag(m2)
    decreases |m1|
  {
    if |m1| > 0 {
      var n := |m1| - 1;
      forall r | 0 <= r < n
        ensures RowBag(m2[..n], r) == RowBag(m1[..n], r)
      {
        assert RowBag(m2, r) == RowBag(m1, r);
      }
      RowsKeepBag(m1[..n], m2[..n]);
      assert RowBag(m2, n) == RowBag(m1, n);
    }
  }

  lemma KeepsFixedTransitive(m1: seq<seq<char>>, m2: seq<seq<char>>, m3: seq<seq<char>>, w: int)
    requires KeepsFixed(m1, m2, w) && KeepsFixed(m2, m3, w)
    ensures KeepsFixed(m1, m3, w)
  {
  }

  lemma SameColumnsTransitive(m1: seq<seq<char>>, m2: seq<seq<char>>, m3: seq<seq<char>>, w: int)
    requires |m1| == |m2| == |m3| && Rect(m1, w) && Rect(m2, w) && Rect(m3, w)
    requires SameColumns(m1, m2, w) && SameColumns(m2, m3, w)
    ensures SameColumns(m1, m3, w)
  {
  }

  lemma SameRowsTransitive(m1: seq<seq<char>>, m2: seq<seq<char>>, m3: seq<seq<char>>)
    requires |m1| == |m2| == |m3| && SameRows(m1, m2) && SameRows(m2, m3)
    ensures SameRows(m1, m3)
  {
  }

  /** A finished row of a tilt starts the next one. */
  lemma NorthNextRow(m: seq<seq<char>>, w: int, row: int)
    requires NorthUpTo(m, w, row, w)
    ensures NorthUpTo(m, w, row + 1, 0)
  {
  }

  lemma SouthNextRow(m: seq<seq<char>>, w: int, row: int)
    requires SouthFrom(m, w, row, w)
    ensures SouthFrom(m, w, row - 1, 0)
  {
  }

  // ---------------------------------------------------------------------
  // The load on the north support beams
  // ---------------------------------------------------------------------

  /** stdr::count(row, 'O') */
  function CountRocks(row: seq<char>): (n: nat)
    ensures n <= |row|
  {
    if |row| == 0 then 0 else CountRocks(row[..|row| - 1]) + (if row[|row| - 1] == 'O' then 1 else 0)
  }

  /** The load of the first j rows, each row weighing its distance from the
      bottom edge: the rank that starts at the height and counts down. */
  function RankedLoad(m: seq<seq<char>>, j: int): int
    requires 0 <= j <= |m|
  {
    if j == 0 then 0 else RankedLoad(m, j - 1) + (|m| - (j - 1)) * CountRocks(m[j - 1])
  }

  /** The same load over the rows in reverse, each weighing its index + 1:
      the first k terms of the enumerate-over-reverse formula. */
  function EnumeratedLoad(m: seq<seq<char>>, k: int): int
    requires 0 <= k <= |m|
  {
    if k == 0 then 0 else EnumeratedLoad(m, k - 1) + k * CountRocks(m[|m| - k])
  }

  lemma {:induction false} RankedPlusRest(m: seq<seq<char>>, j: int)
    requires 0 <= j <= |m|
    ensures RankedLoad(m, j) + EnumeratedLoad(m, |m| - j) == EnumeratedLoad(m, |m|)
    decreases j
  {
    if j > 0 {
      RankedPlusRest(m, j - 1);
    }
  }

  /** The two load formulas of puzzle1 agree. */
  lemma LoadFormulasAgree(m: seq<seq<char>>)
    ensures RankedLoad(m, |m|) == EnumeratedLoad(m, |m|)
  {
    RankedPlusRest(m, |m|);
  }

  /** Each round rock adds at most the height to the load. */
  lemma {:induction false} LoadBound(m: seq<seq<char>>, w: int, j: int)
    requires Rect(m, w) && 0 <= j <= |m|
    ensures 0 <= RankedLoad(m, j) <= j * (|m| * w)
    decreases j
  {
    if j > 0 {
      LoadBound(m, w, j - 1);
      var k := CountRocks(m[j - 1]);
      MulMono(|m| - (j - 1), |m|, k, w);
      MulStep(j, |m| * w);
    }
  }

  lemma MulStep(j: int, x: int)
    ensures (j - 1) * x + x == j * x
  {
  }

  lemma MulMono(a: int, b: int, x: int, y: int)
    requires 0 <= a <= b && 0 <= x <= y
    ensures 0 <= a * x <= b * y
  {
  }

  // ---------------------------------------------------------------------
  // The platform: the source's two-dimensional array of cells
  // ---------------------------------------------------------------------

  class Rocks {
    const width: int
    const height: int
    /** Indexed [col, row], as the grid of the source. */
    const grid: array2<char>

    ghost predicate Valid() {
      grid.Length0 == width && grid.Length1 == height
    }

    /** The cells as rows, top row first. */
    ghost function Cells(): (m: seq<seq<char>>)
      requires Valid()
      reads grid
      ensures |m| == height && Rect(m, width)
      ensures forall r, c :: 0 <= r < height && 0 <= c < width ==> m[r][c] == grid[c, r]
    {
      seq(height, r requires 0 <= r < height reads grid =>
        seq(width, c requires 0 <= c < width reads grid => grid[c, r]))
    }

    /** A platform holding the given rows. */
    constructor(rows: seq<seq<char>>, w: nat)
      requires Rect(rows, w)
      ensures Valid() && width == w && height == |rows| && fresh(grid)
      ensures Cells() == rows
    {
      width := w;
      height := |rows|;
      grid := new char[w, |rows|]((c, r) requires 0 <= c < w && 0 <= r < |rows| => rows[r][c]);
      new;
      assert forall r :: 0 <= r < |rows| ==> Cells()[r] == rows[r];
    }

    method SwapInColumn(col: int, r1: int, r2: int)
      requires Valid() && 0 <= col < width && 0 <= r1 < height && 0 <= r2 < height && r1 != r2
      modifies grid
      ensures Cells() == SwapVertical(old(Cells()), width, col, r1, r2)
    {
      grid[col, r1], grid[col, r2] := grid[col, r2], grid[col, r1];
      var s := SwapVertical(old(Cells()), width, col, r1, r2);
      assert forall r :: 0 <= r < height ==> Cells()[r] == s[r];
    }

    method SwapInRow(row: int, c1: int, c2: int)
      requires Valid() && 0 <= row < height && 0 <= c1 < width && 0 <= c2 < width
      modifies grid
      ensures Cells() == SwapHorizontal(old(Cells()), width, row, c1, c2)
    {
      grid[c1, row], grid[c2, row] := grid[c2, row], grid[c1, row];
      var s := SwapHorizontal(old(Cells()), width, row, c1, c2);
      assert forall r :: 0 <= r < height ==> Cells()[r] == s[r];
    }

    /** tilt_north: rows from the second one down; each round rock rolls up
        while the cell above it is empty. */
    method TiltNorth()
      requires Valid()
      modifies grid
      ensures KeepsFixed(old(Cells()), Cells(), width)
      ensures SameColumns(old(Cells()), Cells(), width)
      ensures SettledNorth(Cells(), width)
      ensures Cells() == TiltedNorth(old(Cells()), width)
    {
      var w, h := width, height;
      var row := 1;
      while row < h
        invariant 1 <= row && (row <= h || h <= 1)
        invariant KeepsFixed(old(Cells()), Cells(), w) && SameColumns(old(Cells()), Cells(), w)
        invariant NorthUpTo(Cells(), w, row, 0)
        invariant TiltedNorth(old(Cells()), w) == TiltNorthFrom(Cells(), w, row, 0)
      {
        var col := 0;
        while col < w
          invariant 0 <= col <= w
          invariant KeepsFixed(old(Cells()), Cells(), w) && SameColumns(old(Cells()), Cells(), w)
          invariant NorthUpTo(Cells(), w, row, col)
          invariant TiltedNorth(old(Cells()), w) == TiltNorthFrom(Cells(), w, row, col)
        {
          if grid[col, row] == 'O' {
            ghost var before := Cells();
            RollNorth(row, col);
            KeepsFixedTransitive(old(Cells()), before, Cells(), w);
            SameColumnsTransitive(old(Cells()), before, Cells(), w);
          }
          col := col + 1;
        }
        NorthNextRow(Cells(), w, row);
        row := row + 1;
      }
    }

    /** The innermost loop of tilt_north for the round rock at (col, row). */
    method RollNorth(row: int, col: int)
      requires Valid() && 1 <= row < height && 0 <= col < width && grid[col, row] == 'O'
      requires NorthUpTo(Cells(), width, row, col)
      modifies grid
      ensures KeepsFixed(old(Cells()), Cells(), width) && SameColumns(old(Cells()), Cells(), width)
      ensures NorthUpTo(Cells(), width, row, col + 1)
      ensures Cells() == RollTo(old(Cells()), width, row, col, StopNorth(old(Cells()), width, col, row), col)
    {
      var w, h := width, height;
      ghost var m0 := Cells();
      assert SameColumns(m0, Cells(), w);
      var row2 := row - 1;
      while row2 >= 0 && grid[col, row2] == '.'
        invariant -1 <= row2 < row
        invariant KeepsFixed(m0, Cells(), w) && SameColumns(m0, Cells(), w)
        invariant Cells()[row2 + 1][col] == 'O'
        invariant forall k :: row2 + 1 < k <= row ==> Cells()[k][col] == '.'
        invariant StopNorth(m0, w, col, row) == StopNorth(m0, w, col, row2 + 1)
        invariant forall r, c :: 0 <= r < h && 0 <= c < w && (c != col || r <= row2 || r > row) ==>
          Cells()[r][c] == m0[r][c]
      {
        ghost var s := NorthStep(m0, Cells(), w, col, row, row2);
        SwapInColumn(col, row2, row2 + 1);
        assert Cells() == s;
        row2 := row2 - 1;
      }
      NorthRolled(m0, Cells(), w, row, col, row2);
    }

    /** tilt_south: rows from the second last one up; each round rock rolls
        down while the cell below it is empty. */
    method TiltSouth()
      requires Valid()
      modifies grid
      ensures KeepsFixed(old(Cells()), Cells(), width)
      ensures SameColumns(old(Cells()), Cells(), width)
      ensures SettledSouth(Cells(), width)
      ensures Cells() == TiltedSouth(old(Cells()), width)
    {
      var w, h := width, height;
      var row := h - 2;
      while row >= 0
        invariant -1 <= row <= h - 2 || (h == 0 && row == -2)
        invariant KeepsFixed(old(Cells()), Cells(), w) && SameColumns(old(Cells()), Cells(), w)
        invariant SouthFrom(Cells(), w, row, 0)
        invariant TiltedSouth(old(Cells()), w) == TiltSouthFrom(Cells(), w, row, 0)
      {
        var col := 0;
        while col < w
          invariant 0 <= col <= w
          invariant KeepsFixed(old(Cells()), Cells(), w) && SameColumns(old(Cells()), Cells(), w)
          invariant SouthFrom(Cells(), w, row, col)
          invariant TiltedSouth(old(Cells()), w) == TiltSouthFrom(Cells(), w, row, col)
        {
          if grid[col, row] == 'O' {
            ghost var before := Cells();
            RollSouth(row, col);
            KeepsFixedTransitive(old(Cells()), before, Cells(), w);
            SameColumnsTransitive(old(Cells()), before, Cells(), w);
          }
          col := col + 1;
        }
        SouthNextRow(Cells(), w, row);
        row := row - 1;
      }
    }

    /** The innermost loop of tilt_south for the round rock at (col, row). */
    method RollSouth(row: int, col: int)
      requires Valid() && 0 <= row < height - 1 && 0 <= col < width && grid[col, row] == 'O'
      requires SouthFrom(Cells(), width, row, col)
      modifies grid
      ensures KeepsFixed(old(Cells()), Cells(), width) && SameColumns(old(Cells()), Cells(), width)
      ensures SouthFrom(Cells(), width, row, col + 1)
      ensures Cells() == RollTo(old(Cells()), width, row, col, StopSouth(old(Cells()), width, col, row), col)
    {
      var w, h := width, height;
      ghost var m0 := Cells();
      assert SameColumns(m0, Cells(), w);
      var row2 := row + 1;
      while row2 < h && grid[col, row2] == '.'
        invariant row < row2 <= h
        invariant KeepsFixed(m0, Cells(), w) && SameColumns(m0, Cells(), w)
        invariant Cells()[row2 - 1][col] == 'O'
        invariant forall k :: row <= k < row2 - 1 ==> Cells()[k][col] == '.'
        invariant StopSouth(m0, w, col, row) == StopSouth(m0, w, col, row2 - 1)
        invariant forall r, c :: 0 <= r < h && 0 <= c < w && (c != col || r >= row2 || r < row) ==>
          Cells()[r][c] == m0[r][c]
      {
        ghost var s := SouthStep(m0, Cells(), w, col, row, row2);
        SwapInColumn(col, row2, row2 - 1);
        assert Cells() == s;
        row2 := row2 + 1;
      }
      SouthRolled(m0, Cells(), w, row, col, row2);
    }

    /** tilt_west: each row from the second column on; each round rock
        rolls left while the cell to its left is empty. */
    method TiltWest()
      requires Valid()
      modifies grid
      ensures KeepsFixed(old(Cells()), Cells(), width)
      ensures SameRows(old(Cells()), Cells())
      ensures SettledWest(Cells(), width)
      ensures Cells() == TiltedWest(old(Cells()), width)
    {
      var w, h := width, height;
      var row := 0;
      while row < h
        invariant 0 <= row <= h
        invariant KeepsFixed(old(Cells()), Cells(), w) && SameRows(old(Cells()), Cells())
        invariant WestUpTo(Cells(), w, row, 0)
        invariant TiltedWest(old(Cells()), w) == TiltWestFrom(Cells(), w, row, 1)
      {
        var col := 1;
        while col < w
          invariant 1 <= col && (col <= w || w <= 1)
          invariant KeepsFixed(old(Cells()), Cells(), w) && SameRows(old(Cells()), Cells())
          invariant WestUpTo(Cells(), w, row, col)
          invariant TiltedWest(old(Cells()), w) == TiltWestFrom(Cells(), w, row, col)
        {
          if grid[col, row] == 'O' {
            ghost var before := Cells();
            RollWest(row, col);
            KeepsFixedTransitive(old(Cells()), before, Cells(), w);
            SameRowsTransitive(old(Cells()), before, Cells());
          }
          col := col + 1;
        }
        row := row + 1;
      }
    }

    /** The innermost loop of tilt_west for the round rock at (col, row). */
    method RollWest(row: int, col: int)
      requires Valid() && 0 <= row < height && 1 <= col < width && grid[col, row] == 'O'
      requires WestUpTo(Cells(), width, row, col)
      modifies grid
      ensures KeepsFixed(old(Cells()), Cells(), width) && SameRows(old(Cells()), Cells())
      ensures WestUpTo(Cells(), width, row, col + 1)
      ensures Cells() == RollTo(old(Cells()), width, row, col, row, StopWest(old(Cells()), width, row, col))
    {
      var w, h := width, height;
      ghost var m0 := Cells();
      assert SameRows(m0, Cells());
      var col2 := col - 1;
      while col2 >= 0 && grid[col2, row] == '.'
        invariant -1 <= col2 < col
        invariant KeepsFixed(m0, Cells(), w) && SameRows(m0, Cells())
        invariant Cells()[row][col2 + 1] == 'O'
        invariant forall k :: col2 + 1 < k <= col ==> Cells()[row][k] == '.'
        invariant StopWest(m0, w, row, col) == StopWest(m0, w, row, col2 + 1)
        invariant forall r, c :: 0 <= r < h && 0 <= c < w && (r != row || c <= col2 || c > col) ==>
          Cells()[r][c] == m0[r][c]
      {
        ghost var s := WestStep(m0, Cells(), w, row, col, col2);
        SwapInRow(row, col2, col2 + 1);
        assert Cells() == s;
        col2 := col2 - 1;
      }
      WestRolled(m0, Cells(), w, row, col, col2);
    }

    /** tilt_east: each row from the second last column leftwards; each
        round rock rolls right while the cell to its right is empty. */
    method TiltEast()
      requires Valid()
      modifies grid
      ensures KeepsFixed(old(Cells()), Cells(), width)
      ensures SameRows(old(Cells()), Cells())
      ensures SettledEast(Cells(), width)
      ensures Cells() == TiltedEast(old(Cells()), width)
    {
      var w, h := width, height;
      var row := 0;
      while row < h
        invariant 0 <= row <= h
        invariant KeepsFixed(old(Cells()), Cells(), w) && SameRows(old(Cells()), Cells())
        invariant EastFrom(Cells(), w, row, w)
        invariant TiltedEast(old(Cells()), w) == TiltEastFrom(Cells(), w, row, w - 2)
      {
        var col := w - 2;
        while col >= 0
          invariant -1 <= col <= w - 2 || (w == 0 && col == -2)
          invariant KeepsFixed(old(Cells()), Cells(), w) && SameRows(old(Cells()), Cells())
          invariant EastFrom(Cells(), w, row, col)
          invariant TiltedEast(old(Cells()), w) == TiltEastFrom(Cells(), w, row, col)
        {
          if grid[col, row] == 'O' {
            ghost var before := Cells();
            RollEast(row, col);
            KeepsFixedTransitive(old(Cells()), before, Cells(), w);
            SameRowsTransitive(old(Cells()), before, Cells());
          }
          col := col - 1;
        }
        row := row + 1;
      }
    }

    /** The innermost loop of tilt_east for the round rock at (col, row). */
    method RollEast(row: int, col: int)
      requires Valid() && 0 <= row < height && 0 <= col < width - 1 && grid[col, row] == 'O'
      requires EastFrom(Cells(), width, row, col)
      modifies grid
      ensures KeepsFixed(old(Cells()), Cells(), width) && SameRows(old(Cells()), Cells())
      ensures EastFrom(Cells(), width, row, col - 1)
      ensures Cells() == RollTo(old(Cells()), width, row, col, row, StopEast(old(Cells()), width, row, col))
    {
      var w, h := width, height;
      ghost var m0 := Cells();
      assert SameRows(m0, Cells());
      var col2 := col + 1;
      while col2 < w && grid[col2, row] == '.'
        invariant col < col2 <= w
        invariant KeepsFixed(m0, Cells(), w) && SameRows(m0, Cells())
        invariant Cells()[row][col2 - 1] == 'O'
        invariant forall k :: col <= k < col2 - 1 ==> Cells()[row][k] == '.'
        invariant StopEast(m0, w, row, col) == StopEast(m0, w, row, col2 - 1)
        invariant forall r, c :: 0 <= r < h && 0 <= c < w && (r != row || c >= col2 || c < col) ==>
          Cells()[r][c] == m0[r][c]
      {
        ghost var s := EastStep(m0, Cells(), w, row, col, col2);
        SwapInRow(row, col2, col2 - 1);
        assert Cells() == s;
        col2 := col2 + 1;
      }
      EastRolled(m0, Cells(), w, row, col, col2);
    }

    /** cycle: north, west, south, east. The fixed rocks stay put, the
        grid holds the same characters, and it ends settled to the east. */
    method Cycle()
      requires Valid()
      modifies grid
      ensures KeepsFixed(old(Cells()), Cells(), width)
      ensures Bag(Cells()) == Bag(old(Cells()))
      ensures SettledEast(Cells(), width)
      ensures Cells() == Cycled(old(Cells()), width)
    {
      ghost var m0 := Cells();
      TiltNorth();
      ghost var m1 := Cells();
      ColumnsKeepBag(m0, m1, width);
      TiltWest();
      ghost var m2 := Cells();
      RowsKeepBag(m1, m2);
      KeepsFixedTransitive(m0, m1, m2, width);
      TiltSouth();
      ghost var m3 := Cells();
      ColumnsKeepBag(m2, m3, width);
      KeepsFixedTransitive(m0, m2, m3, width);
      TiltEast();
      RowsKeepBag(m3, Cells());
      KeepsFixedTransitive(m0, m3, Cells(), width);
    }

    /** The load loop of puzzle1: rank starts at the height and counts
        down one per row. */
    method Load() returns (res: int)
      requires Valid()
      ensures res == RankedLoad(Cells(), height)
      ensures res == EnumeratedLoad(Cells(), height)
      ensures 0 <= res <= height * (height * width)
    {
      ghost var m := Cells();
      res := 0;
      var rank := height;
      for r := 0 to height
        invariant rank == height - r
        invariant res == RankedLoad(m, r)
      {
        var count := 0;
        for c := 0 to width
          invariant count == CountRocks(m[r][..c])
        {
          assert m[r][..c + 1][..c] == m[r][..c];
          if grid[c, r] == 'O' {
            count := count + 1;
          }
        }
        assert m[r][..width] == m[r];
        res := res + rank * count;
        rank := rank - 1;
      }
      LoadFormulasAgree(m);
      LoadBound(m, width, height);
    }
  }
}
