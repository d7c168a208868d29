/** The 9x9 board: cell numbering, the row, column and box groups, the
    increment tables with which the solver walks a group, the puzzle-string
    encoding of givens, and the rules a completed grid must obey.

    A grid is a sequence of 81 cell values in row-major order (cell = row * 9 + col);
    -1 marks an empty cell and 0..8 stand for the digits 1..9. */
module Board {

  const Empty := -1

  predicate IsCell(p: int) { 0 <= p < 81 }

  function Row(p: int): int { p / 9 }
  function Col(p: int): int { p % 9 }
  function BoxRow(p: int): int { p / 9 / 3 }
  function BoxCol(p: int): int { p % 9 / 3 }

  predicate SameRow(p: int, q: int) { Row(p) == Row(q) }
  predicate SameCol(p: int, q: int) { Col(p) == Col(q) }
  predicate SameBox(p: int, q: int) { BoxRow(p) == BoxRow(q) && BoxCol(p) == BoxCol(q) }

  /** p and q share a row, a column or a box (a cell is its own peer). */
  predicate Peer(p: int, q: int) { SameRow(p, q) || SameCol(p, q) || SameBox(p, q) }

  /** A grid of 81 values, each empty or a digit 0..8. */
  predicate IsGrid(g: seq<int>) {
    |g| == 81 && forall i :: 0 <= i < 81 ==> Empty <= g[i] <= 8
  }

  predicate IsFull(g: seq<int>)
    requires |g| == 81
  {
    forall i :: 0 <= i < 81 ==> g[i] != Empty
  }

  // ---------------------------------------------------------------------
  // Group walks. update_group starts at a start cell and, for j = 0..8,
  // adds inc[j] to its index and clears a candidate bit at the new index.

  const RowInc: seq<int> := [0, 1, 1, 1, 1, 1, 1, 1, 1]
  const ColInc: seq<int> := [0, 9, 9, 9, 9, 9, 9, 9, 9]
  const BoxInc: seq<int> := [0, 1, 1, 7, 1, 1, 7, 1, 1]

  /** The start cells update_row, update_col and update_box pass to update_group. */
  function RowStart(pos: int): int { pos / 9 * 9 }
  function ColStart(pos: int): int { pos % 9 }
  function BoxStart(pos: int): int { (pos / 9 / 3 * 3) * 9 + pos % 9 / 3 * 3 }

  /** The row walk starts in column 0 of pos's row. */
  lemma RowStartIsFirst(pos: int)
    requires IsCell(pos)
    ensures IsCell(RowStart(pos)) && SameRow(RowStart(pos), pos) && Col(RowStart(pos)) == 0
  {
  }

  /** The column walk starts in row 0 of pos's column. */
  lemma ColStartIsFirst(pos: int)
    requires IsCell(pos)
    ensures IsCell(ColStart(pos)) && SameCol(ColStart(pos), pos) && Row(ColStart(pos)) == 0
  {
  }

  /** The box walk starts in the top-left cell of pos's box. */
  lemma BoxStartIsCorner(pos: int)
    requires IsCell(pos)
    ensures IsCell(BoxStart(pos)) && SameBox(BoxStart(pos), pos)
    ensures Row(BoxStart(pos)) % 3 == 0 && Col(BoxStart(pos)) % 3 == 0
  {
    var br, bc := BoxRow(pos), BoxCol(pos);
    assert BoxStart(pos) == 27 * br + 3 * bc;
    BoxOffset(br, bc, 0, 0);
  }

  /** inc[0] + ... + inc[n-1]. */
  function PrefixSum(inc: seq<int>, n: nat): int
    requires n <= |inc|
  {
    if n == 0 then 0 else PrefixSum(inc, n - 1) + inc[n - 1]
  }

  /** The index the walk holds after its n-th step. */
  function WalkAt(start: int, inc: seq<int>, n: nat): int
    requires n <= |inc|
  {
    start + PrefixSum(inc, n)
  }

  /** The cells the walk has visited after n steps. */
  function WalkCells(start: int, inc: seq<int>, n: nat): (cells: set<int>)
    requires n <= |inc|
    ensures |cells| <= n
  {
    if n == 0 then {} else WalkCells(start, inc, n - 1) + {WalkAt(start, inc, n)}
  }

  /** Every index the 9-step walk computes is a cell. */
  predicate WalkInBounds(start: int, inc: seq<int>) {
    |inc| == 9 && forall n :: 1 <= n <= 9 ==> IsCell(WalkAt(start, inc, n))
  }

  /** A walk whose steps after the first are positive visits n distinct cells,
      all at most its current index. */
  lemma {:induction false} WalkCellsCount(start: int, inc: seq<int>, n: nat)
    requires n <= |inc|
    requires forall j :: 1 <= j < |inc| ==> inc[j] > 0
    ensures |WalkCells(start, inc, n)| == n
    ensures forall k :: k in WalkCells(start, inc, n) ==> k <= WalkAt(start, inc, n)
  {
    if n > 0 {
      WalkCellsCount(start, inc, n - 1);
      if n > 1 {
        assert WalkAt(start, inc, n) > WalkAt(start, inc, n - 1);
      }
      assert WalkAt(start, inc, n) !in WalkCells(start, inc, n - 1);
    }
  }

  /** k was visited by the first n steps exactly when some step m <= n computed it. */
  lemma {:induction false} WalkCellsMember(start: int, inc: seq<int>, n: nat, k: int)
    requires n <= |inc|
    ensures k in WalkCells(start, inc, n) <==> exists m :: 1 <= m <= n && k == WalkAt(start, inc, m)
  {
    if n > 0 {
      WalkCellsMember(start, inc, n - 1, k);
    }
  }

  /** The row walk from s visits s, s + 1, .., s + 8. */
  lemma RowWalkSteps(s: int)
    ensures forall n :: 1 <= n <= 9 ==> WalkAt(s, RowInc, n) == s + n - 1
  {
  }

  /** The column walk from s visits s, s + 9, .., s + 72. */
  lemma ColWalkSteps(s: int)
    ensures forall n :: 1 <= n <= 9 ==> WalkAt(s, ColInc, n) == s + 9 * (n - 1)
  {
  }

  /** The box walk from s visits three runs of three cells, one row apart. */
  lemma BoxWalkSteps(s: int)
    ensures forall n :: 1 <= n <= 9 ==> WalkAt(s, BoxInc, n) == s + (n - 1) / 3 * 9 + (n - 1) % 3
  {
  }

  lemma Split9(k: int, a: int, b: int)
    requires 0 <= b < 9 && k == 9 * a + b
    ensures k / 9 == a && k % 9 == b
  {
  }

  lemma Split3(k: int, a: int, b: int)
    requires 0 <= b < 3 && k == 3 * a + b
    ensures k / 3 == a && k % 3 == b
  {
  }

  /** The walk of update_row stays on the board and visits exactly the 9 cells of pos's row. */
  lemma RowWalk(pos: int)
    requires IsCell(pos)
    ensures WalkInBounds(RowStart(pos), RowInc)
    ensures forall k :: IsCell(k) ==> (k in WalkCells(RowStart(pos), RowInc, 9) <==> SameRow(k, pos))
    ensures |WalkCells(RowStart(pos), RowInc, 9)| == 9
  {
    RowWalkSteps(RowStart(pos));
    WalkCellsCount(RowStart(pos), RowInc, 9);
    forall k | IsCell(k)
      ensures k in WalkCells(RowStart(pos), RowInc, 9) <==> SameRow(k, pos)
    {
      RowWalkVisits(pos, k);
    }
  }

  lemma RowWalkVisits(pos: int, k: int)
    requires IsCell(pos) && IsCell(k)
    ensures k in WalkCells(RowStart(pos), RowInc, 9) <==> SameRow(k, pos)
  {
    var s := RowStart(pos);
    RowWalkSteps(s);
    WalkCellsMember(s, RowInc, 9, k);
    if k in WalkCells(s, RowInc, 9) {
      var m :| 1 <= m <= 9 && k == WalkAt(s, RowInc, m);
      Split9(k, Row(pos), m - 1);
    }
    if SameRow(k, pos) {
      Split9(k, k / 9, k % 9);
      assert k == WalkAt(s, RowInc, k % 9 + 1);
    }
  }

  /** The walk of update_col stays on the board and visits exactly the 9 cells of pos's column. */
  lemma ColWalk(pos: int)
    requires IsCell(pos)
    ensures WalkInBounds(ColStart(pos), ColInc)
    ensures forall k :: IsCell(k) ==> (k in WalkCells(ColStart(pos), ColInc, 9) <==> SameCol(k, pos))
    ensures |WalkCells(ColStart(pos), ColInc, 9)| == 9
  {
    ColWalkSteps(ColStart(pos));
    WalkCellsCount(ColStart(pos), ColInc, 9);
    forall k | IsCell(k)
      ensures k in WalkCells(ColStart(pos), ColInc, 9) <==> SameCol(k, pos)
    {
      ColWalkVisits(pos, k);
    }
  }

  lemma ColWalkVisits(pos: int, k: int)
    requires IsCell(pos) && IsCell(k)
    ensures k in WalkCells(ColStart(pos), ColInc, 9) <==> SameCol(k, pos)
  {
    var s := ColStart(pos);
    ColWalkSteps(s);
    WalkCellsMember(s, ColInc, 9, k);
    if k in WalkCells(s, ColInc, 9) {
      var m :| 1 <= m <= 9 && k == WalkAt(s, ColInc, m);
      Split9(k, m - 1, s);
    }
    if SameCol(k, pos) {
      Split9(k, k / 9, k % 9);
      assert k == WalkAt(s, ColInc, k / 9 + 1);
    }
  }

  /** The walk of update_box stays on the board and visits exactly the 9 cells of pos's box. */
  lemma BoxWalk(pos: int)
    requires IsCell(pos)
    ensures WalkInBounds(BoxStart(pos), BoxInc)
    ensures forall k :: IsCell(k) ==> (k in WalkCells(BoxStart(pos), BoxInc, 9) <==> SameBox(k, pos))
    ensures |WalkCells(BoxStart(pos), BoxInc, 9)| == 9
  {
    var s := BoxStart(pos);
    var br, bc := BoxRow(pos), BoxCol(pos);
    assert s == 27 * br + 3 * bc;
    BoxWalkSteps(s);
    WalkCellsCount(s, BoxInc, 9);
    forall n | 1 <= n <= 9
      ensures IsCell(WalkAt(s, BoxInc, n))
    {
      BoxOffset(br, bc, (n - 1) / 3, (n - 1) % 3);
    }
    forall k | IsCell(k)
      ensures k in WalkCells(s, BoxInc, 9) <==> SameBox(k, pos)
    {
      BoxWalkVisits(pos, k);
    }
  }

  lemma BoxWalkVisits(pos: int, k: int)
    requires IsCell(pos) && IsCell(k)
    ensures k in WalkCells(BoxStart(pos), BoxInc, 9) <==> SameBox(k, pos)
  {
    WalkCellsMember(BoxStart(pos), BoxInc, 9, k);
    if k in WalkCells(BoxStart(pos), BoxInc, 9) {
      var m :| 1 <= m <= 9 && k == WalkAt(BoxStart(pos), BoxInc, m);
      BoxWalkStepInBox(pos, m);
    }
    if SameBox(k, pos) {
      BoxCellIsStep(pos, k);
    }
  }

  /** Step m of the box walk lands in pos's box. */
  lemma BoxWalkStepInBox(pos: int, m: int)
    requires IsCell(pos) && 1 <= m <= 9
    ensures SameBox(WalkAt(BoxStart(pos), BoxInc, m), pos)
  {
    var br, bc := BoxRow(pos), BoxCol(pos);
    assert BoxStart(pos) == 27 * br + 3 * bc;
    BoxWalkSteps(BoxStart(pos));
    BoxOffset(br, bc, (m - 1) / 3, (m - 1) % 3);
  }

  /** Every cell of pos's box is computed by some step of the box walk. */
  lemma BoxCellIsStep(pos: int, k: int)
    requires IsCell(pos) && IsCell(k) && SameBox(k, pos)
    ensures exists m :: 1 <= m <= 9 && k == WalkAt(BoxStart(pos), BoxInc, m)
  {
    var br, bc := BoxRow(pos), BoxCol(pos);
    var s := BoxStart(pos);
    assert s == 27 * br + 3 * bc;
    var a, b := k / 9 % 3, k % 9 % 3;
    Split9(k, k / 9, k % 9);
    Split3(k / 9, br, a);
    Split3(k % 9, bc, b);
    assert k == s + 9 * a + b;
    Split3(3 * a + b, a, b);
    BoxWalkSteps(s);
    assert k == WalkAt(s, BoxInc, 3 * a + b + 1);
  }

  /** Cell 27 * br + 3 * bc + 9 * a + b lies in box row br and box column bc. */
  lemma BoxOffset(br: int, bc: int, a: int, b: int)
    requires 0 <= br < 3 && 0 <= bc < 3 && 0 <= a < 3 && 0 <= b < 3
    ensures IsCell(27 * br + 3 * bc + 9 * a + b)
    ensures BoxRow(27 * br + 3 * bc + 9 * a + b) == br
    ensures BoxCol(27 * br + 3 * bc + 9 * a + b) == bc
  {
    var k := 27 * br + 3 * bc + 9 * a + b;
    Split9(k, 3 * br + a, 3 * bc + b);
    Split3(3 * br + a, br, a);
    Split3(3 * bc + b, bc, b);
  }

  // ---------------------------------------------------------------------
  // Puzzle strings: 81 characters, '.' for an empty cell, '1'..'9' for a given.

  predicate IsInputChar(c: char) { c == '.' || '1' <= c <= '9' }

  predicate ValidInput(input: string) {
    |input| == 81 && forall i :: 0 <= i < 81 ==> IsInputChar(input[i])
  }

  /** The cell value initialize_grid stores for an input character: -1 for '.', ch - '1' otherwise. */
  function GivenValue(c: char): int
    requires IsInputChar(c)
  {
    if c == '.' then Empty else c as int - '1' as int
  }

  lemma GivenValueInjective(c: char, c': char)
    requires IsInputChar(c) && IsInputChar(c') && GivenValue(c) == GivenValue(c')
    ensures c == c'
  {
  }

  function GivensGrid(input: string): (g: seq<int>)
    requires ValidInput(input)
    ensures IsGrid(g)
  {
    seq(81, i requires 0 <= i < 81 => GivenValue(input[i]))
  }

  /** Two different cells of one group hold the same given digit. */
  ghost predicate ConflictingGivens(input: string)
    requires ValidInput(input)
  {
    exists p, q :: IsCell(p) && IsCell(q) && p != q && Peer(p, q) && input[p] != '.' && input[p] == input[q]
  }

  // ---------------------------------------------------------------------
  // The rules.

  /** No two different peers hold the same digit. */
  ghost predicate NoClash(g: seq<int>)
    requires |g| == 81
  {
    forall p, q :: IsCell(p) && IsCell(q) && p != q && Peer(p, q) && g[p] != Empty ==> g[p] != g[q]
  }

  /** A completed grid that obeys the rules. */
  ghost predicate IsSolution(s: seq<int>) {
    |s| == 81 && (forall i :: 0 <= i < 81 ==> 0 <= s[i] <= 8) && NoClash(s)
  }

  /** s solves the puzzle whose partial grid is g: it keeps every filled cell of g. */
  ghost predicate IsCompletion(s: seq<int>, g: seq<int>) {
    |g| == 81 && IsSolution(s) && forall i :: 0 <= i < 81 && g[i] != Empty ==> s[i] == g[i]
  }

  ghost predicate HasCompletion(g: seq<int>) {
    exists s :: IsCompletion(s, g)
  }

  /** Givens that clash leave nothing to complete. */
  lemma ConflictingGivensUnsolvable(input: string)
    requires ValidInput(input) && ConflictingGivens(input)
    ensures !HasCompletion(GivensGrid(input))
  {
    var p, q :| IsCell(p) && IsCell(q) && p != q && Peer(p, q) && input[p] != '.' && input[p] == input[q];
    var g := GivensGrid(input);
    assert g[p] == g[q] != Empty;
  }

  /** A fixed solution: row r, column c holds (3 * (r % 3) + r / 3 + c) % 9. */
  function PatternValue(r: int, c: int): int {
    (3 * (r % 3) + r / 3 + c) % 9
  }

  function PatternGrid(): (s: seq<int>)
    ensures |s| == 81
  {
    seq(81, p requires 0 <= p < 81 => PatternValue(p / 9, p % 9))
  }

  lemma ModNineDiffer(u: int, v: int)
    requires u != v && -9 < u - v < 9
    ensures u % 9 != v % 9
  {
  }

  /** Two distinct peers get different pattern values. */
  lemma PatternDistinct(p: int, q: int)
    requires IsCell(p) && IsCell(q) && p != q && Peer(p, q)
    ensures PatternValue(p / 9, p % 9) != PatternValue(q / 9, q % 9)
  {
    if SameRow(p, q) {
      PatternRowDistinct(p / 9, p % 9, q % 9);
    } else if SameCol(p, q) {
      PatternColDistinct(p / 9, q / 9, p % 9);
    } else {
      PatternBoxDistinct(p / 9, p % 9, q / 9, q % 9);
    }
  }

  lemma PatternRowDistinct(r: int, c: int, c': int)
    requires 0 <= r < 9 && 0 <= c < 9 && 0 <= c' < 9 && c != c'
    ensures PatternValue(r, c) != PatternValue(r, c')
  {
    ModNineDiffer(3 * (r % 3) + r / 3 + c, 3 * (r % 3) + r / 3 + c');
  }

  lemma PatternColDistinct(r: int, r': int, c: int)
    requires 0 <= r < 9 && 0 <= r' < 9 && 0 <= c < 9 && r != r'
    ensures PatternValue(r, c) != PatternValue(r', c)
  {
    Split3(r, r / 3, r % 3);
    Split3(r', r' / 3, r' % 3);
    ModNineDiffer(3 * (r % 3) + r / 3 + c, 3 * (r' % 3) + r' / 3 + c);
  }

  lemma PatternBoxDistinct(r: int, c: int, r': int, c': int)
    requires 0 <= r < 9 && 0 <= c < 9 && 0 <= r' < 9 && 0 <= c' < 9
    requires r != r' && c != c' && r / 3 == r' / 3 && c / 3 == c' / 3
    ensures PatternValue(r, c) != PatternValue(r', c')
  {
    Split3(r, r / 3, r % 3);
    Split3(r', r' / 3, r' % 3);
    Split3(c, c / 3, c % 3);
    Split3(c', c' / 3, c' % 3);
    ModNineDiffer(3 * (r % 3) + r / 3 + c, 3 * (r' % 3) + r' / 3 + c');
  }

  /** The empty puzzle has a solution. */
  lemma PatternIsSolution()
    ensures IsSolution(PatternGrid())
  {
    var s := PatternGrid();
    forall p, q | IsCell(p) && IsCell(q) && p != q && Peer(p, q) && s[p] != Empty
      ensures s[p] != s[q]
    {
      PatternDistinct(p, q);
    }
  }

  /** The indices update_group visits, in visiting order. */
  function Walk(start: int, inc: seq<int>): (w: seq<int>)
    ensures |w| == |inc|
  {
    seq(|inc|, j requires 0 <= j < |inc| => WalkAt(start, inc, j + 1))
  }

  lemma {:induction false} WalkIncreasing(start: int, inc: seq<int>, m: nat, n: nat)
    requires 1 <= m < n <= |inc|
    requires forall j :: 1 <= j < |inc| ==> inc[j] > 0
    ensures WalkAt(start, inc, m) < WalkAt(start, inc, n)
    decreases n - m
  {
    if m + 1 < n {
      WalkIncreasing(start, inc, m, n - 1);
    }
  }

  /** A 9-step walk with positive later steps visits 9 different cells, each one of WalkCells. */
  lemma WalkVisits(start: int, inc: seq<int>)
    requires |inc| == 9
    requires forall j :: 1 <= j < |inc| ==> inc[j] > 0
    ensures forall j :: 0 <= j < 9 ==> Walk(start, inc)[j] in WalkCells(start, inc, 9)
    ensures forall j, j' :: 0 <= j < j' < 9 ==> Walk(start, inc)[j] != Walk(start, inc)[j']
  {
    var w := Walk(start, inc);
    forall j | 0 <= j < 9
      ensures w[j] in WalkCells(start, inc, 9)
    {
      WalkCellsMember(start, inc, 9, w[j]);
      assert w[j] == WalkAt(start, inc, j + 1);
    }
    forall j, j' | 0 <= j < j' < 9
      ensures w[j] != w[j']
    {
      WalkIncreasing(start, inc, j + 1, j' + 1);
    }
  }

  /** In a solution the row of every cell holds every digit. */
  lemma RowHasEveryDigit(s: seq<int>, pos: int, d: int)
    requires IsSolution(s) && IsCell(pos) && 0 <= d <= 8
    ensures exists k :: IsCell(k) && SameRow(k, pos) && s[k] == d
  {
    var w := Walk(RowStart(pos), RowInc);
    RowWalk(pos);
    WalkVisits(RowStart(pos), RowInc);
    var j := GroupHasDigit(s, w, d);
  }

  /** In a solution the column of every cell holds every digit. */
  lemma ColHasEveryDigit(s: seq<int>, pos: int, d: int)
    requires IsSolution(s) && IsCell(pos) && 0 <= d <= 8
    ensures exists k :: IsCell(k) && SameCol(k, pos) && s[k] == d
  {
    var w := Walk(ColStart(pos), ColInc);
    ColWalk(pos);
    WalkVisits(ColStart(pos), ColInc);
    var j := GroupHasDigit(s, w, d);
  }

  /** In a solution the box of every cell holds every digit. */
  lemma BoxHasEveryDigit(s: seq<int>, pos: int, d: int)
    requires IsSolution(s) && IsCell(pos) && 0 <= d <= 8
    ensures exists k :: IsCell(k) && SameBox(k, pos) && s[k] == d
  {
    var w := Walk(BoxStart(pos), BoxInc);
    BoxWalk(pos);
    WalkVisits(BoxStart(pos), BoxInc);
    var j := GroupHasDigit(s, w, d);
  }

  /** 9 different, pairwise-peer cells of a solution hold 9 different digits out of 9, so every digit. */
  lemma GroupHasDigit(s: seq<int>, w: seq<int>, d: int) returns (j: int)
    requires IsSolution(s) && 0 <= d <= 8 && |w| == 9
    requires forall i :: 0 <= i < 9 ==> IsCell(w[i])
    requires forall i, i' :: 0 <= i < 9 && 0 <= i' < 9 ==> Peer(w[i], w[i'])
    requires forall i, i' :: 0 <= i < i' < 9 ==> w[i] != w[i']
    ensures 0 <= j < 9 && s[w[j]] == d
  {
    var values := seq(9, i requires 0 <= i < 9 => s[w[i]]);
    forall i, i' | 0 <= i < i' < 9
      ensures values[i] != values[i']
    {
      assert Peer(w[i], w[i']) && w[i] != w[i'];
    }
    j := NineDigitsHoldEach(values, d);
  }

  /** Nine pairwise-different digits include every digit. */
  lemma NineDigitsHoldEach(values: seq<int>, d: int) returns (j: int)
    requires |values| == 9 && 0 <= d <= 8
    requires forall i :: 0 <= i < 9 ==> 0 <= values[i] <= 8
    requires forall i, i' :: 0 <= i < i' < 9 ==> values[i] != values[i']
    ensures 0 <= j < 9 && values[j] == d
  {
    DistinctCount(values, 9);
    var digits := set i | 0 <= i < 9 :: values[i];
    assert digits <= {0, 1, 2, 3, 4, 5, 6, 7, 8};
    SubsetOfSameSize(digits, {0, 1, 2, 3, 4, 5, 6, 7, 8});
    assert d in digits;
    j :| 0 <= j < 9 && values[j] == d;
  }

  /** A sequence of pairwise-different values has n values in its first n places. */
  lemma {:induction false} DistinctCount(v: seq<int>, n: nat)
    requires n <= |v|
    requires forall i, j :: 0 <= i < j < |v| ==> v[i] != v[j]
    ensures |set i | 0 <= i < n :: v[i]| == n
  {
    if n > 0 {
      DistinctCount(v, n - 1);
      assert (set i | 0 <= i < n :: v[i]) == (set i | 0 <= i < n - 1 :: v[i]) + {v[n - 1]};
    }
  }

  lemma SubsetOfSameSize(a: set<int>, b: set<int>)
    requires a <= b && |a| == |b|
    ensures a == b
  {
    assert |b - a| == |b| - |a|;
  }
}
