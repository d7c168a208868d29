/** A functional specification of the solver's state and of every step that
    changes it: the full state, candidate propagation, grid initialisation,
    the minimum-remaining-values choice and the depth-first search with
    snapshot and restore. The class in module Sudoku is proved to compute
    exactly these functions; the lemmas here say what they mean: the search
    finds a solution that keeps the givens, and reports failure only when the
    puzzle has no solution. */
module Solving {
  import opened Util
  import opened Board

  /** The solver's whole state: the grid, and for each cell the digits 0..8
      whose candidate bit is still set. */
  datatype State = State(grid: seq<int>, cand: seq<set<int>>)

  const AllDigits: set<int> := {0, 1, 2, 3, 4, 5, 6, 7, 8}

  predicate WellFormed(st: State) {
    IsGrid(st.grid) && |st.cand| == 81 && forall i :: 0 <= i < 81 ==> st.cand[i] <= AllDigits
  }

  /** The state the constructor builds: every cell empty, every candidate bit set. */
  function InitialState(): (st: State)
    ensures WellFormed(st)
  {
    State(seq(81, _ => Empty), seq(81, _ => AllDigits))
  }

  lemma CandidateCount(s: set<int>)
    requires s <= AllDigits
    ensures |s| <= 9
  {
    assert |AllDigits - s| == |AllDigits| - |s|;
  }

  // ---------------------------------------------------------------------
  // Propagation.

  /** update_candidates(pos) with grid[pos] == d: bit d cleared in every cell
      sharing a row, a column or a box with pos, pos itself included. */
  function ClearPeers(cand: seq<set<int>>, pos: int, d: int): (r: seq<set<int>>)
    requires |cand| == 81
    ensures |r| == 81
    ensures forall k :: 0 <= k < 81 ==> r[k] <= cand[k] && cand[k] - r[k] <= {d}
    ensures forall k :: 0 <= k < 81 ==> (d in r[k] <==> d in cand[k] && !Peer(k, pos))
  {
    seq(81, k requires 0 <= k < 81 => if Peer(k, pos) then cand[k] - {d} else cand[k])
  }

  /** Propagating the same digit from the same cell a second time changes nothing. */
  lemma ClearPeersIdempotent(cand: seq<set<int>>, pos: int, d: int)
    requires |cand| == 81
    ensures ClearPeers(ClearPeers(cand, pos, d), pos, d) == ClearPeers(cand, pos, d)
  {
    var once := ClearPeers(cand, pos, d);
    forall k | 0 <= k < 81
      ensures ClearPeers(once, pos, d)[k] == once[k]
    {
      if Peer(k, pos) {
        assert once[k] - {d} == once[k];
      }
    }
  }

  /** Writing digit d into cell pos and propagating it. */
  function Place(st: State, pos: int, d: int): (r: State)
    requires WellFormed(st) && IsCell(pos) && 0 <= d <= 8
    ensures WellFormed(r)
    ensures r.grid == st.grid[pos := d]
    ensures forall k :: 0 <= k < 81 ==> r.cand[k] <= st.cand[k]
  {
    State(st.grid[pos := d], ClearPeers(st.cand, pos, d))
  }

  // ---------------------------------------------------------------------
  // Counting filled cells.

  /** The number of filled cells (dfs's filled_cnt after its scan). */
  function Filled(g: seq<int>): (n: nat)
    ensures n <= |g|
  {
    if g == [] then 0 else Filled(g[..|g| - 1]) + (if g[|g| - 1] != Empty then 1 else 0)
  }

  lemma {:induction false} FilledAll(g: seq<int>)
    ensures Filled(g) == |g| <==> forall i :: 0 <= i < |g| ==> g[i] != Empty
  {
    if g != [] {
      var n := |g| - 1;
      FilledAll(g[..n]);
      assert forall i :: 0 <= i < n ==> g[..n][i] == g[i];
    }
  }

  /** Filling an empty cell raises the count by one. */
  lemma {:induction false} FilledPlace(g: seq<int>, p: int, v: int)
    requires 0 <= p < |g| && g[p] == Empty && v != Empty
    ensures Filled(g[p := v]) == Filled(g) + 1
  {
    var n := |g| - 1;
    if p == n {
      assert g[p := v][..n] == g[..n];
    } else {
      assert g[p := v][..n] == g[..n][p := v];
      FilledPlace(g[..n], p, v);
    }
  }

  // ---------------------------------------------------------------------
  // The scan and the choice of dfs.

  /** An empty cell with no candidate left: the branch cannot succeed. */
  ghost predicate HasDeadCell(st: State)
    requires WellFormed(st)
  {
    exists i :: 0 <= i < 81 && st.grid[i] == Empty && st.cand[i] == {}
  }

  /** dfs's choice loop from cell i on, with best_cnt and best_pos so far. */
  function BestScan(st: State, i: int, bestCnt: int, bestPos: int): int
    requires WellFormed(st) && 0 <= i <= 81
    decreases 81 - i
  {
    if i == 81 then bestPos
    else if st.grid[i] != Empty then BestScan(st, i + 1, bestCnt, bestPos)
    else if |st.cand[i]| < bestCnt then BestScan(st, i + 1, |st.cand[i]|, i)
    else BestScan(st, i + 1, bestCnt, bestPos)
  }

  /** The cell dfs branches on: the scan starts with best_cnt = 10 and best_pos = -1. */
  function BestCell(st: State): (b: int)
    requires WellFormed(st)
    ensures b == -1 || (IsCell(b) && st.grid[b] == Empty)
  {
    BestScanIsMrv(st, 0, 10, -1);
    BestScan(st, 0, 10, -1)
  }

  /** b is empty, has the fewest candidates of all empty cells, and every
      empty cell before it has strictly more (ties go to the lowest index). */
  ghost predicate IsMrvChoice(st: State, b: int)
    requires WellFormed(st)
  {
    && IsCell(b) && st.grid[b] == Empty
    && (forall k :: 0 <= k < 81 && st.grid[k] == Empty ==> |st.cand[b]| <= |st.cand[k]|)
    && (forall k :: 0 <= k < b && st.grid[k] == Empty ==> |st.cand[b]| < |st.cand[k]|)
  }

  /** What the scan has established after looking at cells 0 .. i-1. */
  ghost predicate ScanSoFar(st: State, i: int, bestCnt: int, bestPos: int)
    requires WellFormed(st) && 0 <= i <= 81
  {
    || (bestPos == -1 && bestCnt == 10 && forall k :: 0 <= k < i ==> st.grid[k] != Empty)
    || (&& 0 <= bestPos < i && st.grid[bestPos] == Empty && bestCnt == |st.cand[bestPos]|
        && (forall k :: 0 <= k < i && st.grid[k] == Empty ==> |st.cand[bestPos]| <= |st.cand[k]|)
        && (forall k :: 0 <= k < bestPos && st.grid[k] == Empty ==> |st.cand[bestPos]| < |st.cand[k]|))
  }

  lemma {:induction false} BestScanIsMrv(st: State, i: int, bestCnt: int, bestPos: int)
    requires WellFormed(st) && 0 <= i <= 81 && ScanSoFar(st, i, bestCnt, bestPos)
    ensures var b := BestScan(st, i, bestCnt, bestPos);
            (b == -1 && forall k :: 0 <= k < 81 ==> st.grid[k] != Empty) || IsMrvChoice(st, b)
    decreases 81 - i
  {
    if i < 81 {
      if st.grid[i] == Empty {
        CandidateCount(st.cand[i]);
        if |st.cand[i]| < bestCnt {
          BestScanIsMrv(st, i + 1, |st.cand[i]|, i);
        } else {
          BestScanIsMrv(st, i + 1, bestCnt, bestPos);
        }
      } else {
        BestScanIsMrv(st, i + 1, bestCnt, bestPos);
      }
    }
  }

  /** With a cell still empty, BestCell makes the minimum-remaining-values choice. */
  lemma BestCellIsMrv(st: State)
    requires WellFormed(st) && Filled(st.grid) != 81
    ensures IsMrvChoice(st, BestCell(st))
  {
    FilledAll(st.grid);
    BestScanIsMrv(st, 0, 10, -1);
  }

  /** Exactly one cell is the minimum-remaining-values choice. */
  lemma MrvChoiceUnique(st: State, b: int, b': int)
    requires WellFormed(st) && IsMrvChoice(st, b) && IsMrvChoice(st, b')
    ensures b == b'
  {
  }

  // ---------------------------------------------------------------------
  // The search.

  /** dfs on state st: None when it returns false (and restores st),
      Some(r) when it returns true leaving state r. */
  ghost function Search(st: State): (r: Option<State>)
    requires WellFormed(st)
    ensures r.Some? ==> WellFormed(r.value)
    decreases 81 - Filled(st.grid), 1
  {
    if HasDeadCell(st) then None
    else if Filled(st.grid) == 81 then Some(st)
    else
      BestCellIsMrv(st);
      TryDigits(st, BestCell(st), 0)
  }

  /** dfs's loop over the digits d, d+1, .., 8 of cell best: each digit still
      a candidate is placed and searched from; the state is restored to st
      before the next one. */
  ghost function TryDigits(st: State, best: int, d: int): (r: Option<State>)
    requires WellFormed(st) && IsCell(best) && st.grid[best] == Empty && 0 <= d <= 9
    ensures r.Some? ==> WellFormed(r.value)
    decreases 81 - Filled(st.grid), 0, 9 - d
  {
    if d == 9 then None
    else if d in st.cand[best] then
      FilledPlace(st.grid, best, d);
      var r := Search(Place(st, best, d));
      if r.Some? then r else TryDigits(st, best, d + 1)
    else TryDigits(st, best, d + 1)
  }

  /** The three ways dfs goes on after its scans: fail on a dead cell, succeed
      on a full grid, or try the digits of the minimum-remaining-values cell. */
  lemma SearchSteps(st: State)
    requires WellFormed(st)
    ensures HasDeadCell(st) ==> Search(st).None?
    ensures !HasDeadCell(st) && Filled(st.grid) == 81 ==> Search(st) == Some(st)
    ensures !HasDeadCell(st) && Filled(st.grid) != 81 ==>
              IsMrvChoice(st, BestCell(st)) && Search(st) == TryDigits(st, BestCell(st), 0)
  {
    if Filled(st.grid) != 81 {
      BestCellIsMrv(st);
    }
  }

  /** What a successful search leaves: a full grid that keeps every filled
      cell and puts in every empty cell a digit that was its candidate. */
  ghost predicate Extends(r: State, st: State)
    requires WellFormed(st)
  {
    && WellFormed(r) && IsFull(r.grid)
    && (forall i :: 0 <= i < 81 && st.grid[i] != Empty ==> r.grid[i] == st.grid[i])
    && (forall i :: 0 <= i < 81 && st.grid[i] == Empty ==> r.grid[i] in st.cand[i])
  }

  lemma {:induction false} SearchExtends(st: State)
    requires WellFormed(st)
    ensures Search(st).Some? ==> Extends(Search(st).value, st)
    decreases 81 - Filled(st.grid), 1
  {
    if !HasDeadCell(st) {
      if Filled(st.grid) == 81 {
        FilledAll(st.grid);
      } else {
        BestCellIsMrv(st);
        TryDigitsExtends(st, BestCell(st), 0);
      }
    }
  }

  lemma {:induction false} TryDigitsExtends(st: State, best: int, d: int)
    requires WellFormed(st) && IsCell(best) && st.grid[best] == Empty && 0 <= d <= 9
    ensures TryDigits(st, best, d).Some? ==> Extends(TryDigits(st, best, d).value, st)
    decreases 81 - Filled(st.grid), 0, 9 - d
  {
    if d < 9 {
      if d in st.cand[best] && Search(Place(st, best, d)).Some? {
        FilledPlace(st.grid, best, d);
        SearchExtends(Place(st, best, d));
        TryDigitsTake(st, best, d);
      } else {
        TryDigitsSkip(st, best, d);
        TryDigitsExtends(st, best, d + 1);
      }
    }
  }

  /** Every candidate e of cell best with d <= e < v leads to a failed search. */
  ghost predicate FailedBelow(st: State, best: int, d: int, v: int)
    requires WellFormed(st) && IsCell(best)
  {
    forall e :: d <= e < v && 0 <= e <= 8 && e in st.cand[best] ==> Search(Place(st, best, e)).None?
  }

  /** The digits of the chosen cell are tried in increasing order: when every
      candidate from d up to v failed and v succeeds, the result is the search from v. */
  lemma {:induction false} TryDigitsFirstSuccess(st: State, best: int, d: int, v: int)
    requires WellFormed(st) && IsCell(best) && st.grid[best] == Empty && 0 <= d <= v <= 8
    requires v in st.cand[best] && Search(Place(st, best, v)).Some? && FailedBelow(st, best, d, v)
    ensures TryDigits(st, best, d) == Search(Place(st, best, v))
    decreases v - d
  {
    if d < v {
      FailedBelowStep(st, best, d, v);
      TryDigitsSkip(st, best, d);
      TryDigitsFirstSuccess(st, best, d + 1, v);
    } else {
      TryDigitsTake(st, best, d);
    }
  }

  /** A digit that is no candidate, or whose search fails, is passed over. */
  lemma TryDigitsSkip(st: State, best: int, d: int)
    requires WellFormed(st) && IsCell(best) && st.grid[best] == Empty && 0 <= d < 9
    requires d in st.cand[best] ==> Search(Place(st, best, d)).None?
    ensures TryDigits(st, best, d) == TryDigits(st, best, d + 1)
  {
    FilledPlace(st.grid, best, d);
  }

  /** A candidate whose search succeeds ends the loop with that search's result. */
  lemma TryDigitsTake(st: State, best: int, d: int)
    requires WellFormed(st) && IsCell(best) && st.grid[best] == Empty && 0 <= d < 9
    requires d in st.cand[best] && Search(Place(st, best, d)).Some?
    ensures TryDigits(st, best, d) == Search(Place(st, best, d))
  {
    FilledPlace(st.grid, best, d);
  }

  /** The loop over digits d.. fails exactly when every candidate from d on leads to a failed search. */
  lemma TryDigitsAllFail(st: State, best: int, d: int)
    requires WellFormed(st) && IsCell(best) && st.grid[best] == Empty && 0 <= d <= 9
    ensures TryDigits(st, best, d).None? <==> FailedBelow(st, best, d, 9)
  {
    if TryDigits(st, best, d).None? {
      NoneMeansAllFailed(st, best, d);
    }
    if FailedBelow(st, best, d, 9) {
      AllFailedMeansNone(st, best, d);
    }
  }

  lemma FailedBelowStep(st: State, best: int, d: int, v: int)
    requires WellFormed(st) && IsCell(best) && 0 <= d < v <= 9
    ensures FailedBelow(st, best, d, v) <==>
              (d in st.cand[best] ==> Search(Place(st, best, d)).None?) && FailedBelow(st, best, d + 1, v)
  {
  }

  lemma {:induction false} NoneMeansAllFailed(st: State, best: int, d: int)
    requires WellFormed(st) && IsCell(best) && st.grid[best] == Empty && 0 <= d <= 9
    requires TryDigits(st, best, d).None?
    ensures FailedBelow(st, best, d, 9)
    decreases 9 - d
  {
    if d < 9 {
      FilledPlace(st.grid, best, d);
      NoneMeansAllFailed(st, best, d + 1);
      FailedBelowStep(st, best, d, 9);
    }
  }

  lemma {:induction false} AllFailedMeansNone(st: State, best: int, d: int)
    requires WellFormed(st) && IsCell(best) && st.grid[best] == Empty && 0 <= d <= 9
    requires FailedBelow(st, best, d, 9)
    ensures TryDigits(st, best, d).None?
    decreases 9 - d
  {
    if d < 9 {
      FilledPlace(st.grid, best, d);
      FailedBelowStep(st, best, d, 9);
      AllFailedMeansNone(st, best, d + 1);
    }
  }

  // ---------------------------------------------------------------------
  // Consistency: the candidates of an empty cell are exactly the digits no
  // other peer holds, and no two peers hold the same digit.

  ghost predicate DigitFree(g: seq<int>, q: int, d: int)
    requires |g| == 81
  {
    forall p :: IsCell(p) && p != q && Peer(p, q) ==> g[p] != d
  }

  ghost predicate Consistent(st: State) {
    && WellFormed(st)
    && NoClash(st.grid)
    && forall q, d :: IsCell(q) && st.grid[q] == Empty && 0 <= d <= 8 ==>
         (d in st.cand[q] <==> DigitFree(st.grid, q, d))
  }

  lemma InitialConsistent()
    ensures Consistent(InitialState())
  {
  }

  /** Placing a candidate digit in an empty cell and propagating it keeps the state consistent. */
  lemma PlaceConsistent(st: State, pos: int, d: int)
    requires Consistent(st) && IsCell(pos) && st.grid[pos] == Empty && 0 <= d <= 8 && d in st.cand[pos]
    ensures Consistent(Place(st, pos, d))
  {
    var r := Place(st, pos, d);
    assert DigitFree(st.grid, pos, d);
    forall p, q | IsCell(p) && IsCell(q) && p != q && Peer(p, q) && r.grid[p] != Empty
      ensures r.grid[p] != r.grid[q]
    {
      if p == pos {
        assert Peer(q, pos);
      } else if q == pos {
        assert Peer(p, pos);
      }
    }
    forall q, e | IsCell(q) && r.grid[q] == Empty && 0 <= e <= 8
      ensures e in r.cand[q] <==> DigitFree(r.grid, q, e)
    {
      assert st.grid[q] == Empty && q != pos;
      if Peer(q, pos) && e == d {
        assert Peer(pos, q);
        assert !DigitFree(r.grid, q, e);
      } else {
        if DigitFree(st.grid, q, e) {
          forall p | IsCell(p) && p != q && Peer(p, q)
            ensures r.grid[p] != e
          {
            if p == pos {
              assert Peer(q, pos);
            }
          }
        }
      }
    }
  }

  /** Every solution puts into each empty cell one of its current candidates. */
  lemma SolutionUsesCandidates(st: State, q: int)
    requires Consistent(st) && IsCell(q) && st.grid[q] == Empty
    ensures forall s :: IsCompletion(s, st.grid) ==> s[q] in st.cand[q]
  {
    forall s | IsCompletion(s, st.grid)
      ensures s[q] in st.cand[q]
    {
      forall p | IsCell(p) && p != q && Peer(p, q)
        ensures st.grid[p] != s[q]
      {
        if st.grid[p] != Empty {
          assert s[p] == st.grid[p];
        }
      }
      assert DigitFree(st.grid, q, s[q]);
    }
  }

  lemma DeadCellUnsolvable(st: State)
    requires Consistent(st) && HasDeadCell(st)
    ensures !HasCompletion(st.grid)
  {
    var i :| 0 <= i < 81 && st.grid[i] == Empty && st.cand[i] == {};
    SolutionUsesCandidates(st, i);
  }

  /** The search is sound: what it returns solves the puzzle st holds. */
  lemma {:induction false} SearchSound(st: State)
    requires Consistent(st)
    ensures Search(st).Some? ==> IsCompletion(Search(st).value.grid, st.grid)
    decreases 81 - Filled(st.grid), 1
  {
    if !HasDeadCell(st) {
      if Filled(st.grid) == 81 {
        FilledAll(st.grid);
      } else {
        BestCellIsMrv(st);
        TryDigitsSound(st, BestCell(st), 0);
      }
    }
  }

  lemma {:induction false} TryDigitsSound(st: State, best: int, d: int)
    requires Consistent(st) && IsCell(best) && st.grid[best] == Empty && 0 <= d <= 9
    ensures TryDigits(st, best, d).Some? ==> IsCompletion(TryDigits(st, best, d).value.grid, st.grid)
    decreases 81 - Filled(st.grid), 0, 9 - d
  {
    if d < 9 {
      if d in st.cand[best] && Search(Place(st, best, d)).Some? {
        PlaceSound(st, best, d);
        TryDigitsTake(st, best, d);
      } else {
        TryDigitsSkip(st, best, d);
        TryDigitsSound(st, best, d + 1);
      }
    }
  }

  /** A successful search after placing candidate d at best solves st's puzzle. */
  lemma PlaceSound(st: State, best: int, d: int)
    requires Consistent(st) && IsCell(best) && st.grid[best] == Empty && 0 <= d <= 8 && d in st.cand[best]
    ensures var r := Search(Place(st, best, d));
            r.Some? ==> IsCompletion(r.value.grid, st.grid)
    decreases 81 - Filled(st.grid), 0, 0
  {
    FilledPlace(st.grid, best, d);
    PlaceConsistent(st, best, d);
    SearchSound(Place(st, best, d));
  }

  /** The search is complete: it fails only when the puzzle st holds has no solution. */
  lemma {:induction false} SearchComplete(st: State)
    requires Consistent(st)
    ensures Search(st).None? ==> !HasCompletion(st.grid)
    decreases 81 - Filled(st.grid), 1
  {
    if HasDeadCell(st) {
      DeadCellUnsolvable(st);
    } else if Filled(st.grid) != 81 {
      BestCellIsMrv(st);
      TryDigitsComplete(st, BestCell(st), 0);
    }
  }

  /** When trying digits d.. of cell best fails, every solution has a smaller digit there. */
  lemma {:induction false} TryDigitsComplete(st: State, best: int, d: int)
    requires Consistent(st) && IsCell(best) && st.grid[best] == Empty && 0 <= d <= 9
    ensures TryDigits(st, best, d).None? ==> forall s :: IsCompletion(s, st.grid) ==> s[best] < d
    decreases 81 - Filled(st.grid), 0, 9 - d
  {
    if d < 9 && TryDigits(st, best, d).None? {
      TryDigitsComplete(st, best, d + 1);
      if d in st.cand[best] {
        FilledPlace(st.grid, best, d);
        var next := Place(st, best, d);
        PlaceConsistent(st, best, d);
        SearchComplete(next);
        forall s | IsCompletion(s, st.grid) && s[best] == d
          ensures IsCompletion(s, next.grid)
        {
        }
      } else {
        SolutionUsesCandidates(st, best);
      }
    }
  }

  // ---------------------------------------------------------------------
  // Initialisation.

  /** initialize_grid after cells 0 .. n-1: None once a given was found
      already eliminated from its cell ("no solution"). */
  ghost function InitFold(input: string, n: nat): (r: Option<State>)
    requires ValidInput(input) && n <= 81
    ensures r.Some? ==> WellFormed(r.value)
  {
    if n == 0 then Some(InitialState())
    else
      var prev := InitFold(input, n - 1);
      if prev.None? then None
      else
        var st := prev.value;
        if input[n - 1] == '.' then Some(State(st.grid[n - 1 := Empty], st.cand))
        else
          var d := GivenValue(input[n - 1]);
          if d in st.cand[n - 1] then Some(Place(st, n - 1, d)) else None
  }

  /** After n cells the grid holds the givens of cells 0 .. n-1 and nothing else. */
  lemma {:induction false} InitFoldGrid(input: string, n: nat)
    requires ValidInput(input) && n <= 81 && InitFold(input, n).Some?
    ensures forall k :: 0 <= k < 81 ==>
              InitFold(input, n).value.grid[k] == if k < n then GivenValue(input[k]) else Empty
  {
    if n > 0 {
      InitFoldGrid(input, n - 1);
    }
  }

  lemma {:induction false} InitFoldConsistent(input: string, n: nat)
    requires ValidInput(input) && n <= 81 && InitFold(input, n).Some?
    ensures Consistent(InitFold(input, n).value)
  {
    if n == 0 {
      InitialConsistent();
    } else {
      InitFoldConsistent(input, n - 1);
      InitFoldGrid(input, n - 1);
      var st := InitFold(input, n - 1).value;
      if input[n - 1] == '.' {
        assert st.grid[n - 1 := Empty] == st.grid;
      } else {
        PlaceConsistent(st, n - 1, GivenValue(input[n - 1]));
      }
    }
  }

  /** Once initialisation has failed it stays failed. */
  lemma {:induction false} InitFoldStaysFailed(input: string, m: nat, n: nat)
    requires ValidInput(input) && m <= n <= 81 && InitFold(input, m).None?
    ensures InitFold(input, n).None?
  {
    if m < n {
      InitFoldStaysFailed(input, m, n - 1);
    }
  }

  /** Initialisation fails exactly when two givens of one group clash. */
  lemma InitFoldFailsIffConflict(input: string)
    requires ValidInput(input)
    ensures InitFold(input, 81).None? <==> ConflictingGivens(input)
  {
    if InitFold(input, 81).None? {
      InitFoldFailureIsConflict(input, 81);
    } else {
      InitFoldConsistent(input, 81);
      InitFoldGrid(input, 81);
      var g := InitFold(input, 81).value.grid;
      forall p, q | IsCell(p) && IsCell(q) && p != q && Peer(p, q) && input[p] != '.'
        ensures input[p] != input[q]
      {
        assert g[p] != g[q];
      }
    }
  }

  lemma {:induction false} InitFoldFailureIsConflict(input: string, n: nat)
    requires ValidInput(input) && n <= 81 && InitFold(input, n).None?
    ensures ConflictingGivens(input)
  {
    if InitFold(input, n - 1).None? {
      InitFoldFailureIsConflict(input, n - 1);
    } else {
      InitFoldFailsAt(input, n - 1);
    }
  }

  /** Initialisation that fails at cell q has found a given equal to an earlier given of q's groups. */
  lemma InitFoldFailsAt(input: string, q: nat)
    requires ValidInput(input) && q < 81 && InitFold(input, q).Some? && InitFold(input, q + 1).None?
    ensures ConflictingGivens(input)
  {
    var st := InitFold(input, q).value;
    var d := GivenValue(input[q]);
    InitFoldConsistent(input, q);
    InitFoldGrid(input, q);
    assert input[q] != '.' && st.grid[q] == Empty && d !in st.cand[q];
    assert !DigitFree(st.grid, q, d);
    var p :| IsCell(p) && p != q && Peer(p, q) && st.grid[p] == d;
    assert p < q;
    assert GivenValue(input[p]) == GivenValue(input[q]);
    GivenValueInjective(input[p], input[q]);
  }

  /** The grid solve() fills for a valid puzzle string, or None for "no solution". */
  ghost function SolveOutcome(input: string): (r: Option<seq<int>>)
    requires ValidInput(input)
    ensures r.Some? ==> IsGrid(r.value)
  {
    var init := InitFold(input, 81);
    if init.None? then None
    else
      var r := Search(init.value);
      if r.None? then None else Some(r.value.grid)
  }

  /** The solver's outcome solves the puzzle, and it is "no solution" exactly
      when the puzzle has no solution. */
  lemma SolveOutcomeCorrect(input: string)
    requires ValidInput(input)
    ensures SolveOutcome(input).None? <==> !HasCompletion(GivensGrid(input))
    ensures SolveOutcome(input).Some? ==> IsCompletion(SolveOutcome(input).value, GivensGrid(input))
  {
    var init := InitFold(input, 81);
    if init.None? {
      InitFoldFailsIffConflict(input);
      ConflictingGivensUnsolvable(input);
    } else {
      InitFoldConsistent(input, 81);
      InitFoldGrid(input, 81);
      assert init.value.grid == GivensGrid(input);
      SearchSound(init.value);
      SearchComplete(init.value);
    }
  }
}
