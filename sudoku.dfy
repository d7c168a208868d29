/** The solver: class SudokuSolver keeps the grid and the candidate sets of
    the 81 cells in two arrays and changes them in place; each of its methods
    is proved to compute the corresponding function of module Solving, and
    solve() is proved to answer what those functions say it should. */
module Sudoku {
  import opened Util
  import opened Board
  import opened Solving
  import opened Render

  const NoSolution: string := "no solution"

  /** make_invalid_input_error: the detail wrapped as "invalid input (<detail>)". */
  function InvalidInput(detail: string): (msg: string)
    ensures |msg| == |detail| + 16
    ensures msg[..15] == "invalid input (" && msg[|msg| - 1] == ')'
    ensures msg[15..|msg| - 1] == detail
  {
    "invalid input (" + detail + ")"
  }

  /** The error for an input that is not 81 characters long: "len = <n>". */
  function LengthError(n: nat): (msg: string)
    ensures |msg| == 22 + |NatToString(n)|
    ensures msg[..21] == "invalid input (len = " && msg[|msg| - 1] == ')'
    ensures msg[21..|msg| - 1] == NatToString(n)
  {
    InvalidInput("len = " + NatToString(n))
  }

  /** The error for the first character that is neither '.' nor '1'..'9': "'<c>' at pos <i>". */
  function CharError(c: char, i: nat): (msg: string)
    ensures |msg| == 27 + |NatToString(i)|
    ensures msg[..16] == "invalid input ('" && msg[16] == c
    ensures msg[17..26] == "' at pos " && msg[|msg| - 1] == ')'
    ensures msg[26..|msg| - 1] == NatToString(i)
  {
    InvalidInput("'" + [c] + "' at pos " + NatToString(i))
  }

  /** The wrapped detail can be read back, so different details give different messages. */
  lemma InvalidInputInjective(a: string, b: string)
    requires InvalidInput(a) == InvalidInput(b)
    ensures a == b
  {
    var m := InvalidInput(a);
    assert a == m[15..|m| - 1];
  }

  /** The length error names the length: different lengths give different messages. */
  lemma LengthErrorInjective(m: nat, n: nat)
    requires LengthError(m) == LengthError(n)
    ensures m == n
  {
    InvalidInputInjective("len = " + NatToString(m), "len = " + NatToString(n));
    var a := "len = " + NatToString(m);
    var b := "len = " + NatToString(n);
    assert NatToString(m) == a[6..] && NatToString(n) == b[6..];
    NatToStringInjective(m, n);
  }

  /** The character error names the character and its position. */
  lemma CharErrorInjective(c: char, i: nat, c': char, i': nat)
    requires CharError(c, i) == CharError(c', i')
    ensures c == c' && i == i'
  {
    var m := CharError(c, i);
    assert NatToString(i) == m[26..|m| - 1] == NatToString(i');
    NatToStringInjective(i, i');
  }

  /** A length error is never mistaken for a character error. */
  lemma LengthAndCharErrorsDiffer(n: nat, c: char, i: nat)
    ensures LengthError(n) != CharError(c, i)
  {
    assert LengthError(n)[15] == 'l';
    assert CharError(c, i)[15] == '\'';
  }

  // The messages of the input-validation fixtures.

  lemma EmptyInputMessage()
    ensures LengthError(0) == "invalid input (len = 0)"
  {
  }

  lemma ShortInputMessage()
    ensures LengthError(80) == "invalid input (len = 80)"
  {
  }

  lemma LongInputMessage()
    ensures LengthError(82) == "invalid input (len = 82)"
  {
  }

  lemma BadCharMessage()
    ensures CharError('#', 80) == "invalid input ('#' at pos 80)"
  {
  }

  /** i is the first position of input holding a character that is neither '.' nor '1'..'9'. */
  ghost predicate IsFirstInvalid(input: string, i: int) {
    0 <= i < |input| && !IsInputChar(input[i]) && forall k :: 0 <= k < i ==> IsInputChar(input[k])
  }

  /** What solve() answers for input:
      - a string of the wrong length is rejected with its length;
      - otherwise the first bad character is rejected with its position;
      - a well-formed puzzle gives either a solution or "no solution", the
        latter exactly when the puzzle has no solution;
      - a solution is the 9-line rendering of a full grid that obeys the rules
        and keeps every given, namely the grid the depth-first search reaches. */
  ghost predicate IsSolveResult(input: string, r: Result) {
    && (|input| != 81 ==> r == Err(LengthError(|input|)))
    && (forall i :: |input| == 81 && IsFirstInvalid(input, i) ==> r == Err(CharError(input[i], i)))
    && (ValidInput(input) ==> (r.Ok? || r == Err(NoSolution)))
    && (ValidInput(input) ==> (r == Err(NoSolution) <==> !HasCompletion(GivensGrid(input))))
    && (ValidInput(input) && r.Ok? ==>
          |r.value| == 89 &&
          var g := ParseRendering(r.value);
          IsCompletion(g, GivensGrid(input)) && IsRendering(r.value, g) && SolveOutcome(input) == Some(g))
  }

  /** An input that is not all '.' and '1'..'9' has a first bad character. */
  lemma {:induction false} FirstInvalidExists(input: string, n: nat) returns (i: int)
    requires n <= |input| && exists k :: 0 <= k < n && !IsInputChar(input[k])
    ensures IsFirstInvalid(input, i) && i < n
  {
    if forall k :: 0 <= k < n - 1 ==> IsInputChar(input[k]) {
      i := n - 1;
    } else {
      i := FirstInvalidExists(input, n - 1);
    }
  }

  /** The answer is determined by the input: solving the same input twice gives the same result. */
  lemma SolveResultDeterministic(input: string, r1: Result, r2: Result)
    requires IsSolveResult(input, r1) && IsSolveResult(input, r2)
    ensures r1 == r2
  {
    if |input| == 81 && !ValidInput(input) {
      var i := FirstInvalidExists(input, 81);
    } else if ValidInput(input) && r1.Ok? {
      var g := ParseRendering(r1.value);
      assert ParseRendering(r2.value) == g;
      assert r1.value == r2.value;
    }
  }

  class SudokuSolver {
    /** -1 for an empty cell, 0..8 for the digits 1..9. */
    var grid: array<int>
    /** The digits 0..8 each cell may still take (the bits of its bitset<9>). */
    var candidates: array<set<int>>

    ghost function St(): State
      reads this, grid, candidates
    {
      State(grid[..], candidates[..])
    }

    ghost predicate Valid()
      reads this, grid, candidates
    {
      grid.Length == 81 && candidates.Length == 81 && WellFormed(St())
    }

    /** Every cell empty, every candidate bit set. */
    constructor ()
      ensures Valid() && St() == InitialState()
      ensures fresh(grid) && fresh(candidates)
    {
      grid := new int[81](_ => Empty);
      candidates := new set<int>[81](_ => AllDigits);
      new;
      assert grid[..] == InitialState().grid;
      assert candidates[..] == InitialState().cand;
    }

    /** solve() on a freshly constructed solver. */
    method Solve(input: string) returns (r: Result)
      requires Valid() && St() == InitialState()
      modifies grid, candidates
      ensures IsSolveResult(input, r)
    {
      r := IsValidInput(input);
      if r.Err? {
        return;
      }
      r := InitializeGrid(input);
      if r.Err? {
        ConflictingGivensUnsolvable(input);
        return;
      }
      ghost var init := St();
      var solved := Dfs();
      SolveOutcomeCorrect(input);
      if !solved {
        return Err(NoSolution);
      }
      // verify_grid: every cell is filled.
      SearchExtends(init);
      assert forall i :: 0 <= i < 81 ==> grid[i] != Empty;
      var s := GridAsString();
      ParseRenders(s, grid[..]);
      r := Ok(s);
    }

    /** is_valid_input: the length, then each character in turn. */
    method IsValidInput(input: string) returns (r: Result)
      ensures |input| != 81 ==> r == Err(LengthError(|input|))
      ensures forall i :: |input| == 81 && IsFirstInvalid(input, i) ==> r == Err(CharError(input[i], i))
      ensures ValidInput(input) <==> r.Ok?
      ensures r.Ok? ==> r.value == ""
    {
      if |input| != 81 {
        return Err(LengthError(|input|));
      }
      for i := 0 to 81
        invariant forall k :: 0 <= k < i ==> IsInputChar(input[k])
      {
        if input[i] == '.' || ('1' <= input[i] && input[i] <= '9') {
          continue;
        }
        assert IsFirstInvalid(input, i);
        return Err(CharError(input[i], i));
      }
      return Ok("");
    }

    /** initialize_grid: writes each given and propagates it, failing with
        "no solution" on a given already eliminated from its cell. */
    method InitializeGrid(input: string) returns (r: Result)
      requires Valid() && St() == InitialState() && ValidInput(input)
      modifies grid, candidates
      ensures Valid()
      ensures r == if InitFold(input, 81).Some? then Ok("") else Err(NoSolution)
      ensures r.Ok? ==> St() == InitFold(input, 81).value
      ensures r.Err? <==> ConflictingGivens(input)
      ensures r.Ok? ==> grid[..] == GivensGrid(input)
    {
      for i := 0 to 81
        invariant Valid()
        invariant InitFold(input, i).Some? && St() == InitFold(input, i).value
      {
        ghost var st := St();
        var ch := input[i];
        if ch == '.' {
          grid[i] := Empty;
          assert grid[..] == st.grid[i := Empty];
        } else {
          grid[i] := ch as int - '1' as int;
          if grid[i] !in candidates[i] {
            assert InitFold(input, i + 1).None?;
            InitFoldStaysFailed(input, i + 1, 81);
            InitFoldFailsIffConflict(input);
            return Err(NoSolution);
          }
          UpdateCandidates(i);
          assert St() == Place(st, i, GivenValue(ch));
        }
      }
      InitFoldGrid(input, 81);
      InitFoldFailsIffConflict(input);
      return Ok("");
    }

    /** update_group: walks the 9 cells start_pos + inc[0], + inc[1], ...
        and clears the digit of pos in each. */
    method UpdateGroup(pos: int, startPos: int, inc: seq<int>)
      requires Valid() && IsCell(pos) && grid[pos] != Empty
      requires WalkInBounds(startPos, inc)
      modifies candidates
      ensures Valid()
      ensures forall k :: 0 <= k < 81 ==>
                candidates[k] == if k in WalkCells(startPos, inc, 9) then old(candidates[k]) - {grid[pos]} else old(candidates[k])
    {
      var i := startPos;
      for j := 0 to 9
        invariant Valid()
        invariant i == WalkAt(startPos, inc, j)
        invariant forall k :: 0 <= k < 81 ==>
                    candidates[k] == if k in WalkCells(startPos, inc, j) then old(candidates[k]) - {grid[pos]} else old(candidates[k])
      {
        assert WalkAt(startPos, inc, j + 1) == i + inc[j];
        i := i + inc[j];
        candidates[i] := candidates[i] - {grid[pos]};
      }
    }

    method UpdateRow(pos: int)
      requires Valid() && IsCell(pos) && grid[pos] != Empty
      modifies candidates
      ensures Valid()
      ensures forall k :: 0 <= k < 81 ==>
                candidates[k] == if SameRow(k, pos) then old(candidates[k]) - {grid[pos]} else old(candidates[k])
    {
      RowWalk(pos);
      UpdateGroup(pos, RowStart(pos), RowInc);
    }

    method UpdateCol(pos: int)
      requires Valid() && IsCell(pos) && grid[pos] != Empty
      modifies candidates
      ensures Valid()
      ensures forall k :: 0 <= k < 81 ==>
                candidates[k] == if SameCol(k, pos) then old(candidates[k]) - {grid[pos]} else old(candidates[k])
    {
      ColWalk(pos);
      UpdateGroup(pos, ColStart(pos), ColInc);
    }

    method UpdateBox(pos: int)
      requires Valid() && IsCell(pos) && grid[pos] != Empty
      modifies candidates
      ensures Valid()
      ensures forall k :: 0 <= k < 81 ==>
                candidates[k] == if SameBox(k, pos) then old(candidates[k]) - {grid[pos]} else old(candidates[k])
    {
      BoxWalk(pos);
      UpdateGroup(pos, BoxStart(pos), BoxInc);
    }

    /** update_candidates: the digit of pos leaves the candidates of its row, column and box. */
    method UpdateCandidates(pos: int)
      requires Valid() && IsCell(pos) && grid[pos] != Empty
      modifies candidates
      ensures Valid()
      ensures candidates[..] == ClearPeers(old(candidates[..]), pos, grid[pos])
    {
      ghost var c0 := candidates[..];
      UpdateRow(pos);
      ghost var c1 := candidates[..];
      UpdateCol(pos);
      ghost var c2 := candidates[..];
      UpdateBox(pos);
      forall k | 0 <= k < 81
        ensures candidates[k] == ClearPeers(c0, pos, grid[pos])[k]
      {
        assert c1[k] == if SameRow(k, pos) then c0[k] - {grid[pos]} else c0[k];
        assert c2[k] == if SameCol(k, pos) then c1[k] - {grid[pos]} else c1[k];
      }
    }

    /** dfs's first loop: counts the filled cells, stopping at the first empty cell without candidates. */
    method ScanCells() returns (filled: int, dead: bool)
      requires Valid()
      ensures dead == HasDeadCell(St())
      ensures !dead ==> filled == Filled(grid[..])
    {
      filled := 0;
      for i := 0 to 81
        invariant filled == Filled(grid[..i])
        invariant forall k :: 0 <= k < i ==> !(grid[k] == Empty && candidates[k] == {})
      {
        assert grid[..i + 1][..i] == grid[..i];
        filled := filled + if grid[i] != Empty then 1 else 0;
        if grid[i] == Empty && candidates[i] == {} {
          return filled, true;
        }
      }
      assert grid[..81] == grid[..];
      dead := false;
    }

    /** dfs's second loop: the first empty cell with the fewest candidates. */
    method ChooseCell() returns (bestPos: int)
      requires Valid()
      ensures bestPos == BestCell(St())
      ensures Filled(grid[..]) != 81 ==> IsMrvChoice(St(), bestPos)
    {
      var bestCnt := 10;
      bestPos := -1;
      for i := 0 to 81
        invariant BestScan(St(), i, bestCnt, bestPos) == BestCell(St())
      {
        if grid[i] != Empty {
          continue;
        }
        if |candidates[i]| < bestCnt {
          bestCnt := |candidates[i]|;
          bestPos := i;
        }
      }
      if Filled(grid[..]) != 81 {
        BestCellIsMrv(St());
      }
    }

    /** *this = backup_solver: both arrays get the snapshot back. */
    method Restore(g: seq<int>, c: seq<set<int>>)
      requires Valid() && WellFormed(State(g, c))
      modifies grid, candidates
      ensures Valid() && St() == State(g, c)
    {
      forall k | 0 <= k < 81 {
        grid[k] := g[k];
      }
      forall k | 0 <= k < 81 {
        candidates[k] := c[k];
      }
      assert grid[..] == g && candidates[..] == c;
    }

    /** dfs: true with the state Search reaches, or false with the state restored. */
    method Dfs() returns (solved: bool)
      requires Valid()
      modifies grid, candidates
      ensures Valid()
      ensures solved == Search(old(St())).Some?
      ensures solved ==> St() == Search(old(St())).value
      ensures !solved ==> St() == old(St())
      decreases 81 - Filled(grid[..]), 1
    {
      // Make a copy of the whole state as a backup.
      var backupGrid := grid[..];
      var backupCandidates := candidates[..];
      ghost var st := St();

      SearchSteps(st);
      var filled, dead := ScanCells();
      if dead {
        return false;
      }
      if filled == 81 {
        return true;
      }
      var bestPos := ChooseCell();
      assert grid[bestPos] == Empty;
      for i := 0 to 9
        invariant Valid() && St() == st
        invariant TryDigits(st, bestPos, i) == Search(st)
      {
        if i in candidates[bestPos] {
          solved := TryCandidate(bestPos, i, backupGrid, backupCandidates);
          if solved {
            TryDigitsTake(st, bestPos, i);
            return;
          }
        }
        TryDigitsSkip(st, bestPos, i);
      }
      return false;
    }

    /** One turn of dfs's digit loop: digit i goes into cell bestPos and is
        propagated, and the search goes on; the solution is kept, otherwise the
        snapshot is restored. */
    method TryCandidate(bestPos: int, i: int, backupGrid: seq<int>, backupCandidates: seq<set<int>>)
      returns (solved: bool)
      requires Valid() && IsCell(bestPos) && grid[bestPos] == Empty && 0 <= i <= 8
      requires St() == State(backupGrid, backupCandidates)
      modifies grid, candidates
      ensures Valid()
      ensures solved == Search(Place(old(St()), bestPos, i)).Some?
      ensures solved ==> St() == Search(Place(old(St()), bestPos, i)).value
      ensures !solved ==> St() == old(St())
      decreases 81 - Filled(grid[..]), 0
    {
      ghost var st := St();
      grid[bestPos] := i;
      UpdateCandidates(bestPos);
      assert St() == Place(st, bestPos, i);
      FilledPlace(st.grid, bestPos, i);
      solved := Dfs();
      if !solved {
        // Restore the original state for the next digit.
        Restore(backupGrid, backupCandidates);
      }
    }

    /** grid_as_string: 9 lines of the digits '1'..'9', a newline before every line but the first. */
    method GridAsString() returns (s: string)
      requires Valid()
      ensures IsRendering(s, grid[..])
    {
      s := "";
      for i := 0 to 81
        invariant |s| == if i == 0 then 0 else i + (i - 1) / 9
        invariant forall p :: 0 <= p < |s| ==> s[p] == RenderedAt(grid[..], p)
      {
        if i != 0 && i % 9 == 0 {
          s := s + "\n";
        }
        s := s + [CellChar(grid[i])];
      }
    }
  }

  /** Two 1s in the last row: the fixture that initialisation rejects. */
  lemma DuplicateGivensUnsolvable()
    ensures var input := seq(79, _ => '.') + "11";
            ValidInput(input) && ConflictingGivens(input) && !HasCompletion(GivensGrid(input))
  {
    var input := seq(79, _ => '.') + "11";
    assert IsCell(79) && IsCell(80) && Peer(79, 80) && input[79] == input[80] == '1';
    ConflictingGivensUnsolvable(input);
  }

  /** The empty puzzle, which solve() must answer with a solution. */
  lemma EmptyPuzzleSolvable()
    ensures var input := seq(81, _ => '.');
            ValidInput(input) && HasCompletion(GivensGrid(input))
  {
    var input := seq(81, _ => '.');
    PatternIsSolution();
    assert IsCompletion(PatternGrid(), GivensGrid(input));
  }

  /** The input-validation cases: solve() on each fixture input, with the
      answer the fixture expects following from the contract of solve(). */
  method ValidationCases() returns (empty: Result, short: Result, badChar: Result,
                                    clash: Result, blank: Result, long: Result)
    ensures empty == Err("invalid input (len = 0)")
    ensures short == Err("invalid input (len = 80)")
    ensures badChar == Err("invalid input ('#' at pos 80)")
    ensures clash == Err("no solution")
    ensures blank.Ok?
    ensures long == Err("invalid input (len = 82)")
  {
    EmptyInputMessage();
    ShortInputMessage();
    LongInputMessage();
    BadCharMessage();
    empty := Solve("");
    short := Solve(seq(80, _ => '.'));
    var bad := seq(80, _ => '.') + "#";
    badChar := Solve(bad);
    assert IsFirstInvalid(bad, 80);
    DuplicateGivensUnsolvable();
    clash := Solve(seq(79, _ => '.') + "11");
    EmptyPuzzleSolvable();
    blank := Solve(seq(81, _ => '.'));
    long := Solve(seq(82, _ => '.'));
  }

  /** solve(): a fresh solver solves the puzzle. */
  method Solve(input: string) returns (r: Result)
    ensures IsSolveResult(input, r)
  {
    var solver := new SudokuSolver();
    r := solver.Solve(input);
  }
}
