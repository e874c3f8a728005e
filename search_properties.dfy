/** What the backtracking search guarantees, and what it does not. */
module SearchProperties {
  import opened Wrappers
  import opened Grid
  import opened Solver

  /** s keeps every cell of b that comes before (r, c) or is not empty. */
  ghost predicate KeepsFixed(b: Board, s: Board, r: int, c: int)
  {
    forall i, j :: 0 <= i < 9 && 0 <= j < 9 && (Before(i, j, r, c) || b[i][j] != Empty) ==>
      s[i][j] == b[i][j]
  }

  /** No cell of s at or after (r, c) is empty. */
  ghost predicate FilledFrom(s: Board, r: int, c: int)
  {
    forall i, j :: 0 <= i < 9 && 0 <= j < 9 && !Before(i, j, r, c) ==> s[i][j] != Empty
  }

  /** The value of cell (i, j) of s appears in no other cell of its row or column. */
  ghost predicate AloneInRowAndColumn(s: Board, i: int, j: int)
    requires 0 <= i < 9 && 0 <= j < 9
  {
    (forall j' :: 0 <= j' < 9 && j' != j ==> s[i][j'] != s[i][j]) &&
    (forall i' :: 0 <= i' < 9 && i' != i ==> s[i'][j] != s[i][j])
  }

  /** Every cell that was empty in b at or after (r, c) holds one of "1" .. "9" in s,
      alone in its row and its column. */
  ghost predicate PlacedDigitsAlone(b: Board, s: Board, r: int, c: int)
  {
    forall i, j :: 0 <= i < 9 && 0 <= j < 9 && !Before(i, j, r, c) && b[i][j] == Empty ==>
      IsDigitCell(s[i][j]) && AloneInRowAndColumn(s, i, j)
  }

  ghost predicate SoundFrom(b: Board, s: Board, r: int, c: int)
  {
    KeepsFixed(b, s, r, c) && FilledFrom(s, r, c) && PlacedDigitsAlone(b, s, r, c)
  }

  /** A successful `solve(grid, r, c)` changes no cell before (r, c) and no given,
      leaves no "." at or after (r, c), and every digit it placed is one of
      "1" .. "9" that appears nowhere else in its row or column of the final grid. */
  lemma {:induction false} SearchSound(b: Board, r: int, c: int)
    requires 0 <= r <= 9 && 0 <= c <= 9
    requires Search(b, r, c).Some?
    ensures SoundFrom(b, Search(b, r, c).value, r, c)
    decreases Rank(r, c), 11
  {
    if r == 9 {
    } else if c == 9 {
      SearchSound(b, r + 1, 0);
    } else if b[r][c] != Empty {
      SearchSound(b, r, c + 1);
    } else {
      TrySound(b, r, c, 1);
    }
  }

  lemma {:induction false} TrySound(b: Board, r: int, c: int, d: int)
    requires 0 <= r < 9 && 0 <= c < 9 && 1 <= d <= 10
    requires b[r][c] == Empty
    requires TryDigits(b, r, c, d).Some?
    ensures SoundFrom(b, TryDigits(b, r, c, d).value, r, c)
    decreases Rank(r, c), 10 - d
  {
    var b' := Place(b, r, c, Digit(d));
    if Valid(b, r, c, DigitText(d)) && Search(b', r, c + 1).Some? {
      SearchSound(b', r, c + 1);
      PlacementSound(b, r, c, d, Search(b', r, c + 1).value);
    } else {
      TrySound(b, r, c, d + 1);
    }
  }

  /** The step of the induction: digit d passed `valid` at the empty cell (r, c),
      and the search from (r, c + 1) succeeded with s. */
  lemma PlacementSound(b: Board, r: int, c: int, d: int, s: Board)
    requires 0 <= r < 9 && 0 <= c < 9 && 1 <= d <= 9
    requires b[r][c] == Empty
    requires Valid(b, r, c, DigitText(d))
    requires SoundFrom(Place(b, r, c, Digit(d)), s, r, c + 1)
    ensures SoundFrom(b, s, r, c)
  {
    var b' := Place(b, r, c, Digit(d));
    ValidMeans(b, r, c, DigitText(d));
    assert s[r][c] == Digit(d);
    forall j' | 0 <= j' < 9 && j' != c
      ensures s[r][j'] != s[r][c]
    {
      if j' > c && b[r][j'] == Empty {
        assert AloneInRowAndColumn(s, r, j');
      } else {
        assert s[r][j'] == b[r][j'];
        assert Show(b[r][j']) != DigitText(d);
      }
    }
    forall i' | 0 <= i' < 9 && i' != r
      ensures s[i'][c] != s[r][c]
    {
      if i' > r && b[i'][c] == Empty {
        assert AloneInRowAndColumn(s, i', c);
      } else {
        assert s[i'][c] == b[i'][c];
        assert Show(b[i'][c]) != DigitText(d);
      }
    }
    assert AloneInRowAndColumn(s, r, c);
  }

  /** Candidate k passes `valid` at (r, c) and the search from (r, c + 1) succeeds
      once it is written there. */
  ghost predicate Succeeds(b: Board, r: int, c: int, k: int)
    requires 0 <= r < 9 && 0 <= c < 9 && 1 <= k <= 9
  {
    Valid(b, r, c, DigitText(k)) && Search(Place(b, r, c, Digit(k)), r, c + 1).Some?
  }

  /** The first candidate k >= d that succeeds at (r, c), or 10 when none does. */
  ghost function FirstSuccess(b: Board, r: int, c: int, d: int): (k: int)
    requires 0 <= r < 9 && 0 <= c < 9 && 1 <= d <= 10
    ensures d <= k <= 10
    ensures k < 10 ==> Succeeds(b, r, c, k)
    ensures forall k' :: d <= k' < k ==> !Succeeds(b, r, c, k')
    decreases 10 - d
  {
    if d == 10 then 10
    else if Succeeds(b, r, c, d) then d
    else FirstSuccess(b, r, c, d + 1)
  }

  /** The candidate loop from d on fails exactly when no candidate k >= d succeeds,
      and otherwise returns what the first successful candidate's search returned. */
  lemma {:induction false} TryFirstSuccess(b: Board, r: int, c: int, d: int)
    requires 0 <= r < 9 && 0 <= c < 9 && 1 <= d <= 10
    ensures var k := FirstSuccess(b, r, c, d);
      TryDigits(b, r, c, d) == if k == 10 then None else Search(Place(b, r, c, Digit(k)), r, c + 1)
    decreases 10 - d
  {
    if d < 10 && !Succeeds(b, r, c, d) {
      TryFirstSuccess(b, r, c, d + 1);
    }
  }

  /** At an empty cell the search fails exactly when no candidate succeeds; when it
      succeeds, the digit it keeps there is the smallest candidate that succeeds,
      and the result is that candidate's search. */
  lemma SearchKeepsSmallest(b: Board, r: int, c: int)
    requires 0 <= r < 9 && 0 <= c < 9 && b[r][c] == Empty
    ensures var k := FirstSuccess(b, r, c, 1);
      (Search(b, r, c).None? <==> k == 10) &&
      (k < 10 ==> Search(b, r, c) == Search(Place(b, r, c, Digit(k)), r, c + 1) &&
                  Search(b, r, c).value[r][c] == Digit(k))
  {
    TryFirstSuccess(b, r, c, 1);
    var k := FirstSuccess(b, r, c, 1);
    if k < 10 {
      SearchSound(Place(b, r, c, Digit(k)), r, c + 1);
    }
  }

  /** A grid with no "." at or after (r, c) comes back unchanged: solving a complete
      grid is the identity. */
  lemma {:induction false} SearchFilledIsIdentity(b: Board, r: int, c: int)
    requires 0 <= r <= 9 && 0 <= c <= 9
    requires FilledFrom(b, r, c)
    ensures Search(b, r, c) == Some(b)
    decreases Rank(r, c)
  {
    if r == 9 {
    } else if c == 9 {
      SearchFilledIsIdentity(b, r + 1, 0);
    } else {
      SearchFilledIsIdentity(b, r, c + 1);
    }
  }

  /** Givens are never compared with each other: a complete grid whose first row
      holds "1" twice is accepted as solved. */
  lemma DuplicateGivensAccepted()
    ensures exists b: Board :: b[0][0] == b[0][1] == Text("1") && Search(b, 0, 0) == Some(b)
  {
    var ones: Board := seq(9, _ => seq(9, _ => Text("1")));
    SearchFilledIsIdentity(ones, 0, 0);
    assert ones[0][0] == ones[0][1] == Text("1") && Search(ones, 0, 0) == Some(ones);
  }

  /** The search passes over givens: if every cell from (r, c) up to (r0, c0) is
      filled, searching from (r, c) is searching from (r0, c0). */
  lemma {:induction false} SkipGivens(b: Board, r: int, c: int, r0: int, c0: int)
    requires 0 <= r <= 9 && 0 <= c <= 9 && 0 <= r0 < 9 && 0 <= c0 < 9
    requires !Before(r0, c0, r, c)
    requires forall i, j :: 0 <= i < 9 && 0 <= j < 9 && !Before(i, j, r, c) && Before(i, j, r0, c0) ==>
      b[i][j] != Empty
    ensures Search(b, r, c) == Search(b, r0, c0)
    decreases Rank(r, c)
  {
    if r == r0 && c == c0 {
    } else if c == 9 {
      SkipGivens(b, r + 1, 0, r0, c0);
    } else {
      assert b[r][c] != Empty;
      SkipGivens(b, r, c + 1, r0, c0);
    }
  }

  /** With no other "." left, a candidate at (r0, c0) succeeds exactly when it passes
      `valid`, and the search after it returns the grid as it stands. */
  lemma LastBlankCandidate(b: Board, r0: int, c0: int, k: int)
    requires 0 <= r0 < 9 && 0 <= c0 < 9 && 1 <= k <= 9
    requires forall i, j :: 0 <= i < 9 && 0 <= j < 9 && (i != r0 || j != c0) ==> b[i][j] != Empty
    ensures Search(Place(b, r0, c0, Digit(k)), r0, c0 + 1) == Some(Place(b, r0, c0, Digit(k)))
    ensures Succeeds(b, r0, c0, k) <==> Valid(b, r0, c0, DigitText(k))
  {
    SearchFilledIsIdentity(Place(b, r0, c0, Digit(k)), r0, c0 + 1);
  }

  /** The first candidate k >= d that passes `valid` at (r, c), or 10 when none does. */
  function FirstValid(b: Board, r: int, c: int, d: int): (k: int)
    requires 0 <= r < 9 && 0 <= c < 9 && 1 <= d <= 10
    ensures d <= k <= 10
    ensures k < 10 ==> Valid(b, r, c, DigitText(k))
    ensures forall k' :: d <= k' < k ==> !Valid(b, r, c, DigitText(k'))
    decreases 10 - d
  {
    if d == 10 then 10
    else if Valid(b, r, c, DigitText(d)) then d
    else FirstValid(b, r, c, d + 1)
  }

  /** With no other "." left, the first candidate that succeeds is the first that
      passes `valid`. */
  lemma {:induction false} LastBlankFirstSuccess(b: Board, r0: int, c0: int, d: int)
    requires 0 <= r0 < 9 && 0 <= c0 < 9 && 1 <= d <= 10
    requires forall i, j :: 0 <= i < 9 && 0 <= j < 9 && (i != r0 || j != c0) ==> b[i][j] != Empty
    ensures FirstSuccess(b, r0, c0, d) == FirstValid(b, r0, c0, d)
    decreases 10 - d
  {
    if d < 10 {
      LastBlankCandidate(b, r0, c0, d);
      LastBlankFirstSuccess(b, r0, c0, d + 1);
    }
  }

  /** A grid with exactly one "." at (r0, c0): the search fails exactly when no digit
      passes `valid` there, and otherwise fills that one cell with the smallest digit
      that does and changes nothing else. */
  lemma SingleBlank(b: Board, r0: int, c0: int)
    requires 0 <= r0 < 9 && 0 <= c0 < 9 && b[r0][c0] == Empty
    requires forall i, j :: 0 <= i < 9 && 0 <= j < 9 && (i != r0 || j != c0) ==> b[i][j] != Empty
    ensures var k := FirstValid(b, r0, c0, 1);
      Search(b, 0, 0) == if k == 10 then None else Some(Place(b, r0, c0, Digit(k)))
  {
    SkipGivens(b, 0, 0, r0, c0);
    SearchKeepsSmallest(b, r0, c0);
    LastBlankFirstSuccess(b, r0, c0, 1);
    var first := FirstValid(b, r0, c0, 1);
    if first < 10 {
      LastBlankCandidate(b, r0, c0, first);
    }
  }

  /** The box test looks only at the part of the box from (r, c) down and to the
      right: a cell of the box outside row r and column c that lies above row r or
      left of column c can be changed without changing what `valid` answers. */
  lemma ValidIgnoresBoxAboveLeft(b: Board, r: int, c: int, i: int, j: int, x: Cell, num: string)
    requires 0 <= r < 9 && 0 <= c < 9
    requires BoxEnd(r) - 3 <= i < BoxEnd(r) && BoxEnd(c) - 3 <= j < BoxEnd(c)
    requires i != r && j != c && (i < r || j < c)
    ensures Valid(Place(b, i, j, x), r, c, num) == Valid(b, r, c, num)
  {
    ValidMeans(b, r, c, num);
    ValidMeans(Place(b, i, j, x), r, c, num);
  }

  /** All "0" but for a "5" at (0, 0), the digits "1" .. "4" at (1, 2) .. (1, 5) and a
      single "." at (1, 1), in the same box as the "5". */
  function SampleCell(i: int, j: int): Cell
  {
    if i == 0 && j == 0 then Digit(5)
    else if i == 1 && j == 1 then Empty
    else if i == 1 && 2 <= j <= 5 then Digit(j - 1)
    else Text("0")
  }

  const BoxSample: Board := seq(9, i => seq(9, j => SampleCell(i, j)))

  /** Because of the partial box test, a successful solve can return a grid with
      the same digit twice in one 3 x 3 box: on BoxSample it writes "5" at (1, 1). */
  lemma SolvedBoxMayRepeat()
    ensures Search(BoxSample, 0, 0) == Some(Place(BoxSample, 1, 1, Digit(5)))
    ensures Search(BoxSample, 0, 0).value[0][0] == Search(BoxSample, 0, 0).value[1][1] == Digit(5)
  {
    var b := BoxSample;
    forall k | 1 <= k <= 4
      ensures !Valid(b, 1, 1, DigitText(k))
    {
      ValidMeans(b, 1, 1, DigitText(k));
      assert Show(b[1][k + 1]) == DigitText(k);
    }
    forall j | 0 <= j < 9
      ensures Show(b[1][j]) != DigitText(5)
    {
      if 2 <= j <= 5 {
        assert Show(b[1][j]) == DigitText(j - 1);
      }
    }
    ValidMeans(b, 1, 1, DigitText(5));
    assert Valid(b, 1, 1, DigitText(5));
    SingleBlank(b, 1, 1);
  }

  /** The grid `solve_sudoku` hands back keeps every given, and it is either the grid
      as built (the search failed) or has no "." left. */
  lemma OutcomeKeepsGivens(b: Board)
    ensures forall i, j :: 0 <= i < 9 && 0 <= j < 9 && b[i][j] != Empty ==> Outcome(b)[i][j] == b[i][j]
    ensures Outcome(b) == b || FilledFrom(Outcome(b), 0, 0)
  {
    if Search(b, 0, 0).Some? {
      SearchSound(b, 0, 0);
    }
  }
}
