/**
 * The scorecard arithmetic (app.js:30-38, 143-154, 275-323): reading a score
 * cell as a diff from par, the colour class of a diff, the progress count,
 * and the par, diff and throw sums of computeSums.
 */
module Scoring {
  import opened Rules
  import opened Courses

  // ---------- score cells ----------

  /** The option values of SCORE_OPTIONS: "" (shown as "-") and the diffs -2 to +3, in order. */
  const OptionValues: seq<string> := ["", "-2", "-1", "0", "1", "2", "3"]

  /** A score cell: null, or a value chosen from SCORE_OPTIONS. */
  type Cell = Option<string>

  predicate IsCell(v: Cell)
  {
    v.None? || v.value in OptionValues
  }

  predicate AllCells(cells: seq<Cell>)
  {
    forall i :: 0 <= i < |cells| ==> IsCell(cells[i])
  }

  function DigitValue(c: char): int
  {
    c as int - '0' as int
  }

  /**
   * diffToNumber: null and "" count as 0; an option value is read as the
   * integer it spells (Number(v)).
   */
  function DiffToNumber(v: Cell): (n: int)
    requires IsCell(v)
    ensures -2 <= n <= 3
    ensures n == 0 <==> v.None? || v.value == "" || v.value == "0"
  {
    match v
    case None => 0
    case Some(s) =>
      if s == "" then 0
      else if s[0] == '-' then -DigitValue(s[1])
      else DigitValue(s[0])
  }

  /** Reading the option value at position n + 3 gives back the diff n, for every diff the options offer. */
  lemma OptionValuesRoundTrip(n: int)
    requires -2 <= n <= 3
    ensures DiffToNumber(Some(OptionValues[n + 3])) == n
  {
  }

  /** The class name scoreClass gives a diff: "score-under", "score-even" or "score-over". */
  datatype Standing = Under | Even | Over

  function ScoreClass(diff: int): Standing
  {
    if diff < 0 then Under
    else if diff > 0 then Over
    else Even
  }

  /** The colour of a diff pill says how the throws compare with par. */
  lemma ScoreClassOfThrows(throws: int, par: int)
    ensures ScoreClass(throws - par) == Under <==> throws < par
    ensures ScoreClass(throws - par) == Even <==> throws == par
    ensures ScoreClass(throws - par) == Over <==> throws > par
  {
  }

  // ---------- progress ----------

  /** Holes where at least one of the two players has a score. */
  function PlayedCount(p1: seq<Cell>, p2: seq<Cell>): nat
    requires |p1| == |p2|
  {
    if p1 == [] then 0
    else
      var n := |p1| - 1;
      PlayedCount(p1[..n], p2[..n]) + (if p1[n].Some? || p2[n].Some? then 1 else 0)
  }

  /** Math.round(played / 18 * 100): no value of played lies halfway, so this is exact. */
  function RoundedPercent(played: nat): (pct: int)
    ensures 18 * pct - 9 <= 100 * played < 18 * pct + 9
  {
    (100 * played + 9) / 18
  }

  /** computeProgress without its DOM writes: the played count and the percentage shown. */
  method ComputeProgress(p1: seq<Cell>, p2: seq<Cell>) returns (played: nat, pct: int)
    requires |p1| == Holes && |p2| == Holes
    ensures played == PlayedCount(p1, p2) && pct == RoundedPercent(played)
    ensures played <= Holes && 0 <= pct <= 100
  {
    played := 0;
    for i := 0 to Holes
      invariant played == PlayedCount(p1[..i], p2[..i])
    {
      assert p1[..i + 1][..i] == p1[..i] && p2[..i + 1][..i] == p2[..i];
      var a := p1[i].Some?;
      var b := p2[i].Some?;
      if a || b {
        played := played + 1;
      }
    }
    assert p1[..Holes] == p1 && p2[..Holes] == p2;
    PlayedBounds(p1, p2);
    pct := RoundedPercent(played);
  }

  lemma {:induction false} PlayedBounds(p1: seq<Cell>, p2: seq<Cell>)
    requires |p1| == |p2|
    ensures PlayedCount(p1, p2) <= |p1|
    ensures PlayedCount(p1, p2) == |p1| <==> forall i :: 0 <= i < |p1| ==> p1[i].Some? || p2[i].Some?
    ensures PlayedCount(p1, p2) == 0 <==> forall i :: 0 <= i < |p1| ==> p1[i].None? && p2[i].None?
    decreases |p1|
  {
    if p1 != [] {
      var n := |p1| - 1;
      PlayedBounds(p1[..n], p2[..n]);
      assert forall i :: 0 <= i < n ==> p1[..n][i] == p1[i] && p2[..n][i] == p2[i];
    }
  }

  /** The bar is full exactly when every hole has a score, and empty exactly when none has. */
  lemma PercentEnds(played: nat)
    requires played <= Holes
    ensures RoundedPercent(played) == 100 <==> played == Holes
    ensures RoundedPercent(played) == 0 <==> played == 0
  {
  }

  // ---------- sums ----------

  /** The sum of the pars of some holes (`.reduce((s,h)=>s+h.par,0)`). */
  function ParSum(holes: seq<Hole>): int
  {
    if holes == [] then 0 else ParSum(holes[..|holes| - 1]) + holes[|holes| - 1].par
  }

  /** The sum of the diffs of some cells. */
  function DiffSum(cells: seq<Cell>): int
    requires AllCells(cells)
  {
    if cells == [] then 0 else DiffSum(cells[..|cells| - 1]) + DiffToNumber(cells[|cells| - 1])
  }

  /** The throws of each hole, par plus diff, added up: the reference for the throws totals. */
  function ThrowSum(holes: seq<Hole>, cells: seq<Cell>): int
    requires |holes| == |cells| && AllCells(cells)
  {
    if holes == [] then 0
    else
      var n := |holes| - 1;
      ThrowSum(holes[..n], cells[..n]) + holes[n].par + DiffToNumber(cells[n])
  }

  /** sumDiff: the diffs of cells start..end-1 added up. */
  method SumDiff(arr: seq<Cell>, start: nat, end: nat) returns (d: int)
    requires start <= end <= |arr| && AllCells(arr)
    ensures d == DiffSum(arr[start..end])
  {
    d := 0;
    for i := start to end
      invariant d == DiffSum(arr[start..i])
    {
      assert arr[start..i + 1][..i - start] == arr[start..i];
      d := d + DiffToNumber(arr[i]);
    }
  }

  lemma {:induction false} ParSumAppend(a: seq<Hole>, b: seq<Hole>)
    ensures ParSum(a + b) == ParSum(a) + ParSum(b)
    decreases |b|
  {
    if b == [] {
      assert a + b == a;
    } else {
      var n := |b| - 1;
      assert (a + b)[..|a + b| - 1] == a + b[..n];
      ParSumAppend(a, b[..n]);
    }
  }

  lemma {:induction false} DiffSumAppend(a: seq<Cell>, b: seq<Cell>)
    requires AllCells(a) && AllCells(b)
    ensures AllCells(a + b) && DiffSum(a + b) == DiffSum(a) + DiffSum(b)
    decreases |b|
  {
    if b == [] {
      assert a + b == a;
    } else {
      var n := |b| - 1;
      assert (a + b)[..|a + b| - 1] == a + b[..n];
      DiffSumAppend(a, b[..n]);
    }
  }

  /** Pars of 3 to 5 per hole bound the par sum. */
  lemma {:induction false} ParSumBounds(holes: seq<Hole>)
    requires forall i :: 0 <= i < |holes| ==> 3 <= holes[i].par <= 5
    ensures 3 * |holes| <= ParSum(holes) <= 5 * |holes|
    decreases |holes|
  {
    if holes != [] {
      ParSumBounds(holes[..|holes| - 1]);
    }
  }

  /** Diffs of -2 to +3 per cell bound the diff sum; blank cells add nothing. */
  lemma {:induction false} DiffSumBounds(cells: seq<Cell>)
    requires AllCells(cells)
    ensures -2 * |cells| <= DiffSum(cells) <= 3 * |cells|
    ensures (forall i :: 0 <= i < |cells| ==> cells[i].None?) ==> DiffSum(cells) == 0
    decreases |cells|
  {
    if cells != [] {
      DiffSumBounds(cells[..|cells| - 1]);
    }
  }

  /** The par sum plus the diff sum is the sum of the per-hole throws. */
  lemma {:induction false} ThrowsPerHole(holes: seq<Hole>, cells: seq<Cell>)
    requires |holes| == |cells| && AllCells(cells)
    ensures ParSum(holes) + DiffSum(cells) == ThrowSum(holes, cells)
    decreases |holes|
  {
    if holes != [] {
      var n := |holes| - 1;
      ThrowsPerHole(holes[..n], cells[..n]);
    }
  }

  /** The par of a complete course lies between 54 and 90. */
  lemma CourseParRange(c: Course)
    requires ValidCourse(c)
    ensures 3 * Holes <= ParSum(c) <= 5 * Holes
  {
    ValidCourseFacts(c);
    ParSumBounds(c);
  }

  /** The par row of the scorecard: front nine, back nine and total. */
  datatype ParTotals = ParTotals(front: int, back: int, total: int)

  /** One player's sums: diffs from par and throws, for the front nine, the back nine and the round. */
  datatype PlayerTotals = PlayerTotals(
    diffFront: int, diffBack: int, diffTotal: int,
    throwsFront: int, throwsBack: int, throwsTotal: int)

  /** `course.slice(a, b)`: clamped to the course's length. */
  function Slice(c: Course, a: nat, b: nat): Course
  {
    var hi := if b < |c| then b else |c|;
    var lo := if a < hi then a else hi;
    c[lo..hi]
  }

  /**
   * The par row: the par sums of holes 1-9 and 10-18, and their total; all
   * zero without a course.
   */
  function ParTotalsOf(course: Option<Course>): (t: ParTotals)
    ensures t.total == t.front + t.back
    ensures course.None? ==> t == ParTotals(0, 0, 0)
  {
    match course
    case None => ParTotals(0, 0, 0)
    case Some(c) =>
      var front, back := ParSum(Slice(c, 0, 9)), ParSum(Slice(c, 9, 18));
      ParTotals(front, back, front + back)
  }

  /**
   * For an 18-hole course the par row holds the par sums of holes 1-9, of
   * holes 10-18 and of the whole course.
   */
  lemma ParTotalIsCoursePar(c: Course)
    requires |c| == Holes
    ensures ParTotalsOf(Some(c)) == ParTotals(ParSum(c[..9]), ParSum(c[9..]), ParSum(c))
  {
    assert Slice(c, 0, 9) == c[..9] && Slice(c, 9, 18) == c[9..];
    assert c[..9] + c[9..] == c;
    ParSumAppend(c[..9], c[9..]);
  }

  /**
   * One player's row of sums given the par row: diffs of holes 1-9, 10-18
   * and all; throws are par plus diff per half, and zero without a course.
   */
  predicate PlayerRow(course: Option<Course>, par: ParTotals, cells: seq<Cell>, t: PlayerTotals)
    requires |cells| == Holes && AllCells(cells)
  {
    && t.diffFront == DiffSum(cells[..9]) && t.diffBack == DiffSum(cells[9..])
    && t.diffTotal == t.diffFront + t.diffBack == DiffSum(cells)
    && (course.None? ==> t.throwsFront == 0 && t.throwsBack == 0 && t.throwsTotal == 0)
    && (course.Some? ==>
          t.throwsFront == par.front + t.diffFront && t.throwsBack == par.back + t.diffBack
          && t.throwsTotal == t.throwsFront + t.throwsBack)
    && (course.Some? && |course.value| == Holes ==> t.throwsTotal == ThrowSum(course.value, cells))
  }

  /** One player's diff sums (three sumDiff calls) and throws (par plus diff, zero without a course). */
  method PlayerSums(course: Option<Course>, par: ParTotals, cells: seq<Cell>) returns (t: PlayerTotals)
    requires |cells| == Holes && AllCells(cells)
    requires par == ParTotalsOf(course)
    ensures PlayerRow(course, par, cells, t)
  {
    var diffFront := SumDiff(cells, 0, 9);
    var diffBack := SumDiff(cells, 9, 18);
    var diffTotal := diffFront + diffBack;
    assert cells[0..9] == cells[..9] && cells[9..18] == cells[9..] && cells[..9] + cells[9..] == cells;
    DiffSumAppend(cells[..9], cells[9..]);
    var throwsFront, throwsBack, throwsTotal := 0, 0, 0;
    if course.Some? {
      throwsFront := par.front + diffFront;
      throwsBack := par.back + diffBack;
      throwsTotal := par.total + diffTotal;
      if |course.value| == Holes {
        ParTotalIsCoursePar(course.value);
        ThrowsPerHole(course.value, cells);
      }
    }
    t := PlayerTotals(diffFront, diffBack, diffTotal, throwsFront, throwsBack, throwsTotal);
  }

  /** What computeSums shows: the par row and both players' sums. */
  datatype Sums = Sums(par: ParTotals, p1: PlayerTotals, p2: PlayerTotals)

  /** computeSums without its DOM writes. */
  method ComputeSums(course: Option<Course>, p1: seq<Cell>, p2: seq<Cell>) returns (s: Sums)
    requires |p1| == Holes && |p2| == Holes && AllCells(p1) && AllCells(p2)
    ensures s.par == ParTotalsOf(course)
    ensures course.Some? && |course.value| == Holes ==>
      s.par.front == ParSum(course.value[..9]) && s.par.back == ParSum(course.value[9..])
    ensures s.par.total == s.par.front + s.par.back
    ensures PlayerRow(course, s.par, p1, s.p1) && PlayerRow(course, s.par, p2, s.p2)
    ensures course.Some? && ValidCourse(course.value) ==>
      s.par.total == ParSum(course.value) && 3 * Holes <= s.par.total <= 5 * Holes
    ensures s.p1.diffTotal == DiffSum(p1) && s.p2.diffTotal == DiffSum(p2)
    ensures course.Some? && |course.value| == Holes ==>
      s.p1.throwsTotal == ThrowSum(course.value, p1) && s.p2.throwsTotal == ThrowSum(course.value, p2)
    ensures course.None? ==> s.par == ParTotals(0, 0, 0) && s.p1.throwsTotal == 0 && s.p2.throwsTotal == 0
  {
    var par := ParTotalsOf(course);
    if course.Some? && |course.value| == Holes {
      ParTotalIsCoursePar(course.value);
      if ValidCourse(course.value) {
        CourseParRange(course.value);
      }
    }
    var t1 := PlayerSums(course, par, p1);
    var t2 := PlayerSums(course, par, p2);
    s := Sums(par, t1, t2);
  }
}
