/**
 * The backtracking course generator (generateCourse, candidatesFrom, dfs and
 * shuffle; app.js:134-141 and app.js:184-258).
 *
 * Math.random becomes a parameter: the swap partners of every shuffle are
 * given as draws, and every statement below holds for all draws in range.
 * The draws decide the order in which dfs tries the candidates, and so
 * which complete course it returns; every complete course is returned for
 * some draws.
 */
module Generator {
  import opened Rules
  import opened Courses

  /**
   * The draws of one shuffle: `draw(i)` is the swap partner that
   * `Math.floor(Math.random()*(i+1))` picks at step i, an index from 0 to i.
   */
  ghost predicate IsDraw(draw: int -> int)
  {
    forall i :: 0 < i ==> 0 <= draw(i) <= i
  }

  /**
   * The random draws of one search. Each call of candidatesFrom happens after
   * a different partial course, so indexing the draws by the holes placed so
   * far covers every run of the search.
   */
  type Random = seq<Hole> -> int -> int

  ghost predicate IsRandom(rand: Random)
  {
    forall p: seq<Hole> :: IsDraw(rand(p))
  }

  /** Fisher-Yates from position i down to 1, with the swap partners `draw`. */
  function FisherYates<T>(a: seq<T>, i: int, draw: int -> int): (r: seq<T>)
    requires i < |a| && IsDraw(draw)
    ensures |r| == |a|
    decreases i
  {
    if i <= 0 then a
    else FisherYates(a[i := a[draw(i)]][draw(i) := a[i]], i - 1, draw)
  }

  /** Every swap exchanges two elements, so Fisher-Yates permutes its input. */
  lemma {:induction false} FisherYatesPermutes<T>(a: seq<T>, i: int, draw: int -> int)
    requires i < |a| && IsDraw(draw)
    ensures multiset(FisherYates(a, i, draw)) == multiset(a)
    decreases i
  {
    if i > 0 {
      var j := draw(i);
      var b := a[i := a[j]][j := a[i]];
      FisherYatesPermutes(b, i - 1, draw);
      assert multiset(b) == multiset(a);
    }
  }

  /** shuffle: Fisher-Yates on a copy of the input. */
  method Shuffle<T>(s: seq<T>, draw: int -> int) returns (r: seq<T>)
    requires IsDraw(draw)
    ensures r == FisherYates(s, |s| - 1, draw)
    ensures multiset(r) == multiset(s)
  {
    var a := new T[|s|](k requires 0 <= k < |s| => s[k]);
    assert a[..] == s;
    var i := a.Length - 1;
    while i > 0
      invariant i < a.Length
      invariant FisherYates(a[..], i, draw) == FisherYates(s, |s| - 1, draw)
    {
      ghost var b := a[..];
      var j := draw(i);
      a[i], a[j] := a[j], a[i];
      assert a[..] == b[i := b[j]][j := b[i]];
      i := i - 1;
    }
    r := a[..];
    FisherYatesPermutes(s, |s| - 1, draw);
  }

  /**
   * Draws that leave every element in place except at step k, where the
   * element at k is swapped to the front.
   */
  lemma {:induction false} FisherYatesFront<T>(a: seq<T>, i: int, k: nat, draw: int -> int)
    requires i < |a| && k < |a| && IsDraw(draw)
    requires forall m :: 0 < m ==> draw(m) == if m == k then 0 else m
    ensures FisherYates(a, i, draw)[0] == if 0 < k <= i then a[k] else a[0]
    decreases i
  {
    if i > 0 {
      var b := a[i := a[draw(i)]][draw(i) := a[i]];
      FisherYatesFront(b, i - 1, k, draw);
      if i != k {
        assert b == a;
      }
    }
  }

  /** The goals hole `holeNum` may aim at before filtering: its FIXED_TO goal, or all of GOALS. */
  function Pool(holeNum: int): seq<Goal>
  {
    match FixedTo(holeNum)
    case Some(g) => [g]
    case None => Goals
  }

  /** `s.filter(to => isAllowed(from, to))` */
  function AllowedOnly(from: From, s: seq<Goal>): seq<Goal>
  {
    if s == [] then []
    else (if IsAllowed(from, s[0]) then [s[0]] else []) + AllowedOnly(from, s[1..])
  }

  /** The filter keeps exactly the allowed elements, and never adds any. */
  lemma {:induction false} AllowedOnlyExactly(from: From, s: seq<Goal>)
    ensures |AllowedOnly(from, s)| <= |s|
    ensures forall t :: t in AllowedOnly(from, s) <==> t in s && IsAllowed(from, t)
    decreases |s|
  {
    if s != [] {
      AllowedOnlyExactly(from, s[1..]);
      assert s == [s[0]] + s[1..];
    }
  }

  /** The candidates of hole `holeNum` from `from`, in the order the draws shuffle them into. */
  function Candidates(from: From, holeNum: int, draw: int -> int): seq<Goal>
    requires IsDraw(draw)
  {
    AllowedOnly(from, FisherYates(Pool(holeNum), |Pool(holeNum)| - 1, draw))
  }

  /** The candidates are exactly the allowed goals of the hole's pool, whatever the draws. */
  lemma CandidatesExactly(from: From, holeNum: int, draw: int -> int)
    requires IsDraw(draw)
    ensures forall t :: t in Candidates(from, holeNum, draw) <==> t in Pool(holeNum) && IsAllowed(from, t)
  {
    var shuffled := FisherYates(Pool(holeNum), |Pool(holeNum)| - 1, draw);
    FisherYatesPermutes(Pool(holeNum), |Pool(holeNum)| - 1, draw);
    AllowedOnlyExactly(from, shuffled);
    assert forall t :: t in shuffled <==> t in multiset(Pool(holeNum));
  }

  /** candidatesFrom: the legal targets for the hole, in shuffled order. */
  method CandidatesFrom(from: From, holeIdx: int, draw: int -> int) returns (tos: seq<Goal>)
    requires IsDraw(draw)
    ensures tos == Candidates(from, holeIdx, draw)
    ensures forall t :: t in tos <==> t in Pool(holeIdx) && IsAllowed(from, t)
  {
    var shuffled := Shuffle(Pool(holeIdx), draw);
    tos := AllowedOnly(from, shuffled);
    CandidatesExactly(from, holeIdx, draw);
  }

  /** The visits still owed over the goals `gs`, given the counts so far (`need`). */
  function Shortfall(counts: map<Goal, int>, gs: seq<Goal>): int
    requires forall g: Goal :: g in counts
  {
    if gs == [] then 0
    else
      var g := gs[|gs| - 1];
      Shortfall(counts, gs[..|gs| - 1]) + (if counts[g] < MinVisits then MinVisits - counts[g] else 0)
  }

  /** Sum of the visits of `s` to the goals `gs`. */
  function VisitsTo(s: seq<Hole>, gs: seq<Goal>): nat
  {
    if gs == [] then 0 else VisitsTo(s, gs[..|gs| - 1]) + Visits(s, gs[|gs| - 1])
  }

  lemma {:induction false} VisitsAppend(p: seq<Hole>, s: seq<Hole>, g: Goal)
    ensures Visits(p + s, g) == Visits(p, g) + Visits(s, g)
    decreases |s|
  {
    if s != [] {
      var s', h := s[..|s| - 1], s[|s| - 1];
      assert p + s == (p + s') + [h];
      assert s == s' + [h];
      VisitsSnoc(p + s', h, g);
      VisitsSnoc(s', h, g);
      VisitsAppend(p, s', g);
    } else {
      assert p + s == p;
    }
  }

  lemma {:induction false} VisitsToNothing(gs: seq<Goal>)
    ensures VisitsTo([], gs) == 0
  {
    if gs != [] {
      VisitsToNothing(gs[..|gs| - 1]);
    }
  }

  lemma {:induction false} VisitsToSnoc(s: seq<Hole>, h: Hole, gs: seq<Goal>)
    ensures VisitsTo(s + [h], gs) == VisitsTo(s, gs) + multiset(gs)[h.to]
    decreases |gs|
  {
    if gs != [] {
      var gs', g := gs[..|gs| - 1], gs[|gs| - 1];
      assert gs == gs' + [g];
      VisitsToSnoc(s, h, gs');
      VisitsSnoc(s, h, g);
    }
  }

  /** Every hole ends at exactly one goal, so the visits over all goals add up to the number of holes. */
  lemma {:induction false} AllVisits(s: seq<Hole>)
    ensures VisitsTo(s, Goals) == |s|
  {
    if s != [] {
      var s', h := s[..|s| - 1], s[|s| - 1];
      assert s == s' + [h];
      AllVisits(s');
      VisitsToSnoc(s', h, Goals);
      AllGoalsListed(h.to);
    } else {
      VisitsToNothing(Goals);
    }
  }

  lemma {:induction false} ShortfallBound(counts: map<Goal, int>, s: seq<Hole>, gs: seq<Goal>)
    requires forall g: Goal :: g in counts
    requires forall g: Goal :: counts[g] + Visits(s, g) >= MinVisits
    ensures Shortfall(counts, gs) <= VisitsTo(s, gs)
    decreases |gs|
  {
    if gs != [] {
      ShortfallBound(counts, s, gs[..|gs| - 1]);
    }
  }

  /**
   * Prune soundness: every hole adds one visit to one goal, so a partial course
   * that still owes more visits than it has holes left cannot be completed.
   */
  lemma PruneSound(p: seq<Hole>, counts: map<Goal, int>)
    requires CountsMatch(counts, p)
    ensures Completable(p) ==> Shortfall(counts, Goals) <= Holes - |p|
  {
    if Completable(p) {
      var c :| ValidCourse(c) && p <= c;
      var s := c[|p|..];
      assert c == p + s;
      forall g: Goal ensures counts[g] + Visits(s, g) >= MinVisits {
        VisitsAppend(p, s, g);
      }
      ShortfallBound(counts, s, Goals);
      AllVisits(s);
    }
  }

  /** A completable partial course is completed by some legal next hole drawn from the pool. */
  lemma NextHole(p: seq<Hole>)
    requires |p| < Holes
    ensures Completable(p) ==>
      exists t :: t in Pool(|p| + 1) && IsAllowed(Origin(p), t)
        && Completable(p + [Hole(Origin(p), t, ParFor(Origin(p), t))])
  {
    if Completable(p) {
      var c :| ValidCourse(c) && p <= c;
      var h := c[|p|];
      assert c[..|p| + 1] == p + [h];
      ValidPrefixClosed(c, |p| + 1);
      ValidPrefixSnoc(p, h);
      AllGoalsListed(h.to);
      assert h == Hole(Origin(p), h.to, ParFor(Origin(p), h.to));
      assert h.to in Pool(|p| + 1);
    }
  }

  /** A partial course of 18 holes can be completed only if it already covers every goal. */
  lemma FullPrefix(p: seq<Hole>)
    requires |p| == Holes
    ensures Completable(p) ==> Covered(p)
  {
    if Completable(p) {
      var c :| ValidCourse(c) && p <= c;
      assert c == p;
    }
  }

  /** usedEdges and toCounts describe the holes placed so far, which keep the placement rules. */
  ghost predicate StateOf(usedEdges: set<Move>, toCounts: map<Goal, int>, result: seq<Hole>)
  {
    ValidPrefix(result) && usedEdges == Edges(result) && CountsMatch(toCounts, result)
  }

  /** Applying a hole that fits (app.js:224-226) keeps the state consistent. */
  lemma Apply(usedEdges: set<Move>, toCounts: map<Goal, int>, p: seq<Hole>, h: Hole)
    requires StateOf(usedEdges, toCounts, p) && HoleFits(p, h)
    ensures StateOf(usedEdges + {MoveOf(h)}, toCounts[h.to := toCounts[h.to] + 1], p + [h])
  {
    EdgesSnoc(p, h);
    ValidPrefixSnoc(p, h);
    forall g: Goal {
      VisitsSnoc(p, h, g);
    }
  }

  /** Rolling back (app.js:243-245) undoes the apply exactly. */
  lemma Rollback(usedEdges: set<Move>, toCounts: map<Goal, int>, p: seq<Hole>, h: Hole)
    requires StateOf(usedEdges, toCounts, p) && HoleFits(p, h)
    ensures var counts := toCounts[h.to := toCounts[h.to] + 1];
      && counts[h.to := counts[h.to] - 1] == toCounts
      && (usedEdges + {MoveOf(h)}) - {MoveOf(h)} == usedEdges
      && (p + [h])[..|p|] == p
  {
  }

  // ---------- Draws that steer the search ----------

  /** Under the draws `rand`, the first candidate tried after the holes `p` is the goal of `h`. */
  ghost predicate LeadsTo(rand: Random, p: seq<Hole>, h: Hole)
    requires IsRandom(rand)
  {
    var tos := Candidates(Origin(p), |p| + 1, rand(p));
    tos != [] && tos[0] == h.to
  }

  /** Under the draws `rand`, every hole of `c` is the first candidate tried after the holes before it. */
  ghost predicate Guides(rand: Random, c: Course)
  {
    IsRandom(rand) && forall i {:trigger LeadsTo(rand, c[..i], c[i])} :: 0 <= i < |c| ==> LeadsTo(rand, c[..i], c[i])
  }

  /** The position of a goal in GOALS. */
  function Rank(g: Goal): (k: nat)
    ensures k < |Goals| && Goals[k] == g
  {
    match g
    case White => 0
    case Orange => 1
    case Blue => 2
    case Pink => 3
    case Red => 4
    case Green => 5
    case Yellow => 6
  }

  /** The position of hole i+1's goal in the pool of that hole. */
  function Slot(c: Course, i: nat): nat
    requires i < |c|
  {
    if FixedTo(i + 1).Some? then 0 else Rank(c[i].to)
  }

  /** Draws that bring, after each prefix of `c`, the next goal of `c` to the front of the shuffle. */
  function GuideTo(c: Course): Random
  {
    p => m => if |p| < |c| && p == c[..|p|] && m == Slot(c, |p|) then 0 else m
  }

  lemma GuideToIsRandom(c: Course)
    ensures IsRandom(GuideTo(c))
  {
    var rand := GuideTo(c);
    forall p: seq<Hole> ensures IsDraw(rand(p)) {
    }
  }

  /** The draws GuideTo(c) bring hole i+1's goal to the front of its shuffled pool. */
  lemma GuideToFront(c: Course, i: nat)
    requires ValidCourse(c) && i < |c|
    ensures IsDraw(GuideTo(c)(c[..i]))
    ensures var pool := Pool(i + 1);
      FisherYates(pool, |pool| - 1, GuideTo(c)(c[..i]))[0] == c[i].to
  {
    var draw := GuideTo(c)(c[..i]);
    var k := Slot(c, i);
    var pool := Pool(i + 1);
    assert forall m :: 0 < m ==> draw(m) == if m == k then 0 else m;
    FitsAt(c, i);
    assert k < |pool| && pool[k] == c[i].to;
    FisherYatesFront(pool, |pool| - 1, k, draw);
  }

  /** Every complete course is steered to by some draws: GuideTo(c). */
  lemma Reachable(c: Course)
    requires ValidCourse(c)
    ensures Guides(GuideTo(c), c)
  {
    var rand := GuideTo(c);
    GuideToIsRandom(c);
    forall i | 0 <= i < |c| ensures LeadsTo(rand, c[..i], c[i]) {
      var p := c[..i];
      GuideToFront(c, i);
      FitsAt(c, i);
      var s := FisherYates(Pool(i + 1), |Pool(i + 1)| - 1, rand(p));
      assert AllowedOnly(Origin(p), s)[0] == s[0];
    }
  }

  /** A prefix of a complete course is followed by a hole that fits after it. */
  lemma NextOfCourse(c: Course, p: seq<Hole>)
    requires ValidCourse(c) && p <= c && |p| < Holes
    ensures var h := c[|p|];
      && h == Hole(Origin(p), h.to, ParFor(Origin(p), h.to))
      && HoleFits(p, h) && p + [h] <= c
  {
    var n := |p|;
    assert c[..n] == p;
    FitsAt(c, n);
    assert c[..n + 1] == p + [c[n]];
  }

  /** Where draws steer to a course, the first candidate after a prefix of it is its next goal. */
  lemma GuidedNext(rand: Random, c: Course, p: seq<Hole>)
    requires Guides(rand, c) && |c| == Holes && p <= c && |p| < Holes
    ensures var tos := Candidates(Origin(p), |p| + 1, rand(p));
      tos != [] && tos[0] == c[|p|].to
  {
    var n := |p|;
    assert c[..n] == p;
    assert LeadsTo(rand, c[..n], c[n]);
  }

  /** Where draws steer to a complete course, the next candidate is its next hole, and that hole fits. */
  lemma GuidedStep(rand: Random, c: Course, p: seq<Hole>)
    requires ValidCourse(c) && Guides(rand, c) && p <= c && |p| < Holes
    ensures var h, tos := c[|p|], Candidates(Origin(p), |p| + 1, rand(p));
      && tos != [] && tos[0] == h.to
      && h == Hole(Origin(p), h.to, ParFor(Origin(p), h.to))
      && HoleFits(p, h) && p + [h] <= c
  {
    GuidedNext(rand, c, p);
    NextOfCourse(c, p);
  }

  /** Two complete courses the draws steer to continue a common prefix with the same hole. */
  lemma GuidedSameNext(rand: Random, c1: Course, c2: Course, p: seq<Hole>)
    requires ValidCourse(c1) && ValidCourse(c2) && Guides(rand, c1) && Guides(rand, c2)
    requires p <= c1 && p <= c2 && |p| < Holes
    ensures p + [c1[|p|]] == p + [c2[|p|]]
  {
    GuidedStep(rand, c1, p);
    GuidedStep(rand, c2, p);
  }

  /** Two complete courses the draws steer to agree on their first k holes. */
  lemma {:induction false} GuidedAgree(rand: Random, c1: Course, c2: Course, k: nat)
    requires ValidCourse(c1) && ValidCourse(c2) && Guides(rand, c1) && Guides(rand, c2)
    requires k <= Holes
    ensures c1[..k] == c2[..k]
  {
    if k > 0 {
      GuidedAgree(rand, c1, c2, k - 1);
      var p := c1[..k - 1];
      GuidedSameNext(rand, c1, c2, p);
      assert c1[..k] == p + [c1[k - 1]];
      assert c2[..k] == p + [c2[k - 1]];
    }
  }

  /** The draws steer to at most one complete course. */
  lemma GuidedUnique(rand: Random, c1: Course, c2: Course)
    requires ValidCourse(c1) && ValidCourse(c2) && Guides(rand, c1) && Guides(rand, c2)
    ensures c1 == c2
  {
    GuidedAgree(rand, c1, c2, Holes);
    assert c1 == c1[..Holes] && c2 == c2[..Holes];
  }

  /** A complete course that extends `p` shows that `p` can be completed. */
  lemma CompletedBy(p: seq<Hole>, c: Course)
    requires ValidCourse(c) && p <= c
    ensures Completable(p)
  {
  }

  /** The search state of one generateCourse call: usedEdges, toCounts and result. */
  class Search {
    var usedEdges: set<Move>
    var toCounts: map<Goal, int>
    var result: seq<Hole>

    ghost predicate Valid()
      reads this
    {
      StateOf(usedEdges, toCounts, result)
    }

    constructor ()
      ensures Valid() && result == []
    {
      usedEdges := {};
      toCounts := ZeroCounts();
      result := [];
      new;
      assert Edges([]) == {};
    }

    /** The `need` loop of dfs (app.js:229-233): visits still owed over all goals. */
    method Need() returns (need: int)
      requires forall g: Goal :: g in toCounts
      ensures need == Shortfall(toCounts, Goals)
    {
      need := 0;
      for m := 0 to |Goals|
        invariant need == Shortfall(toCounts, Goals[..m])
      {
        var g := Goals[m];
        assert Goals[..m + 1] == Goals[..m] + [g];
        if toCounts[g] < MinVisits {
          need := need + (MinVisits - toCounts[g]);
        }
      }
      assert Goals[..|Goals|] == Goals;
    }

    /**
     * dfs: places holes holeIdx..18 after `result`. On success `result` is a
     * complete course extending the old one; on failure the three pieces of
     * state are exactly as they were and no course extends the old `result`.
     * When the draws steer to a complete course `c` extending the old
     * `result`, dfs finds exactly `c`.
     */
    method Dfs(holeIdx: int, from: From, rand: Random, ghost c: Course) returns (found: bool)
      requires Valid() && 1 <= holeIdx <= Holes + 1 && |result| == holeIdx - 1
      requires from == Origin(result) && IsRandom(rand)
      modifies this
      ensures Valid()
      ensures found ==> ValidCourse(result) && old(result) <= result
      ensures !found ==> result == old(result) && usedEdges == old(usedEdges) && toCounts == old(toCounts)
      ensures !found ==> !Completable(old(result))
      ensures ValidCourse(c) && Guides(rand, c) && old(result) <= c ==> found && result == c
      decreases Holes + 1 - holeIdx, 2
    {
      if holeIdx > Holes {
        found := EveryGoalVisited(toCounts);
        CountsCovered(toCounts, result);
        FullPrefix(result);
        return;
      }

      var tos := CandidatesFrom(from, holeIdx, rand(result));
      if ValidCourse(c) && Guides(rand, c) && result <= c {
        GuidedStep(rand, c, result);
      }
      ghost var p := result;
      found := TryEach(holeIdx, from, tos, rand, c);
      if !found {
        NextHole(p);
      }
    }

    /**
     * The candidate loop of dfs: tries the candidates `tos` in order, skipping
     * moves already thrown, until one of them completes the course.
     */
    method TryEach(holeIdx: int, from: From, tos: seq<Goal>, rand: Random, ghost c: Course) returns (found: bool)
      requires Valid() && 1 <= holeIdx <= Holes && |result| == holeIdx - 1
      requires from == Origin(result) && IsRandom(rand)
      requires forall t :: t in tos ==> t in Pool(holeIdx) && IsAllowed(from, t)
      requires ValidCourse(c) && Guides(rand, c) && result <= c ==>
        && tos != [] && c[|result|] == Hole(from, tos[0], ParFor(from, tos[0]))
        && HoleFits(result, c[|result|]) && result + [c[|result|]] <= c
      modifies this
      ensures Valid()
      ensures found ==> ValidCourse(result) && old(result) <= result
      ensures !found ==> result == old(result) && usedEdges == old(usedEdges) && toCounts == old(toCounts)
      ensures !found ==> forall t :: t in tos ==> !Completable(old(result) + [Hole(from, t, ParFor(from, t))])
      ensures ValidCourse(c) && Guides(rand, c) && old(result) <= c ==> found && result == c
      decreases Holes + 1 - holeIdx, 1
    {
      ghost var p := result;
      ghost var steered := ValidCourse(c) && Guides(rand, c) && p <= c;

      for k := 0 to |tos|
        invariant Valid() && result == p && usedEdges == old(usedEdges) && toCounts == old(toCounts)
        invariant forall t :: t in tos[..k] ==> !Completable(p + [Hole(from, t, ParFor(from, t))])
        invariant steered ==> k == 0
      {
        var to := tos[k];
        var hole := Hole(from, to, ParFor(from, to));
        assert tos[..k + 1] == tos[..k] + [to];
        var edge := (from, to);
        if edge in usedEdges {
          CompletableIsValid(p + [hole]);
          ValidPrefixSnoc(p, hole);
          continue;
        }
        assert to in tos;
        assert HoleFits(p, hole);
        var done := TryThrow(holeIdx, from, to, rand, c);
        if done {
          return true;
        }
      }
      assert tos[..|tos|] == tos;
      return false;
    }

    /** The apply step of dfs: throws `hole` after the current result. */
    method Push(hole: Hole)
      requires Valid() && HoleFits(result, hole)
      modifies this
      ensures Valid()
      ensures usedEdges == old(usedEdges) + {MoveOf(hole)} && result == old(result) + [hole]
      ensures toCounts == old(toCounts)[hole.to := old(toCounts)[hole.to] + 1]
    {
      Apply(usedEdges, toCounts, result, hole);
      usedEdges := usedEdges + {MoveOf(hole)};
      result := result + [hole];
      toCounts := toCounts[hole.to := toCounts[hole.to] + 1];
    }

    /** The rollback step of dfs: undoes the apply of `hole` after the state (edges0, counts0, p). */
    method Pop(ghost edges0: set<Move>, ghost counts0: map<Goal, int>, ghost p: seq<Hole>, hole: Hole)
      requires StateOf(edges0, counts0, p) && HoleFits(p, hole)
      requires usedEdges == edges0 + {MoveOf(hole)} && result == p + [hole]
      requires toCounts == counts0[hole.to := counts0[hole.to] + 1]
      modifies this
      ensures usedEdges == edges0 && result == p && toCounts == counts0 && Valid()
    {
      Rollback(edges0, counts0, p, hole);
      toCounts := toCounts[hole.to := toCounts[hole.to] - 1];
      result := result[..|result| - 1];
      usedEdges := usedEdges - {MoveOf(hole)};
    }

    /**
     * One candidate of dfs's loop once the move is known to be unused: apply
     * the hole, run the min-visits pruning check, recurse, and roll back when
     * the recursion found nothing.
     */
    method TryThrow(holeIdx: int, from: From, to: Goal, rand: Random, ghost c: Course) returns (found: bool)
      requires Valid() && 1 <= holeIdx <= Holes && |result| == holeIdx - 1
      requires from == Origin(result) && HoleFits(result, Hole(from, to, ParFor(from, to)))
      requires IsRandom(rand)
      modifies this
      ensures Valid()
      ensures found ==> ValidCourse(result) && old(result) <= result
      ensures !found ==> result == old(result) && usedEdges == old(usedEdges) && toCounts == old(toCounts)
      ensures !found ==> !Completable(old(result) + [Hole(from, to, ParFor(from, to))])
      ensures ValidCourse(c) && Guides(rand, c) && old(result) + [Hole(from, to, ParFor(from, to))] <= c
        ==> found && result == c
      decreases Holes + 1 - holeIdx, 0
    {
      var hole := Hole(from, to, ParFor(from, to));
      var remaining := Holes - holeIdx + 1;
      ghost var p := result;

      // Apply
      ghost var edges0, counts0 := usedEdges, toCounts;
      Push(hole);
      if ValidCourse(c) && result <= c {
        CompletedBy(result, c);
      }
      PruneSound(result, toCounts);

      var ok := true;
      var need := Need();
      if need > remaining - 1 {
        ok := false;
      }

      if ok {
        found := Dfs(holeIdx + 1, G(to), rand, c);
        if found {
          return;
        }
      }

      // Rollback
      Pop(edges0, counts0, p, hole);
      found := false;
    }
  }

  /**
   * generateCourse: one search from the tee, with the random draws `rand`.
   * It always returns a complete course, and it returns exactly the course
   * the draws steer to, if any; by Reachable every complete course is
   * returned for some draws.
   */
  method GenerateCourse(rand: Random) returns (course: Option<Course>)
    requires IsRandom(rand)
    ensures course.Some? && ValidCourse(course.value)
    ensures forall c :: ValidCourse(c) && Guides(rand, c) ==> course == Some(c)
  {
    ghost var target := SampleCourse();
    if exists c :: ValidCourse(c) && Guides(rand, c) {
      target :| ValidCourse(target) && Guides(rand, target);
    }
    var search := new Search();
    var found := search.Dfs(1, Tee, rand, target);
    GenerationNeverFails();
    if !found {
      // dfs(1, "Tee") fails only when no complete course exists, and one does.
      assert false;
    }
    course := Some(search.result);
    forall c | ValidCourse(c) && Guides(rand, c) ensures course == Some(c) {
      GuidedUnique(rand, c, target);
    }
  }

  /** One complete course, written out hole by hole. */
  function SampleCourse(): (c: Course)
    ensures |c| == Holes
  {
    [ Hole(Tee, White, 3), Hole(G(White), Orange, 5), Hole(G(Orange), Red, 3),
      Hole(G(Red), Yellow, 3), Hole(G(Yellow), Pink, 3), Hole(G(Pink), Blue, 3),
      Hole(G(Blue), Yellow, 4), Hole(G(Yellow), Red, 3), Hole(G(Red), Green, 4),
      Hole(G(Green), White, 3), Hole(G(White), Pink, 4), Hole(G(Pink), Yellow, 3),
      Hole(G(Yellow), Orange, 4), Hole(G(Orange), Green, 4), Hole(G(Green), Blue, 4),
      Hole(G(Blue), Pink, 3), Hole(G(Pink), White, 4), Hole(G(White), Green, 3) ]
  }

  lemma SampleChained()
    ensures var c := SampleCourse();
      c[0].from == Tee && forall i :: 0 < i < |c| ==> c[i].from == G(c[i - 1].to)
  {
  }

  lemma SampleLegal()
    ensures var c := SampleCourse();
      && (forall i :: 0 <= i < |c| ==> FixedTo(i + 1).Some? ==> c[i].to == FixedTo(i + 1).value)
      && (forall i :: 0 <= i < |c| ==> IsAllowed(c[i].from, c[i].to))
      && (forall i :: 0 <= i < |c| ==> c[i].par == ParFor(c[i].from, c[i].to))
  {
  }

  lemma SampleUnique()
    ensures var c := SampleCourse();
      forall i, j :: 0 <= i < j < |c| ==> MoveOf(c[i]) != MoveOf(c[j])
  {
  }

  lemma {:induction false} VisitsMonotone(p: seq<Hole>, k: nat, g: Goal)
    requires k <= |p|
    ensures Visits(p[..k], g) <= Visits(p, g)
    decreases |p|
  {
    if k < |p| {
      var q := p[..|p| - 1];
      assert q[..k] == p[..k];
      VisitsMonotone(q, k, g);
    } else {
      assert p[..k] == p;
    }
  }

  /** Two holes that end at `g` give it two visits. */
  lemma TwoVisits(p: seq<Hole>, i: nat, j: nat, g: Goal)
    requires i < j < |p| && p[i].to == g && p[j].to == g
    ensures Visits(p, g) >= 2
  {
    VisitsMonotone(p, j + 1, g);
    assert p[..j + 1] == p[..j] + [p[j]];
    VisitsSnoc(p[..j], p[j], g);
    VisitsMonotone(p[..j], i + 1, g);
    assert p[..j][..i + 1] == p[..i] + [p[i]];
    VisitsSnoc(p[..i], p[i], g);
  }

  lemma SampleCovered()
    ensures Covered(SampleCourse())
  {
    var c := SampleCourse();
    forall g: Goal ensures Visits(c, g) >= MinVisits {
      match g
      case White => TwoVisits(c, 0, 9, White);
      case Orange => TwoVisits(c, 1, 12, Orange);
      case Red => TwoVisits(c, 2, 7, Red);
      case Yellow => TwoVisits(c, 3, 6, Yellow);
      case Pink => TwoVisits(c, 4, 10, Pink);
      case Blue => TwoVisits(c, 5, 14, Blue);
      case Green => TwoVisits(c, 8, 13, Green);
    }
  }

  /**
   * The rule tables admit a complete course. With GenerateCourse's contract this
   * means that the single search never returns null, so no retry loop is needed.
   */
  lemma GenerationNeverFails()
    ensures ValidCourse(SampleCourse())
    ensures Completable([])
  {
    SampleChained();
    SampleLegal();
    SampleUnique();
    SampleCovered();
    var c := SampleCourse();
    assert PrefixRules(c);
    PrefixRulesIff(c);
    assert ValidCourse(c);
    assert [] <= c;
  }
}
