/**
 * What a course is: 18 holes {from, to, par} forming a contiguous walk from
 * the tee, and the rules every generated or decoded course keeps
 * (app.js:195-257 and app.js:476-506 enforce them; app.js:61 holds the result).
 */
module Courses {
  import opened Rules

  /** One row of a course, as pushed by the generator and the decoder. */
  datatype Hole = Hole(from: From, to: Goal, par: int)

  type Course = seq<Hole>

  function MoveOf(h: Hole): Move
  {
    (h.from, h.to)
  }

  /** Where the next hole starts: the tee for hole 1, otherwise the previous hole's goal. */
  function Origin(p: seq<Hole>): From
  {
    if p == [] then Tee else G(p[|p| - 1].to)
  }

  /** The directed moves thrown so far (the usedEdges set). */
  function Edges(p: seq<Hole>): set<Move>
  {
    set i | 0 <= i < |p| :: MoveOf(p[i])
  }

  /** How many holes of `p` end at `g` (toCounts[g], counts[g]). */
  function Visits(p: seq<Hole>, g: Goal): nat
  {
    if p == [] then 0
    else Visits(p[..|p| - 1], g) + (if p[|p| - 1].to == g then 1 else 0)
  }

  /** The goals that the holes end at, in order (course.map(h => h.to)). */
  function Tos(p: seq<Hole>): (r: seq<Goal>)
    ensures |r| == |p| && forall i :: 0 <= i < |p| ==> r[i] == p[i].to
  {
    seq(|p|, i requires 0 <= i < |p| => p[i].to)
  }

  /** A visit-count table agrees with the holes placed so far. */
  ghost predicate CountsMatch(counts: map<Goal, int>, p: seq<Hole>)
  {
    forall g: Goal :: g in counts && counts[g] == Visits(p, g)
  }

  /** The visit counts before any hole: every goal of GOALS at zero. */
  function ZeroCounts(): (counts: map<Goal, int>)
    ensures CountsMatch(counts, [])
  {
    GoalsComplete();
    map g | g in Goals :: 0
  }

  /** Hole `h`, appended after `p`, keeps every rule checked while placing one hole. */
  predicate HoleFits(p: seq<Hole>, h: Hole)
  {
    && |p| < Holes
    && h.from == Origin(p)
    && (FixedTo(|p| + 1).Some? ==> h.to == FixedTo(|p| + 1).value)
    && IsAllowed(h.from, h.to)
    && MoveOf(h) !in Edges(p)
    && h.par == ParFor(h.from, h.to)
  }

  /** A partial course built hole by hole under the placement rules. */
  predicate ValidPrefix(p: seq<Hole>)
  {
    p == [] || (ValidPrefix(p[..|p| - 1]) && HoleFits(p[..|p| - 1], p[|p| - 1]))
  }

  /** Every goal is the target of at least MIN_VISITS holes. */
  predicate Covered(p: seq<Hole>)
  {
    forall g: Goal :: Visits(p, g) >= MinVisits
  }

  /** A complete course: what generateCourse returns and decodeCourse accepts. */
  predicate ValidCourse(c: seq<Hole>)
  {
    |c| == Holes && ValidPrefix(c) && Covered(c)
  }

  /** Some complete course starts with the holes `p`. */
  ghost predicate Completable(p: seq<Hole>)
  {
    exists c :: ValidCourse(c) && p <= c
  }

  /** The course rules stated position by position, independently of the hole-by-hole definition. */
  predicate PrefixRules(p: seq<Hole>)
  {
    && |p| <= Holes
    && (|p| > 0 ==> p[0].from == Tee)
    && (forall i :: 0 < i < |p| ==> p[i].from == G(p[i - 1].to))
    && (forall i :: 0 <= i < |p| ==> FixedTo(i + 1).Some? ==> p[i].to == FixedTo(i + 1).value)
    && (forall i :: 0 <= i < |p| ==> IsAllowed(p[i].from, p[i].to))
    && (forall i, j :: 0 <= i < j < |p| ==> MoveOf(p[i]) != MoveOf(p[j]))
    && (forall i :: 0 <= i < |p| ==> p[i].par == ParFor(p[i].from, p[i].to))
  }

  predicate CourseRules(c: seq<Hole>)
  {
    |c| == Holes && PrefixRules(c) && forall g: Goal :: multiset(Tos(c))[g] >= MinVisits
  }

  /**
   * The min-visits check shared by dfs's base case and decodeCourse: every
   * goal of GOALS has a count of at least MIN_VISITS.
   */
  method EveryGoalVisited(counts: map<Goal, int>) returns (ok: bool)
    requires forall g: Goal :: g in counts
    ensures ok <==> forall g: Goal :: counts[g] >= MinVisits
  {
    for k := 0 to |Goals|
      invariant forall m :: 0 <= m < k ==> counts[Goals[m]] >= MinVisits
    {
      if counts[Goals[k]] < MinVisits {
        return false;
      }
    }
    forall g: Goal ensures counts[g] >= MinVisits {
      AllGoalsListed(g);
    }
    return true;
  }

  // ---------- Lemmas ----------

  lemma EdgesSnoc(p: seq<Hole>, h: Hole)
    ensures Edges(p + [h]) == Edges(p) + {MoveOf(h)}
  {
    var q := p + [h];
    assert forall i :: 0 <= i < |p| ==> q[i] == p[i];
    assert q[|p|] == h;
  }

  lemma ValidPrefixSnoc(p: seq<Hole>, h: Hole)
    ensures ValidPrefix(p + [h]) <==> ValidPrefix(p) && HoleFits(p, h)
  {
    assert (p + [h])[..|p|] == p;
  }

  lemma VisitsSnoc(p: seq<Hole>, h: Hole, g: Goal)
    ensures Visits(p + [h], g) == Visits(p, g) + (if h.to == g then 1 else 0)
  {
    assert (p + [h])[..|p|] == p;
  }

  /** The recursive visit count is the multiplicity of the goal among the targets. */
  lemma {:induction false} VisitsIsMultiplicity(p: seq<Hole>, g: Goal)
    ensures Visits(p, g) == multiset(Tos(p))[g]
  {
    if p != [] {
      var q := p[..|p| - 1];
      VisitsIsMultiplicity(q, g);
      assert Tos(p) == Tos(q) + [p[|p| - 1].to];
    }
  }

  /** Building hole by hole under the placement rules gives exactly the position-wise rules. */
  lemma {:induction false} PrefixRulesIff(p: seq<Hole>)
    ensures ValidPrefix(p) <==> PrefixRules(p)
  {
    if p != [] {
      var q, h := p[..|p| - 1], p[|p| - 1];
      assert p == q + [h];
      PrefixRulesIff(q);
      PrefixRulesSnoc(q, h);
    }
  }

  /** One more hole keeps the position-wise rules exactly when it fits. */
  lemma PrefixRulesSnoc(q: seq<Hole>, h: Hole)
    ensures PrefixRules(q + [h]) <==> PrefixRules(q) && HoleFits(q, h)
  {
    var p := q + [h];
    assert forall i :: 0 <= i < |q| ==> p[i] == q[i];
    assert p[|q|] == h;
    assert MoveOf(h) in Edges(q) <==> exists i :: 0 <= i < |q| && MoveOf(q[i]) == MoveOf(h);
  }

  /** Counts that agree with the holes pass the min-visits check exactly when the holes cover every goal. */
  lemma CountsCovered(counts: map<Goal, int>, p: seq<Hole>)
    requires CountsMatch(counts, p)
    ensures (forall g: Goal :: counts[g] >= MinVisits) <==> Covered(p)
  {
  }

  /** A complete course, equivalently: the course rules hold at every position. */
  lemma ValidCourseIff(c: seq<Hole>)
    ensures ValidCourse(c) <==> CourseRules(c)
  {
    PrefixRulesIff(c);
    forall g: Goal {
      VisitsIsMultiplicity(c, g);
    }
  }

  /** The facts the rest of the program relies on about a complete course. */
  lemma ValidCourseFacts(c: seq<Hole>)
    requires ValidCourse(c)
    ensures |c| == Holes && c[0].from == Tee
    ensures forall i :: 0 < i < |c| ==> c[i].from == G(c[i - 1].to)
    ensures c[8].to == Green && c[17].to == Green && c[0].to != Green
    ensures forall i :: 0 <= i < |c| ==> c[i].from != G(c[i].to) && IsAllowed(c[i].from, c[i].to)
    ensures forall i, j :: 0 <= i < j < |c| ==> MoveOf(c[i]) != MoveOf(c[j])
    ensures forall i :: 0 <= i < |c| ==> 3 <= c[i].par <= 5 && c[i].par == ParFor(c[i].from, c[i].to)
    ensures forall g: Goal :: multiset(Tos(c))[g] >= MinVisits
  {
    ValidCourseIff(c);
    assert FixedTo(9) == Some(Green) && FixedTo(18) == Some(Green);
  }

  /** Placement rules are prefix-closed. */
  lemma {:induction false} ValidPrefixClosed(p: seq<Hole>, k: nat)
    requires ValidPrefix(p) && k <= |p|
    ensures ValidPrefix(p[..k])
    decreases |p|
  {
    if k < |p| {
      var q := p[..|p| - 1];
      assert q[..k] == p[..k];
      ValidPrefixClosed(q, k);
    } else {
      assert p[..k] == p;
    }
  }

  /** A valid partial course is, at each position, a valid prefix followed by a fitting hole. */
  lemma FitsAt(p: seq<Hole>, k: nat)
    requires k < |p|
    ensures ValidPrefix(p) ==> HoleFits(p[..k], p[k])
  {
    if ValidPrefix(p) {
      ValidPrefixClosed(p, k + 1);
      ValidPrefixSnoc(p[..k], p[k]);
      assert p[..k + 1] == p[..k] + [p[k]];
    }
  }

  /** Only a valid partial course can be completed. */
  lemma CompletableIsValid(p: seq<Hole>)
    ensures Completable(p) ==> ValidPrefix(p) && |p| <= Holes
  {
    if Completable(p) {
      var c :| ValidCourse(c) && p <= c;
      assert p == c[..|p|];
      ValidPrefixClosed(c, |p|);
    }
  }
}
