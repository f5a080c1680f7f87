/**
 * The goal domain and the transition rule table of the course engine
 * (app.js:3-58 and app.js:116-132).
 *
 * The source keys its tables by strings "From->To" (keyFor). This module
 * keeps them as sets of (From, Goal) moves instead; KeyFor models keyFor,
 * and KeyForInjective shows that distinct moves have distinct keys, so the
 * two representations hold the same tables.
 */
module Rules {

  datatype Option<T> = None | Some(value: T)

  /** One of the seven goals of the course (GOALS, app.js:3). */
  datatype Goal = White | Orange | Blue | Pink | Red | Green | Yellow

  /** Origin of a throw: the tee before hole 1, or a goal. */
  datatype From = Tee | G(goal: Goal)

  /** GOALS, in the source's order. */
  const Goals: seq<Goal> := [White, Orange, Blue, Pink, Red, Green, Yellow]

  /** GOALS lists every goal exactly once. */
  lemma AllGoalsListed(g: Goal)
    ensures g in Goals && multiset(Goals)[g] == 1
  {
  }

  lemma GoalsComplete()
    ensures forall g: Goal :: g in Goals
  {
    forall g: Goal ensures g in Goals {
      AllGoalsListed(g);
    }
  }

  /** Minimum number of holes that must end at each goal (MIN_VISITS). */
  const MinVisits: nat := 2

  /** Number of holes of a course. */
  const Holes: nat := 18

  function GoalName(g: Goal): string
  {
    match g
    case White => "White"
    case Orange => "Orange"
    case Blue => "Blue"
    case Pink => "Pink"
    case Red => "Red"
    case Green => "Green"
    case Yellow => "Yellow"
  }

  function FromName(f: From): string
  {
    match f
    case Tee => "Tee"
    case G(g) => GoalName(g)
  }

  /** keyFor: the string under which a directed move is looked up. */
  function KeyFor(from: From, to: Goal): string
  {
    FromName(from) + "->" + GoalName(to)
  }

  /** A directed move: the pair that keyFor turns into the string "From->To". */
  type Move = (From, Goal)

  /** BLOCKED: directed moves that may not be thrown. */
  const Blocked: set<Move> := {
    (G(Orange), Pink), (G(Orange), Blue),
    (G(Blue), Orange), (G(Blue), Red),
    (G(Pink), Orange), (G(Pink), Red),
    (G(Red), Blue), (G(Red), Pink),
    (G(Green), Yellow),
    (G(Yellow), Green),
    (G(Green), Pink), (G(Pink), Green)
  }

  /** START_BLOCKED_TO: goals that hole 1 may not aim at. */
  const StartBlockedTo: set<Goal> := {Green}

  /** PAR3: directed moves of par 3. */
  const Par3: set<Move> := {
    (G(White), Yellow), (G(Yellow), White),
    (G(White), Green), (G(Green), White),
    (G(Yellow), Red), (G(Red), Yellow),
    (G(Yellow), Pink), (G(Pink), Yellow),
    (G(Red), Orange), (G(Orange), Red),
    (G(Red), Blue), (G(Blue), Red),
    (G(Blue), Pink), (G(Pink), Blue),
    (Tee, White)
  }

  /** PAR5: directed moves of par 5. */
  const Par5: set<Move> := {
    (G(White), Blue), (G(Blue), White),
    (G(White), Orange), (G(Orange), White)
  }

  /** isAllowed: may a hole be thrown from `from` to `to`? */
  function IsAllowed(from: From, to: Goal): bool
  {
    if from == G(to) then false
    else if (from, to) in Blocked then false
    else if from == Tee && to in StartBlockedTo then false
    else true
  }

  /** parFor: PAR5 is consulted before PAR3; every other move is par 4. */
  function ParFor(from: From, to: Goal): (p: int)
    ensures 3 <= p <= 5
  {
    if (from, to) in Par5 then 5 else if (from, to) in Par3 then 3 else 4
  }

  // ---------- Properties of the rule table ----------

  /** Holes 9 and 18 (FIXED_TO) must end at Green; the others are free. */
  function FixedTo(holeNum: int): Option<Goal>
  {
    if holeNum == 9 || holeNum == 18 then Some(Green) else None
  }

  /** isAllowed rejects exactly the self-move, a BLOCKED move, and Tee->Green. */
  lemma AllowedExactly(from: From, to: Goal)
    ensures !IsAllowed(from, to) <==>
      from == G(to) || (from, to) in Blocked || (from == Tee && to == Green)
  {
  }

  /** From the tee every goal but Green may be aimed at. */
  lemma AllowedFromTee(to: Goal)
    ensures IsAllowed(Tee, to) <==> to != Green
  {
  }

  /** BLOCKED lists both directions of every pair, so legality between goals is symmetric. */
  lemma AllowedSymmetric(a: Goal, b: Goal)
    ensures IsAllowed(G(a), b) == IsAllowed(G(b), a)
  {
  }

  /** PAR3 and PAR5 share no move, so consulting PAR5 first never hides a par 3. */
  lemma ParTablesDisjoint()
    ensures Par3 * Par5 == {}
  {
  }

  /** The par of a move: 5 for PAR5 moves, 3 for PAR3 moves, 4 otherwise. */
  lemma ParExactly(from: From, to: Goal)
    ensures ParFor(from, to) == 5 <==> (from, to) in Par5
    ensures ParFor(from, to) == 3 <==> (from, to) in Par3
    ensures ParFor(from, to) == 4 <==> (from, to) !in Par3 + Par5
  {
  }

  /** Between goals the par does not depend on the direction of the throw. */
  lemma ParSymmetric(a: Goal, b: Goal)
    ensures ParFor(G(a), b) == ParFor(G(b), a)
  {
  }

  /** From the tee only White is a par 3; every other opening hole is a par 4. */
  lemma ParFromTee(to: Goal)
    ensures ParFor(Tee, to) == if to == White then 3 else 4
  {
  }

  // ---------- The string keys of the source ----------

  predicate IsLetter(c: char)
  {
    'A' <= c <= 'Z' || 'a' <= c <= 'z'
  }

  lemma GoalNameInjective(a: Goal, b: Goal)
    ensures GoalName(a) == GoalName(b) <==> a == b
  {
  }

  lemma FromNameInjective(f1: From, f2: From)
    ensures FromName(f1) == FromName(f2) <==> f1 == f2
  {
  }

  lemma FromNameLetters(f: From)
    ensures |FromName(f)| > 0
    ensures forall i :: 0 <= i < |FromName(f)| ==> IsLetter(FromName(f)[i])
  {
  }

  lemma KeyLayout(from: From, to: Goal)
    ensures var k, n := KeyFor(from, to), FromName(from);
      && |k| == |n| + 2 + |GoalName(to)|
      && k[..|n|] == n && k[|n|] == '-' && k[|n| + 1] == '>' && k[|n| + 2..] == GoalName(to)
      && forall i :: 0 <= i < |n| ==> k[i] == n[i]
  {
  }

  /**
   * Two moves have the same key exactly when they are the same move: names are
   * non-empty words of letters, so the "->" separator sits at the same place in
   * both keys. The model therefore uses the move itself where the source uses its key.
   */
  lemma {:induction false} KeyForInjective(f1: From, t1: Goal, f2: From, t2: Goal)
    ensures KeyFor(f1, t1) == KeyFor(f2, t2) <==> f1 == f2 && t1 == t2
  {
    if KeyFor(f1, t1) == KeyFor(f2, t2) {
      KeyLayout(f1, t1);
      KeyLayout(f2, t2);
      FromNameLetters(f1);
      FromNameLetters(f2);
      assert |FromName(f1)| == |FromName(f2)|;
      FromNameInjective(f1, f2);
      GoalNameInjective(t1, t2);
    }
  }

  /** The tee is never taken for a goal, so `from === to` in isAllowed is the self-move check. */
  lemma SameName(from: From, to: Goal)
    ensures FromName(from) == GoalName(to) <==> from == G(to)
  {
    FromNameInjective(from, G(to));
  }
}
