/**
 * The share-token codec (encodeCourse and decodeCourse, app.js:463-510).
 *
 * The token is modelled after percent-decoding: the goal names of the 18
 * holes joined with commas. Decoding splits on commas, trims each fragment,
 * drops empty ones and then re-checks every rule the generator enforces.
 */
module Codec {
  import opened Rules
  import opened Courses

  // ---------- join, split and trim ----------

  /** `parts.join(",")` */
  function Join(parts: seq<string>): string
  {
    if parts == [] then ""
    else if |parts| == 1 then parts[0]
    else parts[0] + "," + Join(parts[1..])
  }

  /** `s.split(",")`: always at least one part, one more than there are commas. */
  function Split(s: string): (parts: seq<string>)
    ensures |parts| >= 1
    ensures forall i :: 0 <= i < |parts| ==> ',' !in parts[i]
  {
    if s == [] then [""]
    else
      var rest := Split(s[1..]);
      if s[0] == ',' then [""] + rest
      else [[s[0]] + rest[0]] + rest[1..]
  }

  /** The characters that String.prototype.trim removes: white space and line terminators. */
  predicate IsTrimmable(c: char)
  {
    || c == '\t' || c == '\n' || c == '\U{000B}' || c == '\U{000C}' || c == '\r' || c == ' '
    || c == '\U{00A0}' || c == '\U{1680}' || ('\U{2000}' <= c <= '\U{200A}')
    || c == '\U{2028}' || c == '\U{2029}' || c == '\U{202F}' || c == '\U{205F}'
    || c == '\U{3000}' || c == '\U{FEFF}'
  }

  function TrimStart(s: string): (r: string)
    ensures |r| <= |s|
    ensures r == [] || !IsTrimmable(r[0])
  {
    if s != [] && IsTrimmable(s[0]) then TrimStart(s[1..]) else s
  }

  function TrimEnd(s: string): (r: string)
    ensures r == [] || !IsTrimmable(r[|r| - 1])
  {
    if s != [] && IsTrimmable(s[|s| - 1]) then TrimEnd(s[..|s| - 1]) else s
  }

  /** `s.trim()` */
  function Trim(s: string): string
  {
    TrimEnd(TrimStart(s))
  }

  /** `.map(s => s.trim()).filter(Boolean)` */
  function TrimmedNonEmpty(parts: seq<string>): seq<string>
  {
    if parts == [] then []
    else
      var t := Trim(parts[0]);
      (if t == "" then [] else [t]) + TrimmedNonEmpty(parts[1..])
  }

  /** The fragments decodeCourse reads from a token. */
  function Fragments(token: string): seq<string>
  {
    TrimmedNonEmpty(Split(token))
  }

  // ---------- goal names ----------

  /** `GOALS.includes(to)`, together with the goal the fragment names. */
  function ParseGoal(s: string): Option<Goal>
  {
    if s == "White" then Some(White)
    else if s == "Orange" then Some(Orange)
    else if s == "Blue" then Some(Blue)
    else if s == "Pink" then Some(Pink)
    else if s == "Red" then Some(Red)
    else if s == "Green" then Some(Green)
    else if s == "Yellow" then Some(Yellow)
    else None
  }

  /** Every fragment names a goal; the goals they name. */
  function ParseAll(tos: seq<string>): (r: Option<seq<Goal>>)
    ensures r.Some? ==> |r.value| == |tos|
  {
    if tos == [] then Some([])
    else
      match ParseAll(tos[..|tos| - 1])
      case None => None
      case Some(gs) =>
        match ParseGoal(tos[|tos| - 1])
        case None => None
        case Some(g) => Some(gs + [g])
  }

  /** The goal names of a course's holes (`course.map(h => h.to)`). */
  function Names(c: seq<Hole>): (r: seq<string>)
    ensures |r| == |c|
  {
    seq(|c|, i requires 0 <= i < |c| => GoalName(c[i].to))
  }

  // ---------- encode and decode ----------

  /** encodeCourse: the empty string when there is no course. */
  function EncodeCourse(course: Option<Course>): string
  {
    match course
    case None => ""
    case Some(c) => Join(Names(c))
  }

  /** The origin of hole i+1 in a walk that visits `gs`: the tee, then the previous goal. */
  function FromOf(gs: seq<Goal>, i: nat): From
    requires i <= |gs|
  {
    if i == 0 then Tee else G(gs[i - 1])
  }

  /** The holes of the walk that visits `gs` from the tee, with their pars (`rebuilt`). */
  function Rebuild(gs: seq<Goal>): (r: seq<Hole>)
    ensures |r| == |gs|
    ensures forall i :: 0 <= i < |gs| ==>
      r[i] == Hole(FromOf(gs, i), gs[i], ParFor(FromOf(gs, i), gs[i]))
  {
    if gs == [] then []
    else
      var p := Rebuild(gs[..|gs| - 1]);
      p + [Hole(Origin(p), gs[|gs| - 1], ParFor(Origin(p), gs[|gs| - 1]))]
  }

  /** What decodeCourse accepts: 18 goal names whose walk from the tee is a complete course. */
  function DecodeTokens(tos: seq<string>): Option<Course>
  {
    if |tos| != Holes then None
    else
      match ParseAll(tos)
      case None => None
      case Some(gs) => if ValidCourse(Rebuild(gs)) then Some(Rebuild(gs)) else None
  }

  function Decode(token: string): Option<Course>
  {
    DecodeTokens(Fragments(token))
  }

  // ---------- the decoder, as the source runs it ----------

  /**
   * decodeCourse on an already percent-decoded token: walks the fragments
   * hole by hole with the source's checks in the source's order, then checks
   * the visit counts. It returns exactly what the declarative Decode says.
   */
  method DecodeCourse(token: string) returns (r: Option<Course>)
    ensures r == Decode(token)
  {
    var tos := Fragments(token);
    if |tos| != Holes {
      return None;
    }
    var rebuilt: seq<Hole> := [];
    var from := Tee;
    var usedEdges: set<Move> := {};
    var counts := ZeroCounts();
    ghost var gs: seq<Goal> := [];
    for i := 0 to Holes
      invariant DecodeState(tos, gs, rebuilt, from, usedEdges, counts) && |gs| == i
    {
      var holeNum := i + 1;
      var parsed := ParseGoal(tos[i]);
      if parsed.None? {
        RejectName(tos, i);
        return None;
      }
      var to := parsed.value;
      var hole := Hole(from, to, ParFor(from, to));
      RejectHole(tos, gs, rebuilt, to);
      var fixed := FixedTo(holeNum);
      if fixed.Some? && fixed.value != to {
        return None;
      }
      if from == Tee && to in StartBlockedTo {
        AllowedFromTee(to);
        return None;
      }
      if !IsAllowed(from, to) {
        return None;
      }
      var edge := (from, to);
      if edge in usedEdges {
        return None;
      }
      DecodeApply(tos, gs, rebuilt, from, usedEdges, counts, to);
      usedEdges := usedEdges + {edge};
      counts := counts[to := counts[to] + 1];
      rebuilt := rebuilt + [hole];
      gs := gs + [to];
      from := G(to);
    }
    DecodeFinish(tos, gs, rebuilt, from, usedEdges, counts);
    var covered := EveryGoalVisited(counts);
    CountsCovered(counts, rebuilt);
    if !covered {
      return None;
    }
    return Some(rebuilt);
  }

  /** The decoder's loop state after the holes for the fragments naming `gs`. */
  ghost predicate DecodeState(tos: seq<string>, gs: seq<Goal>, rebuilt: seq<Hole>, from: From,
                              usedEdges: set<Move>, counts: map<Goal, int>)
  {
    && |tos| == Holes && |gs| <= Holes
    && (forall k :: 0 <= k < |gs| ==> ParseGoal(tos[k]) == Some(gs[k]))
    && Tos(rebuilt) == gs && ValidPrefix(rebuilt)
    && from == Origin(rebuilt) && usedEdges == Edges(rebuilt)
    && CountsMatch(counts, rebuilt)
  }

  /** Pushing a fitting hole keeps the decoder's state. */
  lemma DecodeApply(tos: seq<string>, gs: seq<Goal>, rebuilt: seq<Hole>, from: From,
                    usedEdges: set<Move>, counts: map<Goal, int>, to: Goal)
    requires DecodeState(tos, gs, rebuilt, from, usedEdges, counts) && |gs| < Holes
    requires ParseGoal(tos[|gs|]) == Some(to)
    requires FixedTo(|gs| + 1).Some? ==> FixedTo(|gs| + 1).value == to
    requires IsAllowed(from, to) && (from, to) !in usedEdges
    ensures DecodeState(tos, gs + [to], rebuilt + [Hole(from, to, ParFor(from, to))], G(to),
                        usedEdges + {(from, to)}, counts[to := counts[to] + 1])
  {
    var hole := Hole(from, to, ParFor(from, to));
    assert HoleFits(rebuilt, hole);
    ValidPrefixSnoc(rebuilt, hole);
    EdgesSnoc(rebuilt, hole);
    forall g: Goal ensures Visits(rebuilt + [hole], g) == Visits(rebuilt, g) + (if to == g then 1 else 0) {
      VisitsSnoc(rebuilt, hole, g);
    }
    assert Tos(rebuilt + [hole]) == gs + [to];
  }

  /** After 18 fitting holes, decoding succeeds exactly when every goal is visited often enough. */
  lemma DecodeFinish(tos: seq<string>, gs: seq<Goal>, rebuilt: seq<Hole>, from: From,
                     usedEdges: set<Move>, counts: map<Goal, int>)
    requires DecodeState(tos, gs, rebuilt, from, usedEdges, counts) && |gs| == Holes
    ensures DecodeTokens(tos) == (if Covered(rebuilt) then Some(rebuilt) else None)
  {
    ParseAllExactly(tos);
    assert ParseAll(tos).value == gs;
    RebuildTos(rebuilt);
  }

  // ---------- lemmas ----------

  /** A fragment parses exactly when it is a goal's name, and then to that goal. */
  lemma ParseGoalExactly(s: string, g: Goal)
    ensures ParseGoal(s) == Some(g) <==> s == GoalName(g)
  {
  }

  /** ParseAll succeeds exactly when every fragment parses, and then position by position. */
  lemma {:induction false} ParseAllExactly(tos: seq<string>)
    ensures ParseAll(tos).Some? <==> forall k :: 0 <= k < |tos| ==> ParseGoal(tos[k]).Some?
    ensures ParseAll(tos).Some? ==>
      forall k :: 0 <= k < |tos| ==> ParseGoal(tos[k]) == Some(ParseAll(tos).value[k])
    decreases |tos|
  {
    if tos != [] {
      var init := tos[..|tos| - 1];
      ParseAllExactly(init);
      assert forall k :: 0 <= k < |init| ==> init[k] == tos[k];
    }
  }

  lemma RebuildSnoc(gs: seq<Goal>, t: Goal)
    ensures Rebuild(gs + [t]) == Rebuild(gs) + [Hole(Origin(Rebuild(gs)), t, ParFor(Origin(Rebuild(gs)), t))]
  {
    assert (gs + [t])[..|gs|] == gs;
  }

  /** A fragment that names no goal makes decoding fail. */
  lemma RejectName(tos: seq<string>, i: nat)
    requires i < |tos| && ParseGoal(tos[i]).None?
    ensures DecodeTokens(tos) == None
  {
    ParseAllExactly(tos);
  }

  /** Rebuilding is prefix-closed: the first k holes of a walk are the walk of its first k goals. */
  lemma {:induction false} RebuildPrefix(gs: seq<Goal>, k: nat)
    requires k <= |gs|
    ensures Rebuild(gs)[..k] == Rebuild(gs[..k])
    decreases |gs|
  {
    if k == |gs| {
      assert gs[..k] == gs;
    } else {
      var init := gs[..|gs| - 1];
      RebuildPrefix(init, k);
      assert init[..k] == gs[..k];
      assert Rebuild(gs)[..k] == Rebuild(init)[..k];
    }
  }

  /** A token whose fragments name the goals `all` decodes to nothing when the walk of `all` breaks a rule. */
  lemma RejectWalk(tos: seq<string>, all: seq<Goal>)
    requires |tos| == Holes && ParseAll(tos) == Some(all)
    requires !ValidPrefix(Rebuild(all))
    ensures DecodeTokens(tos) == None
  {
  }

  /**
   * Fragments 1..|gs| name the goals `gs` of the valid partial course
   * `rebuilt` and fragment |gs|+1 names `t`: decoding fails when hole |gs|+1
   * breaks the fixed-hole rule, is not allowed, or repeats a move.
   */
  lemma RejectHole(tos: seq<string>, gs: seq<Goal>, rebuilt: seq<Hole>, t: Goal)
    requires |tos| == Holes && |gs| < |tos|
    requires forall k :: 0 <= k < |gs| ==> ParseGoal(tos[k]) == Some(gs[k])
    requires ParseGoal(tos[|gs|]) == Some(t)
    requires ValidPrefix(rebuilt) && Tos(rebuilt) == gs
    ensures (FixedTo(|gs| + 1).Some? && FixedTo(|gs| + 1).value != t)
            || !IsAllowed(Origin(rebuilt), t) || (Origin(rebuilt), t) in Edges(rebuilt)
            ==> DecodeTokens(tos) == None
  {
    if !HoleFits(rebuilt, Hole(Origin(rebuilt), t, ParFor(Origin(rebuilt), t))) {
      RejectUnfit(tos, gs, rebuilt, t);
    }
  }

  lemma RejectUnfit(tos: seq<string>, gs: seq<Goal>, rebuilt: seq<Hole>, t: Goal)
    requires |tos| == Holes && |gs| < |tos|
    requires forall k :: 0 <= k < |gs| ==> ParseGoal(tos[k]) == Some(gs[k])
    requires ParseGoal(tos[|gs|]) == Some(t)
    requires ValidPrefix(rebuilt) && Tos(rebuilt) == gs
    requires !HoleFits(rebuilt, Hole(Origin(rebuilt), t, ParFor(Origin(rebuilt), t)))
    ensures DecodeTokens(tos) == None
  {
    ParseAllExactly(tos);
    if ParseAll(tos).Some? {
      var all := ParseAll(tos).value;
      var n := |gs|;
      assert all[..n] == gs;
      RebuildTos(rebuilt);
      var rb := Rebuild(all);
      RebuildPrefix(all, n);
      assert rb[n] == Hole(Origin(rebuilt), t, ParFor(Origin(rebuilt), t));
      FitsAt(rb, n);
      RejectWalk(tos, all);
    }
  }

  /** GoalName strings are free of commas and of surrounding white space. */
  lemma NameShape(g: Goal)
    ensures GoalName(g) != [] && ',' !in GoalName(g) && Trim(GoalName(g)) == GoalName(g)
  {
    var n := GoalName(g);
    FromNameLetters(G(g));
    assert FromName(G(g)) == n;
    assert !IsTrimmable(n[0]) && !IsTrimmable(n[|n| - 1]);
    TrimKeeps(n);
  }

  /** Trimming leaves a string alone when neither end is white space. */
  lemma TrimKeeps(s: string)
    requires s != [] && !IsTrimmable(s[0]) && !IsTrimmable(s[|s| - 1])
    ensures Trim(s) == s
  {
  }

  lemma {:induction false} SplitAppend(a: string, s: string)
    requires ',' !in a
    ensures Split(a + "," + s) == [a] + Split(s)
    ensures Split(a) == [a]
    decreases |a|
  {
    if a != [] {
      SplitAppend(a[1..], s);
      assert (a + "," + s)[1..] == a[1..] + "," + s;
      assert [a[0]] + a[1..] == a;
    } else {
      assert a + "," + s == [','] + s;
      assert ([','] + s)[1..] == s;
    }
  }

  /** Splitting a comma-join of comma-free parts gives the parts back. */
  lemma {:induction false} SplitJoin(parts: seq<string>)
    requires parts != [] && forall k :: 0 <= k < |parts| ==> ',' !in parts[k]
    ensures Split(Join(parts)) == parts
    decreases |parts|
  {
    SplitAppend(parts[0], "");
    if |parts| > 1 {
      SplitJoin(parts[1..]);
      SplitAppend(parts[0], Join(parts[1..]));
      assert [parts[0]] + parts[1..] == parts;
    }
  }

  lemma JoinCons(a: string, rest: seq<string>)
    requires rest != []
    ensures Join([a + rest[0]] + rest[1..]) == a + Join(rest)
  {
    var q := [a + rest[0]] + rest[1..];
    assert q[1..] == rest[1..];
  }

  /** Joining the parts of a split gives the string back. */
  lemma {:induction false} JoinSplit(s: string)
    ensures Join(Split(s)) == s
    decreases |s|
  {
    if s != [] {
      var rest := Split(s[1..]);
      JoinSplit(s[1..]);
      if s[0] == ',' {
        assert ([""] + rest)[1..] == rest;
        assert s == [','] + s[1..];
      } else {
        JoinCons([s[0]], rest);
        assert s == [s[0]] + s[1..];
      }
    }
  }

  lemma {:induction false} TrimmedNonEmptyKeeps(parts: seq<string>)
    requires forall k :: 0 <= k < |parts| ==> parts[k] != [] && Trim(parts[k]) == parts[k]
    ensures TrimmedNonEmpty(parts) == parts
    decreases |parts|
  {
    if parts != [] {
      TrimmedNonEmptyKeeps(parts[1..]);
      assert [parts[0]] + parts[1..] == parts;
    }
  }

  /** The fragments of an encoded non-empty course are its goal names. */
  lemma FragmentsOfEncoding(c: seq<Hole>)
    requires c != []
    ensures Fragments(EncodeCourse(Some(c))) == Names(c)
  {
    var names := Names(c);
    forall k | 0 <= k < |names| ensures ',' !in names[k] && names[k] != [] && Trim(names[k]) == names[k] {
      NameShape(c[k].to);
    }
    SplitJoin(names);
    TrimmedNonEmptyKeeps(names);
  }

  /** Rebuilding the walk of a valid partial course's goals gives the course back. */
  lemma RebuildTos(c: seq<Hole>)
    requires ValidPrefix(c)
    ensures Rebuild(Tos(c)) == c
  {
    PrefixRulesIff(c);
  }

  /** The names of a course parse back to its goals. */
  lemma ParseNames(c: seq<Hole>)
    ensures ParseAll(Names(c)) == Some(Tos(c))
  {
    var names := Names(c);
    forall k | 0 <= k < |names| ensures ParseGoal(names[k]) == Some(c[k].to) {
      ParseGoalExactly(names[k], c[k].to);
    }
    ParseAllExactly(names);
    assert ParseAll(names).value == Tos(c);
  }

  /** decodeCourse accepts a token exactly when its fragments name the goals of a complete course, and returns that course. */
  lemma DecodeExactly(token: string, c: Course)
    ensures Decode(token) == Some(c) <==> ValidCourse(c) && Fragments(token) == Names(c)
  {
    var tos := Fragments(token);
    if Decode(token) == Some(c) {
      var gs := ParseAll(tos).value;
      ParseAllExactly(tos);
      forall k | 0 <= k < |tos| ensures tos[k] == Names(c)[k] {
        ParseGoalExactly(tos[k], gs[k]);
      }
    }
    if ValidCourse(c) && tos == Names(c) {
      ParseNames(c);
      RebuildTos(c);
    }
  }

  /** Encoding then decoding a complete course gives the same course (the share link round trip). */
  lemma RoundTrip(c: Course)
    ensures ValidCourse(c) ==> Decode(EncodeCourse(Some(c))) == Some(c)
  {
    if ValidCourse(c) {
      FragmentsOfEncoding(c);
      DecodeExactly(EncodeCourse(Some(c)), c);
    }
  }

  /** Re-encoding a decoded token is canonical: it decodes to the same course and has the same fragments. */
  lemma Canonical(token: string)
    ensures Decode(token).Some? ==>
      Decode(EncodeCourse(Decode(token))) == Decode(token)
      && Fragments(EncodeCourse(Decode(token))) == Fragments(token)
  {
    if Decode(token).Some? {
      var c := Decode(token).value;
      DecodeExactly(token, c);
      RoundTrip(c);
      FragmentsOfEncoding(c);
    }
  }

  /** The rejections of decodeCourse that can be read off the fragments alone. */
  lemma DecodeRejects(token: string)
    ensures |Fragments(token)| != Holes ==> Decode(token) == None
    ensures |Fragments(token)| == Holes && (Fragments(token)[8] != "Green" || Fragments(token)[17] != "Green")
      ==> Decode(token) == None
    ensures Fragments(token) != [] && Fragments(token)[0] == "Green" ==> Decode(token) == None
  {
    if Decode(token).Some? {
      AcceptedShape(Fragments(token));
    }
  }

  /** Accepted fragments: eighteen of them, the first not Green, the ninth and the last Green. */
  lemma AcceptedShape(tos: seq<string>)
    requires DecodeTokens(tos).Some?
    ensures |tos| == Holes && tos[0] != "Green" && tos[8] == "Green" && tos[17] == "Green"
  {
    var c := DecodeTokens(tos).value;
    var gs := ParseAll(tos).value;
    ParseAllExactly(tos);
    FitsAt(c, 0);
    FitsAt(c, 8);
    FitsAt(c, 17);
    AllowedFromTee(c[0].to);
    ParseGoalExactly(tos[0], gs[0]);
    ParseGoalExactly(tos[8], gs[8]);
    ParseGoalExactly(tos[17], gs[17]);
    GoalNameInjective(gs[0], Green);
  }

  /** Without a course the token is empty, and the empty token decodes to no course. */
  lemma EmptyToken()
    ensures EncodeCourse(None) == "" && Decode("") == None
  {
    assert Split("") == [""];
  }
}
