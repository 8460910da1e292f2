/** "Did you mean": the closest names, independent of how candidates arrive. */
module Suggestions {
  import opened Sorting
  import opened EditDistance

  datatype Scored = Scored(distance: nat, name: string)

  predicate ScoredLeq(a: Scored, b: Scored) {
    a.distance < b.distance || (a.distance == b.distance && NameLeq(a.name, b.name))
  }

  lemma ScoredOrder()
    ensures TotalPreorder(ScoredLeq) && Antisymmetric(ScoredLeq)
  {
    NameOrder();
  }

  function MaxSuggestionDistance(len: nat): nat {
    if len <= 3 then 1 else if len <= 5 then 2 else 3
  }

  /** Close enough to be worth suggesting, judged by the distance alone. */
  predicate Qualifies(lower: string -> string, target: string, name: string) {
    && name != [] && name != target
    && Distance(lower(target), lower(name)) <= MaxSuggestionDistance(|lower(target)|)
  }

  ghost function ScoreOf(lower: string -> string, target: string, name: string): Scored {
    Scored(Distance(lower(target), lower(name)), name)
  }

  ghost function Qualified(lower: string -> string, target: string, names: set<string>): set<Scored> {
    set n | n in names && Qualifies(lower, target, n) :: ScoreOf(lower, target, n)
  }

  ghost predicate ListsInOrder(ranking: seq<Scored>, scored: set<Scored>) {
    && Distinct(ranking) && SortedBy(ranking, ScoredLeq)
    && forall s :: s in ranking <==> s in scored
  }

  lemma {:induction false} RankingExists(scored: set<Scored>)
    ensures exists ranking :: ListsInOrder(ranking, scored)
  {
    var listing := SomeOrder(scored);
    ScoredOrder();
    SortSorts(listing, ScoredLeq);
    SameMultisetDistinct(listing, Sort(listing, ScoredLeq));
    assert ListsInOrder(Sort(listing, ScoredLeq), scored);
  }

  lemma SomeOrder(scored: set<Scored>) returns (listing: seq<Scored>)
    ensures Distinct(listing) && forall s :: s in listing <==> s in scored
    decreases |scored|
  {
    if scored == {} {
      listing := [];
    } else {
      var s :| s in scored;
      var rest := SomeOrder(scored - {s});
      listing := [s] + rest;
    }
  }

  lemma RankingIsUnique(x: seq<Scored>, y: seq<Scored>, scored: set<Scored>)
    requires ListsInOrder(x, scored) && ListsInOrder(y, scored)
    ensures x == y
  {
    ScoredOrder();
    SameSetSameMultiset(x, y);
    SortedIsUnique(x, y, ScoredLeq);
  }

  ghost function Ranking(scored: set<Scored>): (ranking: seq<Scored>)
    ensures ListsInOrder(ranking, scored)
  {
    RankingExists(scored);
    var ranking :| ListsInOrder(ranking, scored);
    ranking
  }

  function FirstNames(ranking: seq<Scored>, count: nat): seq<string> {
    if count == 0 || ranking == [] then [] else [ranking[0].name] + FirstNames(ranking[1..], count - 1)
  }

  /** The answer as a function of the set of candidates. */
  ghost function Suggested(lower: string -> string, target: string, names: set<string>): seq<string> {
    FirstNames(Ranking(Qualified(lower, target, names)), 3)
  }

  /** The length shortcut only skips names the distance would reject. */
  lemma ShortcutIsSafe(lower: string -> string, target: string, name: string)
    requires var x, y := |lower(target)|, |lower(name)|;
             (if x <= y then y - x else x - y) > MaxSuggestionDistance(x)
    ensures !Qualifies(lower, target, name)
  {
    Bounds(lower(target), lower(name));
  }

  /** One pass with a shortcut and a seen set, then a sort; `lower` is the lowercase table. */
  method SuggestMatches(lower: string -> string, target: string, candidates: seq<string>)
    returns (suggestions: seq<string>)
    ensures suggestions == Suggested(lower, target, set c | c in candidates)
  {
    var targetLower := lower(target);
    var threshold := MaxSuggestionDistance(|targetLower|);
    var seen: set<string> := {};
    var scored: seq<Scored> := [];
    var i := 0;
    while i < |candidates|
      invariant 0 <= i <= |candidates|
      invariant seen == set c | c in candidates[..i] && c != [] && c != target
      invariant Distinct(scored)
      invariant forall s :: s in scored <==> s in Qualified(lower, target, set c | c in candidates[..i])
    {
      var candidate := candidates[i];
      assert candidates[..i + 1] == candidates[..i] + [candidate];
      ghost var before := candidates[..i];
      OneMoreCandidate(lower, target, before, candidate);
      i := i + 1;
      if candidate == [] || candidate == target {
        continue;
      }
      if candidate in seen {
        continue;
      }
      assert candidate !in before;
      seen := seen + {candidate};
      var candidateLower := lower(candidate);
      var apart := if |targetLower| <= |candidateLower| then |candidateLower| - |targetLower|
                   else |targetLower| - |candidateLower|;
      if apart > threshold {
        ShortcutIsSafe(lower, target, candidate);
        continue;
      }
      var distance := Levenshtein(targetLower, candidateLower);
      if distance <= threshold {
        assert ScoreOf(lower, target, candidate) !in scored;
        scored := scored + [Scored(distance, candidate)];
      }
    }
    assert candidates[..|candidates|] == candidates;
    ScoredOrder();
    SortSorts(scored, ScoredLeq);
    SameMultisetDistinct(scored, Sort(scored, ScoredLeq));
    RankingIsUnique(Sort(scored, ScoredLeq), Ranking(Qualified(lower, target, set c | c in candidates)),
                    Qualified(lower, target, set c | c in candidates));
    suggestions := FirstNames(Sort(scored, ScoredLeq), 3);
  }

  lemma OneMoreCandidate(lower: string -> string, target: string, before: seq<string>, c: string)
    ensures var then_ := Qualified(lower, target, set x | x in before);
            var now := Qualified(lower, target, set x | x in before + [c]);
            && now == then_ + (if Qualifies(lower, target, c) then {ScoreOf(lower, target, c)} else {})
            && (ScoreOf(lower, target, c) in then_ <==> c in before && Qualifies(lower, target, c))
  {
  }

  lemma {:induction false} FirstNamesAre(ranking: seq<Scored>, count: nat)
    ensures |FirstNames(ranking, count)| == if |ranking| <= count then |ranking| else count
    ensures forall i | 0 <= i < |FirstNames(ranking, count)| :: FirstNames(ranking, count)[i] == ranking[i].name
  {
    if count > 0 && ranking != [] {
      FirstNamesAre(ranking[1..], count - 1);
    }
  }

  /** One edit for any name, two from four letters on, three from six on. */
  predicate InReach(len: nat, distance: nat) {
    distance <= 1 || (distance == 2 && len >= 4) || (distance == 3 && len >= 6)
  }

  lemma QualifiesInReach(lower: string -> string, target: string, name: string)
    ensures Qualifies(lower, target, name) <==>
            name != "" && name != target && InReach(|lower(target)|, Distance(lower(target), lower(name)))
  {
  }

  /** `a` is nearer to the target than `b`, or as near and not after it by name. */
  ghost predicate AtLeastAsGood(lower: string -> string, target: string, a: string, b: string) {
    var x, y := Distance(lower(target), lower(a)), Distance(lower(target), lower(b));
    x < y || (x == y && NameLeq(a, b))
  }

  ghost predicate Better(lower: string -> string, target: string, a: string, b: string) {
    a != b && AtLeastAsGood(lower, target, a, b) && !AtLeastAsGood(lower, target, b, a)
  }

  lemma RankingOrder(lower: string -> string, target: string, names: set<string>, ranking: seq<Scored>)
    requires ListsInOrder(ranking, Qualified(lower, target, names))
    ensures forall i | 0 <= i < |ranking| ::
              && ranking[i].name in names && Qualifies(lower, target, ranking[i].name)
              && ranking[i] == ScoreOf(lower, target, ranking[i].name)
    ensures forall i, j | 0 <= i < j < |ranking| :: Better(lower, target, ranking[i].name, ranking[j].name)
  {
    forall i | 0 <= i < |ranking|
      ensures ranking[i].name in names && Qualifies(lower, target, ranking[i].name)
      ensures ranking[i] == ScoreOf(lower, target, ranking[i].name)
    {
      assert ranking[i] in ranking;
    }
    forall i, j | 0 <= i < j < |ranking| ensures Better(lower, target, ranking[i].name, ranking[j].name) {
      assert ranking[i] != ranking[j] && ScoredLeq(ranking[i], ranking[j]);
      NameLeqTotal(ranking[i].name, ranking[j].name);
    }
  }

  /**
   At most three names, all close enough, closest first with ties by name; and
   a close name is left out only for three that are nearer, or as near and
   earlier by name.
   */
  lemma SuggestionsAreTheBest(lower: string -> string, target: string, names: set<string>)
    ensures var r := Suggested(lower, target, names);
            && |r| <= 3 && Distinct(r)
            && (forall n | n in r :: n in names && Qualifies(lower, target, n))
            && (forall i, j | 0 <= i < j < |r| :: Better(lower, target, r[i], r[j]))
            && (forall n | n in names && Qualifies(lower, target, n) && n !in r ::
                  |r| == 3 && forall m | m in r :: Better(lower, target, m, n))
  {
    var all := Qualified(lower, target, names);
    var ranking := Ranking(all);
    var r := Suggested(lower, target, names);
    FirstNamesAre(ranking, 3);
    RankingOrder(lower, target, names, ranking);
    forall n | n in names && Qualifies(lower, target, n) && n !in r
      ensures |r| == 3 && forall m | m in r :: Better(lower, target, m, n)
    {
      assert ScoreOf(lower, target, n) in all;
      var k :| 0 <= k < |ranking| && ranking[k] == ScoreOf(lower, target, n);
      assert forall j | 0 <= j < |r| :: r[j] in r && r[j] != n && ranking[j].name == r[j];
      assert k >= |r|;
    }
  }
}
