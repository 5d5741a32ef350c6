/** The typo merge of the customer column (cleaning.py:45-63): value_counts ranking,
    difflib.get_close_matches over an abstract similarity oracle, and the nested loops
    that build the replacement dictionary. */
module Fuzzy {
  import opened Text
  import opened Frame

  // ---------------------------------------------------------------------------
  // difflib.get_close_matches(word, possibilities, n=5, cutoff=0.85)
  // ---------------------------------------------------------------------------

  /** The similarity oracle: Matched(x, word) is the number M of matching characters that
      SequenceMatcher(None, x, word) finds. Its ratio is 2M/T with T = |x| + |word|. */
  type Matcher = (string, string) -> nat

  /** SequenceMatcher.ratio(): 2M/T, and 1.0 when both strings are empty. */
  function Score(matched: Matcher, word: string, x: string): real {
    var total := |x| + |word|;
    if total == 0 then 1.0 else (2 * matched(x, word)) as real / total as real
  }

  const Cutoff: real := 0.85
  const MaxMatches: nat := 5

  predicate CloseEnough(matched: Matcher, word: string, x: string) {
    Score(matched, word, x) >= Cutoff
  }

  lemma DivAtLeast(a: real, t: real, c: real)
    requires t > 0.0
    ensures a / t >= c <==> a >= c * t
  {
    var q := a / t;
    assert q * t == a;
    if q >= c {
      assert q * t >= c * t;
    } else {
      assert q * t < c * t;
    }
  }

  /** The cutoff needs no floating point: 2M/T >= 0.85 exactly when 40M >= 17T. */
  lemma CutoffInIntegers(matched: Matcher, word: string, x: string)
    requires |x| + |word| > 0
    ensures CloseEnough(matched, word, x) <==> 40 * matched(x, word) >= 17 * (|x| + |word|)
  {
    DivAtLeast((2 * matched(x, word)) as real, (|x| + |word|) as real, Cutoff);
  }

  /** The order heapq.nlargest uses on the pairs (score, x): a outranks b. */
  predicate Outranks(matched: Matcher, word: string, a: string, b: string) {
    var sa, sb := Score(matched, word, a), Score(matched, word, b);
    sa > sb || (sa == sb && StrLess(b, a))
  }

  lemma OutranksIrreflexive(matched: Matcher, word: string, a: string)
    ensures !Outranks(matched, word, a, a)
  {
    StrLessIrreflexive(a);
  }

  lemma OutranksTransitive(matched: Matcher, word: string, a: string, b: string, c: string)
    requires Outranks(matched, word, a, b) && Outranks(matched, word, b, c)
    ensures Outranks(matched, word, a, c)
  {
    if Score(matched, word, a) == Score(matched, word, c) {
      StrLessTransitive(c, b, a);
    }
  }

  lemma OutranksTotal(matched: Matcher, word: string, a: string, b: string)
    requires a != b
    ensures Outranks(matched, word, a, b) || Outranks(matched, word, b, a)
  {
    StrLessTotal(a, b);
  }

  /** The highest-ranked element of xs. */
  function Best(matched: Matcher, word: string, xs: seq<string>): string
    requires |xs| > 0
  {
    if |xs| == 1 then xs[0]
    else
      var b := Best(matched, word, xs[1..]);
      if Outranks(matched, word, xs[0], b) then xs[0] else b
  }

  lemma {:induction false} BestSpec(matched: Matcher, word: string, xs: seq<string>)
    requires |xs| > 0
    ensures var b := Best(matched, word, xs);
      b in xs && forall i | 0 <= i < |xs| :: xs[i] == b || Outranks(matched, word, b, xs[i])
  {
    if |xs| > 1 {
      var b := Best(matched, word, xs[1..]);
      BestSpec(matched, word, xs[1..]);
      forall i | 0 <= i < |xs|
        ensures xs[i] == Best(matched, word, xs) || Outranks(matched, word, Best(matched, word, xs), xs[i])
      {
        if Outranks(matched, word, xs[0], b) {
          if i > 0 && xs[i] != b {
            assert xs[i] == xs[1..][i - 1];
            OutranksTransitive(matched, word, xs[0], b, xs[i]);
          }
        } else if i == 0 && xs[0] != b {
          OutranksTotal(matched, word, xs[0], b);
        } else if i > 0 {
          assert xs[i] == xs[1..][i - 1];
        }
      }
    }
  }

  function Without(xs: seq<string>, b: string): seq<string> {
    Filter(xs, x => x != b)
  }

  /** heapq.nlargest(n, xs) on the (score, x) pairs, keeping only the strings. */
  function NLargest(matched: Matcher, word: string, xs: seq<string>, n: nat): seq<string>
    decreases n
  {
    if n == 0 || xs == [] then []
    else
      var b := Best(matched, word, xs);
      [b] + NLargest(matched, word, Without(xs, b), n - 1)
  }

  /** The possibilities whose ratio reaches the cutoff, best first, at most five of them. */
  function CloseMatches(matched: Matcher, word: string, possibilities: seq<string>): seq<string> {
    NLargest(matched, word, Eligible(matched, word, possibilities), MaxMatches)
  }

  lemma WithoutSpec(xs: seq<string>, b: string)
    ensures forall x :: x in Without(xs, b) <==> x in xs && x != b
  {
    forall x | x in xs && x != b ensures x in Without(xs, b) {
      var k :| 0 <= k < |xs| && xs[k] == x;
    }
  }

  /** nlargest returns at most n distinct elements of xs, and all of xs when it returns fewer than n. */
  lemma {:induction false} NLargestElements(matched: Matcher, word: string, xs: seq<string>, n: nat)
    ensures var r := NLargest(matched, word, xs, n);
      && |r| <= n
      && (forall x | x in r :: x in xs)
      && Distinct(r)
      && (|r| < n ==> forall x | x in xs :: x in r)
    decreases n
  {
    if n > 0 && xs != [] {
      var b := Best(matched, word, xs);
      var rest := Without(xs, b);
      var r' := NLargest(matched, word, rest, n - 1);
      var r := NLargest(matched, word, xs, n);
      assert r == [b] + r';
      BestSpec(matched, word, xs);
      WithoutSpec(xs, b);
      NLargestElements(matched, word, rest, n - 1);
      assert b !in r';
      assert Distinct(r) by {
        forall i, j | 0 <= i < j < |r| ensures r[i] != r[j] {
          assert r[j] == r'[j - 1];
          if i > 0 {
            assert r[i] == r'[i - 1];
          } else {
            assert r'[j - 1] in r';
          }
        }
      }
    }
  }

  /** nlargest lists best first, and each element it leaves out is outranked by all it returns. */
  lemma {:induction false} NLargestOrder(matched: Matcher, word: string, xs: seq<string>, n: nat)
    ensures var r := NLargest(matched, word, xs, n);
      && (forall i, j | 0 <= i < j < |r| :: Outranks(matched, word, r[i], r[j]))
      && (forall x, i | x in xs && x !in r && 0 <= i < |r| :: Outranks(matched, word, r[i], x))
    decreases n
  {
    if n > 0 && xs != [] {
      var b := Best(matched, word, xs);
      var rest := Without(xs, b);
      var r' := NLargest(matched, word, rest, n - 1);
      var r := NLargest(matched, word, xs, n);
      assert r == [b] + r';
      BestSpec(matched, word, xs);
      WithoutSpec(xs, b);
      NLargestElements(matched, word, rest, n - 1);
      NLargestOrder(matched, word, rest, n - 1);
      assert forall x | x in xs && x != b :: Outranks(matched, word, b, x) by {
        forall x | x in xs && x != b ensures Outranks(matched, word, b, x) {
          var k :| 0 <= k < |xs| && xs[k] == x;
        }
      }
      forall i, j | 0 <= i < j < |r| ensures Outranks(matched, word, r[i], r[j]) {
        assert r[j] == r'[j - 1];
        if i > 0 {
          assert r[i] == r'[i - 1];
        } else {
          assert r'[j - 1] in r';
        }
      }
      forall x, i | x in xs && x !in r && 0 <= i < |r| ensures Outranks(matched, word, r[i], x) {
        if i > 0 {
          assert r[i] == r'[i - 1];
        }
      }
    }
  }

  function Eligible(matched: Matcher, word: string, possibilities: seq<string>): seq<string> {
    Filter(possibilities, x => CloseEnough(matched, word, x))
  }

  lemma EligibleSpec(matched: Matcher, word: string, possibilities: seq<string>)
    ensures forall x :: x in Eligible(matched, word, possibilities) <==> x in possibilities && CloseEnough(matched, word, x)
  {
    var e := Eligible(matched, word, possibilities);
    forall x | x in possibilities && CloseEnough(matched, word, x) ensures x in e {
      var k :| 0 <= k < |possibilities| && possibilities[k] == x;
    }
    forall x | x in e ensures x in possibilities && CloseEnough(matched, word, x) {
      var k :| 0 <= k < |e| && e[k] == x;
    }
  }

  /** get_close_matches: at most five possibilities, each at or above the 0.85 cutoff, no
      repeats, best first; any possibility at the cutoff that is left out ranks below all of
      them, and when fewer than five come back every possibility at the cutoff is among them. */
  lemma CloseMatchesSpec(matched: Matcher, word: string, possibilities: seq<string>)
    ensures var r := CloseMatches(matched, word, possibilities);
      && |r| <= MaxMatches
      && (forall i | 0 <= i < |r| :: r[i] in possibilities && CloseEnough(matched, word, r[i]))
      && Distinct(r)
      && (forall i, j | 0 <= i < j < |r| :: Outranks(matched, word, r[i], r[j]))
      && (forall x, i | x in possibilities && CloseEnough(matched, word, x) && x !in r && 0 <= i < |r| ::
            Outranks(matched, word, r[i], x))
      && (|r| < MaxMatches ==> forall x | x in possibilities && CloseEnough(matched, word, x) :: x in r)
  {
    var eligible := Eligible(matched, word, possibilities);
    NLargestElements(matched, word, eligible, MaxMatches);
    NLargestOrder(matched, word, eligible, MaxMatches);
    EligibleSpec(matched, word, possibilities);
  }

  // ---------------------------------------------------------------------------
  // value_counts(): the frequency ranking of the non-missing values
  // ---------------------------------------------------------------------------

  /** The number of cells holding the text v. */
  function Occurrences(cells: seq<Cell>, v: string): nat {
    if cells == [] then 0
    else Occurrences(cells[..|cells| - 1], v) + (if cells[|cells| - 1] == Str(v) then 1 else 0)
  }

  /** The distinct texts of the column, in order of first appearance. A column holding any
      other value never gets this far: the scan raises first (Cleaning.TypoScanRaises). */
  function ValuesInOrder(cells: seq<Cell>): seq<string> {
    if cells == [] then []
    else
      var init := ValuesInOrder(cells[..|cells| - 1]);
      match cells[|cells| - 1]
      case Str(s) => if s in init then init else init + [s]
      case _ => init
  }

  /** Inserts x after every element counted at least as often (keeps equal counts in order). */
  function InsertByCount(cells: seq<Cell>, x: string, sorted: seq<string>): seq<string> {
    if sorted == [] then [x]
    else if Occurrences(cells, sorted[0]) >= Occurrences(cells, x) then [sorted[0]] + InsertByCount(cells, x, sorted[1..])
    else [x] + sorted
  }

  function SortByCount(cells: seq<Cell>, xs: seq<string>): seq<string> {
    if xs == [] then []
    else InsertByCount(cells, xs[|xs| - 1], SortByCount(cells, xs[..|xs| - 1]))
  }

  /** counts.index.tolist(): the distinct texts, most frequent first (ties in order of appearance). */
  function RankByFrequency(cells: seq<Cell>): seq<string> {
    SortByCount(cells, ValuesInOrder(cells))
  }

  predicate NonIncreasingCounts(cells: seq<Cell>, s: seq<string>) {
    forall i, j | 0 <= i < j < |s| :: Occurrences(cells, s[i]) >= Occurrences(cells, s[j])
  }

  /** What the fuzzy merge needs of value_counts' index: each distinct text once, and counts
      never increasing along it. */
  ghost predicate IsFrequencyRanking(cells: seq<Cell>, ranked: seq<string>) {
    && Distinct(ranked)
    && (forall v :: v in ranked <==> Str(v) in cells)
    && NonIncreasingCounts(cells, ranked)
  }

  lemma {:induction false} ValuesInOrderSpec(cells: seq<Cell>)
    ensures Distinct(ValuesInOrder(cells))
    ensures forall v :: v in ValuesInOrder(cells) <==> Str(v) in cells
  {
    if cells != [] {
      var init := cells[..|cells| - 1];
      ValuesInOrderSpec(init);
      assert cells == init + [cells[|cells| - 1]];
    }
  }

  lemma {:induction false} InsertByCountElements(cells: seq<Cell>, x: string, sorted: seq<string>)
    ensures var r := InsertByCount(cells, x, sorted);
      && |r| == |sorted| + 1
      && (forall v :: v in r <==> v == x || v in sorted)
  {
    if sorted != [] && Occurrences(cells, sorted[0]) >= Occurrences(cells, x) {
      InsertByCountElements(cells, x, sorted[1..]);
      assert sorted == [sorted[0]] + sorted[1..];
    }
  }

  lemma NonIncreasingTail(cells: seq<Cell>, s: seq<string>)
    requires s != [] && NonIncreasingCounts(cells, s)
    ensures NonIncreasingCounts(cells, s[1..])
    ensures forall v | v in s[1..] :: Occurrences(cells, s[0]) >= Occurrences(cells, v)
  {
    var tail := s[1..];
    forall i, j | 0 <= i < j < |tail| ensures Occurrences(cells, tail[i]) >= Occurrences(cells, tail[j]) {
      assert tail[i] == s[i + 1] && tail[j] == s[j + 1];
    }
    forall v | v in tail ensures Occurrences(cells, s[0]) >= Occurrences(cells, v) {
      var k :| 0 <= k < |tail| && tail[k] == v;
      assert s[k + 1] == v;
    }
  }

  /** Prepending an element counted at least as often as every other keeps the order. */
  lemma ConsNonIncreasing(cells: seq<Cell>, h: string, s: seq<string>)
    requires NonIncreasingCounts(cells, s)
    requires forall v | v in s :: Occurrences(cells, h) >= Occurrences(cells, v)
    ensures NonIncreasingCounts(cells, [h] + s)
  {
    var r := [h] + s;
    forall i, j | 0 <= i < j < |r| ensures Occurrences(cells, r[i]) >= Occurrences(cells, r[j]) {
      assert r[j] == s[j - 1];
      if i > 0 {
        assert r[i] == s[i - 1];
      }
    }
  }

  lemma ConsDistinct(h: string, s: seq<string>)
    requires Distinct(s) && h !in s
    ensures Distinct([h] + s)
  {
    var r := [h] + s;
    forall i, j | 0 <= i < j < |r| ensures r[i] != r[j] {
      assert r[j] == s[j - 1];
      if i > 0 {
        assert r[i] == s[i - 1];
      }
    }
  }

  lemma {:induction false} InsertByCountSorted(cells: seq<Cell>, x: string, sorted: seq<string>)
    requires NonIncreasingCounts(cells, sorted)
    ensures NonIncreasingCounts(cells, InsertByCount(cells, x, sorted))
  {
    if sorted != [] {
      NonIncreasingTail(cells, sorted);
      if Occurrences(cells, sorted[0]) >= Occurrences(cells, x) {
        InsertByCountSorted(cells, x, sorted[1..]);
        InsertByCountElements(cells, x, sorted[1..]);
        ConsNonIncreasing(cells, sorted[0], InsertByCount(cells, x, sorted[1..]));
      } else {
        assert sorted == [sorted[0]] + sorted[1..];
        ConsNonIncreasing(cells, x, sorted);
      }
    }
  }

  lemma {:induction false} InsertByCountDistinct(cells: seq<Cell>, x: string, sorted: seq<string>)
    requires Distinct(sorted) && x !in sorted
    ensures Distinct(InsertByCount(cells, x, sorted))
  {
    if sorted != [] && Occurrences(cells, sorted[0]) >= Occurrences(cells, x) {
      DistinctTail(sorted);
      InsertByCountDistinct(cells, x, sorted[1..]);
      InsertByCountElements(cells, x, sorted[1..]);
      ConsDistinct(sorted[0], InsertByCount(cells, x, sorted[1..]));
    } else {
      ConsDistinct(x, sorted);
    }
  }

  lemma {:induction false} SortByCountSpec(cells: seq<Cell>, xs: seq<string>)
    ensures var r := SortByCount(cells, xs);
      && |r| == |xs|
      && (forall v :: v in r <==> v in xs)
      && NonIncreasingCounts(cells, r)
      && (Distinct(xs) ==> Distinct(r))
  {
    if xs != [] {
      var init := xs[..|xs| - 1];
      var last := xs[|xs| - 1];
      SortByCountSpec(cells, init);
      InsertByCountElements(cells, last, SortByCount(cells, init));
      InsertByCountSorted(cells, last, SortByCount(cells, init));
      assert xs == init + [last];
      if Distinct(xs) {
        assert Distinct(init);
        assert last !in init by {
          forall k | 0 <= k < |init| ensures init[k] != last {
            assert init[k] == xs[k];
          }
        }
        InsertByCountDistinct(cells, last, SortByCount(cells, init));
      }
    }
  }

  /** The ranking computed here is a frequency ranking of the column. */
  lemma RankByFrequencyIsRanking(cells: seq<Cell>)
    ensures IsFrequencyRanking(cells, RankByFrequency(cells))
  {
    ValuesInOrderSpec(cells);
    SortByCountSpec(cells, ValuesInOrder(cells));
  }

  // ---------------------------------------------------------------------------
  // The replacement dictionary (cleaning.py:50-60)
  // ---------------------------------------------------------------------------

  /** One `replacements[match] = val` assignment, also one "Typo Düzeltildi" report line. */
  datatype Fix = Fix(typo: string, canonical: string)

  /** The dictionary after the assignments in order (a later assignment to a key wins). */
  function Replacements(fixes: seq<Fix>): map<string, string> {
    if fixes == [] then map[]
    else
      var last := fixes[|fixes| - 1];
      Replacements(fixes[..|fixes| - 1])[last.typo := last.canonical]
  }

  /** The assignments made for one candidate `word`: each match counted strictly less often. */
  function MatchFixes(cells: seq<Cell>, word: string, matches: seq<string>): seq<Fix> {
    if matches == [] then []
    else
      var m := matches[|matches| - 1];
      MatchFixes(cells, word, matches[..|matches| - 1])
        + (if Occurrences(cells, word) > Occurrences(cells, m) then [Fix(m, word)] else [])
  }

  /** The matches of candidate ranked[i] among the lower-ranked values. */
  function MatchesOf(matched: Matcher, ranked: seq<string>, i: nat): seq<string>
    requires i < |ranked|
  {
    CloseMatches(matched, ranked[i], ranked[i + 1..])
  }

  /** The outer loop from candidate i on, with the assignments `acc` already made, including
      the `val in replacements.values()` skip of line 53. */
  function PlanFrom(cells: seq<Cell>, ranked: seq<string>, matched: Matcher, i: nat, acc: seq<Fix>): seq<Fix>
    requires i <= |ranked|
    decreases |ranked| - i
  {
    if i == |ranked| then acc
    else if ranked[i] in Replacements(acc).Values then PlanFrom(cells, ranked, matched, i + 1, acc)
    else PlanFrom(cells, ranked, matched, i + 1, acc + MatchFixes(cells, ranked[i], MatchesOf(matched, ranked, i)))
  }

  /** Every assignment the loops make, in order. */
  function TypoPlan(cells: seq<Cell>, ranked: seq<string>, matched: Matcher): seq<Fix> {
    PlanFrom(cells, ranked, matched, 0, [])
  }

  /** Reference definition: the assignments of every candidate from i on, with no skip. */
  function AllFixes(cells: seq<Cell>, ranked: seq<string>, matched: Matcher, i: nat): seq<Fix>
    requires i <= |ranked|
    decreases |ranked| - i
  {
    if i == |ranked| then []
    else MatchFixes(cells, ranked[i], MatchesOf(matched, ranked, i)) + AllFixes(cells, ranked, matched, i + 1)
  }

  /** The nested loops of cleaning.py:52-60: one pass over the ranking, building the
      replacement dictionary and the list of report lines. */
  method PlanTypoFixes(cells: seq<Cell>, ranked: seq<string>, matched: Matcher)
    returns (replacements: map<string, string>, fixes: seq<Fix>)
    ensures fixes == TypoPlan(cells, ranked, matched)
    ensures replacements == Replacements(fixes)
  {
    replacements, fixes := map[], [];
    for i := 0 to |ranked|
      invariant PlanFrom(cells, ranked, matched, i, fixes) == TypoPlan(cells, ranked, matched)
      invariant replacements == Replacements(fixes)
    {
      var word := ranked[i];
      if word in replacements.Values {
        assert PlanFrom(cells, ranked, matched, i, fixes) == PlanFrom(cells, ranked, matched, i + 1, fixes);
        continue;
      }
      var matches := CloseMatches(matched, word, ranked[i + 1..]);
      assert PlanFrom(cells, ranked, matched, i, fixes)
        == PlanFrom(cells, ranked, matched, i + 1, fixes + MatchFixes(cells, word, matches));
      replacements, fixes := RecordMatches(cells, word, matches, replacements, fixes);
    }
  }

  /** The inner loop (cleaning.py:57-60): assign every match counted strictly less often
      than the candidate. */
  method RecordMatches(cells: seq<Cell>, word: string, matches: seq<string>,
                       replacements0: map<string, string>, fixes0: seq<Fix>)
    returns (replacements: map<string, string>, fixes: seq<Fix>)
    requires replacements0 == Replacements(fixes0)
    ensures fixes == fixes0 + MatchFixes(cells, word, matches)
    ensures replacements == Replacements(fixes)
  {
    replacements, fixes := replacements0, fixes0;
    for k := 0 to |matches|
      invariant fixes == fixes0 + MatchFixes(cells, word, matches[..k])
      invariant replacements == Replacements(fixes)
    {
      var m := matches[k];
      assert matches[..k + 1][..k] == matches[..k];
      ghost var done := MatchFixes(cells, word, matches[..k]);
      assert MatchFixes(cells, word, matches[..k + 1])
        == done + (if Occurrences(cells, word) > Occurrences(cells, m) then [Fix(m, word)] else []);
      if Occurrences(cells, word) > Occurrences(cells, m) {
        var next := fixes + [Fix(m, word)];
        assert next[..|next| - 1] == fixes;
        ConcatAssociative(fixes0, done, [Fix(m, word)]);
        replacements := replacements[m := word];
        fixes := next;
      } else {
        assert done + [] == done;
      }
    }
    assert matches[..|matches|] == matches;
  }

  // ---------------------------------------------------------------------------
  // What the plan promises
  // ---------------------------------------------------------------------------

  lemma {:induction false} MatchFixesSpec(cells: seq<Cell>, word: string, matches: seq<string>)
    ensures var fs := MatchFixes(cells, word, matches);
      && |fs| <= |matches|
      && (forall f | f in fs :: f.canonical == word && f.typo in matches
            && Occurrences(cells, word) > Occurrences(cells, f.typo))
      && (forall m | m in matches && Occurrences(cells, word) > Occurrences(cells, m) :: Fix(m, word) in fs)
  {
    if matches != [] {
      var init := matches[..|matches| - 1];
      MatchFixesSpec(cells, word, init);
      assert matches == init + [matches[|matches| - 1]];
    }
  }

  /** The values of the dictionary are canonicals of the assignments made. */
  lemma {:induction false} ReplacementsFromFixes(fixes: seq<Fix>)
    ensures var r := Replacements(fixes);
      && (forall m | m in r :: Fix(m, r[m]) in fixes)
      && (forall f | f in fixes :: f.typo in r)
  {
    if fixes != [] {
      ReplacementsFromFixes(fixes[..|fixes| - 1]);
      assert fixes == fixes[..|fixes| - 1] + [fixes[|fixes| - 1]];
    }
  }

  /** A key keeps the canonical of its last assignment. */
  lemma {:induction false} ReplacementsLastWins(fixes: seq<Fix>, k: nat)
    requires k < |fixes|
    requires forall k' | k < k' < |fixes| :: fixes[k'].typo != fixes[k].typo
    ensures fixes[k].typo in Replacements(fixes)
    ensures Replacements(fixes)[fixes[k].typo] == fixes[k].canonical
  {
    if k < |fixes| - 1 {
      ReplacementsLastWins(fixes[..|fixes| - 1], k);
    }
  }

  lemma ConcatAssociative<T>(a: seq<T>, b: seq<T>, c: seq<T>)
    ensures a + b + c == a + (b + c)
  {
  }

  /** A candidate not yet seen is no target of the assignments made so far. */
  lemma FreshCandidateNotTarget(ranked: seq<string>, i: nat, acc: seq<Fix>)
    requires Distinct(ranked) && i < |ranked|
    requires forall f | f in acc :: f.canonical in ranked[..i]
    ensures ranked[i] !in Replacements(acc).Values
  {
    var word := ranked[i];
    var r := Replacements(acc);
    ReplacementsFromFixes(acc);
    assert word !in ranked[..i] by {
      forall k | 0 <= k < i ensures ranked[..i][k] != word {
        assert ranked[..i][k] == ranked[k];
      }
    }
    forall v | v in r.Values ensures v != word {
      var m :| m in r && r[m] == v;
      assert Fix(m, v) in acc;
    }
  }

  /** After candidate i, every target is among the first i + 1 candidates. */
  lemma TargetsSoFar(ranked: seq<string>, i: nat, acc: seq<Fix>, step: seq<Fix>)
    requires i < |ranked|
    requires forall f | f in acc :: f.canonical in ranked[..i]
    requires forall f | f in step :: f.canonical == ranked[i]
    ensures forall f | f in acc + step :: f.canonical in ranked[..i + 1]
  {
    assert ranked[..i + 1] == ranked[..i] + [ranked[i]];
  }

  /** Because the candidates are distinct and every target is an earlier candidate, the
      `val in replacements.values()` skip never fires: the loops make every assignment. */
  lemma {:induction false} SkipNeverFires(cells: seq<Cell>, ranked: seq<string>, matched: Matcher, i: nat, acc: seq<Fix>)
    requires Distinct(ranked) && i <= |ranked|
    requires forall f | f in acc :: f.canonical in ranked[..i]
    ensures PlanFrom(cells, ranked, matched, i, acc) == acc + AllFixes(cells, ranked, matched, i)
    decreases |ranked| - i
  {
    if i < |ranked| {
      var step := MatchFixes(cells, ranked[i], MatchesOf(matched, ranked, i));
      FreshCandidateNotTarget(ranked, i, acc);
      assert PlanFrom(cells, ranked, matched, i, acc) == PlanFrom(cells, ranked, matched, i + 1, acc + step);
      MatchFixesSpec(cells, ranked[i], MatchesOf(matched, ranked, i));
      TargetsSoFar(ranked, i, acc, step);
      SkipNeverFires(cells, ranked, matched, i + 1, acc + step);
      assert AllFixes(cells, ranked, matched, i) == step + AllFixes(cells, ranked, matched, i + 1);
      ConcatAssociative(acc, step, AllFixes(cells, ranked, matched, i + 1));
    }
  }

  /** Every assignment of AllFixes(i) pairs a candidate ranked[j], j >= i, with one of its
      close matches counted strictly less often. */
  lemma {:induction false} AllFixesSound(cells: seq<Cell>, ranked: seq<string>, matched: Matcher, i: nat)
    requires i <= |ranked|
    ensures forall f | f in AllFixes(cells, ranked, matched, i) ::
      exists j :: i <= j < |ranked| && f.canonical == ranked[j] && f.typo in MatchesOf(matched, ranked, j)
        && Occurrences(cells, f.canonical) > Occurrences(cells, f.typo)
    decreases |ranked| - i
  {
    if i < |ranked| {
      MatchFixesSpec(cells, ranked[i], MatchesOf(matched, ranked, i));
      AllFixesSound(cells, ranked, matched, i + 1);
    }
  }

  lemma {:induction false} AllFixesComplete(cells: seq<Cell>, ranked: seq<string>, matched: Matcher, i: nat, j: nat, m: string)
    requires i <= j < |ranked|
    requires m in MatchesOf(matched, ranked, j) && Occurrences(cells, ranked[j]) > Occurrences(cells, m)
    ensures Fix(m, ranked[j]) in AllFixes(cells, ranked, matched, i)
    decreases j - i
  {
    var step := MatchFixes(cells, ranked[i], MatchesOf(matched, ranked, i));
    assert AllFixes(cells, ranked, matched, i) == step + AllFixes(cells, ranked, matched, i + 1);
    if i == j {
      MatchFixesSpec(cells, ranked[j], MatchesOf(matched, ranked, j));
      assert Fix(m, ranked[j]) in step;
    } else {
      AllFixesComplete(cells, ranked, matched, i + 1, j, m);
    }
  }


  /** The merge only maps a value m to a value v that ranks strictly earlier, is counted
      strictly more often (so equal counts are never merged), has m among its at most five
      close matches, and is similar to m at ratio >= 0.85. */
  lemma TypoPlanSound(cells: seq<Cell>, ranked: seq<string>, matched: Matcher)
    requires IsFrequencyRanking(cells, ranked)
    ensures forall f | f in TypoPlan(cells, ranked, matched) ::
      exists j, k :: 0 <= j < k < |ranked| && ranked[j] == f.canonical && ranked[k] == f.typo
        && f.typo in MatchesOf(matched, ranked, j)
        && CloseEnough(matched, f.canonical, f.typo)
        && Occurrences(cells, f.canonical) > Occurrences(cells, f.typo)
  {
    SkipNeverFires(cells, ranked, matched, 0, []);
    AllFixesSound(cells, ranked, matched, 0);
    forall f | f in TypoPlan(cells, ranked, matched)
      ensures exists j, k :: (0 <= j < k < |ranked| && ranked[j] == f.canonical && ranked[k] == f.typo
        && f.typo in MatchesOf(matched, ranked, j)
        && CloseEnough(matched, f.canonical, f.typo)
        && Occurrences(cells, f.canonical) > Occurrences(cells, f.typo))
    {
      var j :| 0 <= j < |ranked| && f.canonical == ranked[j] && f.typo in MatchesOf(matched, ranked, j)
        && Occurrences(cells, f.canonical) > Occurrences(cells, f.typo);
      MatchRanksLater(matched, ranked, j, f.typo);
    }
  }

  /** A close match of candidate j is a similar value ranked after it. */
  lemma MatchRanksLater(matched: Matcher, ranked: seq<string>, j: nat, m: string)
    requires j < |ranked| && m in MatchesOf(matched, ranked, j)
    ensures CloseEnough(matched, ranked[j], m)
    ensures exists k :: j < k < |ranked| && ranked[k] == m
  {
    CloseMatchesSpec(matched, ranked[j], ranked[j + 1..]);
    var p :| 0 <= p < |MatchesOf(matched, ranked, j)| && MatchesOf(matched, ranked, j)[p] == m;
    var q :| 0 <= q < |ranked[j + 1..]| && ranked[j + 1..][q] == m;
    assert ranked[j + q + 1] == m;
  }

  /** Conversely, every close match counted strictly less often than its candidate is assigned. */
  lemma TypoPlanComplete(cells: seq<Cell>, ranked: seq<string>, matched: Matcher, j: nat, m: string)
    requires IsFrequencyRanking(cells, ranked)
    requires j < |ranked| && m in MatchesOf(matched, ranked, j)
    requires Occurrences(cells, ranked[j]) > Occurrences(cells, m)
    ensures Fix(m, ranked[j]) in TypoPlan(cells, ranked, matched)
    ensures m in Replacements(TypoPlan(cells, ranked, matched))
  {
    SkipNeverFires(cells, ranked, matched, 0, []);
    AllFixesComplete(cells, ranked, matched, 0, j, m);
    ReplacementsFromFixes(TypoPlan(cells, ranked, matched));
  }

  /** What the dictionary applied to the column does: every key is a value of the column
      replaced by a strictly more frequent, earlier-ranked, similar value. */
  lemma ReplacementsSound(cells: seq<Cell>, ranked: seq<string>, matched: Matcher)
    requires IsFrequencyRanking(cells, ranked)
    ensures var r := Replacements(TypoPlan(cells, ranked, matched));
      forall m | m in r ::
        && Str(m) in cells && Str(r[m]) in cells && r[m] != m
        && Occurrences(cells, r[m]) > Occurrences(cells, m)
        && CloseEnough(matched, r[m], m)
  {
    var plan := TypoPlan(cells, ranked, matched);
    TypoPlanSound(cells, ranked, matched);
    ReplacementsFromFixes(plan);
    var r := Replacements(plan);
    forall m | m in r
      ensures Str(m) in cells && Str(r[m]) in cells && r[m] != m
      ensures Occurrences(cells, r[m]) > Occurrences(cells, m) && CloseEnough(matched, r[m], m)
    {
      assert Fix(m, r[m]) in plan;
      var j, k :| 0 <= j < k < |ranked| && ranked[j] == r[m] && ranked[k] == m
        && CloseEnough(matched, r[m], m) && Occurrences(cells, r[m]) > Occurrences(cells, m);
      assert ranked[j] in ranked && ranked[k] in ranked;
    }
  }

  /** Each candidate contributes at most five assignments. */
  lemma AtMostFivePerCandidate(cells: seq<Cell>, ranked: seq<string>, matched: Matcher, j: nat)
    requires j < |ranked|
    ensures |MatchFixes(cells, ranked[j], MatchesOf(matched, ranked, j))| <= MaxMatches
  {
    CloseMatchesSpec(matched, ranked[j], ranked[j + 1..]);
    MatchFixesSpec(cells, ranked[j], MatchesOf(matched, ranked, j));
  }
}
