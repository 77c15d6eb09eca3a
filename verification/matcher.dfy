/** The phrase matcher of voice/matcher.py: the transcribed text is scored
    against every registered phrase by three fuzzy scorers, the best score
    overall wins, and it is accepted only above the phrase's confidence
    threshold. The scorers are the rapidfuzz library's and are parameters
    here: `score(s, text, phrase)` is what scorer `s` returns (0 to 100) or
    `Raised`. */
module Matcher {
  import opened Wrappers
  import opened Numeric
  import opened Registry

  /** Python's `str.isspace` characters, which `str.strip` removes. The
      ideographic space U+3000 matters for Japanese transcriptions. */
  predicate IsSpace(c: char) {
    || ('\U{9}' <= c <= '\U{D}') || ('\U{1C}' <= c <= '\U{20}')
    || c == '\U{85}' || c == '\U{A0}' || c == '\U{1680}'
    || ('\U{2000}' <= c <= '\U{200A}') || c == '\U{2028}' || c == '\U{2029}'
    || c == '\U{202F}' || c == '\U{205F}' || c == '\U{3000}'
  }

  /** Number of leading whitespace characters. */
  function LeadingSpaces(s: string): (n: nat)
    ensures n <= |s|
    ensures forall k :: 0 <= k < n ==> IsSpace(s[k])
    ensures n < |s| ==> !IsSpace(s[n])
  {
    if s == [] || !IsSpace(s[0]) then 0 else 1 + LeadingSpaces(s[1..])
  }

  /** Number of trailing whitespace characters. */
  function TrailingSpaces(s: string): (n: nat)
    ensures n <= |s|
    ensures forall k :: |s| - n <= k < |s| ==> IsSpace(s[k])
    ensures n < |s| ==> !IsSpace(s[|s| - 1 - n])
  {
    if s == [] || !IsSpace(s[|s| - 1]) then 0 else 1 + TrailingSpaces(s[..|s| - 1])
  }

  /** `s[i..j]` is `s` with only whitespace cut from its two ends. */
  predicate TrimmedSlice(s: string, i: int, j: int) {
    && 0 <= i <= j <= |s|
    && (forall k :: 0 <= k < i ==> IsSpace(s[k]))
    && (forall k :: j <= k < |s| ==> IsSpace(s[k]))
  }

  /** `str.strip()`: the text without leading and trailing whitespace. It is
      empty exactly when the text is all whitespace. */
  function Strip(s: string): (r: string)
    ensures exists i, j :: TrimmedSlice(s, i, j) && r == s[i..j]
    ensures r != [] ==> !IsSpace(r[0]) && !IsSpace(r[|r| - 1])
    ensures r == [] <==> forall k :: 0 <= k < |s| ==> IsSpace(s[k])
  {
    if forall k :: 0 <= k < |s| ==> IsSpace(s[k]) then
      assert TrimmedSlice(s, 0, 0) && [] == s[0..0];
      []
    else
      var a := LeadingSpaces(s);
      assert a < |s|;
      var t := s[a..];
      var b := TrailingSpaces(t);
      assert b < |t| by {
        assert t[0] == s[a];
      }
      var r := t[..|t| - b];
      var j := a + |t| - b;
      assert r == s[a..j];
      assert TrimmedSlice(s, a, j) by {
        forall k | j <= k < |s| ensures IsSpace(s[k]) {
          assert s[k] == t[k - a];
        }
      }
      r
  }

  /** The three rapidfuzz scorers the matcher combines. */
  datatype Scorer = Ratio | PartialRatio | TokenRatio

  /** Index of the first maximal value, as Python's `max` with a key keeps
      the first of equal maxima. */
  function ArgMax(vals: seq<real>): (i: nat)
    requires |vals| > 0
    ensures i < |vals|
    ensures forall j :: 0 <= j < |vals| ==> vals[j] <= vals[i]
    ensures forall j :: 0 <= j < i ==> vals[j] < vals[i]
  {
    ArgMaxFrom(vals, 1, 0)
  }

  function ArgMaxFrom(vals: seq<real>, k: nat, best: nat): (i: nat)
    requires best < k <= |vals|
    requires forall j :: 0 <= j < k ==> vals[j] <= vals[best]
    requires forall j :: 0 <= j < best ==> vals[j] < vals[best]
    ensures i < |vals|
    ensures forall j :: 0 <= j < |vals| ==> vals[j] <= vals[i]
    ensures forall j :: 0 <= j < i ==> vals[j] < vals[i]
    decreases |vals| - k
  {
    if k == |vals| then best
    else if vals[k] > vals[best] then ArgMaxFrom(vals, k + 1, k)
    else ArgMaxFrom(vals, k + 1, best)
  }

  /** The matcher's one setting. */
  datatype CommandMatcher = CommandMatcher(minConfidence: real)

  const DefaultMatcher: CommandMatcher := CommandMatcher(0.6)

  /** `set_confidence_threshold`: the new threshold clamped into [0, 1]. */
  function SetConfidenceThreshold(m: CommandMatcher, threshold: real): (r: CommandMatcher)
    ensures 0.0 <= r.minConfidence <= 1.0
    ensures 0.0 <= threshold <= 1.0 ==> r.minConfidence == threshold
    ensures threshold < 0.0 ==> r.minConfidence == 0.0
    ensures threshold > 1.0 ==> r.minConfidence == 1.0
  {
    CommandMatcher(Clamp(0.0, 1.0, threshold))
  }

  /** The threshold a phrase must reach: its own `confidence_threshold`, or
      the matcher's minimum when it has none or is not registered. */
  function Threshold(d: Dict, key: string, minConfidence: real): (t: real)
    ensures Lookup(d, key).Some? && Lookup(d, key).value.threshold.Some? ==>
              t == Lookup(d, key).value.threshold.value
    ensures Lookup(d, key).None? || Lookup(d, key).value.threshold.None? ==> t == minConfidence
  {
    match Lookup(d, key)
    case Some(info) => info.threshold.GetOr(minConfidence)
    case None => minConfidence
  }

  /** Every scorer returned a score for every phrase. */
  predicate AllScored(text: string, phrases: seq<string>,
                      score: (Scorer, string, string) -> Outcome<real>) {
    forall s, i :: 0 <= i < |phrases| ==> score(s, text, phrases[i]).Returned?
  }

  function Scores(s: Scorer, text: string, phrases: seq<string>,
                  score: (Scorer, string, string) -> Outcome<real>): (r: seq<real>)
    requires AllScored(text, phrases, score)
    ensures |r| == |phrases|
    ensures forall i :: 0 <= i < |phrases| ==> score(s, text, phrases[i]) == Returned(r[i])
  {
    seq(|phrases|, i requires 0 <= i < |phrases| => score(s, text, phrases[i]).value)
  }

  /** A scorer's place in the order the matcher lists the candidates. */
  function Rank(s: Scorer): nat {
    match s
    case Ratio => 0
    case PartialRatio => 1
    case TokenRatio => 2
  }

  /** `v` is at least every score of every phrase under every scorer. */
  predicate IsTopScore(text: string, phrases: seq<string>,
                       score: (Scorer, string, string) -> Outcome<real>, v: real) {
    forall s, i :: 0 <= i < |phrases| ==>
      score(s, text, phrases[i]).Returned? && score(s, text, phrases[i]).value <= v
  }

  /** Ties go to the first phrase under the chosen scorer, and every earlier
      scorer scores strictly lower on every phrase. */
  predicate FirstOfTies(text: string, phrases: seq<string>,
                        score: (Scorer, string, string) -> Outcome<real>, r: (Scorer, nat))
    requires |phrases| > 0 && AllScored(text, phrases, score) && r.1 < |phrases|
  {
    && (forall i :: 0 <= i < r.1 ==>
          score(r.0, text, phrases[i]).value < score(r.0, text, phrases[r.1]).value)
    && forall s, i :: 0 <= i < |phrases| && Rank(s) < Rank(r.0) ==>
         score(s, text, phrases[i]).value < score(r.0, text, phrases[r.1]).value
  }

  /** The winning (scorer, phrase index): the best phrase under each scorer,
      then the best of those three in the order ratio, partial ratio, token
      ratio, each time keeping the first of equal scores. Its score is the
      highest of all; how it breaks ties is `BestBreaksTies`. */
  function Best(text: string, phrases: seq<string>,
                score: (Scorer, string, string) -> Outcome<real>): (r: (Scorer, nat))
    requires |phrases| > 0 && AllScored(text, phrases, score)
    ensures r.1 < |phrases|
    ensures score(r.0, text, phrases[r.1]).Returned?
    ensures IsTopScore(text, phrases, score, score(r.0, text, phrases[r.1]).value)
  {
    var ratio := Scores(Ratio, text, phrases, score);
    var partial := Scores(PartialRatio, text, phrases, score);
    var token := Scores(TokenRatio, text, phrases, score);
    var bestRatio := ArgMax(ratio);
    var bestPartial := ArgMax(partial);
    var bestToken := ArgMax(token);
    var candidates := [(Ratio, bestRatio), (PartialRatio, bestPartial), (TokenRatio, bestToken)];
    var tops := [ratio[bestRatio], partial[bestPartial], token[bestToken]];
    var c := ArgMax(tops);
    var r := candidates[c];
    assert score(r.0, text, phrases[r.1]).value == tops[c] by {
      if c == 0 {
        assert score(Ratio, text, phrases[bestRatio]) == Returned(ratio[bestRatio]);
      } else if c == 1 {
        assert score(PartialRatio, text, phrases[bestPartial]) == Returned(partial[bestPartial]);
      } else {
        assert score(TokenRatio, text, phrases[bestToken]) == Returned(token[bestToken]);
      }
    }
    assert tops[0] <= tops[c] && tops[1] <= tops[c] && tops[2] <= tops[c];
    assert forall s, i :: 0 <= i < |phrases| ==>
             score(s, text, phrases[i]).value <= score(r.0, text, phrases[r.1]).value by {
      forall s, i | 0 <= i < |phrases|
        ensures score(s, text, phrases[i]).value <= score(r.0, text, phrases[r.1]).value
      {
        if s == Ratio {
          assert score(s, text, phrases[i]).value == ratio[i] <= tops[0];
        } else if s == PartialRatio {
          assert score(s, text, phrases[i]).value == partial[i] <= tops[1];
        } else {
          assert score(s, text, phrases[i]).value == token[i] <= tops[2];
        }
      }
    }
    r
  }

  /** `Best` keeps the first of equal scores: no earlier phrase reaches the
      winning score under the winning scorer, and no scorer earlier in the
      order ratio, partial ratio, token ratio reaches it on any phrase. */
  lemma BestBreaksTies(text: string, phrases: seq<string>,
                       score: (Scorer, string, string) -> Outcome<real>)
    requires |phrases| > 0 && AllScored(text, phrases, score)
    ensures FirstOfTies(text, phrases, score, Best(text, phrases, score))
  {
    var ratio := Scores(Ratio, text, phrases, score);
    var partial := Scores(PartialRatio, text, phrases, score);
    var token := Scores(TokenRatio, text, phrases, score);
    var bestRatio := ArgMax(ratio);
    var bestPartial := ArgMax(partial);
    var bestToken := ArgMax(token);
    var tops := [ratio[bestRatio], partial[bestPartial], token[bestToken]];
    var c := ArgMax(tops);
    var r := Best(text, phrases, score);
    assert r == [(Ratio, bestRatio), (PartialRatio, bestPartial), (TokenRatio, bestToken)][c];
    assert score(r.0, text, phrases[r.1]).value == tops[c] by {
      if c == 0 {
        assert score(Ratio, text, phrases[bestRatio]) == Returned(ratio[bestRatio]);
      } else if c == 1 {
        assert score(PartialRatio, text, phrases[bestPartial]) == Returned(partial[bestPartial]);
      } else {
        assert score(TokenRatio, text, phrases[bestToken]) == Returned(token[bestToken]);
      }
    }
    assert Rank(r.0) == c;
    assert forall i :: 0 <= i < r.1 ==>
             score(r.0, text, phrases[i]).value < score(r.0, text, phrases[r.1]).value by {
      forall i | 0 <= i < r.1
        ensures score(r.0, text, phrases[i]).value < score(r.0, text, phrases[r.1]).value
      {
        if c == 0 {
          assert score(r.0, text, phrases[i]).value == ratio[i];
        } else if c == 1 {
          assert score(r.0, text, phrases[i]).value == partial[i];
        } else {
          assert score(r.0, text, phrases[i]).value == token[i];
        }
      }
    }
    assert forall s, i :: 0 <= i < |phrases| && Rank(s) < Rank(r.0) ==>
             score(s, text, phrases[i]).value < score(r.0, text, phrases[r.1]).value by {
      forall s, i | 0 <= i < |phrases| && Rank(s) < Rank(r.0)
        ensures score(s, text, phrases[i]).value < score(r.0, text, phrases[r.1]).value
      {
        assert tops[Rank(s)] < tops[c];
        if s == Ratio {
          assert score(s, text, phrases[i]).value == ratio[i] <= tops[0];
        } else {
          assert score(s, text, phrases[i]).value == partial[i] <= tops[1];
        }
      }
    }
  }

  /** `find_best_match` for the registry `d`. Blank text, an empty registry
      or any scorer failure gives no match; a match always reaches its
      phrase's threshold. That the match is the best-scoring phrase is
      `BestMatchIsBest`. */
  function FindBestMatch(m: CommandMatcher, text: string, d: Dict,
                         score: (Scorer, string, string) -> Outcome<real>): (r: Option<(string, real)>)
    ensures Strip(text) == [] ==> r.None?
    ensures |GetAllCommands(d)| == 0 ==> r.None?
    ensures !AllScored(Strip(text), GetAllCommands(d), score) ==> r.None?
    ensures r.Some? ==> r.value.1 >= Threshold(d, r.value.0, m.minConfidence)
  {
    MatchStripped(m, Strip(text), d, score)
  }

  /** `find_best_match` once the text is stripped to `cleaned`. */
  function MatchStripped(m: CommandMatcher, cleaned: string, d: Dict,
                         score: (Scorer, string, string) -> Outcome<real>): (r: Option<(string, real)>)
    ensures cleaned == [] ==> r.None?
    ensures |GetAllCommands(d)| == 0 ==> r.None?
    ensures !AllScored(cleaned, GetAllCommands(d), score) ==> r.None?
    ensures r.Some? ==> r.value.1 >= Threshold(d, r.value.0, m.minConfidence)
  {
    var phrases := GetAllCommands(d);
    if cleaned == [] || |phrases| == 0 || !AllScored(cleaned, phrases, score) then None
    else
      var w := Best(cleaned, phrases, score);
      Decide(d, phrases[w.1], score(w.0, cleaned, phrases[w.1]).value, m.minConfidence)
  }

  /** The last step of `find_best_match`: the winning phrase `key` with raw
      score `raw` is a match, with confidence `raw` scaled to [0, 1], exactly
      when that confidence reaches the phrase's threshold. */
  function Decide(d: Dict, key: string, raw: real, minConfidence: real): (r: Option<(string, real)>)
    ensures r.Some? <==> raw / 100.0 >= Threshold(d, key, minConfidence)
    ensures r.Some? ==> r.value.0 == key && r.value.1 * 100.0 == raw
  {
    if raw / 100.0 >= Threshold(d, key, minConfidence) then Some((key, raw / 100.0))
    else None
  }

  /** `key` with confidence `conf` is a best match of `text`: a phrase of
      `phrases` that some scorer gives `conf` scaled back to 0 to 100, a score
      that no scorer gives any phrase beaten. */
  predicate IsBestMatch(text: string, phrases: seq<string>,
                        score: (Scorer, string, string) -> Outcome<real>, key: string, conf: real) {
    && key in phrases
    && (exists s :: score(s, text, key) == Returned(conf * 100.0))
    && IsTopScore(text, phrases, score, conf * 100.0)
  }

  /** Some phrase with a best score falls short of its threshold once the
      score is scaled to [0, 1]. */
  predicate BestFallsShort(text: string, phrases: seq<string>,
                           score: (Scorer, string, string) -> Outcome<real>, d: Dict, minConfidence: real) {
    exists s, i :: 0 <= i < |phrases| && score(s, text, phrases[i]).Returned?
      && IsTopScore(text, phrases, score, score(s, text, phrases[i]).value)
      && score(s, text, phrases[i]).value / 100.0 < Threshold(d, phrases[i], minConfidence)
  }

  /** A match is a registered phrase whose score, scaled to [0, 1], is the
      best of all scores; and when every score was obtained, no match means
      that a best-scoring phrase fell short of its threshold. */
  lemma BestMatchIsBest(m: CommandMatcher, text: string, d: Dict,
                        score: (Scorer, string, string) -> Outcome<real>)
    ensures var r := FindBestMatch(m, text, d, score);
      r.Some? ==> IsBestMatch(Strip(text), GetAllCommands(d), score, r.value.0, r.value.1)
    ensures var r := FindBestMatch(m, text, d, score);
      var phrases := GetAllCommands(d);
      r.None? && Strip(text) != [] && |phrases| > 0 && AllScored(Strip(text), phrases, score) ==>
        BestFallsShort(Strip(text), phrases, score, d, m.minConfidence)
  {
    var cleaned := Strip(text);
    assert FindBestMatch(m, text, d, score) == MatchStripped(m, cleaned, d, score);
    StrippedMatchIsBest(m, cleaned, d, score);
  }

  /** `BestMatchIsBest` for text already stripped to `cleaned`. */
  lemma StrippedMatchIsBest(m: CommandMatcher, cleaned: string, d: Dict,
                            score: (Scorer, string, string) -> Outcome<real>)
    ensures var r := MatchStripped(m, cleaned, d, score);
      r.Some? ==> IsBestMatch(cleaned, GetAllCommands(d), score, r.value.0, r.value.1)
    ensures var r := MatchStripped(m, cleaned, d, score);
      var phrases := GetAllCommands(d);
      r.None? && cleaned != [] && |phrases| > 0 && AllScored(cleaned, phrases, score) ==>
        BestFallsShort(cleaned, phrases, score, d, m.minConfidence)
  {
    var phrases := GetAllCommands(d);
    if cleaned != [] && |phrases| > 0 && AllScored(cleaned, phrases, score) {
      var w := Best(cleaned, phrases, score);
      DecideOnBest(cleaned, phrases, d, score, w.0, w.1, m.minConfidence);
    }
  }

  /** `Decide` on a best-scoring pair `(s, i)`: a match is that phrase with a
      best score, and no match means that phrase fell short. */
  lemma DecideOnBest(cleaned: string, phrases: seq<string>, d: Dict,
                     score: (Scorer, string, string) -> Outcome<real>, s: Scorer, i: nat,
                     minConfidence: real)
    requires i < |phrases| && score(s, cleaned, phrases[i]).Returned?
    requires IsTopScore(cleaned, phrases, score, score(s, cleaned, phrases[i]).value)
    ensures var r := Decide(d, phrases[i], score(s, cleaned, phrases[i]).value, minConfidence);
      r.Some? ==> IsBestMatch(cleaned, phrases, score, r.value.0, r.value.1)
    ensures var r := Decide(d, phrases[i], score(s, cleaned, phrases[i]).value, minConfidence);
      r.None? ==> BestFallsShort(cleaned, phrases, score, d, minConfidence)
  {
    var raw := score(s, cleaned, phrases[i]).value;
    var r := Decide(d, phrases[i], raw, minConfidence);
    if r.Some? {
      assert score(s, cleaned, r.value.0) == Returned(r.value.1 * 100.0);
    } else {
      assert raw / 100.0 < Threshold(d, phrases[i], minConfidence);
    }
  }

  /** The `(phrase, score)` pairs that reach the minimum once scaled to
      [0, 1], in their order. */
  function KeepConfident(matches: seq<(string, real)>, minConfidence: real): (r: seq<(string, real)>)
    ensures |r| <= |matches|
    ensures forall p :: p in r ==> p.1 >= minConfidence
  {
    if matches == [] then []
    else
      var rest := KeepConfident(matches[1..], minConfidence);
      var head := (matches[0].0, matches[0].1 / 100.0);
      if head.1 >= minConfidence then [head] + rest else rest
  }

  /** The loop keeps the extraction's order: filtering a concatenation is
      filtering each part, so of two kept pairs the earlier match comes first. */
  lemma {:induction false} KeepConfidentAppend(a: seq<(string, real)>, b: seq<(string, real)>,
                                               minConfidence: real)
    ensures KeepConfident(a + b, minConfidence)
            == KeepConfident(a, minConfidence) + KeepConfident(b, minConfidence)
    decreases |a|
  {
    if a == [] {
      assert a + b == b;
    } else {
      assert (a + b)[0] == a[0];
      assert (a + b)[1..] == a[1..] + b;
      KeepConfidentAppend(a[1..], b, minConfidence);
    }
  }

  /** Match `k` of the extracted list, scaled, is the pair `p` and reaches
      the minimum. */
  predicate Gives(matches: seq<(string, real)>, k: int, p: (string, real), minConfidence: real) {
    0 <= k < |matches| && p == (matches[k].0, matches[k].1 / 100.0) && p.1 >= minConfidence
  }

  /** A pair is kept exactly when some extracted match, scaled, gives it and
      reaches the minimum. */
  lemma {:induction false} KeepConfidentMembers(matches: seq<(string, real)>, minConfidence: real,
                                                p: (string, real))
    ensures p in KeepConfident(matches, minConfidence) <==>
            exists k :: Gives(matches, k, p, minConfidence)
    decreases |matches|
  {
    if matches != [] {
      var tail := matches[1..];
      KeepConfidentMembers(tail, minConfidence, p);
      var head := (matches[0].0, matches[0].1 / 100.0);
      assert Gives(matches, 0, p, minConfidence) <==> p == head && head.1 >= minConfidence;
      if exists k :: Gives(matches, k, p, minConfidence) {
        var k :| Gives(matches, k, p, minConfidence);
        if k > 0 {
          assert Gives(tail, k - 1, p, minConfidence);
        }
      }
      if exists k :: Gives(tail, k, p, minConfidence) {
        var k :| Gives(tail, k, p, minConfidence);
        assert Gives(matches, k + 1, p, minConfidence);
      }
    }
  }

  /** `get_all_matches`. `extract(text, phrases, limit)` stands for
      rapidfuzz's `process.extract` with the plain ratio scorer: its
      `(phrase, score)` results, or `Raised`. */
  function GetAllMatches(m: CommandMatcher, text: string, d: Dict, limit: nat,
                         extract: (string, seq<string>, nat) -> Outcome<seq<(string, real)>>)
    : (r: seq<(string, real)>)
    ensures Strip(text) == [] ==> r == []
    ensures extract(Strip(text), GetAllCommands(d), limit).Raised? ==> r == []
    ensures forall p :: p in r ==> p.1 >= m.minConfidence
    ensures Strip(text) != [] && extract(Strip(text), GetAllCommands(d), limit).Returned? ==>
      var found := extract(Strip(text), GetAllCommands(d), limit).value;
      r == KeepConfident(found, m.minConfidence)
  {
    var cleaned := Strip(text);
    if cleaned == [] then []
    else
      match extract(cleaned, GetAllCommands(d), limit)
      case Raised => []
      case Returned(found) => KeepConfident(found, m.minConfidence)
  }
}
