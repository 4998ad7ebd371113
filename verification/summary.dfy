/** Extraction of CircleCI build ids from the free-text summary of a GitHub
    check run: `re.findall(r"gh/bioconda/bioconda-recipes/(\d+)", summary)`.
    The regular expression is modelled as the left-to-right scan that
    `findall` performs: at each position try the literal prefix followed by
    a greedy run of digits; on success record the digit group and resume
    after it, otherwise move on by one character. */
module Summary {

  /** The literal part of the pattern that must precede a build id. */
  const BuildPathPrefix: string := "gh/bioconda/bioconda-recipes/"

  /** `\d`, restricted to the ASCII digits. */
  predicate IsDigit(c: char) {
    '0' <= c <= '9'
  }

  predicate AllDigits(s: string) {
    forall k :: 0 <= k < |s| ==> IsDigit(s[k])
  }

  /** End of the greedy `\d*` run that starts at index `j`. */
  function DigitsEnd(s: string, j: nat): (e: nat)
    requires j <= |s|
    ensures j <= e <= |s|
    ensures forall k :: j <= k < e ==> IsDigit(s[k])
    ensures e == |s| || !IsDigit(s[e])
    decreases |s| - j
  {
    if j < |s| && IsDigit(s[j]) then DigitsEnd(s, j + 1) else j
  }

  /** The pattern matches at position `p`: the prefix, then at least one digit. */
  predicate MatchAt(s: string, p: int) {
    0 <= p && p + |BuildPathPrefix| < |s| &&
    s[p..p + |BuildPathPrefix|] == BuildPathPrefix &&
    IsDigit(s[p + |BuildPathPrefix|])
  }

  /** Where the match at `p` ends: after the maximal run of digits. */
  function MatchEnd(s: string, p: int): (e: nat)
    requires MatchAt(s, p)
    ensures p + |BuildPathPrefix| < e <= |s|
  {
    DigitsEnd(s, p + |BuildPathPrefix|)
  }

  /** The start positions of the matches `findall` reports when it begins
      scanning at index `i`, in the order it reports them. */
  function Scan(s: string, i: nat): (ps: seq<nat>)
    requires i <= |s|
    ensures forall k :: 0 <= k < |ps| ==> i <= ps[k] && MatchAt(s, ps[k])
    ensures forall k :: 0 < k < |ps| ==> MatchEnd(s, ps[k - 1]) <= ps[k]
    decreases |s| - i
  {
    if i == |s| then []
    else if MatchAt(s, i) then [i] + Scan(s, MatchEnd(s, i))
    else Scan(s, i + 1)
  }

  function MatchPositions(s: string): seq<nat> {
    Scan(s, 0)
  }

  /** `id` is a build id found at match position `p` of `s`: the prefix
      stands at `p`, `id` follows it, consists of digits only, is not empty
      and cannot be extended by a further digit. */
  predicate IsBuildIdAt(s: string, p: int, id: string) {
    var start := p + |BuildPathPrefix|;
    0 <= p && start + |id| <= |s| &&
    s[p..start] == BuildPathPrefix &&
    s[start..start + |id|] == id &&
    id != [] && AllDigits(id) &&
    (start + |id| == |s| || !IsDigit(s[start + |id|]))
  }

  /** `parse_circle_ci_summary`: the captured digit group of every match. */
  function ParseSummary(summary: string): seq<string> {
    var ps := MatchPositions(summary);
    seq(|ps|, k requires 0 <= k < |ps| => summary[ps[k] + |BuildPathPrefix|..MatchEnd(summary, ps[k])])
  }

  /** The `k`-th id is the digit group of the `k`-th match: non-empty, made
      of digits, preceded by the prefix and maximal. */
  lemma ParseSummaryIds(summary: string)
    ensures |ParseSummary(summary)| == |MatchPositions(summary)|
    ensures forall k :: 0 <= k < |ParseSummary(summary)| ==>
      IsBuildIdAt(summary, MatchPositions(summary)[k], ParseSummary(summary)[k])
  {
  }

  /** The prefix's first character, `g`, does not occur again in it, so two
      occurrences of the prefix can never overlap. */
  lemma PrefixHeadUnique()
    ensures forall k :: 0 < k < |BuildPathPrefix| ==> BuildPathPrefix[k] != BuildPathPrefix[0]
  {
  }

  /** No match can start inside another match. */
  lemma NoMatchInsideMatch(s: string, i: int, p: int)
    requires MatchAt(s, i) && i < p < MatchEnd(s, i)
    ensures !MatchAt(s, p)
  {
    var n := |BuildPathPrefix|;
    if p < i + n {
      assert s[p] == s[i..i + n][p - i] == BuildPathPrefix[p - i];
      PrefixHeadUnique();
      assert s[p] != BuildPathPrefix[0];
    } else {
      assert IsDigit(s[p]);
    }
  }

  /** Scanning from `i` reports every match at or after `i`. */
  lemma {:induction false} ScanFindsEveryMatch(s: string, i: nat, p: int)
    requires i <= p && i <= |s| && MatchAt(s, p)
    ensures p in Scan(s, i)
    decreases |s| - i
  {
    if i == |s| {
      assert false;
    } else if MatchAt(s, i) {
      if p != i {
        if p < MatchEnd(s, i) {
          NoMatchInsideMatch(s, i, p);
        }
        ScanFindsEveryMatch(s, MatchEnd(s, i), p);
      }
    } else {
      ScanFindsEveryMatch(s, i + 1, p);
    }
  }

  /** The reported positions are exactly the positions where the pattern
      matches: none is missed although the scan skips over each match. */
  lemma MatchPositionsComplete(s: string, p: int)
    ensures p in MatchPositions(s) <==> MatchAt(s, p)
  {
    if MatchAt(s, p) {
      ScanFindsEveryMatch(s, 0, p);
    }
  }

  /** A summary yields no build id exactly when the prefix followed by a
      digit occurs nowhere in it. */
  lemma ParseSummaryEmpty(summary: string)
    ensures ParseSummary(summary) == [] <==> forall p :: !MatchAt(summary, p)
  {
    ParseSummaryIds(summary);
    if ParseSummary(summary) == [] {
      forall p ensures !MatchAt(summary, p) {
        MatchPositionsComplete(summary, p);
      }
    } else {
      var p := MatchPositions(summary)[0];
      assert MatchAt(summary, p);
    }
  }

  /** A digit run that follows the prefix and ends at `end`, where no
      further digit follows, is a match ending at `end`. */
  lemma MatchOfPrefixedId(s: string, p: nat, id: string)
    requires id != [] && AllDigits(id)
    requires p + |BuildPathPrefix| + |id| <= |s|
    requires s[p..p + |BuildPathPrefix|] == BuildPathPrefix
    requires s[p + |BuildPathPrefix|..p + |BuildPathPrefix| + |id|] == id
    requires p + |BuildPathPrefix| + |id| == |s| || !IsDigit(s[p + |BuildPathPrefix| + |id|])
    ensures MatchAt(s, p) && MatchEnd(s, p) == p + |BuildPathPrefix| + |id|
  {
    var start := p + |BuildPathPrefix|;
    var end := start + |id|;
    assert s[start] == id[0];
    assert forall k :: start <= k < end ==> s[k] == id[k - start];
  }

  /** Repeated ids are all reported, in order: the prefix and an id, a
      space, then the prefix and the same id again, yields that id twice. */
  lemma ParseSummaryKeepsDuplicates(id: string)
    requires id != [] && AllDigits(id)
    ensures ParseSummary(BuildPathPrefix + id + " " + BuildPathPrefix + id) == [id, id]
  {
    var s := BuildPathPrefix + id + " " + BuildPathPrefix + id;
    var n := |BuildPathPrefix|;
    var second := n + |id| + 1;
    TwoReferencesMatch(id);
    TwoMatchesScan(s, second);
    IdsOfTwoMatches(s, second);
  }

  /** Where the two references of the repeated-id summary match, and what
      they capture. */
  lemma TwoReferencesMatch(id: string)
    requires id != [] && AllDigits(id)
    ensures var s := BuildPathPrefix + id + " " + BuildPathPrefix + id;
      var gap := |BuildPathPrefix| + |id|;
      MatchAt(s, 0) && MatchEnd(s, 0) == gap && !MatchAt(s, gap) &&
      MatchAt(s, gap + 1) && MatchEnd(s, gap + 1) == |s| &&
      s[|BuildPathPrefix|..gap] == id && s[gap + 1 + |BuildPathPrefix|..|s|] == id
  {
    var s := BuildPathPrefix + id + " " + BuildPathPrefix + id;
    var n := |BuildPathPrefix|;
    var gap := n + |id|;
    var second := gap + 1;
    assert s[0..n] == BuildPathPrefix;
    assert s[n..gap] == id;
    assert s[gap] == ' ';
    MatchOfPrefixedId(s, 0, id);
    assert s[second..second + n] == BuildPathPrefix;
    assert s[second + n..|s|] == id;
    MatchOfPrefixedId(s, second, id);
  }

  /** The ids of a text whose matches are at 0 and at `second`. */
  lemma IdsOfTwoMatches(s: string, second: nat)
    requires MatchPositions(s) == [0, second]
    requires MatchAt(s, 0) && MatchAt(s, second)
    ensures ParseSummary(s) == [s[|BuildPathPrefix|..MatchEnd(s, 0)], s[second + |BuildPathPrefix|..MatchEnd(s, second)]]
  {
  }

  /** A scan over text with a match at 0, one non-matching character after
      it, and a match from there to the end reports exactly these two. */
  lemma TwoMatchesScan(s: string, second: nat)
    requires 0 < second <= |s|
    requires MatchAt(s, 0) && MatchEnd(s, 0) == second - 1 && !MatchAt(s, second - 1)
    requires MatchAt(s, second) && MatchEnd(s, second) == |s|
    ensures MatchPositions(s) == [0, second]
  {
    assert Scan(s, second) == [second];
    assert Scan(s, second - 1) == [second];
  }
}
