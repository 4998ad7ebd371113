/** String operations the bot relies on from Python's `str`: `replace` and
    `endswith`, together with the facts the artifact-listing repair needs
    about `replace`. */
module Text {

  /** `pat` occurs in `s` starting at index `j`. */
  predicate OccursAt(s: string, pat: string, j: int) {
    0 <= j && j + |pat| <= |s| && s[j..j + |pat|] == pat
  }

  /** An occurrence fixes every character it covers. */
  lemma OccursAtChar(s: string, pat: string, j: int, k: int)
    ensures OccursAt(s, pat, j) && 0 <= k < |pat| ==> s[j + k] == pat[k]
  {
    if OccursAt(s, pat, j) && 0 <= k < |pat| {
      assert s[j..j + |pat|][k] == s[j + k];
    }
  }

  /** An occurrence in a suffix of `s` is an occurrence in `s`. */
  lemma OccursAtDrop(s: string, pat: string, j: int, d: nat)
    requires d <= |s|
    ensures OccursAt(s[d..], pat, j) ==> OccursAt(s, pat, j + d)
  {
    if OccursAt(s[d..], pat, j) {
      assert s[d..][j..j + |pat|] == s[j + d..j + d + |pat|];
    }
  }

  /** Python's `s.endswith(suffix)`. */
  predicate EndsWith(s: string, suffix: string) {
    |suffix| <= |s| && s[|s| - |suffix|..] == suffix
  }

  /** Somewhere in `s` the character `a` is immediately followed by `b`. */
  predicate HasPair(s: string, a: char, b: char) {
    exists j :: 0 <= j < |s| - 1 && s[j] == a && s[j + 1] == b
  }

  /** Python's `s.replace(pat, rep)` for a non-empty `pat`: every occurrence
      found by a left-to-right scan is replaced, and the scan resumes after
      the occurrence it replaced, so occurrences never overlap. */
  function ReplaceAll(s: string, pat: string, rep: string): string
    requires pat != []
    decreases |s|
  {
    if s == [] then []
    else if OccursAt(s, pat, 0) then rep + ReplaceAll(s[|pat|..], pat, rep)
    else [s[0]] + ReplaceAll(s[1..], pat, rep)
  }

  /** The first character of a replacement result: the original first
      character, or the first character of `rep` when a match starts there. */
  lemma ReplaceAllHead(s: string, pat: string, rep: string)
    requires pat != [] && rep != [] && s != []
    ensures ReplaceAll(s, pat, rep) != []
    ensures ReplaceAll(s, pat, rep)[0] == if OccursAt(s, pat, 0) then rep[0] else s[0]
  {
  }

  /** Text in which `pat` never occurs is left unchanged. */
  lemma {:induction false} ReplaceAllIdentity(s: string, pat: string, rep: string)
    requires pat != []
    requires forall j :: !OccursAt(s, pat, j)
    ensures ReplaceAll(s, pat, rep) == s
    decreases |s|
  {
    if s != [] {
      forall j ensures !OccursAt(s[1..], pat, j) {
        OccursAtDrop(s, pat, j, 1);
      }
      ReplaceAllIdentity(s[1..], pat, rep);
      assert [s[0]] + s[1..] == s;
    }
  }

  /** Replacing the one-character pattern `[c]` by text without `c` leaves
      no `c` behind. */
  lemma {:induction false} ReplaceAllRemovesChar(s: string, c: char, rep: string)
    requires c !in rep
    ensures c !in ReplaceAll(s, [c], rep)
    decreases |s|
  {
    if s != [] {
      if OccursAt(s, [c], 0) {
        ReplaceAllRemovesChar(s[1..], c, rep);
      } else {
        assert s[0..1] == [s[0]];
        ReplaceAllRemovesChar(s[1..], c, rep);
      }
    }
  }

  /** A replacement whose text does not contain `c` cannot introduce `c`. */
  lemma {:induction false} ReplaceAllKeepsCharOut(s: string, pat: string, rep: string, c: char)
    requires pat != []
    requires c !in s && c !in rep
    ensures c !in ReplaceAll(s, pat, rep)
    decreases |s|
  {
    if s != [] {
      if OccursAt(s, pat, 0) {
        ReplaceAllKeepsCharOut(s[|pat|..], pat, rep, c);
      } else {
        ReplaceAllKeepsCharOut(s[1..], pat, rep, c);
      }
    }
  }

  /** An adjacent pair `a b` occurs in a concatenation exactly when it occurs
      in one of the parts or across the seam. */
  lemma HasPairConcat(x: string, y: string, a: char, b: char)
    ensures HasPair(x + y, a, b) <==>
      HasPair(x, a, b) || HasPair(y, a, b) ||
      (x != [] && y != [] && x[|x| - 1] == a && y[0] == b)
  {
    var t := x + y;
    if HasPair(t, a, b) {
      var j :| 0 <= j < |t| - 1 && t[j] == a && t[j + 1] == b;
      if j + 1 < |x| {
        assert x[j] == a && x[j + 1] == b;
      } else if |x| <= j {
        assert y[j - |x|] == a && y[j - |x| + 1] == b;
      }
    }
    if HasPair(x, a, b) {
      var j :| 0 <= j < |x| - 1 && x[j] == a && x[j + 1] == b;
      assert t[j] == a && t[j + 1] == b;
    }
    if HasPair(y, a, b) {
      var j :| 0 <= j < |y| - 1 && y[j] == a && y[j + 1] == b;
      assert t[|x| + j] == a && t[|x| + j + 1] == b;
    }
    if x != [] && y != [] && x[|x| - 1] == a && y[0] == b {
      assert t[|x| - 1] == a && t[|x|] == b;
    }
  }

  /** A replacement cannot create the adjacent pair `a b` when its text
      holds no such pair, does not start with `b` and does not end with `a`. */
  lemma {:induction false} ReplaceAllKeepsPairOut(s: string, pat: string, rep: string, a: char, b: char)
    requires pat != [] && rep != []
    requires !HasPair(s, a, b) && !HasPair(rep, a, b)
    requires rep[0] != b && rep[|rep| - 1] != a
    ensures !HasPair(ReplaceAll(s, pat, rep), a, b)
    decreases |s|
  {
    if s != [] {
      if OccursAt(s, pat, 0) {
        var rest := s[|pat|..];
        assert s == s[..|pat|] + rest;
        HasPairConcat(s[..|pat|], rest, a, b);
        ReplaceAllKeepsPairOut(rest, pat, rep, a, b);
        HasPairConcat(rep, ReplaceAll(rest, pat, rep), a, b);
      } else {
        var rest := s[1..];
        assert s == [s[0]] + rest;
        HasPairConcat([s[0]], rest, a, b);
        ReplaceAllKeepsPairOut(rest, pat, rep, a, b);
        if rest != [] {
          ReplaceAllHead(rest, pat, rep);
        }
        HasPairConcat([s[0]], ReplaceAll(rest, pat, rep), a, b);
      }
    }
  }

  /** Replacing every `a b` by a text that starts with `a`, ends with
      something other than `a` and holds no `a b` itself leaves no `a b`
      at all, whatever the input. */
  lemma {:induction false} ReplaceAllLeavesNoPair(s: string, a: char, b: char, rep: string)
    requires a != b && rep != []
    requires rep[0] == a && rep[|rep| - 1] != a && !HasPair(rep, a, b)
    ensures !HasPair(ReplaceAll(s, [a, b], rep), a, b)
    decreases |s|
  {
    if s != [] {
      if OccursAt(s, [a, b], 0) {
        var rest := s[2..];
        ReplaceAllLeavesNoPair(rest, a, b, rep);
        HasPairConcat(rep, ReplaceAll(rest, [a, b], rep), a, b);
      } else {
        var rest := s[1..];
        ReplaceAllLeavesNoPair(rest, a, b, rep);
        if rest != [] {
          ReplaceAllHead(rest, [a, b], rep);
          assert s[0..2] == [s[0], rest[0]];
        }
        HasPairConcat([s[0]], ReplaceAll(rest, [a, b], rep), a, b);
      }
    }
  }

  /** Replacement distributes over a concatenation when no occurrence of
      the pattern straddles the seam. */
  lemma {:induction false} ReplaceAllSplit(u: string, w: string, pat: string, rep: string)
    requires pat != []
    requires forall j :: 0 <= j < |u| < j + |pat| ==> !OccursAt(u + w, pat, j)
    ensures ReplaceAll(u + w, pat, rep) == ReplaceAll(u, pat, rep) + ReplaceAll(w, pat, rep)
    decreases |u|
  {
    var t := u + w;
    if u == [] {
      assert t == w;
    } else if OccursAt(t, pat, 0) {
      assert |pat| <= |u|;
      assert OccursAt(u, pat, 0) by {
        assert u[0..|pat|] == t[0..|pat|];
      }
      var u' := u[|pat|..];
      assert t[|pat|..] == u' + w;
      forall j | 0 <= j < |u'| < j + |pat|
        ensures !OccursAt(u' + w, pat, j)
      {
        OccursAtDrop(t, pat, j, |pat|);
      }
      ReplaceAllSplit(u', w, pat, rep);
    } else {
      assert !OccursAt(u, pat, 0);
      var u' := u[1..];
      assert t[1..] == u' + w;
      forall j | 0 <= j < |u'| < j + |pat|
        ensures !OccursAt(u' + w, pat, j)
      {
        OccursAtDrop(t, pat, j, 1);
      }
      ReplaceAllSplit(u', w, pat, rep);
      assert ReplaceAll(t, pat, rep) == [t[0]] + ReplaceAll(u' + w, pat, rep);
      if |u| < |pat| {
        assert ReplaceAll(u, pat, rep) == [u[0]] + ReplaceAll(u', pat, rep);
      }
    }
  }
}
