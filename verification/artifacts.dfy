/** The artifact listing of one CircleCI build (`fetch_artifacts`). The
    listing arrives in an EDN-like notation; a fixed chain of `str.replace`
    calls turns it into YAML, which is parsed into records, and the URLs of
    the records that name a package tarball or a repository index are kept. */
module Artifacts {
  import opened Text

  /** Status CircleCI answers with when a build's artifacts are gone. */
  const MovedPermanently := 301

  /** One entry of the parsed listing. */
  datatype ArtifactRecord = ArtifactRecord(nodeIndex: int, path: string, prettyPath: string, url: string)

  /** The URL names a conda package tarball or a channel's `repodata.json`. */
  predicate IsArtifactUrl(url: string) {
    EndsWith(url, ".tar.gz") || EndsWith(url, ".tar.bz2") || EndsWith(url, "/repodata.json")
  }

  /** The replace chain that turns the listing into YAML: parentheses become
      brackets, records get separating commas, and the four keys are quoted. */
  function Repair(listing: string): string {
    QuoteKeys(Separate(listing))
  }

  /** The first three replacements: brackets for parentheses, then a comma
      after every `}` that a space follows. */
  function Separate(listing: string): string {
    var bracketed := ReplaceAll(ReplaceAll(listing, "(", "["), ")", "]");
    ReplaceAll(bracketed, "} ", "}, ")
  }

  /** The last four replacements turn the keys `:node-index`, `:path`,
      `:pretty-path` and `:url` into quoted YAML keys, in that order. */
  function QuoteKeys(separated: string): string {
    var nodeIndexed := ReplaceAll(separated, ":node-index", "\"node-index\":");
    var pathKeyed := ReplaceAll(nodeIndexed, ":path", "\"path\":");
    var prettyKeyed := ReplaceAll(pathKeyed, ":pretty-path", "\"pretty-path\":");
    ReplaceAll(prettyKeyed, ":url", "\"url\":")
  }

  /** The set comprehension over the parsed records. */
  function ArtifactUrls(records: seq<ArtifactRecord>): (urls: set<string>)
    ensures forall u :: u in urls ==> IsArtifactUrl(u)
  {
    set r | r in records && IsArtifactUrl(r.url) :: r.url
  }

  /** `fetch_artifacts` once the HTTP response is in hand: `status` and `body`
      are the response, `parse` stands for the YAML loader. */
  method FetchArtifacts(status: int, body: string, parse: string -> seq<ArtifactRecord>)
    returns (urls: set<string>)
    ensures status == MovedPermanently ==> urls == {}
    ensures |body| < 3 ==> urls == {}
    ensures status != MovedPermanently && 3 <= |body| ==> urls == ArtifactUrls(parse(Repair(body)))
    ensures forall u :: u in urls <==>
      status != MovedPermanently && 3 <= |body| && IsArtifactUrl(u) &&
      exists r :: r in parse(Repair(body)) && r.url == u
  {
    if status == MovedPermanently {
      return {};
    }
    var res := body;
    if |res| < 3 {
      return {};
    }
    res := ReplaceAll(res, "(", "[");
    res := ReplaceAll(res, ")", "]");
    res := ReplaceAll(res, "} ", "}, ");
    res := ReplaceAll(res, ":node-index", "\"node-index\":");
    res := ReplaceAll(res, ":path", "\"path\":");
    res := ReplaceAll(res, ":pretty-path", "\"pretty-path\":");
    res := ReplaceAll(res, ":url", "\"url\":");
    var records := parse(res);
    urls := set r | r in records && IsArtifactUrl(r.url) :: r.url;
    ArtifactUrlsMembership(records);
  }

  /** A URL is kept exactly when some record carries it and it has one of
      the three artifact suffixes. */
  lemma ArtifactUrlsMembership(records: seq<ArtifactRecord>)
    ensures forall u :: u in ArtifactUrls(records) <==>
      IsArtifactUrl(u) && exists r :: r in records && r.url == u
  {
  }

  /** The filter keeps at most one URL per record. */
  lemma {:induction false} ArtifactUrlsBound(records: seq<ArtifactRecord>)
    ensures |ArtifactUrls(records)| <= |records|
  {
    if records != [] {
      var init := records[..|records| - 1];
      var last := records[|records| - 1];
      assert records == init + [last];
      ArtifactUrlsBound(init);
      var added := if IsArtifactUrl(last.url) then {last.url} else {};
      assert ArtifactUrls(records) == ArtifactUrls(init) + added;
    }
  }

  /** The listing `a.tar.gz`, `b.txt`, `c/repodata.json` keeps the first
      and the last. */
  lemma ArtifactUrlsExample()
    ensures ArtifactUrls([ArtifactRecord(0, "a.tar.gz", "a.tar.gz", "a.tar.gz"),
                          ArtifactRecord(1, "b.txt", "b.txt", "b.txt"),
                          ArtifactRecord(2, "c/repodata.json", "c/repodata.json", "c/repodata.json")])
            == {"a.tar.gz", "c/repodata.json"}
  {
    var a := ArtifactRecord(0, "a.tar.gz", "a.tar.gz", "a.tar.gz");
    var b := ArtifactRecord(1, "b.txt", "b.txt", "b.txt");
    var c := ArtifactRecord(2, "c/repodata.json", "c/repodata.json", "c/repodata.json");
    assert IsArtifactUrl(a.url) by {
      assert a.url[1..] == ".tar.gz";
    }
    assert IsArtifactUrl(c.url) by {
      assert c.url[1..] == "/repodata.json";
    }
    assert !IsArtifactUrl(b.url);
    KeepsFirstAndLast(a, b, c);
  }

  lemma KeepsFirstAndLast(a: ArtifactRecord, b: ArtifactRecord, c: ArtifactRecord)
    requires IsArtifactUrl(a.url) && !IsArtifactUrl(b.url) && IsArtifactUrl(c.url)
    ensures ArtifactUrls([a, b, c]) == {a.url, c.url}
  {
    assert a.url in ArtifactUrls([a, b, c]) by {
      assert a in [a, b, c];
    }
    assert c.url in ArtifactUrls([a, b, c]) by {
      assert c in [a, b, c];
    }
  }

  /** After the repair there are no parentheses left and no record closes
      with `}` directly followed by a space: the key-quoting steps introduce
      none of these. */
  lemma RepairShape(listing: string)
    ensures '(' !in Repair(listing) && ')' !in Repair(listing)
    ensures !HasPair(Repair(listing), '}', ' ')
  {
    SeparateShape(listing);
    QuoteKeysKeepsShape(Separate(listing));
  }

  /** Separating leaves no parenthesis and no `}` followed by a space. */
  lemma SeparateShape(listing: string)
    ensures '(' !in Separate(listing) && ')' !in Separate(listing)
    ensures !HasPair(Separate(listing), '}', ' ')
  {
    var s1 := ReplaceAll(listing, "(", "[");
    ReplaceAllRemovesChar(listing, '(', "[");
    var s2 := ReplaceAll(s1, ")", "]");
    ReplaceAllKeepsCharOut(s1, ")", "]", '(');
    ReplaceAllRemovesChar(s1, ')', "]");
    assert "} " == ['}', ' '];
    ReplaceAllLeavesNoPair(s2, '}', ' ', "}, ");
    ReplaceAllKeepsCharOut(s2, "} ", "}, ", '(');
    ReplaceAllKeepsCharOut(s2, "} ", "}, ", ')');
  }

  /** Quoting the keys introduces no parenthesis and no `}` followed by a space. */
  lemma QuoteKeysKeepsShape(s: string)
    requires '(' !in s && ')' !in s && !HasPair(s, '}', ' ')
    ensures '(' !in QuoteKeys(s) && ')' !in QuoteKeys(s)
    ensures !HasPair(QuoteKeys(s), '}', ' ')
  {
    var s2 := ReplaceAll(ReplaceAll(s, ":node-index", "\"node-index\":"), ":path", "\"path\":");
    NodeIndexQuotingIsShapeSafe();
    PathQuotingIsShapeSafe();
    PrettyPathQuotingIsShapeSafe();
    UrlQuotingIsShapeSafe();
    TwoKeyQuotingsKeepShape(s, ":node-index", "\"node-index\":", ":path", "\"path\":");
    TwoKeyQuotingsKeepShape(s2, ":pretty-path", "\"pretty-path\":", ":url", "\"url\":");
  }

  /** Replacing `key` by `quoted` is a well-formed replacement whose text
      holds no parenthesis, no `}` and no space. */
  predicate ShapeSafe(key: string, quoted: string) {
    key != [] && quoted != [] &&
    '(' !in quoted && ')' !in quoted && '}' !in quoted && ' ' !in quoted
  }

  lemma NodeIndexQuotingIsShapeSafe()
    ensures ShapeSafe(":node-index", "\"node-index\":")
  {
  }

  lemma PathQuotingIsShapeSafe()
    ensures ShapeSafe(":path", "\"path\":")
  {
  }

  lemma PrettyPathQuotingIsShapeSafe()
    ensures ShapeSafe(":pretty-path", "\"pretty-path\":")
  {
  }

  lemma UrlQuotingIsShapeSafe()
    ensures ShapeSafe(":url", "\"url\":")
  {
  }

  /** Two shape-safe key-quoting steps in a row preserve the shape. */
  lemma TwoKeyQuotingsKeepShape(s: string, key1: string, quoted1: string, key2: string, quoted2: string)
    requires ShapeSafe(key1, quoted1) && ShapeSafe(key2, quoted2)
    requires '(' !in s && ')' !in s && !HasPair(s, '}', ' ')
    ensures var r := ReplaceAll(ReplaceAll(s, key1, quoted1), key2, quoted2);
      '(' !in r && ')' !in r && !HasPair(r, '}', ' ')
  {
    KeyQuotingKeepsShape(s, key1, quoted1);
    KeyQuotingKeepsShape(ReplaceAll(s, key1, quoted1), key2, quoted2);
  }

  /** One key-quoting step preserves the shape established so far. */
  lemma KeyQuotingKeepsShape(s: string, key: string, quoted: string)
    requires key != [] && quoted != []
    requires '(' !in quoted && ')' !in quoted && '}' !in quoted && ' ' !in quoted
    requires '(' !in s && ')' !in s && !HasPair(s, '}', ' ')
    ensures '(' !in ReplaceAll(s, key, quoted) && ')' !in ReplaceAll(s, key, quoted)
    ensures !HasPair(ReplaceAll(s, key, quoted), '}', ' ')
  {
    ReplaceAllKeepsCharOut(s, key, quoted, '(');
    ReplaceAllKeepsCharOut(s, key, quoted, ')');
    ReplaceAllKeepsPairOut(s, key, quoted, '}', ' ');
  }

  /** Quoting the `:path` key runs before `:pretty-path` is quoted, but it
      leaves every `:pretty-path` key intact: `:path` never occurs inside
      `:pretty-path` nor across its edges. */
  lemma PathQuotingKeepsPrettyPath(u: string, w: string)
    ensures ReplaceAll(u + ":pretty-path" + w, ":path", "\"path\":")
         == ReplaceAll(u, ":path", "\"path\":") + ":pretty-path" + ReplaceAll(w, ":path", "\"path\":")
  {
    var key := ":path";
    var pretty := ":pretty-path";
    NoPathKeyBeforeColon(u, pretty + w);
    NoPathKeyAcrossPrettyPath(w);
    PrettyPathHasNoPathKey();
    ReplaceAllAroundFixed(u, pretty, w, key, "\"path\":");
  }

  /** When no occurrence straddles either seam and none lies inside `m`,
      replacing over `u + m + w` keeps `m` and replaces on both sides. */
  lemma ReplaceAllAroundFixed(u: string, m: string, w: string, pat: string, rep: string)
    requires pat != []
    requires forall j :: 0 <= j < |u| < j + |pat| ==> !OccursAt(u + (m + w), pat, j)
    requires forall j :: 0 <= j < |m| < j + |pat| ==> !OccursAt(m + w, pat, j)
    requires forall j :: !OccursAt(m, pat, j)
    ensures ReplaceAll(u + m + w, pat, rep) == ReplaceAll(u, pat, rep) + m + ReplaceAll(w, pat, rep)
  {
    var mw := m + w;
    assert u + m + w == u + mw;
    ReplaceAllSplit(u, mw, pat, rep);
    ReplaceAllSplit(m, w, pat, rep);
    ReplaceAllIdentity(m, pat, rep);
  }

  /** No `:path` straddles the end of `u` when a colon follows it: the
      colon would have to be one of the key's last four characters. */
  lemma NoPathKeyBeforeColon(u: string, v: string)
    requires v != [] && v[0] == ':'
    ensures forall j :: 0 <= j < |u| < j + |":path"| ==> !OccursAt(u + v, ":path", j)
  {
    var key := ":path";
    forall j | 0 <= j < |u| < j + |key|
      ensures !OccursAt(u + v, key, j)
    {
      OccursAtChar(u + v, key, j, |u| - j);
      assert (u + v)[|u|] == ':' != key[|u| - j];
    }
  }

  /** No `:path` straddles the end of a `:pretty-path` key. */
  lemma NoPathKeyAcrossPrettyPath(w: string)
    ensures forall j :: 0 <= j < |":pretty-path"| < j + |":path"| ==> !OccursAt(":pretty-path" + w, ":path", j)
  {
    var pretty := ":pretty-path";
    forall j | 0 <= j < |pretty| < j + |":path"|
      ensures !OccursAt(pretty + w, ":path", j)
    {
      OccursAtChar(pretty + w, ":path", j, 0);
      assert (pretty + w)[j] == pretty[j] != ':';
    }
  }

  /** `:path` does not occur inside `:pretty-path`. */
  lemma PrettyPathHasNoPathKey()
    ensures forall j :: !OccursAt(":pretty-path", ":path", j)
  {
    var pretty := ":pretty-path";
    forall j ensures !OccursAt(pretty, ":path", j) {
      OccursAtChar(pretty, ":path", j, 0);
      OccursAtChar(pretty, ":path", j, 2);
      if 0 < j < |pretty| {
        assert pretty[j] != ':';
      }
    }
  }
}
