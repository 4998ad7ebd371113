# Bioconda bot: build-id extraction, artifact listing and membership decision

The bioconda comment bot (`images/bot/src/bioconda_bot/common.py`) finds the
package artifacts that CircleCI built for a pull request. It reads the check
runs of the pull request's head commit and keeps the runs of the
`Workflow: bioconda-test` workflow. From their summaries it extracts the
CircleCI build ids. For each build it downloads the artifact listing and
turns CircleCI's EDN-like text into YAML with a chain of `str.replace`
calls. It then keeps the URLs of conda tarballs and `repodata.json` files.
The same file also decides whether a GitHub user belongs to the bioconda
organisation.

This project models that logic with the network calls taken out:

- `Text`: Python's `str.replace` (every non-overlapping occurrence, found
  left to right) and `str.endswith`. It also holds the facts about
  replacement that the listing repair relies on: what a replacement cannot
  introduce, what it removes, and when it splits over a concatenation.
- `Summary`: `parse_circle_ci_summary`. The regular-expression search is
  modelled as the scan `re.findall` performs. At each position the scan
  tries the literal prefix `gh/bioconda/bioconda-recipes/` followed by a
  greedy digit run. On a match it records the digits and resumes after
  them; otherwise it moves on by one character.
- `Artifacts`: `fetch_artifacts`, given the response status and body. The
  method rebinds the text through the seven replacements one by one, as the
  source does. It is specified by the pure `Repair` chain and the
  `ArtifactUrls` filter.
- `CheckRuns`: `fetch_pr_sha_artifacts`, given the parsed check runs and
  the per-build artifact fetch. The method keeps the nested loops and
  extends one accumulating sequence with each build's artifact set. It is specified
  by the build ids `WorkflowIds` of the runs and the per-build listings it
  appended.
- `Membership`: the status decision of `is_bioconda_member`.

`is_bioconda_member` swallows only an error status. `session.get` is called
outside the `try`, so a failed connection reaches the caller. The model
follows the code: the decision is a function of the status that arrived.

## Model

| member | source | states |
|---|---|---|
| Text.ReplaceAll | images/bot/src/bioconda_bot/common.py:103-108 | `str.replace` with a non-empty pattern: scanning left to right, each occurrence is replaced by the new text and the scan resumes after it, so occurrences never overlap |
| Text.EndsWith | images/bot/src/bioconda_bot/common.py:113 | `str.endswith`: the text's last characters are the suffix |
| Text.ReplaceAllIdentity | images/bot/src/bioconda_bot/common.py:103-108 | a replacement whose pattern never occurs leaves the text unchanged |
| Text.ReplaceAllRemovesChar | images/bot/src/bioconda_bot/common.py:103 | replacing every `(` (or `)`) by text without that character leaves none of it in the result |
| Text.ReplaceAllKeepsCharOut | images/bot/src/bioconda_bot/common.py:103-108 | a replacement whose text lacks a character cannot introduce that character |
| Text.ReplaceAllLeavesNoPair | images/bot/src/bioconda_bot/common.py:104 | replacing every `} ` by `}, ` leaves no `}` directly followed by a space, whatever the input |
| Text.ReplaceAllKeepsPairOut | images/bot/src/bioconda_bot/common.py:105-108 | a replacement cannot create an adjacent pair `a b` when its text holds none, does not start with `b` and does not end with `a` |
| Text.ReplaceAllSplit | images/bot/src/bioconda_bot/common.py:106-107 | when no occurrence straddles the seam, replacing over `u + w` is replacing over `u` and over `w` separately |
| Summary.ParseSummary | images/bot/src/bioconda_bot/common.py:85-86 | `parse_circle_ci_summary`: the digit group captured at each match position, in the order the scan reports them |
| Summary.DigitsEnd | images/bot/src/bioconda_bot/common.py:86 | the greedy `\d` run from an index: only digits up to the end it returns, and no digit right after it |
| Summary.Scan | images/bot/src/bioconda_bot/common.py:86 | every reported position is a match at or after the start index, and each one starts no earlier than the end of the previous match (left-to-right order, no overlap) |
| Summary.ParseSummaryIds | images/bot/src/bioconda_bot/common.py:85-86 | one id per match position; each id is non-empty, all digits, preceded by the prefix at its position, and maximal (no digit follows) |
| Summary.NoMatchInsideMatch | images/bot/src/bioconda_bot/common.py:86 | no match can start inside another match |
| Summary.ScanFindsEveryMatch | images/bot/src/bioconda_bot/common.py:86 | a scan from an index reports every match at or after that index |
| Summary.MatchPositionsComplete | images/bot/src/bioconda_bot/common.py:86 | a position is reported exactly when the pattern matches there |
| Summary.ParseSummaryEmpty | images/bot/src/bioconda_bot/common.py:86 | the id list is empty exactly when the prefix followed by a digit occurs nowhere in the summary |
| Summary.ParseSummaryKeepsDuplicates | images/bot/src/bioconda_bot/common.py:85-86 | the summary made of the prefix, an id, a space, the prefix and the same id again yields that id twice, in order |
| Artifacts.Separate | images/bot/src/bioconda_bot/common.py:103-104 | the first three replacements: `(` to `[`, `)` to `]`, then `} ` to `}, ` |
| Artifacts.QuoteKeys | images/bot/src/bioconda_bot/common.py:105-108 | the last four replacements, quoting `:node-index`, `:path`, `:pretty-path` and `:url` in that order |
| Artifacts.Repair | images/bot/src/bioconda_bot/common.py:103-108 | the whole seven-step replace chain, the quoting applied to the separated text |
| Artifacts.IsArtifactUrl | images/bot/src/bioconda_bot/common.py:113-119 | the URL ends in `.tar.gz`, `.tar.bz2` or `/repodata.json` |
| Artifacts.ArtifactUrls | images/bot/src/bioconda_bot/common.py:110-120 | the set comprehension: the URLs of the records that pass the suffix test; every URL in it has an artifact suffix |
| Artifacts.FetchArtifacts | images/bot/src/bioconda_bot/common.py:91-121 | status 301 gives the empty set; a body shorter than 3 characters gives the empty set; otherwise the result is the filtered URL set of the parsed repaired body, and a URL is in it exactly when some parsed record carries it and it has an artifact suffix |
| Artifacts.ArtifactUrlsMembership | images/bot/src/bioconda_bot/common.py:110-120 | a URL is kept exactly when some record carries it and it ends in `.tar.gz`, `.tar.bz2` or `/repodata.json` |
| Artifacts.ArtifactUrlsBound | images/bot/src/bioconda_bot/common.py:110-120 | the URL set holds at most one URL per record |
| Artifacts.ArtifactUrlsExample | images/bot/src/bioconda_bot/common.py:113-119 | records with URLs `a.tar.gz`, `b.txt` and `c/repodata.json` keep the first and the last |
| Artifacts.SeparateShape | images/bot/src/bioconda_bot/common.py:103-104 | after the first three replacements there is no `(`, no `)` and no `}` directly followed by a space |
| Artifacts.QuoteKeysKeepsShape | images/bot/src/bioconda_bot/common.py:105-108 | the four key-quoting replacements introduce no `(`, no `)` and no `}` directly followed by a space |
| Artifacts.RepairShape | images/bot/src/bioconda_bot/common.py:103-108 | the repaired text contains no `(`, no `)` and no `} ` |
| Artifacts.PathQuotingKeepsPrettyPath | images/bot/src/bioconda_bot/common.py:106-107 | quoting `:path`, which runs before `:pretty-path` is quoted, rewrites the text on both sides of a `:pretty-path` key and leaves the key itself intact |
| CheckRuns.RunIds | images/bot/src/bioconda_bot/common.py:139-141 | a run titled exactly `Workflow: bioconda-test` contributes the ids parsed from its summary; any other run contributes none |
| CheckRuns.WorkflowIds | images/bot/src/bioconda_bot/common.py:138-142 | the ids the loops visit: each run's ids, in run order and then in summary order |
| CheckRuns.ExtendWithSet | images/bot/src/bioconda_bot/common.py:144 | extending a list with a set appends a listing of the set: every element exactly once, in some order |
| CheckRuns.EnumerationSize | images/bot/src/bioconda_bot/common.py:144 | a listing of a set is exactly as long as the set is large |
| CheckRuns.FetchPrShaArtifacts | images/bot/src/bioconda_bot/common.py:125-145 | the result is the concatenation of one listing per build id, in check-run order and then in id order; its length is the sum of the artifact-set sizes; an artifact is in it exactly when some build's set holds it; with no test-workflow run the result is empty |
| CheckRuns.FlattenSize | images/bot/src/bioconda_bot/common.py:142-144 | the appended listings together are as long as the sum of the per-build set sizes (no deduplication across builds) |
| CheckRuns.FlattenMembers | images/bot/src/bioconda_bot/common.py:142-144 | an artifact is in the concatenation exactly when one of the builds lists it |
| CheckRuns.NoTestRunsNoIds | images/bot/src/bioconda_bot/common.py:138-139 | with no run titled `Workflow: bioconda-test` there are no build ids |
| CheckRuns.WorkflowIdsSnoc | images/bot/src/bioconda_bot/common.py:138-141 | a run added at the end contributes its ids at the end |
| CheckRuns.WorkflowIdsConcat | images/bot/src/bioconda_bot/common.py:138-141 | the ids of two stretches of runs are the ids of the first followed by the ids of the second |
| CheckRuns.WorkflowIdsFromTestRuns | images/bot/src/bioconda_bot/common.py:138-141 | every build id comes from the summary of some run titled `Workflow: bioconda-test` |
| Membership.IsBiocondaMember | images/bot/src/bioconda_bot/common.py:57-66 | the user is a member exactly when GitHub answered 204 |

## Left out

- `async_exec`: it only spawns an operating-system subprocess and checks its return code.
- `send_comment`: a network POST followed by `sys.exit` when the status is outside 200 to 202.
- `get_pr_info`, `get_job_context` and `get_pr_comment`: environment-variable reads, an HTTP request and dictionary lookups on parsed YAML.
- HTTP requests, headers, URL construction, `raise_for_status`, `response.text()`, `os.environ` and logging. The models take the response status and body, the parsed check runs and the per-build artifact fetch as inputs.
- YAML parsing (`safe_load`) is a function parameter from text to a list of records with a string `url`. Every repaired body that does not load as such a list is not modelled: malformed YAML, a record without a `url` key, a body that loads as `None` (three spaces pass the length test, come through the chain unchanged, and iterating over `None` raises), a scalar or mapping instead of a list, and a `url` that loads as a number (`endswith` then raises). All of these raise in the source.
- The check runs arrive already parsed as title and summary pairs. A response without the `check_runs`, `output`, `title` or `summary` keys, which raises in the source, is not modelled.
- The `pr` argument of `fetch_pr_sha_artifacts`, which the source never uses.
- CheckRuns.FetchPrShaArtifacts: the per-build fetch is a function of the build id, so an id named twice gets the same artifact set both times. The source makes a separate HTTP request for each occurrence, and the answers may differ. No proved property depends on the two answers being equal.
- The order in which Python iterates a set. `list.extend` with a set is modelled as appending its elements in an unspecified order. The model proves only what holds for every order.
- Async scheduling: the source awaits each fetch in turn, and the model runs the loop sequentially.
- Summary.IsDigit: `\d` is limited to the ASCII digits. Python's `re` also matches the other Unicode decimal digits in a `str` pattern.
- Text.ReplaceAll: requires a non-empty pattern. Every pattern the source uses is non-empty, and Python's behaviour for an empty pattern is not modelled.
- Membership.IsBiocondaMember: a failed connection raises out of `session.get` in the source and is not modelled. Only the status of a response that arrived is.
