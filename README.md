# Auth-log analysis and archive verification, modelled in Dafny

This project models two small log-administration tools.

- `analyze_auth` reads an SSH authentication log line by line. It counts
  failed password attempts by source address and by user name in two
  `Counter`s. It keeps every accepted login, except on a line that is also a
  failed `invalid user` attempt, which the loop leaves before the success
  check. It then prints four
  sections:
  - the ten addresses with the most failures;
  - the addresses whose failures reach a threshold;
  - the ten most targeted users;
  - the ten most recent accepted logins.
- `verify_archive` reads `sha256sum` digest files. It parses each line with
  `parse_digest_line` and reports every archive named there as MISSING, OK
  or MODIFIED.

The modules are:

- `Wrappers`: `Option`.
- `Text`: the Python string operations the tools use. These are
  `str.isspace`, `strip`, `lstrip('*')`, `split()`, `split(None, 1)`, the
  substring test `in` and `list.index`.
- `Counting`: the parts of `collections.Counter` the analyzer uses.
  - A `Counter` class whose `counts` map and insertion-ordered key list are
    updated in place.
  - The tally of a key sequence, as a reference definition.
  - `most_common(n)`, as a stable ranking by count.
- `AuthAnalyzer`:
  - `analyze_auth` as imperative code: a reading loop over the lines that
    updates the two counters, and the loop that flags suspicious addresses.
  - Pure functions that specify what one line contributes and what the
    report is.
  - Lemmas about both.
- `Verify`:
  - `parse_digest_line` as a pure function, with its lemmas and a
    format/parse round trip.
  - `verify_archive` as imperative loops over the digest files and their
    lines, proved equal to a pure report function.

The log is given as a sequence of lines. The filesystem of `verify_archive`
is given as parameters:

- whether the folder exists;
- the digest files the glob found, in sorted order, each with its lines, or
  `None` when it could not be read;
- a map from each existing archive name to the hex SHA-256 digest of its
  contents.

## Model

| member | source | states |
|---|---|---|
| Counting.Counter.Increment | auth_analyzer.py:36 | `counter[k] += 1`: the count of `k` rises by one (from 0 when absent), every other count is unchanged, `k` joins the key order at its end only when it is new, and the counter stays valid |
| Counting.Counter.constructor | auth_analyzer.py:21-22 | a new `Counter()` has no counts and no keys, and its key order lists exactly its counted keys |
| Counting.BumpKeyed | auth_analyzer.py:36 | `counter[k] += 1` keeps the key order listing each counted key exactly once and nothing else, so `Counter.Increment` preserves `Counter.Valid` |
| Counting.Counter.Entries | auth_analyzer.py:66 | `items()` of a valid counter lists every counted key with its count, and nothing else, in insertion order: entry `i` is the `i`-th key of `order` with its count |
| Counting.ItemsOfKeyed | auth_analyzer.py:66 | the items of a tally whose key order lists each key once are exactly its keys with their counts |
| Counting.CountsOfCounts | auth_analyzer.py:21-22 | the tally of a key sequence holds exactly the keys that occur, each with its number of occurrences |
| Counting.FirstSeenLists | auth_analyzer.py:21-22 | the counter's key order holds each counted key exactly once |
| Counting.CountsOfSnoc | auth_analyzer.py:36 | counting one more key is `counter[k] += 1` on the tally so far |
| Counting.FirstSeenSnoc | auth_analyzer.py:36 | counting one more key appends it to the key order exactly when it was not yet counted |
| Counting.TotalOfTally | auth_analyzer.py:36 | the counts of a tally sum to the number of keys counted |
| Counting.SortByCountStable | auth_analyzer.py:59 | the ranking behind `most_common` is ordered by count, highest first, and stable: entries of equal count keep their input order |
| Counting.MostCommon | auth_analyzer.py:59 | `most_common(n)` returns min(n, number of entries) entries, highest count first, drawn from the input; no entry left out counts more than an entry kept; among entries of equal count the ones kept are the earliest, in order |
| Counting.ItemsOfTally | auth_analyzer.py:66 | `items()` of a tally lists exactly the counted keys with their counts, and is empty exactly when the tally is |
| Counting.MostCommonOfTallyShape | auth_analyzer.py:59-62 | on a tally, `most_common(n)` has at most `n` entries, is ordered by count, and (for `n > 0`) is empty exactly when the tally is |
| Counting.MostCommonOfTallyCounted | auth_analyzer.py:59-60 | every entry `most_common` yields is a counted key with its count |
| Counting.MostCommonOfTallyOutranks | auth_analyzer.py:59-60 | a counted key that `most_common` leaves out counts no more than any key it yields |
| Text.Split | auth_analyzer.py:29 | `split()` yields non-empty fields free of whitespace, and no field exactly when the string is all whitespace |
| Text.SplitAllSpace | auth_analyzer.py:29 | `split()` of whitespace alone has no fields |
| Text.SplitOfJoined | auth_analyzer.py:29 | the fields of `split()` are the whitespace-separated words in order: after leading whitespace, the word up to the next whitespace comes first, then the fields of the remainder |
| Text.SplitOnceOfJoined | verify.py:29 | `split(None, 1)` of a field, whitespace and a rest starting with a non-space gives exactly that field and that rest, trailing text included |
| Text.SplitOnceFields | verify.py:29 | `split(None, 1)` agrees with `split()`: the same first field, two fields exactly when `split()` has at least two, and the second splits into the remaining fields |
| Text.LStripRemovesOnlySpace | verify.py:29 | `LStrip` (`str.lstrip()`) is the input with a whitespace prefix removed, and nothing else |
| Text.StripRemovesOnlySpace | auth_analyzer.py:55 | `Strip` (`str.strip()`) is the input with a whitespace prefix and a whitespace suffix removed, and nothing else; the ends of the result are not whitespace (its own contract) |
| Text.StripIdempotent | verify.py:25 | stripping twice is stripping once |
| Text.ContainsIffOccurs | auth_analyzer.py:28 | `Contains`, the substring test `in`, holds exactly when the pattern starts at some position |
| Text.IndexOf | auth_analyzer.py:33 | `list.index` returns the position of the first occurrence |
| AuthAnalyzer.TokenAfterFirst | auth_analyzer.py:32-35 | `TokenAfter`, the token after `from` (or `for`, lines 47-50), is taken exactly when a whole-token occurrence has a token after it, and it is the one after the first occurrence |
| AuthAnalyzer.InvalidUserAtFirstInvalid | auth_analyzer.py:39-42 | `InvalidUser` reads a user from `invalid user <name>` exactly when that pattern starts at the first `invalid` token |
| AuthAnalyzer.ReadLine | auth_analyzer.py:26-55 | one pass of the loop body updates both counters in place and returns the success list extended by the line's kept login, each by exactly the line's effect `ClassifyLine(line)`, whose parts `LineAddress`, `InvalidUserLine`, `ForUserLine` and `LineSuccess` characterize |
| AuthAnalyzer.ReadStep | auth_analyzer.py:26-55 | reading line `n` moves each tally, its key order and the success list on by that line's effect |
| AuthAnalyzer.ReadLog | auth_analyzer.py:21-55 | after the loop, both counters hold the tallies of the addresses and users read off the lines, in first-seen order, and `successes` holds the kept lines in order |
| AuthAnalyzer.FlagSuspicious | auth_analyzer.py:65-71 | the suspicious loop prints exactly the entries reaching the threshold, in order, and `flagged` is set exactly when it printed one |
| AuthAnalyzer.AnalyzeAuth | auth_analyzer.py:20-84 | the whole run produces exactly `ReportOf(lines, threshold)`, the four-section report of the lines read, whose sections `TopAddresses`, `SuspiciousExact`, `TopUsers` and `RecentLogins` characterize |
| AuthAnalyzer.NonFailureLineLeavesTallies | auth_analyzer.py:28 | a line without both `Failed password` and `from` changes neither tally nor their order |
| AuthAnalyzer.LineAddress | auth_analyzer.py:28-36 | a line yields an address exactly when it is a failure line with a whole-token `from` followed by a token; the address is the token after the first `from` |
| AuthAnalyzer.InvalidUserLine | auth_analyzer.py:39-44 | on `invalid user <name>` at the first `invalid`, the name is counted and the line is never kept as a success (the `continue`) |
| AuthAnalyzer.ForUserLine | auth_analyzer.py:46-51 | otherwise the user is the token after the first whole-token `for`, when there is one, and the success check still runs |
| AuthAnalyzer.LineSuccess | auth_analyzer.py:53-55 | the stripped line is kept exactly when it is an accepted login and not a failed `invalid user` attempt |
| AuthAnalyzer.TallyStep | auth_analyzer.py:36 | counting a key raises that key's count by one and no other count |
| AuthAnalyzer.FailedByIpStep | auth_analyzer.py:31-36 | per line, the address read off it gains exactly one failure, every other address is unchanged, and the key order only grows |
| AuthAnalyzer.FailedByUserStep | auth_analyzer.py:38-51 | per line, the user read off it gains exactly one failure, every other user is unchanged, and the user counts together rise by at most one |
| AuthAnalyzer.SuccessStep | auth_analyzer.py:54-55 | per line, the success list only grows at its end, by at most the stripped line |
| AuthAnalyzer.KeysBounded | auth_analyzer.py:26-55 | at most one address and one user are counted per failure line, and at most one success is kept per line |
| AuthAnalyzer.TalliesBounded | auth_analyzer.py:26-55 | the failures counted by address, and those counted by user, sum to at most the number of failure lines; there are at most as many successes as lines |
| Counting.TallySize | auth_analyzer.py:59 | a tally has as many keys as its key order has entries |
| Counting.MostCommonOfTallySize | auth_analyzer.py:59 | `most_common(n)` of a tally shows min(n, number of counted keys) entries |
| AuthAnalyzer.TopAddresses | auth_analyzer.py:58-62 | the top-address section shows exactly min(10, number of addresses) entries, highest first, each a counted address with its count; no address left out counts more than one shown; `none` is printed exactly when nothing was counted |
| AuthAnalyzer.TopUsers | auth_analyzer.py:73-77 | the same guarantees for the top-user section |
| AuthAnalyzer.AtLeastMembers | auth_analyzer.py:66-68 | the suspicious filter keeps exactly the entries whose count reaches the threshold |
| AuthAnalyzer.AtLeastInOrder | auth_analyzer.py:66-68 | the suspicious filter keeps entries in their input order |
| AuthAnalyzer.SuspiciousExact | auth_analyzer.py:64-71 | the suspicious section lists exactly the counted addresses whose count reaches the threshold, with that count; `none` is printed exactly when there is none |
| AuthAnalyzer.SuspiciousInFirstSeenOrder | auth_analyzer.py:66 | the suspicious section lists addresses in the order they were first counted |
| AuthAnalyzer.RecentLogins | auth_analyzer.py:79-84 | the recent section shows the last min(10, n) kept lines in the order read, and `none` exactly when no line was kept |
| Verify.BlankOrCommentSkipped | verify.py:25-27 | a blank line, or one whose stripped form starts with `#`, is skipped |
| Verify.FewerThanTwoFieldsSkipped | verify.py:29-31 | a line of fewer than two whitespace-separated fields is skipped |
| Verify.ParsedFields | verify.py:29-39 | for `ParseDigestLine`, the model of `parse_digest_line`: a parsed hash is the first field of the stripped line, non-empty and free of whitespace; a parsed name is non-empty with no whitespace at either end |
| Verify.ParseIgnoresSurroundingSpace | verify.py:25 | parsing a line gives the same result as parsing it stripped |
| Verify.ParseFormatRoundTrip | verify.py:17-39 | parsing undoes the `sha256sum` line format in text and binary mode, for every one-field hash not starting with `#` and every name without surrounding whitespace or a leading `*` |
| Verify.ParseJoined | verify.py:29-39 | a hash, whitespace and a rest (`split(None, 1)` by `SplitOnce`) parse into the hash and the rest with its `*` run (`LStripChar`) and whitespace removed, and into nothing when no name is left, as for `abc  *` |
| Verify.Classify | verify.py:75-84 | MISSING exactly when the archive does not exist; OK exactly when its digest equals the recorded hash; MODIFIED exactly when it exists with another digest |
| Verify.CheckLine | verify.py:67-84 | one line gives no message when it does not parse, else one message for the named archive; the archive is hashed only when it exists |
| Verify.CheckLines | verify.py:66-84 | the inner loop gives the messages of the lines in order (`LinesOutcome`, one `LineOutcome` per line), and hashes only archives that exist |
| Verify.VerifyArchive | verify.py:42-84 | the whole run gives exactly `VerifyReport`: the folder-missing message; or the no-digest-files message; or, file by file, a read error, an empty-file notice or the line messages. Only existing archives are hashed |
| Verify.HashedAppend | verify.py:79 | the archives hashed over two runs of messages are those of the first run, then those of the second |
| Verify.OneMessagePerParsedLine | verify.py:66-84 | a digest file gives exactly one message per usable line, in order, naming its archive with the three-way decision between the recorded and the actual digest |

## Left out

- Opening the log (`open_log_file`, plain or gzip, undecodable bytes ignored) is not modelled. The log is a sequence of lines.
- Line terminators are not modelled. Each line is taken without its newline. Only `strip()`, the substring tests and `split()` read a line, so a trailing newline changes none of the results.
- `sha256_file` is not modelled. The digest of each existing archive is an input map.
- The filesystem calls of `verify_archive` are parameters: `is_dir`, `glob`, `read_text().splitlines()` and `exists`. So are the sorting of the digest files (they are given in sorted order) and the details of an `OSError` (a file that could not be read has no lines).
- Path joining with `archive_folder` is not modelled. Archives are keyed by the name as written on the digest line.
- Printed text is not modelled. Each section is its list of entries plus whether `none` follows; each `verify_archive` message is an `Outcome` value. The `lineno` counter of `enumerate` is not modelled because it is never used.
- Argument parsing and the `main` functions of both files are not modelled.
- The default arguments `threshold=3` of `analyze_auth` and `pattern="*.gz.sha256"` of `verify_archive` are not modelled. Both values are always passed.
- Exceptions that escape `verify_archive` are not modelled; each one ends the run after partial output:
  - `sha256_file` raises for an archive that exists but cannot be opened, such as a directory (`IsADirectoryError`) or a file without read permission (`PermissionError`). The model gives every existing name a digest.
  - `read_text()` raises `UnicodeDecodeError`, a `ValueError`, on undecodable bytes, and only `OSError` is caught. The model gives every digest file either its lines or a read error.
  - So `Verify.VerifyArchive` describes a run in which neither happens.
- The success list of `analyze_auth` is a sequence that `AuthAnalyzer.ReadLine` returns extended, not a list appended to in place. It is never aliased, so nothing observable changes.
- The analyzer has no address plausibility filter and no event store. It classifies lines by substring and whole-token tests, not regular expressions. Its success list is unbounded, and only its last ten entries are printed.
