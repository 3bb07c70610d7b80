/**
 * `analyze_auth`: one pass over the lines of an SSH auth log, tallying failed
 * password attempts by source address and by user name and collecting the
 * accepted logins, then a four-section report: the ten addresses with most
 * failures, the addresses at or above the suspicion threshold, the ten most
 * targeted users, and the ten most recent accepted logins.
 */
module AuthAnalyzer {
  import opened Wrappers
  import opened Text
  import opened Counting

  /** Entries shown by each ranking, and number of recent accepted logins shown. */
  const ReportSize: nat := 10

  /** A failed attempt: the line contains both `Failed password` and `from`. */
  predicate IsFailureLine(line: string) {
    Contains(line, "Failed password") && Contains(line, "from")
  }

  /** An accepted login: the line contains `Accepted password` or `Accepted publickey`. */
  predicate IsSuccessLine(line: string) {
    Contains(line, "Accepted password") || Contains(line, "Accepted publickey")
  }

  /** The token just after the first occurrence of `w`, when `w` occurs and is not the last token. */
  function TokenAfter(parts: seq<string>, w: string): Option<string> {
    if w in parts then
      var i := IndexOf(parts, w);
      if i + 1 < |parts| then Some(parts[i + 1]) else None
    else None
  }

  /**
   * A token follows some occurrence of `w` exactly when one follows its
   * first occurrence, and the token returned is the one after the first.
   */
  lemma TokenAfterFirst(parts: seq<string>, w: string)
    ensures TokenAfter(parts, w).Some? <==> exists i :: 0 <= i < |parts| - 1 && parts[i] == w
    ensures TokenAfter(parts, w).Some? ==>
      exists i :: 0 <= i < |parts| - 1 && parts[i] == w && w !in parts[..i] && parts[i + 1] == TokenAfter(parts, w).value
  {
    if w in parts {
      var i := IndexOf(parts, w);
      forall k | 0 <= k < i ensures parts[k] != w {
        assert parts[..i][k] == parts[k];
      }
    }
  }

  /** The user named in `invalid user <name>`, when that pattern starts at the first `invalid` token. */
  function InvalidUser(parts: seq<string>): Option<string> {
    if "invalid" in parts && "user" in parts then
      var i := IndexOf(parts, "invalid");
      if i + 2 < |parts| && parts[i + 1] == "user" then Some(parts[i + 2]) else None
    else None
  }

  /** `invalid user` starts at `i`, the first `invalid` token, and a name follows. */
  predicate InvalidUserAt(parts: seq<string>, i: int) {
    0 <= i < |parts| - 2 && parts[i] == "invalid" && "invalid" !in parts[..i] && parts[i + 1] == "user"
  }

  /** `InvalidUser` finds a name exactly when `invalid user <name>` starts at the first `invalid` token. */
  lemma InvalidUserAtFirstInvalid(parts: seq<string>)
    ensures InvalidUser(parts).Some? <==> exists i :: InvalidUserAt(parts, i)
    ensures forall i :: InvalidUserAt(parts, i) ==> InvalidUser(parts) == Some(parts[i + 2])
  {
    forall i | InvalidUserAt(parts, i)
      ensures IndexOf(parts, "invalid") == i
    {
    }
    if InvalidUser(parts).Some? {
      assert InvalidUserAt(parts, IndexOf(parts, "invalid"));
    }
  }

  /** What one line contributes: an address and a user to count, and an accepted login to keep. */
  datatype LineEffect = LineEffect(ip: Option<string>, user: Option<string>, success: Option<string>)

  /** The effect of one line on the tallies and the success list, as the loop body computes it. */
  function ClassifyLine(line: string): LineEffect {
    if IsFailureLine(line) then
      var parts := Split(line);
      var invalid := InvalidUser(parts);
      LineEffect(TokenAfter(parts, "from"),
        if invalid.Some? then invalid else TokenAfter(parts, "for"),
        if invalid.Some? then None else SuccessOf(line))
    else
      LineEffect(None, None, SuccessOf(line))
  }

  /** The stripped line, kept when it is an accepted login. */
  function SuccessOf(line: string): Option<string> {
    if IsSuccessLine(line) then Some(Strip(line)) else None
  }

  /** The addresses counted into `failed_by_ip` while reading `lines`, in order. */
  function IpKeys(lines: seq<string>): seq<string> {
    if lines == [] then []
    else IpKeys(lines[..|lines| - 1]) + OptionToSeq(ClassifyLine(lines[|lines| - 1]).ip)
  }

  /** The user names counted into `failed_by_user` while reading `lines`, in order. */
  function UserKeys(lines: seq<string>): seq<string> {
    if lines == [] then []
    else UserKeys(lines[..|lines| - 1]) + OptionToSeq(ClassifyLine(lines[|lines| - 1]).user)
  }

  /** The `successes` list after reading `lines`. */
  function Successes(lines: seq<string>): seq<string> {
    if lines == [] then []
    else Successes(lines[..|lines| - 1]) + OptionToSeq(ClassifyLine(lines[|lines| - 1]).success)
  }

  /** `failed_by_ip` after reading `lines`. */
  function IpTally(lines: seq<string>): map<string, nat> {
    CountsOf(IpKeys(lines))
  }

  /** `failed_by_user` after reading `lines`. */
  function UserTally(lines: seq<string>): map<string, nat> {
    CountsOf(UserKeys(lines))
  }

  /** `failed_by_ip.items()` after reading `lines`, in first-seen order. */
  function IpItems(lines: seq<string>): seq<Entry> {
    Items(IpTally(lines), FirstSeen(IpKeys(lines)))
  }

  /** `failed_by_user.items()` after reading `lines`, in first-seen order. */
  function UserItems(lines: seq<string>): seq<Entry> {
    Items(UserTally(lines), FirstSeen(UserKeys(lines)))
  }

  /** The number of failure lines. */
  function FailureCount(lines: seq<string>): nat {
    if lines == [] then 0
    else FailureCount(lines[..|lines| - 1]) + (if IsFailureLine(lines[|lines| - 1]) then 1 else 0)
  }

  lemma ReadOneMore(lines: seq<string>, line: string)
    ensures IpKeys(lines + [line]) == IpKeys(lines) + OptionToSeq(ClassifyLine(line).ip)
    ensures UserKeys(lines + [line]) == UserKeys(lines) + OptionToSeq(ClassifyLine(line).user)
    ensures Successes(lines + [line]) == Successes(lines) + OptionToSeq(ClassifyLine(line).success)
    ensures FailureCount(lines + [line]) == FailureCount(lines) + if IsFailureLine(line) then 1 else 0
  {
    assert (lines + [line])[..|lines|] == lines;
  }

  // ---------------------------------------------------------------------
  // The report

  /** One report section: the entries printed, and whether `none` is printed after them. */
  datatype Section<T> = Section(entries: seq<T>, noneShown: bool)

  datatype AuthReport = AuthReport(
    topIps: Section<Entry>,
    suspicious: Section<Entry>,
    topUsers: Section<Entry>,
    recent: Section<string>)

  /** The entries of `items` whose count is at least `threshold`, in order. */
  function AtLeast(items: seq<Entry>, threshold: int): seq<Entry> {
    if items == [] then []
    else
      var e := items[|items| - 1];
      AtLeast(items[..|items| - 1], threshold) + if e.1 >= threshold then [e] else []
  }

  /** `s[-n:]`. */
  function Last<T>(s: seq<T>, n: nat): seq<T> {
    s[|s| - Min(n, |s|)..]
  }

  /** The top-address section: `most_common(10)` of `failed_by_ip`, then `none` if nothing was counted. */
  function TopIpsSection(lines: seq<string>): Section<Entry> {
    Section(MostCommon(IpItems(lines), ReportSize), IpTally(lines) == map[])
  }

  /** The suspicious section: the addresses at or above `threshold`, then `none` if there were none. */
  function SuspiciousSection(lines: seq<string>, threshold: int): Section<Entry> {
    var suspicious := AtLeast(IpItems(lines), threshold);
    Section(suspicious, suspicious == [])
  }

  /** The top-user section: `most_common(10)` of `failed_by_user`, then `none` if nothing was counted. */
  function TopUsersSection(lines: seq<string>): Section<Entry> {
    Section(MostCommon(UserItems(lines), ReportSize), UserTally(lines) == map[])
  }

  /** The recent-logins section: `successes[-10:]`, or `none` alone when the list is empty. */
  function RecentSection(lines: seq<string>): Section<string> {
    var successes := Successes(lines);
    if successes != [] then Section(Last(successes, ReportSize), false) else Section([], true)
  }

  /** The report `analyze_auth` prints after reading `lines`. */
  function ReportOf(lines: seq<string>, threshold: int): AuthReport {
    AuthReport(TopIpsSection(lines), SuspiciousSection(lines, threshold), TopUsersSection(lines), RecentSection(lines))
  }

  /** `counts` after counting `key`, if there is one. */
  function CountKey(counts: map<string, nat>, key: Option<string>): map<string, nat> {
    if key.Some? then Bump(counts, key.value) else counts
  }

  /** The insertion order after counting `key`, if there is one. */
  function EnlistKey(order: seq<string>, counts: map<string, nat>, key: Option<string>): seq<string> {
    if key.Some? then Enlist(order, counts, key.value) else order
  }

  /**
   * The body of the reading loop for one line: count the address after the
   * first `from`; count the user after `invalid user` and skip the rest of
   * the body (the `continue`), or else count the user after the first `for`;
   * then keep the stripped line if it is an accepted login.
   */
  method ReadLine(line: string, failedByIp: Counter, failedByUser: Counter, successes: seq<string>)
    returns (successes': seq<string>)
    requires failedByIp != failedByUser
    requires failedByIp.Valid() && failedByUser.Valid()
    modifies failedByIp, failedByUser
    ensures failedByIp.Valid() && failedByUser.Valid()
    ensures failedByIp.counts == CountKey(old(failedByIp.counts), ClassifyLine(line).ip)
    ensures failedByIp.order == EnlistKey(old(failedByIp.order), old(failedByIp.counts), ClassifyLine(line).ip)
    ensures failedByUser.counts == CountKey(old(failedByUser.counts), ClassifyLine(line).user)
    ensures failedByUser.order == EnlistKey(old(failedByUser.order), old(failedByUser.counts), ClassifyLine(line).user)
    ensures successes' == successes + OptionToSeq(ClassifyLine(line).success)
  {
    ghost var effect := ClassifyLine(line);
    successes' := successes;
    if IsFailureLine(line) {
      var parts := Split(line);
      var ip := TokenAfter(parts, "from");
      assert effect.ip == ip;
      if ip.Some? {
        failedByIp.Increment(ip.value);
      }
      var invalid := InvalidUser(parts);
      if invalid.Some? {
        assert effect.user == invalid && effect.success == None;
        failedByUser.Increment(invalid.value);
        return;
      }
      var user := TokenAfter(parts, "for");
      assert effect.user == user;
      if user.Some? {
        failedByUser.Increment(user.value);
      }
    } else {
      assert effect.ip == None && effect.user == None;
    }
    assert effect.success == SuccessOf(line);
    if IsSuccessLine(line) {
      successes' := successes' + [Strip(line)];
    }
  }

  /** Reading line `n` moves each tally and the success list on by that line's effect. */
  lemma ReadStep(lines: seq<string>, n: nat)
    requires n < |lines|
    ensures IpTally(lines[..n + 1]) == CountKey(IpTally(lines[..n]), ClassifyLine(lines[n]).ip)
    ensures FirstSeen(IpKeys(lines[..n + 1])) == EnlistKey(FirstSeen(IpKeys(lines[..n])), IpTally(lines[..n]), ClassifyLine(lines[n]).ip)
    ensures UserTally(lines[..n + 1]) == CountKey(UserTally(lines[..n]), ClassifyLine(lines[n]).user)
    ensures FirstSeen(UserKeys(lines[..n + 1])) == EnlistKey(FirstSeen(UserKeys(lines[..n])), UserTally(lines[..n]), ClassifyLine(lines[n]).user)
    ensures Successes(lines[..n + 1]) == Successes(lines[..n]) + OptionToSeq(ClassifyLine(lines[n]).success)
  {
    assert lines[..n + 1] == lines[..n] + [lines[n]];
    ReadOneMore(lines[..n], lines[n]);
    CountedStep(IpKeys(lines[..n]), ClassifyLine(lines[n]).ip);
    CountedStep(UserKeys(lines[..n]), ClassifyLine(lines[n]).user);
  }

  /** Counting the key a line contributes, if any, extends the tally of the keys read so far. */
  lemma CountedStep(keys: seq<string>, key: Option<string>)
    ensures CountsOf(keys + OptionToSeq(key)) == CountKey(CountsOf(keys), key)
    ensures FirstSeen(keys + OptionToSeq(key)) == EnlistKey(FirstSeen(keys), CountsOf(keys), key)
  {
    if key.Some? {
      CountsOfSnoc(keys, key.value);
      FirstSeenSnoc(keys, key.value);
    } else {
      assert keys + [] == keys;
    }
  }

  /**
   * The reading loop of `analyze_auth`: from two empty counters, each line
   * goes through `ReadLine`.
   */
  method ReadLog(lines: seq<string>, failedByIp: Counter, failedByUser: Counter) returns (successes: seq<string>)
    requires failedByIp != failedByUser
    requires failedByIp.counts == map[] && failedByIp.order == []
    requires failedByUser.counts == map[] && failedByUser.order == []
    modifies failedByIp, failedByUser
    ensures failedByIp.counts == IpTally(lines) && failedByIp.order == FirstSeen(IpKeys(lines))
    ensures failedByUser.counts == UserTally(lines) && failedByUser.order == FirstSeen(UserKeys(lines))
    ensures successes == Successes(lines)
    ensures failedByIp.Valid() && failedByUser.Valid()
  {
    successes := [];
    CountsOfCounts([]);
    assert lines[..0] == [];
    for n := 0 to |lines|
      invariant failedByIp.counts == IpTally(lines[..n]) && failedByIp.order == FirstSeen(IpKeys(lines[..n]))
      invariant failedByUser.counts == UserTally(lines[..n]) && failedByUser.order == FirstSeen(UserKeys(lines[..n]))
      invariant successes == Successes(lines[..n])
      invariant failedByIp.Valid() && failedByUser.Valid()
    {
      ReadStep(lines, n);
      successes := ReadLine(lines[n], failedByIp, failedByUser, successes);
    }
    assert lines[..|lines|] == lines;
  }

  /**
   * The suspicious-address loop: keeps, in order, each entry whose count
   * reaches `threshold`, and notes whether any did.
   */
  method FlagSuspicious(ipItems: seq<Entry>, threshold: int) returns (suspicious: seq<Entry>, flagged: bool)
    ensures suspicious == AtLeast(ipItems, threshold)
    ensures flagged <==> suspicious != []
  {
    flagged := false;
    suspicious := [];
    for j := 0 to |ipItems|
      invariant suspicious == AtLeast(ipItems[..j], threshold)
      invariant flagged <==> suspicious != []
    {
      assert ipItems[..j + 1] == ipItems[..j] + [ipItems[j]];
      var (ip, count) := ipItems[j];
      if count >= threshold {
        suspicious := suspicious + [(ip, count)];
        flagged := true;
      }
    }
    assert ipItems[..|ipItems|] == ipItems;
  }

  /**
   * `analyze_auth(lines, threshold)`: reads every line, updating the two
   * counters in place and appending accepted logins, then builds the report.
   */
  method AnalyzeAuth(lines: seq<string>, threshold: int) returns (report: AuthReport)
    ensures report == ReportOf(lines, threshold)
  {
    var failedByIp := new Counter();
    var failedByUser := new Counter();
    var successes := ReadLog(lines, failedByIp, failedByUser);
    var ipItems := failedByIp.Entries();
    var topIps := Section(MostCommon(ipItems, ReportSize), failedByIp.counts == map[]);
    var suspicious, flagged := FlagSuspicious(ipItems, threshold);
    var topUsers := Section(MostCommon(failedByUser.Entries(), ReportSize), failedByUser.counts == map[]);
    var recent := if successes != [] then Section(Last(successes, ReportSize), false) else Section([], true);
    report := AuthReport(topIps, Section(suspicious, !flagged), topUsers, recent);
  }

  // ---------------------------------------------------------------------
  // What one line does

  /** The address `ClassifyLine` reads off a line. */
  lemma ClassifyIp(line: string)
    ensures ClassifyLine(line).ip == if IsFailureLine(line) then TokenAfter(Split(line), "from") else None
  {
  }

  /** The user `ClassifyLine` reads off a line. */
  lemma ClassifyUser(line: string)
    ensures ClassifyLine(line).user ==
      if !IsFailureLine(line) then None
      else if InvalidUser(Split(line)).Some? then InvalidUser(Split(line))
      else TokenAfter(Split(line), "for")
  {
  }

  /** The accepted login `ClassifyLine` keeps from a line. */
  lemma ClassifySuccess(line: string)
    ensures ClassifyLine(line).success ==
      if IsFailureLine(line) && InvalidUser(Split(line)).Some? then None else SuccessOf(line)
  {
  }

  /** A line that is not a failed attempt leaves both tallies, and their order, as they were. */
  lemma NonFailureLineLeavesTallies(read: seq<string>, line: string)
    requires !IsFailureLine(line)
    ensures IpTally(read + [line]) == IpTally(read) && FirstSeen(IpKeys(read + [line])) == FirstSeen(IpKeys(read))
    ensures UserTally(read + [line]) == UserTally(read) && FirstSeen(UserKeys(read + [line])) == FirstSeen(UserKeys(read))
  {
    ReadOneMore(read, line);
    assert IpKeys(read) + [] == IpKeys(read);
    assert UserKeys(read) + [] == UserKeys(read);
  }

  /**
   * A failed attempt yields an address exactly when `from` is a whole token
   * with a token after it, and the address is the token after the first `from`.
   */
  lemma LineAddress(line: string)
    ensures ClassifyLine(line).ip.Some? <==>
      IsFailureLine(line) && exists i :: 0 <= i < |Split(line)| - 1 && Split(line)[i] == "from"
    ensures ClassifyLine(line).ip.Some? ==>
      exists i :: 0 <= i < |Split(line)| - 1 && Split(line)[i] == "from" && "from" !in Split(line)[..i] &&
        Split(line)[i + 1] == ClassifyLine(line).ip.value
  {
    ClassifyIp(line);
    TokenAfterFirst(Split(line), "from");
  }

  /** `invalid user <name>`: the name is counted and the line is not looked at further. */
  lemma InvalidUserLine(line: string, i: int)
    requires IsFailureLine(line) && InvalidUserAt(Split(line), i)
    ensures ClassifyLine(line).user == Some(Split(line)[i + 2])
    ensures ClassifyLine(line).success == None
  {
    var parts := Split(line);
    ClassifyUser(line);
    ClassifySuccess(line);
    assert "invalid" in parts && "user" in parts;
    assert IndexOf(parts, "invalid") == i;
  }

  /**
   * Without `invalid user` at the first `invalid`, a failed attempt counts
   * the token after the first `for`, when there is one, and the line may
   * still be kept as an accepted login.
   */
  lemma ForUserLine(line: string)
    requires IsFailureLine(line) && forall i :: !InvalidUserAt(Split(line), i)
    ensures ClassifyLine(line).user.Some? <==> exists j :: 0 <= j < |Split(line)| - 1 && Split(line)[j] == "for"
    ensures ClassifyLine(line).user.Some? ==>
      exists j :: 0 <= j < |Split(line)| - 1 && Split(line)[j] == "for" && "for" !in Split(line)[..j] &&
        Split(line)[j + 1] == ClassifyLine(line).user.value
    ensures ClassifyLine(line).success == SuccessOf(line)
  {
    var parts := Split(line);
    ClassifyUser(line);
    ClassifySuccess(line);
    InvalidUserAtFirstInvalid(parts);
    TokenAfterFirst(parts, "for");
  }

  /** An accepted login is kept unless the line was a failed `invalid user` attempt. */
  lemma LineSuccess(line: string)
    ensures ClassifyLine(line).success.Some? <==>
      IsSuccessLine(line) && !(IsFailureLine(line) && exists i :: InvalidUserAt(Split(line), i))
    ensures ClassifyLine(line).success.Some? ==> ClassifyLine(line).success.value == Strip(line)
  {
    ClassifySuccess(line);
    if IsFailureLine(line) {
      InvalidUserAtFirstInvalid(Split(line));
    }
  }

  /** Counting one key raises that key's count by one and leaves every other count alone. */
  lemma {:induction false} TallyStep(keys: seq<string>, key: Option<string>)
    ensures forall x :: Get(CountsOf(keys + OptionToSeq(key)), x) == Get(CountsOf(keys), x) + if key == Some(x) then 1 else 0
    ensures FirstSeen(keys) <= FirstSeen(keys + OptionToSeq(key))
  {
    CountedStep(keys, key);
  }

  /** Per line, the address read off it (if any) gains exactly one failure; no other address changes. */
  lemma FailedByIpStep(read: seq<string>, line: string)
    ensures forall x :: Get(IpTally(read + [line]), x) == Get(IpTally(read), x) + if ClassifyLine(line).ip == Some(x) then 1 else 0
    ensures FirstSeen(IpKeys(read)) <= FirstSeen(IpKeys(read + [line]))
  {
    ReadOneMore(read, line);
    TallyStep(IpKeys(read), ClassifyLine(line).ip);
  }

  /**
   * Per line, the user read off it (if any) gains exactly one failure; no
   * other user changes, so the user counts together rise by at most one.
   */
  lemma FailedByUserStep(read: seq<string>, line: string)
    ensures forall x :: Get(UserTally(read + [line]), x) == Get(UserTally(read), x) + if ClassifyLine(line).user == Some(x) then 1 else 0
    ensures FirstSeen(UserKeys(read)) <= FirstSeen(UserKeys(read + [line]))
    ensures Total(UserItems(read + [line])) <= Total(UserItems(read)) + 1
  {
    ReadOneMore(read, line);
    TallyStep(UserKeys(read), ClassifyLine(line).user);
    TotalOfTally(UserKeys(read));
    TotalOfTally(UserKeys(read + [line]));
  }

  /** Per line, the success list only grows at its end, by at most the stripped line. */
  lemma SuccessStep(read: seq<string>, line: string)
    ensures Successes(read) <= Successes(read + [line])
    ensures |Successes(read + [line])| <= |Successes(read)| + 1
    ensures |Successes(read + [line])| == |Successes(read)| + 1 ==> Successes(read + [line])[|Successes(read)|] == Strip(line)
  {
    ReadOneMore(read, line);
    LineSuccess(line);
  }

  // ---------------------------------------------------------------------
  // Bounds

  lemma {:induction false} KeysBounded(lines: seq<string>)
    ensures |IpKeys(lines)| <= FailureCount(lines) && |UserKeys(lines)| <= FailureCount(lines)
    ensures |Successes(lines)| <= |lines|
  {
    if lines != [] {
      var init := lines[..|lines| - 1];
      assert lines == init + [lines[|lines| - 1]];
      ReadOneMore(init, lines[|lines| - 1]);
      KeysBounded(init);
    }
  }

  /**
   * The failures counted by address, and those counted by user, number at
   * most the failure lines read; at most one accepted login is kept per line.
   */
  lemma TalliesBounded(lines: seq<string>)
    ensures Total(IpItems(lines)) <= FailureCount(lines)
    ensures Total(UserItems(lines)) <= FailureCount(lines)
    ensures |Successes(lines)| <= |lines|
  {
    KeysBounded(lines);
    TotalOfTally(IpKeys(lines));
    TotalOfTally(UserKeys(lines));
  }

  // ---------------------------------------------------------------------
  // The report

  /**
   * The top-address section: at most ten entries, highest count first, each
   * a counted address with its count; an address left out counts no more
   * than any shown; `none` is printed exactly when no entry is.
   */
  lemma TopAddresses(lines: seq<string>)
    ensures var top := TopIpsSection(lines);
      |top.entries| == Min(ReportSize, |IpTally(lines)|) && NonIncreasing(top.entries) &&
      (top.noneShown <==> top.entries == []) && (top.entries == [] <==> IpTally(lines) == map[])
    ensures var top := TopIpsSection(lines);
      forall e :: e in top.entries ==> e.0 in IpTally(lines) && e.1 == IpTally(lines)[e.0]
    ensures var top := TopIpsSection(lines);
      forall ip, j :: ip in IpTally(lines) && (ip, IpTally(lines)[ip]) !in top.entries && 0 <= j < |top.entries| ==>
        IpTally(lines)[ip] <= top.entries[j].1
  {
    MostCommonOfTallyShape(IpKeys(lines), ReportSize);
    MostCommonOfTallySize(IpKeys(lines), ReportSize);
    MostCommonOfTallyCounted(IpKeys(lines), ReportSize);
    MostCommonOfTallyOutranks(IpKeys(lines), ReportSize);
  }

  /** The top-user section, with the same guarantees as the top-address section. */
  lemma TopUsers(lines: seq<string>)
    ensures var top := TopUsersSection(lines);
      |top.entries| == Min(ReportSize, |UserTally(lines)|) && NonIncreasing(top.entries) &&
      (top.noneShown <==> top.entries == []) && (top.entries == [] <==> UserTally(lines) == map[])
    ensures var top := TopUsersSection(lines);
      forall e :: e in top.entries ==> e.0 in UserTally(lines) && e.1 == UserTally(lines)[e.0]
    ensures var top := TopUsersSection(lines);
      forall u, j :: u in UserTally(lines) && (u, UserTally(lines)[u]) !in top.entries && 0 <= j < |top.entries| ==>
        UserTally(lines)[u] <= top.entries[j].1
  {
    MostCommonOfTallyShape(UserKeys(lines), ReportSize);
    MostCommonOfTallySize(UserKeys(lines), ReportSize);
    MostCommonOfTallyCounted(UserKeys(lines), ReportSize);
    MostCommonOfTallyOutranks(UserKeys(lines), ReportSize);
  }

  /** `AtLeast` keeps exactly the entries reaching the threshold. */
  lemma {:induction false} AtLeastMembers(items: seq<Entry>, threshold: int)
    ensures forall e :: e in AtLeast(items, threshold) <==> e in items && e.1 >= threshold
  {
    if items != [] {
      var init := items[..|items| - 1];
      assert items == init + [items[|items| - 1]];
      AtLeastMembers(init, threshold);
    }
  }

  /** `a` occurs in `s` before some occurrence of `b`. */
  ghost predicate OccursBefore(s: seq<Entry>, a: Entry, b: Entry) {
    exists p, q :: 0 <= p < q < |s| && s[p] == a && s[q] == b
  }

  /** Any two entries of `sub` occur in `s` in the same order. */
  ghost predicate InOrderIn(sub: seq<Entry>, s: seq<Entry>) {
    forall i, j :: 0 <= i < j < |sub| ==> OccursBefore(s, sub[i], sub[j])
  }

  /** `AtLeast` keeps the entries in their order in `items`. */
  lemma {:induction false} AtLeastInOrder(items: seq<Entry>, threshold: int)
    ensures InOrderIn(AtLeast(items, threshold), items)
  {
    if items != [] {
      var init := items[..|items| - 1];
      var last := items[|items| - 1];
      assert items == init + [last];
      AtLeastInOrder(init, threshold);
      AtLeastMembers(init, threshold);
      var r := AtLeast(items, threshold);
      var r0 := AtLeast(init, threshold);
      assert r == r0 + if last.1 >= threshold then [last] else [];
      forall i, j | 0 <= i < j < |r|
        ensures OccursBefore(items, r[i], r[j])
      {
        if j < |r0| {
          var p, q :| 0 <= p < q < |init| && init[p] == r0[i] && init[q] == r0[j];
          assert items[p] == r[i] && items[q] == r[j];
        } else {
          assert r[i] == r0[i] && r[j] == last;
          assert r0[i] in init;
          var p :| 0 <= p < |init| && init[p] == r0[i];
          assert items[p] == r[i] && items[|items| - 1] == r[j];
        }
      }
    }
  }

  /**
   * The suspicious section lists exactly the addresses whose failure count
   * reaches the threshold, with that count; `none` is printed exactly when
   * there is no such address.
   */
  lemma SuspiciousExact(lines: seq<string>, threshold: int)
    ensures var sus := SuspiciousSection(lines, threshold);
      forall ip, c :: (ip, c) in sus.entries <==> ip in IpTally(lines) && c == IpTally(lines)[ip] && c >= threshold
    ensures var sus := SuspiciousSection(lines, threshold);
      sus.noneShown <==> forall ip :: ip in IpTally(lines) ==> IpTally(lines)[ip] < threshold
  {
    var tally := IpTally(lines);
    var items := IpItems(lines);
    var sus := AtLeast(items, threshold);
    ItemsOfTally(IpKeys(lines));
    AtLeastMembers(items, threshold);
    forall ip, c
      ensures (ip, c) in sus <==> ip in tally && c == tally[ip] && c >= threshold
    {
      assert (ip, c) in items <==> ip in tally && c == tally[ip];
    }
    if sus != [] {
      var (ip, c) := sus[0];
      assert (ip, c) in sus;
      assert ip in tally && tally[ip] >= threshold;
    }
    if !(forall ip :: ip in tally ==> tally[ip] < threshold) {
      var ip :| ip in tally && tally[ip] >= threshold;
      assert (ip, tally[ip]) in sus;
    }
  }

  /** The suspicious section lists its addresses in first-seen order. */
  lemma SuspiciousInFirstSeenOrder(lines: seq<string>, threshold: int)
    ensures InOrderIn(SuspiciousSection(lines, threshold).entries, IpItems(lines))
  {
    AtLeastInOrder(IpItems(lines), threshold);
  }

  /**
   * The recent-logins section: the last ten kept lines (all of them when
   * fewer), in the order read; `none` exactly when no line was kept.
   */
  lemma RecentLogins(lines: seq<string>)
    ensures var recent := RecentSection(lines);
      |recent.entries| == Min(ReportSize, |Successes(lines)|) &&
      recent.entries == Successes(lines)[|Successes(lines)| - |recent.entries|..] &&
      (recent.noneShown <==> Successes(lines) == [])
  {
  }
}
