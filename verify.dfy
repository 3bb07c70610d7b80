/**
 * `verify.py`: checks log archives against their recorded SHA-256 digests.
 * Each digest file holds lines in the `sha256sum` format
 * `<hash>  <name>` or `<hash> *<name>`; for each usable line the archive
 * named on it is reported MISSING, OK or MODIFIED.
 *
 * The filesystem is a parameter: whether the archive folder exists, the
 * digest files the glob found (in sorted order, each with its lines, or
 * no lines when it could not be read), and a map from each archive name
 * that exists to the hex SHA-256 digest of its contents.
 */
module Verify {
  import opened Wrappers
  import opened Text

  // ---------------------------------------------------------------------
  // parse_digest_line

  /** The first character of a comment line. */
  const CommentMark: char := '#'

  /** The `sha256sum` marker of binary mode in front of the file name. */
  const BinaryMark: char := '*'

  /** A usable digest line: the recorded hash and the archive name. */
  type Digest = (string, string)

  /**
   * `parse_digest_line(line)`: strip the line; skip it when blank or a
   * comment; split it once at whitespace; skip it unless there are two
   * fields; take the second with its leading `*` run removed and stripped
   * as the name, and skip the line when nothing remains.
   */
  function ParseDigestLine(line: string): Option<Digest> {
    var s := Strip(line);
    if s == [] || s[0] == CommentMark then None
    else
      var parts := SplitOnce(s);
      if |parts| != 2 then None
      else
        var name := Strip(LStripChar(parts[1], BinaryMark));
        if name == [] then None else Some((parts[0], name))
  }

  /** A blank line, or one whose first non-blank character is `#`, is skipped. */
  lemma BlankOrCommentSkipped(line: string)
    requires Strip(line) == [] || Strip(line)[0] == CommentMark
    ensures ParseDigestLine(line) == None
  {
  }

  /** A line of fewer than two whitespace-separated fields is skipped. */
  lemma FewerThanTwoFieldsSkipped(line: string)
    requires |Split(Strip(line))| < 2
    ensures ParseDigestLine(line) == None
  {
    SplitOnceFields(Strip(line));
  }

  /**
   * A parsed hash is the first whitespace-separated field of the stripped
   * line: non-empty and free of whitespace. A parsed name is non-empty and
   * has no whitespace at either end.
   */
  lemma ParsedFields(line: string)
    requires ParseDigestLine(line).Some?
    ensures var (hash, name) := ParseDigestLine(line).value;
      hash == Split(Strip(line))[0] && hash != [] && NoSpace(hash) &&
      name != [] && !IsSpace(name[0]) && !IsSpace(name[|name| - 1])
  {
    var s := Strip(line);
    SplitOnceFields(s);
    assert Split(s)[0] in Split(s);
  }

  /** Surrounding whitespace does not matter: parsing a line is parsing the line stripped. */
  lemma ParseIgnoresSurroundingSpace(line: string)
    ensures ParseDigestLine(line) == ParseDigestLine(Strip(line))
  {
    StripIdempotent(line);
  }

  /** The line `sha256sum` writes for `hash` and `name`, in binary (`*`) or text mode. */
  function FormatDigestLine(hash: string, name: string, binary: bool): string {
    hash + Gap(binary) + Marked(name, binary)
  }

  /** The whitespace between the two fields: one space in binary mode, two in text mode. */
  function Gap(binary: bool): string {
    if binary then " " else "  "
  }

  /** The name, behind the binary-mode marker `*` when there is one. */
  function Marked(name: string, binary: bool): string {
    if binary then [BinaryMark] + name else name
  }

  /**
   * Parsing undoes formatting, in both modes, for every hash that is a
   * single field not starting with `#`, and every name with no whitespace
   * at either end that does not start with `*`.
   */
  lemma ParseFormatRoundTrip(hash: string, name: string, binary: bool)
    requires hash != [] && NoSpace(hash) && hash[0] != CommentMark
    requires name != [] && !IsSpace(name[0]) && !IsSpace(name[|name| - 1]) && name[0] != BinaryMark
    ensures ParseDigestLine(FormatDigestLine(hash, name, binary)) == Some((hash, name))
  {
    GapIsSpace(binary);
    MarkedEnds(name, binary);
    MarkerStripped(name, binary);
    ParseJoined(hash, Gap(binary), Marked(name, binary));
  }

  lemma GapIsSpace(binary: bool)
    ensures Gap(binary) != [] && AllSpace(Gap(binary))
  {
  }

  lemma MarkedEnds(name: string, binary: bool)
    requires name != [] && !IsSpace(name[0]) && !IsSpace(name[|name| - 1])
    ensures var m := Marked(name, binary); m != [] && !IsSpace(m[0]) && !IsSpace(m[|m| - 1])
  {
  }

  /** Removing the `*` run and the surrounding whitespace from a marked name gives the name back. */
  lemma MarkerStripped(name: string, binary: bool)
    requires name != [] && !IsSpace(name[0]) && !IsSpace(name[|name| - 1]) && name[0] != BinaryMark
    ensures Strip(LStripChar(Marked(name, binary), BinaryMark)) == name
  {
    if binary {
      assert Marked(name, binary)[1..] == name;
    }
    StripOfStripped(name);
  }

  /**
   * A hash, a whitespace gap and a rest with no surrounding whitespace parse
   * into the hash and the rest with its `*` run and whitespace removed, or
   * into nothing when that leaves no name.
   */
  lemma ParseJoined(hash: string, gap: string, rest: string)
    requires hash != [] && NoSpace(hash) && hash[0] != CommentMark
    requires gap != [] && AllSpace(gap)
    requires rest != [] && !IsSpace(rest[0]) && !IsSpace(rest[|rest| - 1])
    ensures var name := Strip(LStripChar(rest, BinaryMark));
      ParseDigestLine(hash + gap + rest) == if name == [] then None else Some((hash, name))
  {
    StripOfJoined(hash, gap, rest);
    SplitOnceOfJoined(hash, gap, rest);
    ParseOfFields(hash + gap + rest);
  }

  lemma StripOfJoined(a: string, b: string, c: string)
    requires a != [] && !IsSpace(a[0])
    requires c != [] && !IsSpace(c[|c| - 1])
    ensures Strip(a + b + c) == a + b + c
  {
    EndsOfJoined(a, b, c);
    StripOfStripped(a + b + c);
  }

  lemma EndsOfJoined(a: string, b: string, c: string)
    requires a != [] && c != []
    ensures (a + b + c)[0] == a[0] && (a + b + c)[|a + b + c| - 1] == c[|c| - 1]
  {
  }

  /** How a stripped, non-comment line of two fields parses. */
  lemma ParseOfFields(line: string)
    requires Strip(line) == line && line != [] && line[0] != CommentMark && |SplitOnce(line)| == 2
    ensures var name := Strip(LStripChar(SplitOnce(line)[1], BinaryMark));
      ParseDigestLine(line) == if name == [] then None else Some((SplitOnce(line)[0], name))
  {
  }

  // ---------------------------------------------------------------------
  // verify_archive

  datatype Status = Ok | Modified | Missing

  /**
   * The decision for one parsed line, given the digest of the named
   * archive's contents, or `None` when no such archive exists.
   */
  function Classify(recorded: string, actual: Option<string>): (status: Status)
    ensures status == Missing <==> actual.None?
    ensures status == Ok <==> actual == Some(recorded)
    ensures status == Modified <==> actual.Some? && actual.value != recorded
  {
    match actual
    case None => Missing
    case Some(digest) => if digest == recorded then Ok else Modified
  }

  /** A digest file the glob found, with its lines, or `None` when reading it failed. */
  datatype DigestFile = DigestFile(name: string, lines: Option<seq<string>>)

  /** One message of `verify_archive`. */
  datatype Outcome =
    | FolderNotFound
    | NoDigestFiles(pattern: string)
    | ReadError(file: string)
    | EmptyDigestFile(file: string)
    | Checked(archive: string, status: Status)

  /** The digest of the named archive's contents, or `None` when it does not exist. */
  function Lookup(archives: map<string, string>, name: string): Option<string> {
    if name in archives then Some(archives[name]) else None
  }

  /** The message for one digest line: none when the line is skipped. */
  function LineOutcome(line: string, archives: map<string, string>): seq<Outcome> {
    match ParseDigestLine(line)
    case None => []
    case Some((hash, name)) => [Checked(name, Classify(hash, Lookup(archives, name)))]
  }

  /** The messages for the lines of one digest file, in order. */
  function LinesOutcome(lines: seq<string>, archives: map<string, string>): seq<Outcome> {
    if lines == [] then []
    else LinesOutcome(lines[..|lines| - 1], archives) + LineOutcome(lines[|lines| - 1], archives)
  }

  /** The messages for one digest file. */
  function FileOutcome(file: DigestFile, archives: map<string, string>): seq<Outcome> {
    match file.lines
    case None => [ReadError(file.name)]
    case Some(lines) => if lines == [] then [EmptyDigestFile(file.name)] else LinesOutcome(lines, archives)
  }

  /** The messages for a run of digest files, in order. */
  function FilesOutcome(files: seq<DigestFile>, archives: map<string, string>): seq<Outcome> {
    if files == [] then []
    else FilesOutcome(files[..|files| - 1], archives) + FileOutcome(files[|files| - 1], archives)
  }

  /** Everything `verify_archive` reports. */
  function VerifyReport(folderExists: bool, pattern: string, files: seq<DigestFile>, archives: map<string, string>): seq<Outcome> {
    if !folderExists then [FolderNotFound]
    else if files == [] then [NoDigestFiles(pattern)]
    else FilesOutcome(files, archives)
  }

  /** The archives a run of messages shows were hashed: those reported OK or MODIFIED. */
  function Hashed(outcomes: seq<Outcome>): seq<string> {
    if outcomes == [] then []
    else
      var o := outcomes[|outcomes| - 1];
      Hashed(outcomes[..|outcomes| - 1]) + if o.Checked? && o.status != Missing then [o.archive] else []
  }

  lemma HashedAppend(a: seq<Outcome>, b: seq<Outcome>)
    ensures Hashed(a + b) == Hashed(a) + Hashed(b)
    decreases |b|
  {
    if b == [] {
      assert a + b == a;
    } else {
      assert (a + b)[..|a + b| - 1] == a + b[..|b| - 1];
      HashedAppend(a, b[..|b| - 1]);
    }
  }

  lemma LinesOutcomeStep(lines: seq<string>, n: nat, archives: map<string, string>)
    requires n < |lines|
    ensures LinesOutcome(lines[..n + 1], archives) == LinesOutcome(lines[..n], archives) + LineOutcome(lines[n], archives)
  {
    assert lines[..n + 1][..n] == lines[..n];
  }

  /**
   * The body of the inner loop for one line: a skipped line says nothing; a
   * missing archive is reported without being hashed; otherwise the
   * archive is hashed and reported OK or MODIFIED.
   */
  method CheckLine(line: string, archives: map<string, string>) returns (out: seq<Outcome>, hashed: seq<string>)
    ensures out == LineOutcome(line, archives)
    ensures hashed == Hashed(out)
    ensures forall name :: name in hashed ==> name in archives
  {
    var parsed := ParseDigestLine(line);
    if parsed.None? {
      return [], [];
    }
    var (recordedHash, gzName) := parsed.value;
    if gzName !in archives {
      return [Checked(gzName, Missing)], [];
    }
    var actualHash := archives[gzName];
    hashed := [gzName];
    if actualHash == recordedHash {
      out := [Checked(gzName, Ok)];
    } else {
      out := [Checked(gzName, Modified)];
    }
    HashedOne(out[0]);
  }

  lemma HashedOne(o: Outcome)
    ensures Hashed([o]) == if o.Checked? && o.status != Missing then [o.archive] else []
  {
    assert [o][..0] == [];
  }

  /** The inner loop over the lines of one digest file that was read and is not empty. */
  method CheckLines(lines: seq<string>, archives: map<string, string>) returns (out: seq<Outcome>, hashed: seq<string>)
    ensures out == LinesOutcome(lines, archives)
    ensures hashed == Hashed(out)
    ensures forall name :: name in hashed ==> name in archives
  {
    out := [];
    hashed := [];
    for lineno := 0 to |lines|
      invariant out == LinesOutcome(lines[..lineno], archives)
      invariant hashed == Hashed(out)
      invariant forall name :: name in hashed ==> name in archives
    {
      LinesOutcomeStep(lines, lineno, archives);
      var lineOut, lineHashed := CheckLine(lines[lineno], archives);
      HashedAppend(out, lineOut);
      out := out + lineOut;
      hashed := hashed + lineHashed;
    }
    assert lines[..|lines|] == lines;
  }

  /**
   * `verify_archive(folder, pattern)`: nothing but a message when the
   * folder is missing or the glob found no digest file; otherwise, file by
   * file, a read error, an empty-file notice, or the line messages.
   * `hashed` lists, in order, every archive whose contents were hashed.
   */
  method VerifyArchive(folderExists: bool, pattern: string, files: seq<DigestFile>, archives: map<string, string>)
    returns (out: seq<Outcome>, hashed: seq<string>)
    ensures out == VerifyReport(folderExists, pattern, files, archives)
    ensures hashed == Hashed(out)
    ensures forall name :: name in hashed ==> name in archives
  {
    if !folderExists {
      return [FolderNotFound], [];
    }
    if files == [] {
      return [NoDigestFiles(pattern)], [];
    }
    out := [];
    hashed := [];
    for i := 0 to |files|
      invariant out == FilesOutcome(files[..i], archives)
      invariant hashed == Hashed(out)
      invariant forall name :: name in hashed ==> name in archives
    {
      var file := files[i];
      assert files[..i + 1][..i] == files[..i];
      var fileOut: seq<Outcome>;
      var fileHashed: seq<string> := [];
      if file.lines.None? {
        fileOut := [ReadError(file.name)];
      } else if file.lines.value == [] {
        fileOut := [EmptyDigestFile(file.name)];
      } else {
        fileOut, fileHashed := CheckLines(file.lines.value, archives);
      }
      HashedAppend(out, fileOut);
      out := out + fileOut;
      hashed := hashed + fileHashed;
    }
    assert files[..|files|] == files;
  }

  // ---------------------------------------------------------------------
  // Properties of the report

  /** The usable lines among `lines`, parsed, in order. */
  function ParsedLines(lines: seq<string>): seq<Digest> {
    if lines == [] then []
    else ParsedLines(lines[..|lines| - 1]) + OptionToSeq(ParseDigestLine(lines[|lines| - 1]))
  }

  /**
   * The lines of a digest file give exactly one message per usable line, in
   * order: the archive named on it, with the three-way decision between its
   * recorded hash and that archive's digest.
   */
  lemma {:induction false} OneMessagePerParsedLine(lines: seq<string>, archives: map<string, string>)
    ensures |LinesOutcome(lines, archives)| == |ParsedLines(lines)| <= |lines|
    ensures forall i :: 0 <= i < |ParsedLines(lines)| ==>
      LinesOutcome(lines, archives)[i] ==
        Checked(ParsedLines(lines)[i].1, Classify(ParsedLines(lines)[i].0, Lookup(archives, ParsedLines(lines)[i].1)))
  {
    if lines != [] {
      var init := lines[..|lines| - 1];
      var last := lines[|lines| - 1];
      OneMessagePerParsedLine(init, archives);
      LineOutcomeOfParsed(last, archives);
    }
  }

  lemma LineOutcomeOfParsed(line: string, archives: map<string, string>)
    ensures |LineOutcome(line, archives)| == |OptionToSeq(ParseDigestLine(line))|
    ensures ParseDigestLine(line).Some? ==>
      var (hash, name) := ParseDigestLine(line).value;
      LineOutcome(line, archives)[0] == Checked(name, Classify(hash, Lookup(archives, name)))
  {
  }
}
