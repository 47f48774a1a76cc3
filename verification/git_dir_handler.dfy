/** Reading local changes from `git diff --raw` output: splitting the output
    into records, parsing each record, and collecting the changed files.
    The git commands and file reads are not modelled: their outputs are
    parameters. */
module GitDirHandler {
  import opened Wrappers
  import opened OrderedMaps
  import opened Text

  datatype GitError =
    | CommandFailed(message: string)   // the git command threw
    | MissingPath(record: string)      // no tab between status and path
    | MalformedHeader(record: string)  // not ":<mode> <mode> <sha> <sha> <status>"
    | ReadFailed(path: string)         // the changed file could not be read

  /** `findRepoRoot`: the output of `git rev-parse --show-toplevel` without
      its trailing line breaks; an error of the command is passed up. */
  function FindRepoRoot(output: Result<string, GitError>): (r: Result<string, GitError>)
    ensures output.Failure? ==> r == output
    ensures output.Success? ==> r.Success? && r.value == TrimNewlines(output.value)
  {
    match output
    case Failure(e) => Failure(e)
    case Success(s) => Success(TrimNewlines(s))
  }

  /** The text without the line breaks at its end. */
  function TrimNewlines(s: string): (r: string)
    ensures |r| <= |s| && r == s[..|r|]
    ensures r == [] || r[|r| - 1] != '\n'
    ensures forall i :: |r| <= i < |s| ==> s[i] == '\n'
  {
    if s != [] && s[|s| - 1] == '\n' then TrimNewlines(s[..|s| - 1]) else s
  }

  /** Trimming a path followed by line breaks gives the path. */
  lemma {:induction false} TrimNewlinesOf(path: string, k: nat)
    requires path == [] || path[|path| - 1] != '\n'
    ensures TrimNewlines(path + seq(k, _ => '\n')) == path
    decreases k
  {
    var s := path + seq(k, _ => '\n');
    if k > 0 {
      assert s[..|s| - 1] == path + seq(k - 1, _ => '\n');
      TrimNewlinesOf(path, k - 1);
    } else {
      assert s == path;
    }
  }

  /** `getAllDiffs`: the records of the raw diff output, one per line; the
      empty piece after the final line break is not a record. */
  function GetAllDiffs(output: string): (records: seq<string>)
    ensures forall i :: 0 <= i < |records| ==> records[i] != [] && '\n' !in records[i]
  {
    SplitFree(output, '\n');
    NonEmpty(Split(output, '\n'))
  }

  function NonEmpty(pieces: seq<string>): (r: seq<string>)
    ensures forall i :: 0 <= i < |r| ==> r[i] != [] && r[i] in pieces
    ensures (forall i :: 0 <= i < |pieces| ==> pieces[i] != []) ==> r == pieces
  {
    if pieces == [] then []
    else if pieces[0] == [] then NonEmpty(pieces[1..])
    else [pieces[0]] + NonEmpty(pieces[1..])
  }

  /** The records, each ended by a line break, as git prints them. */
  function Terminated(records: seq<string>): string
  {
    if records == [] then "" else records[0] + "\n" + Terminated(records[1..])
  }

  lemma {:induction false} TerminatedIsJoin(records: seq<string>)
    ensures Terminated(records) == Join(records + [""], '\n')
  {
    if records != [] {
      TerminatedIsJoin(records[1..]);
      assert (records + [""])[1..] == records[1..] + [""];
    }
  }

  /** Splitting printed records gives them back, with no empty trailing one. */
  lemma GetAllDiffsRoundTrip(records: seq<string>)
    requires forall i :: 0 <= i < |records| ==> records[i] != [] && '\n' !in records[i]
    ensures GetAllDiffs(Terminated(records)) == records
  {
    TerminatedIsJoin(records);
    SplitJoin(records + [""], '\n');
    NonEmptyDropsLast(records);
  }

  lemma {:induction false} NonEmptyDropsLast(records: seq<string>)
    requires forall i :: 0 <= i < |records| ==> records[i] != []
    ensures NonEmpty(records + [""]) == records
  {
    if records != [] {
      assert (records + [""])[1..] == records[1..] + [""];
      NonEmptyDropsLast(records[1..]);
    }
  }

  /** One record of `git diff --raw`:
      `:<old-mode> <new-mode> <old-sha> <new-sha> <status>\t<path>`. */
  datatype DiffRecord = DiffRecord(oldMode: string, newMode: string, oldSha: string, newSha: string,
                                   status: string, path: string)

  /** The record's header fields, in print order. */
  function Fields(r: DiffRecord): seq<string>
  {
    [r.oldMode, r.newMode, r.oldSha, r.newSha, r.status]
  }

  /** The header fields hold neither a space nor a tab. */
  predicate WellFormed(r: DiffRecord) {
    Free(Fields(r), ' ') && Free(Fields(r), '\t')
  }

  /** The record as git prints it. */
  function RecordText(r: DiffRecord): string
  {
    ":" + Join(Fields(r), ' ') + "\t" + r.path
  }

  /** The position of the first `c` in `s`. */
  function FirstIndexOf(s: string, c: char): (r: Option<nat>)
    ensures r.None? <==> c !in s
    ensures r.Some? ==> r.value < |s| && s[r.value] == c && c !in s[..r.value]
  {
    if s == [] then None
    else if s[0] == c then Some(0)
    else match FirstIndexOf(s[1..], c)
      case None => None
      case Some(i) =>
        assert s[..i + 1] == [s[0]] + s[1..][..i];
        Some(i + 1)
  }

  /** The first `c` of a text is the first one after a prefix free of `c`. */
  lemma {:induction false} FirstIndexAfter(prefix: string, c: char, rest: string)
    requires c !in prefix
    ensures FirstIndexOf(prefix + [c] + rest, c) == Some(|prefix|)
  {
    if prefix != [] {
      FirstIndexAfter(prefix[1..], c, rest);
      assert (prefix + [c] + rest)[1..] == prefix[1..] + [c] + rest;
    }
  }

  /** Parse one record. The path is everything after the first tab, so it
      may hold spaces; a record without a tab is rejected. */
  function ParseRecord(line: string): (r: Result<DiffRecord, GitError>)
    ensures '\t' !in line ==> r == Failure(MissingPath(line))
  {
    match FirstIndexOf(line, '\t')
    case None => Failure(MissingPath(line))
    case Some(t) =>
      var header := line[..t];
      if header == [] || header[0] != ':' then Failure(MalformedHeader(line))
      else
        var fields := Split(header[1..], ' ');
        if |fields| != 5 then Failure(MalformedHeader(line))
        else Success(DiffRecord(fields[0], fields[1], fields[2], fields[3], fields[4], line[t + 1..]))
  }

  /** Every well-formed record parses back from its printed text. */
  lemma ParseRecordText(r: DiffRecord)
    requires WellFormed(r)
    ensures ParseRecord(RecordText(r)) == Success(r)
  {
    var header := Join(Fields(r), ' ');
    var line := RecordText(r);
    var t := |header| + 1;
    assert line == (":" + header) + "\t" + r.path;
    JoinFree(Fields(r), ' ', '\t');
    assert '\t' !in ":" + header;
    FirstIndexAfter(":" + header, '\t', r.path);
    assert line[..t] == ":" + header;
    assert line[..t][1..] == header;
    assert line[t + 1..] == r.path;
    SplitJoin(Fields(r), ' ');
    var fields := Split(line[..t][1..], ' ');
    assert fields == Fields(r);
    assert ParseRecord(line) == Success(DiffRecord(fields[0], fields[1], fields[2], fields[3], fields[4], line[t + 1..]));
  }

  /** A parsed record is well formed and prints back to the line it came from. */
  lemma ParsedRecordText(line: string, r: DiffRecord)
    requires ParseRecord(line) == Success(r)
    ensures WellFormed(r) && RecordText(r) == line
  {
    var t := FirstIndexOf(line, '\t').value;
    var header := line[..t];
    var fields := Split(header[1..], ' ');
    assert Fields(r) == fields;
    SplitFree(header[1..], ' ');
    JoinSplit(header[1..], ' ');
    forall i | 0 <= i < 5 ensures '\t' !in fields[i] {
      SplitSubset(header[1..], ' ', i);
    }
    assert header == ":" + header[1..];
    assert line == header + "\t" + line[t + 1..];
  }

  /** A join of pieces free of `c` is free of `c` when `c` is not the separator. */
  lemma {:induction false} JoinFree(pieces: seq<string>, sep: char, c: char)
    requires c != sep && Free(pieces, c)
    ensures c !in Join(pieces, sep)
  {
    if |pieces| > 1 {
      JoinFree(pieces[1..], sep, c);
    }
  }

  /** Every piece of a split consists of characters of the text. */
  lemma {:induction false} SplitSubset(s: string, sep: char, i: nat)
    requires i < |Split(s, sep)|
    ensures forall x :: x in Split(s, sep)[i] ==> x in s
    decreases |s|
  {
    if s != [] {
      var rest := Split(s[1..], sep);
      if s[0] == sep {
        if i > 0 { SplitSubset(s[1..], sep, i - 1); }
      } else if i == 0 {
        SplitSubset(s[1..], sep, 0);
      } else {
        SplitSubset(s[1..], sep, i);
      }
    }
  }

  /** A changed file: its text (none when deleted) and its file mode. */
  datatype FileData = FileData(content: Option<string>, mode: string)

  /** `getGitFileData`: for a printed record, a deleted file has no content
      and keeps the mode it had before deletion; any other file carries the
      text read from `files` and its new mode, and a failed read is an
      error. A line that is no printed record is an error. */
  function GetGitFileData(line: string, files: map<string, string>): (r: Result<(string, FileData), GitError>)
    ensures forall rec | WellFormed(rec) && RecordText(rec) == line ::
      && (rec.status == "D" ==> r == Success((rec.path, FileData(None, rec.oldMode))))
      && (rec.status != "D" && rec.path in files ==> r == Success((rec.path, FileData(Some(files[rec.path]), rec.newMode))))
      && (rec.status != "D" && rec.path !in files ==> r == Failure(ReadFailed(rec.path)))
    ensures (forall rec | WellFormed(rec) :: RecordText(rec) != line) ==> r.Failure?
    ensures '\t' !in line ==> r == Failure(MissingPath(line))
  {
    assert forall rec | WellFormed(rec) && RecordText(rec) == line :: ParseRecord(line) == Success(rec) by {
      forall rec | WellFormed(rec) && RecordText(rec) == line ensures ParseRecord(line) == Success(rec) {
        ParseRecordText(rec);
      }
    }
    match ParseRecord(line)
    case Failure(e) => Failure(e)
    case Success(rec) =>
      ParsedRecordText(line, rec);
      if rec.status == "D" then Success((rec.path, FileData(None, rec.oldMode)))
      else if rec.path in files then Success((rec.path, FileData(Some(files[rec.path]), rec.newMode)))
      else Failure(ReadFailed(rec.path))
  }

  /** Record `i` is the first whose file data cannot be had. */
  predicate FirstFailure(diffs: seq<string>, files: map<string, string>, i: int) {
    && 0 <= i < |diffs|
    && GetGitFileData(diffs[i], files).Failure?
    && forall j :: 0 <= j < i ==> GetGitFileData(diffs[j], files).Success?
  }

  /** Every record's file data, in order; the first failing record's error. */
  function ParseAll(diffs: seq<string>, files: map<string, string>): (r: Result<seq<(string, FileData)>, GitError>)
    ensures r.Success? <==> forall i :: 0 <= i < |diffs| ==> GetGitFileData(diffs[i], files).Success?
    ensures r.Success? ==>
      && |r.value| == |diffs|
      && (forall i :: 0 <= i < |diffs| ==> r.value[i] == GetGitFileData(diffs[i], files).value)
    ensures r.Failure? ==>
      exists i :: FirstFailure(diffs, files, i) && r.error == GetGitFileData(diffs[i], files).error
  {
    if diffs == [] then Success([])
    else
      var first :- GetGitFileData(diffs[0], files);
      var rest :- ParseAll(diffs[1..], files);
      Success([first] + rest)
  }

  /** `parseChanges`: the changed files keyed by path, in record order; a
      path listed twice keeps its last record's data. */
  function ParseChanges(diffs: seq<string>, files: map<string, string>): (r: Result<Entries<string, FileData>, GitError>)
    ensures r.Success? <==> ParseAll(diffs, files).Success?
    ensures r.Failure? ==> r.error == ParseAll(diffs, files).error
  {
    var pairs :- ParseAll(diffs, files);
    Success(FromPairs(pairs))
  }

  /** On success, each path holds the data of its last record, and no path
      appears twice. */
  lemma ParseChangesLookup(diffs: seq<string>, files: map<string, string>, path: string)
    requires ParseChanges(diffs, files).Success?
    ensures DistinctKeys(ParseChanges(diffs, files).value)
    ensures Lookup(ParseChanges(diffs, files).value, path) == LastValue(ParseAll(diffs, files).value, path)
  {
    FromPairsSpec(ParseAll(diffs, files).value, path);
  }

  const AddedRecord: string := ":000000 100644 0000000 8e6c063 A\tadded.txt"
  const DeletedRecord: string := ":100644 000000 8e6c063 0000000 D\tdeleted.txt"

  /** Raw diff output ending in a line break splits into its two records. */
  lemma GetAllDiffsExample()
    ensures GetAllDiffs(AddedRecord + "\n" + DeletedRecord + "\n") == [AddedRecord, DeletedRecord]
  {
    var records := [AddedRecord, DeletedRecord];
    assert Terminated(records) == AddedRecord + "\n" + DeletedRecord + "\n" by {
      assert records[1..] == [DeletedRecord] && records[1..][1..] == [];
      assert Terminated([DeletedRecord]) == DeletedRecord + "\n" + "";
      assert Terminated(records) == AddedRecord + "\n" + (DeletedRecord + "\n" + "");
    }
    GetAllDiffsRoundTrip(records);
  }

  /** The line break git prints after the repository root is removed. */
  lemma FindRepoRootExample()
    ensures FindRepoRoot(Success("/home/user/work\n")) == Success("/home/user/work")
  {
    TrimNewlinesOf("/home/user/work", 1);
    assert "/home/user/work" + seq(1, _ => '\n') == "/home/user/work\n";
  }

  /** A deleted file's record yields no text and the mode the file had
      before deletion. */
  lemma DeletedRecordData(r: DiffRecord, files: map<string, string>)
    requires WellFormed(r) && r.status == "D"
    ensures GetGitFileData(RecordText(r), files) == Success((r.path, FileData(None, r.oldMode)))
  {
    ParseRecordText(r);
  }

  /** Any other record yields the file's text and its new mode, or the read error. */
  lemma ChangedRecordData(r: DiffRecord, files: map<string, string>)
    requires WellFormed(r) && r.status != "D"
    ensures r.path in files ==>
      GetGitFileData(RecordText(r), files) == Success((r.path, FileData(Some(files[r.path]), r.newMode)))
    ensures r.path !in files ==> GetGitFileData(RecordText(r), files) == Failure(ReadFailed(r.path))
  {
    ParseRecordText(r);
  }

  /** One record without a tab makes the whole parse fail. */
  lemma NoTabRejected(diffs: seq<string>, files: map<string, string>, i: nat)
    requires i < |diffs| && '\t' !in diffs[i]
    ensures ParseChanges(diffs, files).Failure?
  {
    assert GetGitFileData(diffs[i], files).Failure?;
  }
}
