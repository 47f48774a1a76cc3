/** `getSuggestionPatches`: scope the raw changes, then compile the in-scope
    hunks into patches, passing the out-of-scope hunks through. The line-diff
    routine that finds each file's hunks is a parameter; the lemmas that need
    more of it than "some list of hunks" say so in their preconditions. */
module PatchHandler {
  import opened Wrappers
  import opened OrderedMaps
  import opened Text
  import opened Hunks
  import opened InScopeHunks

  /** The replacement of lines `start..end` (1-based, inclusive) of a file as
      it stands in the pull request by `newContent`. */
  datatype Patch = Patch(start: int, end: int, newContent: string)

  datatype PatchesAndOutOfScopeSuggestions = PatchesAndOutOfScopeSuggestions(
    filePatches: Entries<string, seq<Patch>>,
    outOfScopeSuggestions: Entries<string, seq<Hunk>>)

  /** A hunk as a patch: its old span, and its new lines joined by "\n". */
  function PatchOf(h: Hunk): (p: Patch)
    ensures p.start == h.oldStart && p.end == h.oldEnd
  {
    Patch(h.oldStart, h.oldEnd, Join(h.newContent, '\n'))
  }

  /** A patch keeps its hunk's new lines: splitting its text gives them back. */
  lemma PatchOfContent(h: Hunk)
    requires |h.newContent| >= 1 && Free(h.newContent, '\n')
    ensures Split(PatchOf(h).newContent, '\n') == h.newContent
  {
    SplitJoin(h.newContent, '\n');
  }

  function PatchesOf(hunks: seq<Hunk>): (ps: seq<Patch>)
    ensures |ps| == |hunks|
    ensures forall i :: 0 <= i < |hunks| ==> ps[i] == PatchOf(hunks[i])
  {
    if hunks == [] then [] else [PatchOf(hunks[0])] + PatchesOf(hunks[1..])
  }

  /** `generatePatches`: every file's in-scope hunks compiled into patches. */
  function GeneratePatches(inScope: Entries<string, seq<Hunk>>): (r: Entries<string, seq<Patch>>)
    ensures Keys(r) == Keys(inScope)
    ensures forall i :: 0 <= i < |r| ==> |r[i].1| == |inScope[i].1|
  {
    if inScope == [] then []
    else [(inScope[0].0, PatchesOf(inScope[0].1))] + GeneratePatches(inScope[1..])
  }

  lemma {:induction false} LookupGenerated(inScope: Entries<string, seq<Hunk>>, path: string)
    ensures Lookup(GeneratePatches(inScope), path) ==
      (match Lookup(inScope, path) case None => None case Some(hs) => Some(PatchesOf(hs)))
  {
    if inScope != [] && inScope[0].0 != path {
      LookupGenerated(inScope[1..], path);
    }
  }

  /** `getSuggestionPatches`: both result maps keep the order of
      `rawChanges`, hold no empty list, and repeat no file. */
  function GetSuggestionPatches(diff: LineDiff, rawChanges: Entries<string, RawContent>, invalidFiles: seq<string>,
                                validFileLines: Entries<string, seq<Range>>): (r: PatchesAndOutOfScopeSuggestions)
    ensures Subsequence(Keys(r.filePatches), Keys(rawChanges))
    ensures Subsequence(Keys(r.outOfScopeSuggestions), Keys(rawChanges))
    ensures NoEmptyEntry(r.filePatches) && NoEmptyEntry(r.outOfScopeSuggestions)
    ensures DistinctKeys(rawChanges) ==> DistinctKeys(r.filePatches) && DistinctKeys(r.outOfScopeSuggestions)
  {
    var scoped := GetValidSuggestionHunks(diff, rawChanges, invalidFiles, validFileLines);
    var filePatches := GeneratePatches(scoped.inScopeSuggestions);
    assert forall i :: 0 <= i < |filePatches| ==>
      filePatches[i].0 == Keys(filePatches)[i] == Keys(scoped.inScopeSuggestions)[i] == scoped.inScopeSuggestions[i].0;
    PatchesAndOutOfScopeSuggestions(filePatches, scoped.outOfScopeSuggestions)
  }

  /** The reviewable ranges of a file; none when it has no entry. */
  function RangesOf(validFileLines: Entries<string, seq<Range>>, path: string): seq<Range>
  {
    Lookup(validFileLines, path).GetOr([])
  }

  /** A file's patches are exactly the patches of its in-scope hunks: a
      changed, valid file's diff hunks that lie inside a reviewable range. */
  lemma PatchesComeFromInScopeHunks(diff: LineDiff, rawChanges: Entries<string, RawContent>, invalidFiles: seq<string>,
                                    validFileLines: Entries<string, seq<Range>>, path: string)
    requires DistinctKeys(rawChanges)
    ensures var r := GetSuggestionPatches(diff, rawChanges, invalidFiles, validFileLines);
      Lookup(r.filePatches, path).Some? ==>
        && Lookup(rawChanges, path).Some?
        && path !in invalidFiles
        && var ins := Partition(diff(Lookup(rawChanges, path).value), RangesOf(validFileLines, path)).0;
           ins != [] && Lookup(r.filePatches, path) == Some(PatchesOf(ins))
  {
    LookupScoped(diff, rawChanges, invalidFiles, validFileLines, path);
    LookupGenerated(GetValidSuggestionHunks(diff, rawChanges, invalidFiles, validFileLines).inScopeSuggestions, path);
  }

  /** The out-of-scope map is the filter's out-of-scope side, unchanged: a
      file's entry holds its diff hunks that are not in scope (all of them
      for an invalid file). */
  lemma OutOfScopeHunks(diff: LineDiff, rawChanges: Entries<string, RawContent>, invalidFiles: seq<string>,
                        validFileLines: Entries<string, seq<Range>>, path: string)
    requires DistinctKeys(rawChanges)
    ensures var r := GetSuggestionPatches(diff, rawChanges, invalidFiles, validFileLines);
      Lookup(r.outOfScopeSuggestions, path).Some? ==>
        && Lookup(rawChanges, path).Some?
        && var hunks := diff(Lookup(rawChanges, path).value);
           var outs := Lookup(r.outOfScopeSuggestions, path).value;
           && outs != []
           && (path in invalidFiles ==> outs == hunks)
           && (path !in invalidFiles ==> outs == Partition(hunks, RangesOf(validFileLines, path)).1)
  {
    LookupScoped(diff, rawChanges, invalidFiles, validFileLines, path);
  }

  /** An invalid file gets no patch. */
  lemma InvalidFileHasNoPatches(diff: LineDiff, rawChanges: Entries<string, RawContent>, invalidFiles: seq<string>,
                                validFileLines: Entries<string, seq<Range>>, path: string)
    requires DistinctKeys(rawChanges)
    requires path in invalidFiles
    ensures Lookup(GetSuggestionPatches(diff, rawChanges, invalidFiles, validFileLines).filePatches, path) == None
  {
    PatchesComeFromInScopeHunks(diff, rawChanges, invalidFiles, validFileLines, path);
  }

  /** Every patch lies inside one of its file's reviewable ranges. */
  lemma PatchWithinRange(diff: LineDiff, rawChanges: Entries<string, RawContent>, invalidFiles: seq<string>,
                         validFileLines: Entries<string, seq<Range>>, path: string, p: Patch)
    requires DistinctKeys(rawChanges)
    requires var fp := GetSuggestionPatches(diff, rawChanges, invalidFiles, validFileLines).filePatches;
      Lookup(fp, path).Some? && p in Lookup(fp, path).value
    ensures exists rg :: rg in RangesOf(validFileLines, path) && rg.start <= p.start && p.end <= rg.end
  {
    PatchesComeFromInScopeHunks(diff, rawChanges, invalidFiles, validFileLines, path);
    var raw := Lookup(rawChanges, path).value;
    InScopePatchWithinRange(Partition(diff(raw), RangesOf(validFileLines, path)).0, RangesOf(validFileLines, path), p);
  }

  /** A patch of in-scope hunks lies inside one of the ranges. */
  lemma InScopePatchWithinRange(ins: seq<Hunk>, ranges: seq<Range>, p: Patch)
    requires forall h :: h in ins ==> InScope(h, ranges)
    requires p in PatchesOf(ins)
    ensures exists rg :: rg in ranges && rg.start <= p.start && p.end <= rg.end
  {
    var ps := PatchesOf(ins);
    var i :| 0 <= i < |ps| && ps[i] == p;
    var h := ins[i];
    assert h in ins && PatchOf(h) == p;
    var rg :| rg in ranges && Covers(rg, h);
    assert rg.start <= p.start && p.end <= rg.end;
  }

  /** A changed file appears in one of the maps, and a file whose old and
      new text agree in neither, given a diff that finds hunks exactly when
      the texts differ. */
  lemma UnchangedFileOmitted(diff: LineDiff, rawChanges: Entries<string, RawContent>, invalidFiles: seq<string>,
                             validFileLines: Entries<string, seq<Range>>, path: string)
    requires DistinctKeys(rawChanges)
    requires Lookup(rawChanges, path).Some?
    requires var raw := Lookup(rawChanges, path).value; diff(raw) == [] <==> raw.oldContent == raw.newContent
    ensures var r := GetSuggestionPatches(diff, rawChanges, invalidFiles, validFileLines);
      var raw := Lookup(rawChanges, path).value;
      Lookup(r.filePatches, path) == None && Lookup(r.outOfScopeSuggestions, path) == None
      <==> raw.oldContent == raw.newContent
  {
    var raw := Lookup(rawChanges, path).value;
    PatchesComeFromInScopeHunks(diff, rawChanges, invalidFiles, validFileLines, path);
    OutOfScopeHunks(diff, rawChanges, invalidFiles, validFileLines, path);
    if raw.oldContent != raw.newContent {
      var h := diff(raw)[0];
      EveryHunkReported(diff, rawChanges, invalidFiles, validFileLines, path, h);
    }
  }

  /** Nothing is dropped: every diff hunk of a file becomes a patch of that
      file when it is in scope, and an out-of-scope entry otherwise. */
  lemma EveryHunkReported(diff: LineDiff, rawChanges: Entries<string, RawContent>, invalidFiles: seq<string>,
                          validFileLines: Entries<string, seq<Range>>, path: string, h: Hunk)
    requires DistinctKeys(rawChanges)
    requires Lookup(rawChanges, path).Some? && h in diff(Lookup(rawChanges, path).value)
    ensures var r := GetSuggestionPatches(diff, rawChanges, invalidFiles, validFileLines);
      if path !in invalidFiles && InScope(h, RangesOf(validFileLines, path))
      then Lookup(r.filePatches, path).Some? && PatchOf(h) in Lookup(r.filePatches, path).value
      else Lookup(r.outOfScopeSuggestions, path).Some? && h in Lookup(r.outOfScopeSuggestions, path).value
  {
    var raw := Lookup(rawChanges, path).value;
    var scoped := GetValidSuggestionHunks(diff, rawChanges, invalidFiles, validFileLines);
    LookupScoped(diff, rawChanges, invalidFiles, validFileLines, path);
    LookupGenerated(scoped.inScopeSuggestions, path);
    HunkSide(diff, path, raw, invalidFiles, validFileLines, h);
    var split := ScopeFile(diff, path, raw, invalidFiles, validFileLines);
    if path !in invalidFiles && InScope(h, RangesOf(validFileLines, path)) {
      PatchOfMember(split.0, h);
    }
  }

  /** A diff hunk of a file lands on the side of the split its validity and
      scope pick. */
  lemma HunkSide(diff: LineDiff, path: string, raw: RawContent, invalidFiles: seq<string>,
                 validFileLines: Entries<string, seq<Range>>, h: Hunk)
    requires h in diff(raw)
    ensures var split := ScopeFile(diff, path, raw, invalidFiles, validFileLines);
      if path !in invalidFiles && InScope(h, RangesOf(validFileLines, path)) then h in split.0 else h in split.1
  {
    var split := ScopeFile(diff, path, raw, invalidFiles, validFileLines);
    ScopeFileSplits(diff, path, raw, invalidFiles, validFileLines);
    assert h in multiset(split.0) + multiset(split.1) by {
      assert h in multiset(diff(raw));
    }
  }

  /** The patch of a listed hunk is among the patches of the list. */
  lemma PatchOfMember(hunks: seq<Hunk>, h: Hunk)
    requires h in hunks
    ensures PatchOf(h) in PatchesOf(hunks)
  {
    var i :| 0 <= i < |hunks| && hunks[i] == h;
    assert PatchesOf(hunks)[i] == PatchOf(h);
  }

  /** No two patches of a file overlap, and they come in line order, when
      the diff gives the file's hunks in line order. */
  lemma PatchesDoNotOverlap(diff: LineDiff, rawChanges: Entries<string, RawContent>, invalidFiles: seq<string>,
                            validFileLines: Entries<string, seq<Range>>, path: string)
    requires DistinctKeys(rawChanges)
    requires Lookup(rawChanges, path).Some? ==> Ordered(diff(Lookup(rawChanges, path).value))
    requires Lookup(GetSuggestionPatches(diff, rawChanges, invalidFiles, validFileLines).filePatches, path).Some?
    ensures var ps := Lookup(GetSuggestionPatches(diff, rawChanges, invalidFiles, validFileLines).filePatches, path).value;
      forall i, j :: 0 <= i < j < |ps| ==> ps[i].end < ps[j].start
  {
    PatchesComeFromInScopeHunks(diff, rawChanges, invalidFiles, validFileLines, path);
    var raw := Lookup(rawChanges, path).value;
    PartitionOrdered(diff(raw), RangesOf(validFileLines, path));
  }

  /** A file whose text differs from its suggestion in line `k + 1` alone
      yields the one-line hunk for that line. */
  lemma SingleLineHunk(o: seq<string>, n: seq<string>, k: nat)
    requires |o| == |n| && k < |o|
    requires forall i :: 0 <= i < |o| && i != k ==> o[i] == n[i]
    requires o[k] != n[k]
    ensures HunksOf(o, n) == [Hunk(k + 1, k + 1, k + 1, k + 1, [n[k]])]
  {
    var p := CommonPrefix(o, n);
    assert p == k;
    var s := CommonSuffix(o, n, p);
    assert s == |o| - k - 1;
    assert HunksOf(o, n) == [TrimmedHunk(o, n, p, s)];
    assert n[k..k + 1] == [n[k]];
  }

  /** The diff of two texts that differ in line `k + 1` alone. */
  lemma SingleLineDiff(o: seq<string>, n: seq<string>, k: nat)
    requires |o| == |n| && k < |o| && Free(o, '\n') && Free(n, '\n')
    requires forall i :: 0 <= i < |o| && i != k ==> o[i] == n[i]
    requires o[k] != n[k]
    ensures Diff(RawContent(Join(o, '\n'), Join(n, '\n'))) == [Hunk(k + 1, k + 1, k + 1, k + 1, [n[k]])]
  {
    SplitJoin(o, '\n');
    SplitJoin(n, '\n');
    SingleLineHunk(o, n, k);
  }

  /** The result for a single changed file, by the split of its hunks. */
  lemma SingleFile(diff: LineDiff, path: string, raw: RawContent, invalidFiles: seq<string>,
                   validFileLines: Entries<string, seq<Range>>)
    ensures var split := ScopeFile(diff, path, raw, invalidFiles, validFileLines);
      GetSuggestionPatches(diff, [(path, raw)], invalidFiles, validFileLines)
      == PatchesAndOutOfScopeSuggestions(GeneratePatches(EntryOf(path, split.0)), EntryOf(path, split.1))
  {
    var rawChanges := [(path, raw)];
    var split := ScopeFile(diff, path, raw, invalidFiles, validFileLines);
    assert rawChanges[1..] == [];
    assert GetValidSuggestionHunks(diff, rawChanges, invalidFiles, validFileLines)
      == ScopedHunks(EntryOf(path, split.0) + [], EntryOf(path, split.1) + []);
    assert EntryOf(path, split.0) + [] == EntryOf(path, split.0);
    assert EntryOf(path, split.1) + [] == EntryOf(path, split.1);
  }

  /** A single patch compiled from a single hunk. */
  lemma GenerateSingle(path: string, h: Hunk)
    ensures GeneratePatches([(path, [h])]) == [(path, [PatchOf(h)])]
  {
    assert [(path, [h])][1..] == [] && [h][1..] == [];
    assert PatchesOf([h]) == [PatchOf(h)];
  }

  /** A file whose diff is the one hunk `h`, against the one reviewable
      range `rg`: a valid file with `h` inside `rg` gets the one patch of `h`,
      otherwise `h` is the file's one out-of-scope hunk. */
  lemma SingleHunkFile(diff: LineDiff, path: string, raw: RawContent, h: Hunk, rg: Range, invalid: bool)
    requires diff(raw) == [h]
    ensures GetSuggestionPatches(diff, [(path, raw)], if invalid then [path] else [], [(path, [rg])])
      == if !invalid && Covers(rg, h)
         then PatchesAndOutOfScopeSuggestions([(path, [PatchOf(h)])], [])
         else PatchesAndOutOfScopeSuggestions([], [(path, [h])])
  {
    var invalidFiles: seq<string> := if invalid then [path] else [];
    var validFileLines := [(path, [rg])];
    var split := ScopeFile(diff, path, raw, invalidFiles, validFileLines);
    SingleHunkSplit(diff, path, raw, h, rg, invalid);
    SingleFile(diff, path, raw, invalidFiles, validFileLines);
    if !invalid && Covers(rg, h) {
      GenerateSingle(path, h);
    }
  }

  /** The split of a file whose diff is the one hunk `h`. */
  lemma SingleHunkSplit(diff: LineDiff, path: string, raw: RawContent, h: Hunk, rg: Range, invalid: bool)
    requires diff(raw) == [h]
    ensures ScopeFile(diff, path, raw, if invalid then [path] else [], [(path, [rg])])
      == if !invalid && Covers(rg, h) then ([h], []) else ([], [h])
  {
    if !invalid {
      assert Lookup([(path, [rg])], path) == Some([rg]);
      PartitionSingle(h, [rg]);
      assert InScope(h, [rg]) <==> Covers(rg, h) by {
        if Covers(rg, h) {
          assert rg in [rg];
        }
      }
    }
  }

  /** A valid file with two hunks, the first inside its one reviewable range
      and the second outside it: the first becomes the file's one patch and
      the second its one out-of-scope hunk. */
  lemma TwoHunksFile(diff: LineDiff, path: string, raw: RawContent, h1: Hunk, h2: Hunk, rg: Range)
    requires diff(raw) == [h1, h2]
    requires Covers(rg, h1) && !Covers(rg, h2)
    ensures GetSuggestionPatches(diff, [(path, raw)], [], [(path, [rg])])
      == PatchesAndOutOfScopeSuggestions([(path, [PatchOf(h1)])], [(path, [h2])])
  {
    var validFileLines := [(path, [rg])];
    TwoHunksSplit(diff, path, raw, h1, h2, rg);
    SingleFile(diff, path, raw, [], validFileLines);
    GenerateSingle(path, h1);
  }

  /** The split of a file whose diff is `[h1, h2]`, `h1` in scope and `h2` not. */
  lemma TwoHunksSplit(diff: LineDiff, path: string, raw: RawContent, h1: Hunk, h2: Hunk, rg: Range)
    requires diff(raw) == [h1, h2]
    requires Covers(rg, h1) && !Covers(rg, h2)
    ensures ScopeFile(diff, path, raw, [], [(path, [rg])]) == ([h1], [h2])
  {
    assert Lookup([(path, [rg])], path) == Some([rg]);
    assert InScope(h1, [rg]) by {
      assert rg in [rg];
    }
    assert !InScope(h2, [rg]);
    PartitionSingle(h1, [rg]);
    assert [h1, h2][..1] == [h1];
    assert Partition([h1, h2], [rg]) == ([h1], [] + [h2]);
    assert [] + [h2] == [h2];
  }

  /** One changed line `k + 1` of one file, under the concrete `Diff`:
      inside the reviewable range it becomes the one patch replacing that
      line by its new text; outside the range, or in an invalid file, it is
      the one out-of-scope hunk. */
  lemma SingleLineChange(path: string, o: seq<string>, n: seq<string>, k: nat, rg: Range, invalid: bool)
    requires |o| == |n| && k < |o| && Free(o, '\n') && Free(n, '\n')
    requires forall i :: 0 <= i < |o| && i != k ==> o[i] == n[i]
    requires o[k] != n[k]
    ensures GetSuggestionPatches(Diff, [(path, RawContent(Join(o, '\n'), Join(n, '\n')))],
                                 if invalid then [path] else [], [(path, [rg])])
      == if !invalid && rg.start <= k + 1 <= rg.end
         then PatchesAndOutOfScopeSuggestions([(path, [Patch(k + 1, k + 1, n[k])])], [])
         else PatchesAndOutOfScopeSuggestions([], [(path, [Hunk(k + 1, k + 1, k + 1, k + 1, [n[k]])])])
  {
    SingleLineDiff(o, n, k);
    SingleLineFile(Diff, path, RawContent(Join(o, '\n'), Join(n, '\n')), k, n[k], rg, invalid);
  }

  /** `SingleHunkFile` for the hunk replacing line `k + 1` by `line`. */
  lemma SingleLineFile(diff: LineDiff, path: string, raw: RawContent, k: nat, line: string, rg: Range, invalid: bool)
    requires diff(raw) == [Hunk(k + 1, k + 1, k + 1, k + 1, [line])]
    ensures GetSuggestionPatches(diff, [(path, raw)], if invalid then [path] else [], [(path, [rg])])
      == if !invalid && rg.start <= k + 1 <= rg.end
         then PatchesAndOutOfScopeSuggestions([(path, [Patch(k + 1, k + 1, line)])], [])
         else PatchesAndOutOfScopeSuggestions([], [(path, [Hunk(k + 1, k + 1, k + 1, k + 1, [line])])])
  {
    var h := Hunk(k + 1, k + 1, k + 1, k + 1, [line]);
    SingleHunkFile(diff, path, raw, h, rg, invalid);
    assert Join([line], '\n') == line;
    assert PatchOf(h) == Patch(k + 1, k + 1, line);
  }

  /** A lone hunk goes to the side its scope test picks. */
  lemma PartitionSingle(h: Hunk, ranges: seq<Range>)
    ensures Partition([h], ranges) == if InScope(h, ranges) then ([h], []) else ([], [h])
  {
    assert [h][..0] == [];
    assert Partition([], ranges) == ([], []);
    assert [] + [h] == [h];
  }
}
