/** The scope filter: which hunks fall inside the lines a pull request lets
    a reviewer comment on. A hunk is in scope when its old span lies inside
    one of the file's reviewable ranges, and an invalid file has no scope.
    The hunks of a file come from a line-diff routine given as a parameter. */
module InScopeHunks {
  import opened Wrappers
  import opened OrderedMaps
  import opened Hunks

  /** Reviewable lines `start..end` (1-based, inclusive) of a file as it
      stands in the pull request. */
  datatype Range = Range(start: int, end: int)

  /** The hunks of every file, split into those that can be suggested inline
      and those that cannot. */
  datatype ScopedHunks = ScopedHunks(
    inScopeSuggestions: Entries<string, seq<Hunk>>,
    outOfScopeSuggestions: Entries<string, seq<Hunk>>)

  /** The range holds the whole old span of the hunk. */
  predicate Covers(r: Range, h: Hunk) {
    r.start <= h.oldStart && h.oldEnd <= r.end
  }

  predicate InScope(h: Hunk, ranges: seq<Range>) {
    exists r :: r in ranges && Covers(r, h)
  }

  /** The in-scope hunks and the rest, each in their original order. */
  function Partition(hunks: seq<Hunk>, ranges: seq<Range>): (r: (seq<Hunk>, seq<Hunk>))
    ensures forall h :: h in r.0 ==> h in hunks && InScope(h, ranges)
    ensures forall h :: h in r.1 ==> h in hunks && !InScope(h, ranges)
    ensures multiset(r.0) + multiset(r.1) == multiset(hunks)
  {
    if hunks == [] then ([], [])
    else
      var init, h := hunks[..|hunks| - 1], hunks[|hunks| - 1];
      assert hunks == init + [h];
      var (ins, outs) := Partition(init, ranges);
      if InScope(h, ranges) then (ins + [h], outs) else (ins, outs + [h])
  }

  /** Partitioning never reorders: ordered hunks give ordered halves. */
  lemma {:induction false} PartitionOrdered(hunks: seq<Hunk>, ranges: seq<Range>)
    requires Ordered(hunks)
    ensures Ordered(Partition(hunks, ranges).0)
    ensures Ordered(Partition(hunks, ranges).1)
  {
    if hunks != [] {
      var init, h := hunks[..|hunks| - 1], hunks[|hunks| - 1];
      assert Ordered(init);
      PartitionOrdered(init, ranges);
      var (ins, outs) := Partition(init, ranges);
      assert forall x :: x in init ==> x.oldEnd < h.oldStart by {
        forall x | x in init ensures x.oldEnd < h.oldStart {
          var i :| 0 <= i < |init| && init[i] == x;
          assert hunks[i] == x;
        }
      }
      AppendOrdered(ins, h);
      AppendOrdered(outs, h);
    }
  }

  lemma AppendOrdered(hs: seq<Hunk>, h: Hunk)
    requires Ordered(hs)
    requires forall x :: x in hs ==> x.oldEnd < h.oldStart
    ensures Ordered(hs + [h])
  {
    var r := hs + [h];
    forall i, j | 0 <= i < j < |r| ensures r[i].oldEnd < r[j].oldStart {
      if j == |hs| {
        assert r[i] in hs;
      }
    }
  }

  /** Widening the scope never moves an in-scope hunk out of scope. */
  lemma {:induction false} PartitionMonotonic(hunks: seq<Hunk>, narrow: seq<Range>, wide: seq<Range>, h: Hunk)
    requires forall r :: r in narrow ==> r in wide
    requires h in Partition(hunks, narrow).0
    ensures h in Partition(hunks, wide).0
  {
    var init, last := hunks[..|hunks| - 1], hunks[|hunks| - 1];
    if h != last || !InScope(last, narrow) {
      PartitionMonotonic(init, narrow, wide, h);
    } else {
      var r :| r in narrow && Covers(r, h);
      assert r in wide;
    }
  }

  /** One file's hunks split by scope: all of them are out of scope when the
      file is invalid or has no reviewable ranges. */
  function ScopeFile(diff: LineDiff, path: string, raw: RawContent, invalidFiles: seq<string>,
                     validFileLines: Entries<string, seq<Range>>): (seq<Hunk>, seq<Hunk>)
  {
    var hunks := diff(raw);
    if path in invalidFiles then ([], hunks)
    else Partition(hunks, Lookup(validFileLines, path).GetOr([]))
  }

  /** An invalid file has no in-scope hunk, and a file's two sides together
      are exactly its diff hunks. */
  lemma ScopeFileSplits(diff: LineDiff, path: string, raw: RawContent, invalidFiles: seq<string>,
                        validFileLines: Entries<string, seq<Range>>)
    ensures var r := ScopeFile(diff, path, raw, invalidFiles, validFileLines);
      && (path in invalidFiles ==> r.0 == [])
      && multiset(r.0) + multiset(r.1) == multiset(diff(raw))
  {
  }

  /** A file's entry in a result map: present only when it holds a hunk. */
  function EntryOf(path: string, hunks: seq<Hunk>): Entries<string, seq<Hunk>>
  {
    if hunks == [] then [] else [(path, hunks)]
  }

  /** Putting a file's entry in front of the entries of later files keeps
      the keys in file order, no list empty, and no key repeated. */
  lemma ConsEntry(path: string, hunks: seq<Hunk>, rest: Entries<string, seq<Hunk>>, later: seq<string>)
    requires Subsequence(Keys(rest), later)
    ensures Subsequence(Keys(EntryOf(path, hunks) + rest), [path] + later)
    ensures NoEmptyEntry(rest) ==> NoEmptyEntry(EntryOf(path, hunks) + rest)
    ensures DistinctKeys(rest) && path !in later ==> DistinctKeys(EntryOf(path, hunks) + rest)
  {
    if hunks == [] {
      assert EntryOf(path, hunks) + rest == rest;
      SubsequenceCons(Keys(rest), later, path);
    } else {
      var m := [(path, hunks)] + rest;
      assert Keys(m) == [path] + Keys(rest);
      if DistinctKeys(rest) && path !in later {
        forall j | 1 <= j < |m| ensures m[j].0 != path {
          assert m[j].0 == Keys(rest)[j - 1];
          if m[j].0 == path {
            SubsequenceMembers(Keys(rest), later, path);
          }
        }
        assert DistinctKeys(m);
      }
    }
  }

  /** `getValidSuggestionHunks`: every changed file's hunks, in the order of
      `rawChanges`, split into the in-scope map and the out-of-scope map. A
      map keeps the order of `rawChanges`, holds no empty list, and repeats
      no file. */
  function GetValidSuggestionHunks(diff: LineDiff, rawChanges: Entries<string, RawContent>, invalidFiles: seq<string>,
                                   validFileLines: Entries<string, seq<Range>>): (r: ScopedHunks)
    ensures Subsequence(Keys(r.inScopeSuggestions), Keys(rawChanges))
    ensures Subsequence(Keys(r.outOfScopeSuggestions), Keys(rawChanges))
    ensures NoEmptyEntry(r.inScopeSuggestions) && NoEmptyEntry(r.outOfScopeSuggestions)
    ensures DistinctKeys(rawChanges) ==>
      DistinctKeys(r.inScopeSuggestions) && DistinctKeys(r.outOfScopeSuggestions)
  {
    if rawChanges == [] then ScopedHunks([], [])
    else
      var path := rawChanges[0].0;
      var split := ScopeFile(diff, path, rawChanges[0].1, invalidFiles, validFileLines);
      var rest := GetValidSuggestionHunks(diff, rawChanges[1..], invalidFiles, validFileLines);
      var later := Keys(rawChanges[1..]);
      assert Keys(rawChanges) == [path] + later;
      ConsEntry(path, split.0, rest.inScopeSuggestions, later);
      ConsEntry(path, split.1, rest.outOfScopeSuggestions, later);
      if DistinctKeys(rawChanges) then
        DistinctTail(rawChanges);
        ScopedHunks(EntryOf(path, split.0) + rest.inScopeSuggestions,
                    EntryOf(path, split.1) + rest.outOfScopeSuggestions)
      else
        ScopedHunks(EntryOf(path, split.0) + rest.inScopeSuggestions,
                    EntryOf(path, split.1) + rest.outOfScopeSuggestions)
  }

  /** What a file's entry in a result map holds, by its hunks. */
  function AsEntry(hunks: seq<Hunk>): Option<seq<Hunk>>
  {
    if hunks == [] then None else Some(hunks)
  }

  /** Each output map holds, under a file's path, exactly that file's hunks
      of its side of the split, and nothing for a file without any. */
  lemma {:induction false} LookupScoped(diff: LineDiff, rawChanges: Entries<string, RawContent>, invalidFiles: seq<string>,
                                        validFileLines: Entries<string, seq<Range>>, path: string)
    requires DistinctKeys(rawChanges)
    ensures var r := GetValidSuggestionHunks(diff, rawChanges, invalidFiles, validFileLines);
      match Lookup(rawChanges, path)
      case None =>
        Lookup(r.inScopeSuggestions, path) == None && Lookup(r.outOfScopeSuggestions, path) == None
      case Some(raw) =>
        var split := ScopeFile(diff, path, raw, invalidFiles, validFileLines);
        Lookup(r.inScopeSuggestions, path) == AsEntry(split.0)
        && Lookup(r.outOfScopeSuggestions, path) == AsEntry(split.1)
  {
    if rawChanges != [] {
      var tail := rawChanges[1..];
      DistinctTail(rawChanges);
      LookupScoped(diff, tail, invalidFiles, validFileLines, path);
      var k, raw := rawChanges[0].0, rawChanges[0].1;
      var split := ScopeFile(diff, k, raw, invalidFiles, validFileLines);
      var rest := GetValidSuggestionHunks(diff, tail, invalidFiles, validFileLines);
      assert GetValidSuggestionHunks(diff, rawChanges, invalidFiles, validFileLines)
        == ScopedHunks(EntryOf(k, split.0) + rest.inScopeSuggestions, EntryOf(k, split.1) + rest.outOfScopeSuggestions);
      LookupAfterEntry(k, split.0, rest.inScopeSuggestions, path);
      LookupAfterEntry(k, split.1, rest.outOfScopeSuggestions, path);
    }
  }

  /** The entries after the first still have distinct keys, none of them the first key. */
  lemma DistinctTail<V>(m: Entries<string, V>)
    requires m != [] && DistinctKeys(m)
    ensures DistinctKeys(m[1..]) && m[0].0 !in Keys(m[1..])
  {
    var tail := m[1..];
    forall i, j | 0 <= i < j < |tail| ensures tail[i].0 != tail[j].0 {
      assert tail[i] == m[i + 1] && tail[j] == m[j + 1];
    }
    forall i | 0 <= i < |tail| ensures tail[i].0 != m[0].0 {
      assert tail[i] == m[i + 1];
    }
  }

  lemma LookupAfterEntry(k: string, hunks: seq<Hunk>, rest: Entries<string, seq<Hunk>>, path: string)
    ensures k != path ==> Lookup(EntryOf(k, hunks) + rest, path) == Lookup(rest, path)
    ensures k == path && hunks != [] ==> Lookup(EntryOf(k, hunks) + rest, path) == Some(hunks)
    ensures k == path && hunks == [] ==> Lookup(EntryOf(k, hunks) + rest, path) == Lookup(rest, path)
  {
    if hunks != [] {
      assert (EntryOf(k, hunks) + rest)[1..] == rest;
    } else {
      assert EntryOf(k, hunks) + rest == rest;
    }
  }
}
