/** Raw file changes and the changed-line hunks between their two versions.

    The system computes hunks with a line-diff library. The pipeline of
    `InScopeHunks` and `PatchHandler` takes that routine as a parameter of
    type `LineDiff`; `Diff` below is one concrete instance, which strips the
    longest common prefix and suffix of lines and reports what remains as a
    single hunk. */
module Hunks {
  import opened Text

  /** The content of one file before (`oldContent`, as it stands in the pull
      request) and after (`newContent`, as suggested) a proposed rewrite. */
  datatype RawContent = RawContent(oldContent: string, newContent: string)

  /** A changed region: old lines `oldStart..oldEnd` (1-based, inclusive) are
      replaced by `newContent`, which occupies new lines `newStart..newEnd`. */
  datatype Hunk = Hunk(oldStart: int, oldEnd: int, newStart: int, newEnd: int, newContent: seq<string>)

  /** A line-diff routine: the hunks turning a file's old text into its new text. */
  type LineDiff = RawContent -> seq<Hunk>

  /** The hunks come in ascending line order and do not overlap. */
  predicate Ordered(hunks: seq<Hunk>) {
    forall i, j :: 0 <= i < j < |hunks| ==> hunks[i].oldEnd < hunks[j].oldStart
  }

  /** The lines of a text, split on "\n". */
  function LinesOf(s: string): seq<string>
  {
    Split(s, '\n')
  }

  /** `h` is a real line span of `oldLines` whose replacement is exactly
      new lines `newStart..newEnd` of `newLines`. */
  predicate Spans(h: Hunk, oldLines: seq<string>, newLines: seq<string>) {
    && 1 <= h.oldStart <= h.oldEnd <= |oldLines|
    && 1 <= h.newStart && h.newStart - 1 <= h.newEnd <= |newLines|
    && h.newContent == newLines[h.newStart - 1..h.newEnd]
  }

  /** Replace the hunk's old span of `lines` by its new content. */
  function Apply(lines: seq<string>, h: Hunk): seq<string>
    requires 1 <= h.oldStart <= h.oldEnd + 1 <= |lines| + 1
  {
    lines[..h.oldStart - 1] + h.newContent + lines[h.oldEnd..]
  }

  /** The number of leading lines `a` and `b` share. */
  function CommonPrefix(a: seq<string>, b: seq<string>): (n: nat)
    ensures n <= |a| && n <= |b|
    ensures forall i :: 0 <= i < n ==> a[i] == b[i]
    ensures n < |a| && n < |b| ==> a[n] != b[n]
  {
    if a == [] || b == [] || a[0] != b[0] then 0
    else 1 + CommonPrefix(a[1..], b[1..])
  }

  /** The number of trailing lines `a` and `b` share, looking no further
      back than index `lo` of either. */
  function CommonSuffix(a: seq<string>, b: seq<string>, lo: nat): (n: nat)
    requires lo <= |a| && lo <= |b|
    ensures n <= |a| - lo && n <= |b| - lo
    ensures forall i :: |a| - n <= i < |a| ==> a[i] == b[i + |b| - |a|]
    ensures n < |a| - lo && n < |b| - lo ==> a[|a| - 1 - n] != b[|b| - 1 - n]
    decreases |a|
  {
    if |a| == lo || |b| == lo || a[|a| - 1] != b[|b| - 1] then 0
    else
      var a', b' := a[..|a| - 1], b[..|b| - 1];
      var n := 1 + CommonSuffix(a', b', lo);
      assert forall i :: |a| - n <= i < |a| - 1 ==> a[i] == a'[i] && b[i + |b| - |a|] == b'[i + |b'| - |a'|];
      n
  }

  /** The hunk for old and new lines that share `p` leading and `s` trailing
      lines. A pure insertion has no old line of its own, so it is anchored
      on the unchanged line before it (or, at the top of the file, after
      it), which then appears on both sides. */
  function TrimmedHunk(o: seq<string>, n: seq<string>, p: nat, s: nat): (h: Hunk)
    requires 1 <= |o| && p + s <= |o| && p + s <= |n|
    requires p + s < |o| || p + s < |n|
    ensures Spans(h, o, n)
  {
    if p + s < |o| then Hunk(p + 1, |o| - s, p + 1, |n| - s, n[p..|n| - s])
    else if p > 0 then Hunk(p, p, p, |n| - s, n[p - 1..|n| - s])
    else Hunk(1, 1, 1, |n| - s + 1, n[..|n| - s + 1])
  }

  /** Where old and new lines agree on `p` leading and `s` trailing lines,
      applying their trimmed hunk to the old lines gives the new lines. */
  lemma TrimmedHunkApplies(o: seq<string>, n: seq<string>, p: nat, s: nat)
    requires 1 <= |o| && p + s <= |o| && p + s <= |n|
    requires p + s < |o| || p + s < |n|
    requires forall i :: 0 <= i < p ==> o[i] == n[i]
    requires forall i :: |o| - s <= i < |o| ==> o[i] == n[i + |n| - |o|]
    ensures Apply(o, TrimmedHunk(o, n, p, s)) == n
  {
    if p + s < |o| {
      ApplySplice(o, n, p, |o| - s, |n| - s);
    } else if p > 0 {
      ApplySplice(o, n, p - 1, p, |n| - s);
    } else {
      ApplySplice(o, n, 0, 1, |n| - s + 1);
    }
  }

  /** The hunks turning `oldLines` into `newLines`: the lines outside their
      common prefix and suffix, as one hunk. */
  function HunksOf(oldLines: seq<string>, newLines: seq<string>): (hs: seq<Hunk>)
    requires |oldLines| >= 1
    ensures |hs| <= 1
    ensures hs == [] <==> oldLines == newLines
    ensures forall h :: h in hs ==> Spans(h, oldLines, newLines)
  {
    var o, n := oldLines, newLines;
    var p := CommonPrefix(o, n);
    var s := CommonSuffix(o, n, p);
    if p + s == |o| && p + s == |n| then
      assert o == n by {
        forall k | 0 <= k < |o| ensures o[k] == n[k] {
        }
      }
      []
    else
      [TrimmedHunk(o, n, p, s)]
  }

  /** Replacing old lines `a..b-1` (0-based) by new lines `a..m-1` gives the
      new lines when the old and new lines agree before `a` and from `b`
      (old) and `m` (new) onwards. */
  lemma ApplySplice(o: seq<string>, n: seq<string>, a: nat, b: nat, m: nat)
    requires 1 <= a + 1 <= b + 1 <= |o| + 1 && a <= m <= |n|
    requires |o| - b == |n| - m
    requires forall i :: 0 <= i < a ==> o[i] == n[i]
    requires forall i :: b <= i < |o| ==> o[i] == n[i + |n| - |o|]
    ensures Apply(o, Hunk(a + 1, b, a + 1, m, n[a..m])) == n
  {
    assert o[..a] == n[..a];
    assert o[b..] == n[m..] by {
      forall i | 0 <= i < |o| - b ensures o[b..][i] == n[m..][i] {
        assert o[b + i] == n[b + i + |n| - |o|];
      }
    }
    assert n[..a] + n[a..m] + n[m..] == n;
  }

  /** Applying the hunks of `HunksOf` to the old lines gives the new lines. */
  lemma HunksOfRoundTrip(oldLines: seq<string>, newLines: seq<string>, h: Hunk)
    requires |oldLines| >= 1
    requires h in HunksOf(oldLines, newLines)
    ensures Apply(oldLines, h) == newLines
  {
    var o, n := oldLines, newLines;
    var p := CommonPrefix(o, n);
    TrimmedHunkApplies(o, n, p, CommonSuffix(o, n, p));
  }

  /** The hunks of one file's raw change: an unchanged file has none, and a
      changed one has exactly one. */
  function Diff(raw: RawContent): (hs: seq<Hunk>)
    ensures |hs| <= 1 && Ordered(hs)
    ensures hs == [] <==> raw.oldContent == raw.newContent
    ensures forall h :: h in hs ==> Spans(h, LinesOf(raw.oldContent), LinesOf(raw.newContent))
  {
    var hs := HunksOf(LinesOf(raw.oldContent), LinesOf(raw.newContent));
    JoinSplit(raw.oldContent, '\n');
    JoinSplit(raw.newContent, '\n');
    hs
  }

  /** Applying the diff's hunks to the old text gives the new text. */
  lemma DiffRoundTrip(raw: RawContent, h: Hunk)
    requires h in Diff(raw)
    ensures Join(Apply(LinesOf(raw.oldContent), h), '\n') == raw.newContent
  {
    HunksOfRoundTrip(LinesOf(raw.oldContent), LinesOf(raw.newContent), h);
    JoinSplit(raw.newContent, '\n');
  }
}
