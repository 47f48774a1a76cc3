/** `buildReviewComments`: patches flattened into the inline comments of one
    pull-request review, each a fenced suggestion block. */
module ReviewComments {
  import opened Wrappers
  import opened OrderedMaps
  import opened PatchHandler

  /** The review-comment record the hosting API takes. */
  datatype Comment = Comment(body: string, path: string, startLine: int, line: int, side: string, startSide: string)

  const SuggestionOpen: string := "```suggestion\n"
  const SuggestionClose: string := "```"
  /** Suggestions apply to the right-hand (new) side of the diff. */
  const Right: string := "RIGHT"

  /** The comment suggesting patch `p` of file `path`. */
  function CommentOf(path: string, p: Patch): (c: Comment)
    ensures c.path == path && c.startLine == p.start && c.line == p.end
    ensures c.side == Right && c.startSide == Right
  {
    Comment(SuggestionOpen + p.newContent + SuggestionClose, path, p.start, p.end, Right, Right)
  }

  /** The suggestion text inside a comment body, if it is a suggestion block. */
  function SuggestedText(body: string): (r: Option<string>)
    ensures r.Some? ==> body == SuggestionOpen + r.value + SuggestionClose
  {
    var lo, hi := |SuggestionOpen|, |SuggestionClose|;
    if |body| >= lo + hi && body[..lo] == SuggestionOpen && body[|body| - hi..] == SuggestionClose then
      assert body == body[..lo] + body[lo..|body| - hi] + body[|body| - hi..];
      Some(body[lo..|body| - hi])
    else None
  }

  /** A comment gives its patch back: the body wraps exactly the patch's text
      and the line fields are its span. */
  lemma CommentOfInverse(path: string, p: Patch)
    ensures var c := CommentOf(path, p);
      SuggestedText(c.body) == Some(p.newContent)
      && Patch(c.startLine, c.line, SuggestedText(c.body).value) == p
  {
    var body := SuggestionOpen + p.newContent + SuggestionClose;
    assert body[..|SuggestionOpen|] == SuggestionOpen;
    assert body[|body| - |SuggestionClose|..] == SuggestionClose;
    assert body[|SuggestionOpen|..|body| - |SuggestionClose|] == p.newContent;
  }

  /** The number of patches in all files. */
  function TotalPatches(suggestions: Entries<string, seq<Patch>>): nat
  {
    if suggestions == [] then 0 else |suggestions[0].1| + TotalPatches(suggestions[1..])
  }

  function FileComments(path: string, patches: seq<Patch>): (cs: seq<Comment>)
    ensures |cs| == |patches|
    ensures forall j :: 0 <= j < |patches| ==> cs[j] == CommentOf(path, patches[j])
  {
    if patches == [] then [] else [CommentOf(path, patches[0])] + FileComments(path, patches[1..])
  }

  /** `buildReviewComments`: one comment per patch, files in map order and
      patches in list order. */
  function BuildReviewComments(suggestions: Entries<string, seq<Patch>>): (cs: seq<Comment>)
    ensures |cs| == TotalPatches(suggestions)
    ensures forall c :: c in cs ==> c.side == Right && c.startSide == Right
  {
    if suggestions == [] then []
    else FileComments(suggestions[0].0, suggestions[0].1) + BuildReviewComments(suggestions[1..])
  }

  /** Flattening distributes over joining maps: one map's comments all come
      before the next one's. */
  lemma {:induction false} BuildAppend(a: Entries<string, seq<Patch>>, b: Entries<string, seq<Patch>>)
    ensures BuildReviewComments(a + b) == BuildReviewComments(a) + BuildReviewComments(b)
    ensures TotalPatches(a + b) == TotalPatches(a) + TotalPatches(b)
  {
    if a != [] {
      assert (a + b)[1..] == a[1..] + b;
      BuildAppend(a[1..], b);
    } else {
      assert a + b == b;
    }
  }

  /** Patch `j` of file `i` becomes the comment right after the comments of
      all earlier files and earlier patches of the same file. */
  lemma CommentPosition(suggestions: Entries<string, seq<Patch>>, i: nat, j: nat)
    requires i < |suggestions| && j < |suggestions[i].1|
    ensures TotalPatches(suggestions[..i]) + j < |BuildReviewComments(suggestions)|
    ensures BuildReviewComments(suggestions)[TotalPatches(suggestions[..i]) + j]
            == CommentOf(suggestions[i].0, suggestions[i].1[j])
  {
    var before, rest := suggestions[..i], suggestions[i..];
    assert suggestions == before + rest;
    BuildAppend(before, rest);
    var k := TotalPatches(before);
    var cs := BuildReviewComments(rest);
    assert cs == FileComments(rest[0].0, rest[0].1) + BuildReviewComments(rest[1..]);
    assert rest[0] == suggestions[i];
    assert cs[j] == CommentOf(suggestions[i].0, suggestions[i].1[j]);
    assert BuildReviewComments(suggestions) == BuildReviewComments(before) + cs;
  }

  /** Two files set in the order bar.txt, foo.txt come out in that order,
      not sorted, with foo.txt's two patches in list order. */
  lemma InsertionOrderExample()
    ensures var p1, p2 := Patch(1, 2, "Foo"), Patch(3, 4, "Bar");
      BuildReviewComments([("bar.txt", [p1]), ("foo.txt", [p1, p2])]) == [
        Comment("```suggestion\nFoo```", "bar.txt", 1, 2, "RIGHT", "RIGHT"),
        Comment("```suggestion\nFoo```", "foo.txt", 1, 2, "RIGHT", "RIGHT"),
        Comment("```suggestion\nBar```", "foo.txt", 3, 4, "RIGHT", "RIGHT")]
  {
    var p1, p2 := Patch(1, 2, "Foo"), Patch(3, 4, "Bar");
    var m := [("bar.txt", [p1]), ("foo.txt", [p1, p2])];
    CommentPosition(m, 0, 0);
    CommentPosition(m, 1, 0);
    CommentPosition(m, 1, 1);
    assert m[..0] == [] && m[..1] == [("bar.txt", [p1])];
    assert TotalPatches(m[..1]) == 1;
    assert TotalPatches(m) == 3 by {
      assert m[1..][1..] == [];
    }
    assert SuggestionOpen + "Foo" + SuggestionClose == "```suggestion\nFoo```";
    assert SuggestionOpen + "Bar" + SuggestionClose == "```suggestion\nBar```";
  }
}
