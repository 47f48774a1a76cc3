# code-suggester core, modelled in Dafny

code-suggester turns proposed full-file rewrites into inline review
suggestions on a GitHub pull request. This project models its pure core:

- **Suggestion patches** (`getSuggestionPatches`): for every file's raw
  change (old text as it stands in the pull request, new text as
  suggested), compute the changed-line hunks, split them into those inside
  the file's reviewable line ranges and those outside (all of an invalid
  file's hunks are outside), and compile the in-scope hunks into patches
  `(start, end, newContent)`. Modules `Hunks`, `InScopeHunks`, `PatchHandler`.
- **Review comments** (`buildReviewComments`): a map from path to patches
  flattened into review-comment records whose body is a fenced suggestion
  block. Module `ReviewComments`.
- **Pull-request defaults** (`addPullRequestDefaults`): user options with
  every optional field filled in. Module `PullRequestDefaults`.
- **Local git changes** (`findRepoRoot`, `getAllDiffs`, `parseChanges`):
  the outputs of `git rev-parse --show-toplevel` and `git diff --raw` turned
  into a map from path to file data. The commands and file reads are
  parameters. Module `GitDirHandler`.

JavaScript `Map`s are insertion-ordered sequences of `(key, value)` pairs
(`OrderedMaps`), with `get` as `Lookup` and `set` as `Set`; a map the
source builds has distinct keys, and the lemmas about `getSuggestionPatches`
take that of `rawChanges` as their precondition. `String.split` and
`Array.join` on one character are `Text.Split` and `Text.Join`, proved
inverse to each other. Thrown errors are `Result.Failure`.

The scope filter, patch compiler, comment builder and git-change reader
follow the behaviour fixed by `getSuggestionPatches`' doc comment and the
tests:

- Hunks are located by their span in the OLD text, the file as it stands
  in the pull request, because the doc comment of `getSuggestionPatches`
  says it reports "the range of the old version of every file and the
  corresponding new text". Reviewable ranges refer to that text, and a patch
  replaces lines `start..end` of it.
- A hunk is in scope when its old span lies inside one of the file's
  ranges. A file absent from the range map has no scope.
- The line diff that finds each file's hunks is a library call, so the
  pipeline (`GetValidSuggestionHunks`, `GetSuggestionPatches` and the lemmas
  about them) takes it as a parameter of type `Hunks.LineDiff` and holds for
  every diff routine. A lemma that needs more of the routine says so in its
  precondition: that a file's hunks come in line order, or that a file has
  hunks exactly when its two texts differ.
- `Hunks.Diff` is one concrete diff routine, used by the single-line
  scenario lemmas. It strips the longest common prefix and suffix of lines
  and reports the rest as one hunk. A pure insertion is anchored on the
  unchanged line before it (or after it, at the top of the file), so every
  hunk spans at least one existing line.

## Model

| member | source | states |
|---|---|---|
| Hunks.HunksOf | src/github-handler/comment-handler/patch-handler/index.ts:24-26 | there is no hunk exactly when old and new lines agree, and otherwise exactly one; each hunk is a real span of old lines, and its content is exactly the new lines it stands for |
| Hunks.HunksOfRoundTrip | src/github-handler/comment-handler/patch-handler/index.ts:24-26 | replacing the hunk's old span by its content turns the old lines into the new lines |
| Hunks.Diff | src/github-handler/comment-handler/patch-handler/index.ts:24-26 | a file's raw change has no hunk exactly when its old and new text are equal, and otherwise one hunk, which spans lines of both texts |
| Hunks.DiffRoundTrip | src/github-handler/comment-handler/patch-handler/index.ts:24-26 | applying a diff hunk to the old text's lines and joining them gives the new text |
| InScopeHunks.Partition | src/github-handler/comment-handler/patch-handler/index.ts:37-41 | the in-scope side holds only hunks inside some range, the other side only hunks inside none, and together they are the input hunks, none lost or duplicated |
| InScopeHunks.PartitionOrdered | src/github-handler/comment-handler/patch-handler/index.ts:37-41 | splitting keeps line order: ordered, non-overlapping hunks give ordered halves |
| InScopeHunks.PartitionMonotonic | src/github-handler/comment-handler/patch-handler/index.ts:30 | adding reviewable ranges never moves an in-scope hunk out of scope |
| InScopeHunks.ScopeFileSplits | src/github-handler/comment-handler/patch-handler/index.ts:29-30 | an invalid file has no in-scope hunk; a file's two sides together are exactly its diff hunks |
| InScopeHunks.GetValidSuggestionHunks | src/github-handler/comment-handler/patch-handler/index.ts:37-41 | each result map lists its files in the order of `rawChanges` (a JavaScript `Map` iterates in insertion order), holds no empty hunk list, and lists no file twice when `rawChanges` does not |
| InScopeHunks.LookupScoped | src/github-handler/comment-handler/patch-handler/index.ts:37-41 | under each path, the in-scope and out-of-scope maps hold exactly that file's hunks of their side, and no entry for a file without any |
| PatchHandler.PatchOf | src/github-handler/comment-handler/patch-handler/index.ts:42-45 | a patch covers exactly its hunk's old span |
| PatchHandler.PatchOfContent | src/github-handler/comment-handler/patch-handler/index.ts:24-26 | a patch's text splits back into its hunk's new lines |
| PatchHandler.GeneratePatches | src/github-handler/comment-handler/patch-handler/index.ts:42-45 | the patch map has the in-scope map's files, in the same order |
| PatchHandler.LookupGenerated | src/github-handler/comment-handler/patch-handler/index.ts:42-45 | a file's patches are the patches of its in-scope hunks, one per hunk, in order |
| PatchHandler.GetSuggestionPatches | src/github-handler/comment-handler/patch-handler/index.ts:32-47 | both returned maps list their files in the order of `rawChanges`, hold no empty list, and list no file twice when `rawChanges` does not |
| PatchHandler.PatchesComeFromInScopeHunks | src/github-handler/comment-handler/patch-handler/index.ts:37-45 | a file has patches only when it is a changed, valid file, and then they are exactly the patches of its diff hunks lying inside a reviewable range |
| PatchHandler.OutOfScopeHunks | src/github-handler/comment-handler/patch-handler/index.ts:37-46 | the out-of-scope map is the scope filter's, passed through: a file's entry is all its hunks when it is invalid and its hunks outside every range otherwise |
| PatchHandler.InvalidFileHasNoPatches | src/github-handler/comment-handler/patch-handler/index.ts:29 | a file listed as invalid gets no patch |
| PatchHandler.PatchWithinRange | src/github-handler/comment-handler/patch-handler/index.ts:30 | every patch's start and end lie inside one of its file's reviewable ranges |
| PatchHandler.UnchangedFileOmitted | src/github-handler/comment-handler/patch-handler/index.ts:25-26 | given a diff that finds hunks exactly when the texts differ, a file appears in neither the patches nor the out-of-scope suggestions exactly when its old and new text agree |
| PatchHandler.EveryHunkReported | src/github-handler/comment-handler/patch-handler/index.ts:19-22 | every diff hunk of a file is reported: as its patch when in scope and valid, as an out-of-scope suggestion otherwise |
| PatchHandler.PatchesDoNotOverlap | src/github-handler/comment-handler/patch-handler/index.ts:42-45 | when the diff gives a file's hunks in line order, that file's patches, however many, come in line order and no two overlap |
| PatchHandler.SingleLineDiff | src/github-handler/comment-handler/patch-handler/index.ts:24-26 | two texts differing in line k+1 alone differ by the one hunk replacing old line k+1 with the new line |
| PatchHandler.PartitionSingle | src/github-handler/comment-handler/patch-handler/index.ts:28-30 | a lone hunk lands on the in-scope side exactly when some reviewable range covers it, and on the other side otherwise |
| PatchHandler.SingleHunkFile | src/github-handler/comment-handler/patch-handler/index.ts:32-46 | for one file with one hunk and one range: a valid file whose hunk lies inside the range gets that hunk's one patch and no out-of-scope suggestion; an invalid file, or a hunk outside the range, gives no patch and that hunk as the file's one out-of-scope suggestion |
| PatchHandler.TwoHunksFile | src/github-handler/comment-handler/patch-handler/index.ts:32-46 | a valid file with two hunks, the first inside its reviewable range and the second outside it: the first becomes its one patch and the second its one out-of-scope suggestion, so an in-scope edit is kept beside an out-of-scope one |
| PatchHandler.SingleLineChange | src/github-handler/comment-handler/patch-handler/index.ts:32-46 | one changed line k+1 inside the reviewable range of a valid file becomes the patch {start: k+1, end: k+1, newContent: the new line}; outside the range, or in an invalid file, it is the out-of-scope hunk for that line |
| ReviewComments.CommentOf | test/inline-suggest.ts:42-49 | a comment carries the file path, `start_line` = patch start, `line` = patch end, and side and start side "RIGHT" |
| ReviewComments.SuggestedText | test/inline-suggest.ts:43 | a body read as a suggestion is the fence opener, the text, and the closing fence |
| ReviewComments.CommentOfInverse | test/inline-suggest.ts:43-46 | the comment body is exactly "```suggestion\n" + newContent + "```", and the comment gives back its patch |
| ReviewComments.BuildReviewComments | test/inline-suggest.ts:30-101 | one comment per patch (so none for an empty map), all on the right side |
| ReviewComments.BuildAppend | test/inline-suggest.ts:52-95 | the comments of one part of the map all precede those of the next part |
| ReviewComments.CommentPosition | test/inline-suggest.ts:66-95 | patch j of file i becomes the comment after those of all earlier files and earlier patches: map insertion order, then list order |
| ReviewComments.InsertionOrderExample | test/inline-suggest.ts:52-95 | files set as bar.txt then foo.txt come out in that order with the exact bodies and spans the test expects |
| PullRequestDefaults.AddPullRequestDefaults | src/default-options-handler.ts:28-48 | required fields are copied; `force` only when given true; `fork` and `maintainersCanModify` off only when given false; `branch` and `primary` any given string, the empty one included, else "code-suggestions" and "master" |
| PullRequestDefaults.AllSuppliedKept | test/main-pr-option-defaults.ts:115-143 | options with every field supplied produce the settings they spell out |
| PullRequestDefaults.FullySuppliedRoundTrip | test/main-pr-option-defaults.ts:96-113 | fully supplied options are kept field for field |
| PullRequestDefaults.DefaultsIdempotent | src/default-options-handler.ts:37-45 | defaulting already-defaulted settings changes nothing |
| PullRequestDefaults.UpstreamOnlyExample | test/main-pr-option-defaults.ts:26-46 | options with only the required fields get every default |
| GitDirHandler.FindRepoRoot | test/git-dir-handler.ts:72-88 | the root is the command output without trailing line breaks; an error of the command is passed up unchanged |
| GitDirHandler.TrimNewlines | test/git-dir-handler.ts:72-77 | the result is the text up to its trailing line breaks, and ends in none |
| GitDirHandler.TrimNewlinesOf | test/git-dir-handler.ts:72-77 | a path followed by any number of line breaks trims to the path |
| GitDirHandler.FindRepoRootExample | test/git-dir-handler.ts:72-77 | "/home/user/work\n" gives "/home/user/work" |
| GitDirHandler.GetAllDiffs | test/git-dir-handler.ts:90-101 | no record is empty or holds a line break |
| GitDirHandler.GetAllDiffsRoundTrip | test/git-dir-handler.ts:90-101 | records printed one per line split back into exactly those records, with no empty trailing one |
| GitDirHandler.GetAllDiffsExample | test/git-dir-handler.ts:90-101 | the two-record output of the test splits into its two records |
| GitDirHandler.ParseRecord | test/git-dir-handler.ts:140-143 | a record with no tab between status and path is rejected |
| GitDirHandler.ParseRecordText | test/git-dir-handler.ts:107-110 | every well-formed record parses back from its printed form |
| GitDirHandler.ParsedRecordText | test/git-dir-handler.ts:107-110 | a parsed record is well formed and prints back to the line it came from |
| GitDirHandler.GetGitFileData | test/git-dir-handler.ts:115-121 | for every printed record: a deleted file has no content and its old mode, another file has the text read and its new mode, and a failed read is an error; a line that is no printed record, and one without a tab, is an error |
| GitDirHandler.DeletedRecordData | test/git-dir-handler.ts:120-121 | a "D" record yields null content and the pre-deletion mode, not 000000 |
| GitDirHandler.ChangedRecordData | test/git-dir-handler.ts:116-119 | an added or modified record yields the file's text and its new mode, or the read error |
| GitDirHandler.ParseAll | test/git-dir-handler.ts:115-139 | success exactly when every record parses and reads, then one entry per record in order; otherwise the error of the first failing record |
| GitDirHandler.ParseChanges | test/git-dir-handler.ts:122-139 | fails exactly when some record fails, with that error |
| GitDirHandler.ParseChangesLookup | test/git-dir-handler.ts:115-121 | each path maps to the data of its last record, and no path appears twice |
| GitDirHandler.NoTabRejected | test/git-dir-handler.ts:140-143 | one record without a tab makes the whole parse fail |

## Left out

- `comment` (the caller of `getSuggestionPatches`), `makeInlineSuggestions` and `fork`: they only make GitHub API calls and pass their errors on.
- The line-diff library itself: the pipeline takes the diff routine as a parameter, and `Hunks.Diff` is the one concrete routine modelled.
- HunksOf: reports all changed lines of a file as one hunk, from the first line that differs to the last. Separate edits are merged, and the hunk then spans the unchanged lines between them, whereas the library reports only the lines whose old and new contents differ. A minimum-edit diff is not modelled.
- Diff: inherits the single hunk of HunksOf. Only the single-line scenario lemmas use it; the pipeline's lemmas hold for any diff routine, including one that finds several hunks.
- PatchesDoNotOverlap: assumes, as its precondition, that the diff routine gives a file's hunks in line order without overlap. The line-diff library's output has that shape; the model does not prove it, since the library is not modelled.
- Splitting a hunk that straddles a range boundary: a hunk is in scope only when wholly inside one range, and otherwise wholly out of scope.
- Range validation: ranges are taken as the scope resolver delivers them.
- The `rawChanges` argument of `generatePatches`: patches are built from the hunks alone.
- Trailing-newline normalisation in the diff: "a" and "a\n" differ by one line.
- Line ends other than "\n".
- `resolvePath` and the directory arguments of `findRepoRoot`, `getAllDiffs` and `parseChanges`: they depend on `process.cwd()` and the file system. File contents come in as a map from relative path to text, and command outputs as strings or results.
- The command call itself in `findRepoRoot`: the output is a parameter, and a thrown error is a `Failure`.
- JavaScript truthiness of non-boolean option values, and null or undefined required fields: required fields are plain strings, optional ones `Option`.
- The key count in the test "Uses all of user's provided options": a datatype has a fixed set of fields.
- GetAllDiffs: drops every empty piece, not only the final one; git never prints an empty record line.
- FindRepoRoot: removes trailing "\n" characters only, not other trailing whitespace.
