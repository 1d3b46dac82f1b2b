# Absorb, bonsai–git mapping, GitHub mock and osutil — a verified model

This project models, in Dafny, the core of four components of the Sapling /
Mononoke source tree and proves properties of that model.

* **`absorb`** (`eden/scm/sapling/ext/absorb/__init__.py`) folds the changes
  of the working copy into the draft commits that last touched the changed
  lines. The model covers:
  * the linelog revision numbering: original content `i` is revision
    `2i+1`, and its fixups are revision `2i+2` (`AbsorbRevisions`);
  * the gap analysis behind `_iscontinuous` (`AbsorbGaps`);
  * chunk attribution (`_analysediffchunk`) and fixup merging
    (`_optimizefixups`) (`AbsorbChunks`);
  * the per-file state that `diffwith` fills in (`AbsorbState`);
  * the `--edit-lines` editor text and its parser (`AbsorbEditor`);
  * `uniq`, `getdraftstack`, `_willbecomenoop` and the hunk splice of
    `overlaydiffcontext` (`AbsorbStack`).
* **bonsai–git mapping** (`eden/mononoke/bonsai_git_mapping/src/lib.rs`,
  module `BonsaiGitMapping`). The model covers:
  * the `BonsaisOrGitShas` helpers;
  * reading the git commit id from a bonsai changeset's hg extras;
  * classifying a prefix lookup;
  * the two "every id must be mapped" conversions.
* **GitHub mock server** (`eden/scm/edenscm/ext/github/mock_utils.py`,
  module `GitHubMock`). The model covers:
  * canonical request keys;
  * the four kinds of mock request and their canned answers;
  * the server's table of expected requests;
  * the `git push` short-circuit.
* **`osutil`** (`eden/scm/sapling/cext/osutil.c`, module `OsUtil`). The
  model covers:
  * the entry-kind mappings;
  * the filtering loop of `_listdir_stat`;
  * `statfiles`;
  * the Windows search pattern;
  * the `posixfile` mode decoding;
  * the FILETIME conversion;
  * the argv rewrite of `setprocname`.

Stores, linelogs, directories, `lstat` and argv buffers are not modelled
as systems. Their answers are inputs: an annotated checkout, the rows
returned by `get`, the entries returned by `readdir`, an `lstat` function.
Code that mutates objects is modelled with classes (`FileFixupState`,
the mock requests, `MockGitHubServer`) or arrays (`StatFiles`,
`BuildPattern`, `DecodeMode`, `SetProcName`). Loops become methods that
are proved against specification functions. Pure logic is modelled as
functions and lemmas.

## Model

| member | source | states |
|---|---|---|
| AbsorbRevisions.StackIndexInverts | eden/scm/sapling/ext/absorb/__init__.py:224-232 | content `i` sits at odd revision `2i+1` and its fixups at the even revision `2i+2`; both map back to stack index `i` through `(max(rev,1)-1)//2` |
| AbsorbRevisions.GetLineByRevision | eden/scm/sapling/ext/absorb/__init__.py:476-482 | a line tagged with an original revision resolves to that content's line; a line tagged with a fixup revision resolves to the target's line, and only when that line exists |
| AbsorbRevisions.RelabelEnd | eden/scm/sapling/ext/absorb/__init__.py:288-291 | the trailing "end" entry takes the tag of the line before it when there is one; every other entry is unchanged |
| AbsorbGaps.CalculateGapLines | eden/scm/sapling/ext/absorb/__init__.py:1085-1098 | the loop, as written, computes the scan `GapLines` over the full-history checkout |
| AbsorbGaps.GapLinesWellFormed | eden/scm/sapling/ext/absorb/__init__.py:1089-1098 | the gap list is strictly increasing, never negative, and has at most one gap per deleted entry |
| AbsorbGaps.CalculateGapLinesFixed | eden/scm/sapling/ext/absorb/__init__.py:1085-1098 | the loop with deleted entries kept out of the line numbering computes `GapLinesFixed` |
| AbsorbGaps.GapLinesFixedCorrect | eden/scm/sapling/ext/absorb/__init__.py:1089-1098 | with the intended numbering, `k` is a gap exactly when visible line `k` is directly followed by a deleted line; the list is strictly increasing and names only existing lines |
| AbsorbGaps.GapLinesMisnumbered | eden/scm/sapling/ext/absorb/__init__.py:1092-1097 | on the history deleted, kept, deleted, kept the code as written records 1.5 while the deletion follows line 0 (0.5) |
| AbsorbGaps.GapLinesAgree | eden/scm/sapling/ext/absorb/__init__.py:1089-1098 | the scan as written and the corrected scan give the same gap list whenever every deleted entry directly follows a visible one |
| AbsorbGaps.StrictlyIncreasingIsSorted | eden/scm/sapling/ext/absorb/__init__.py:492 | a strictly increasing gap list is sorted, so `bisect_left` applies to it |
| AbsorbGaps.BisectLeft | eden/scm/sapling/ext/absorb/__init__.py:492 | `bisect_left` returns the first index whose gap is at least `a1`; all gaps before it are smaller |
| AbsorbGaps.IsContinuous | eden/scm/sapling/ext/absorb/__init__.py:484-496 | `_iscontinuous(a1, a2)` is true exactly when no gap position `k+0.5` lies strictly between `a1` and `a2`, and always when `a1 >= a2` |
| AbsorbChunks.OptimizeFixups | eden/scm/sapling/ext/absorb/__init__.py:498-527 | the merge loop computes `Optimize`, the one-pass scan with the `-1` placeholder chunk |
| AbsorbChunks.OptimizeBounded | eden/scm/sapling/ext/absorb/__init__.py:498-527 | merging never lengthens the list and never emits the placeholder revision `-1` |
| AbsorbChunks.OptimizeIsMergeRuns | eden/scm/sapling/ext/absorb/__init__.py:498-527 | the loop equals an independent definition that merges each maximal run of joinable fixups into one fixup |
| AbsorbChunks.MergeRunsElement | eden/scm/sapling/ext/absorb/__init__.py:511-524 | every merged fixup spans one run of the input: its `a1`/`b1` come from the run's first fixup and its `a2`/`b2` from the run's last |
| AbsorbChunks.RunRevision | eden/scm/sapling/ext/absorb/__init__.py:515 | all fixups in a run carry the revision of the run's first fixup |
| AbsorbChunks.RunCovers | eden/scm/sapling/ext/absorb/__init__.py:513-520 | every line inside a merged span lies inside one of the run's own ranges |
| AbsorbChunks.MergeRunsCovers | eden/scm/sapling/ext/absorb/__init__.py:511-524 | conversely, every input fixup lies inside one run whose merged span is in the output, so merging loses no fixup |
| AbsorbChunks.OptimizeIdempotent | eden/scm/sapling/ext/absorb/__init__.py:498-527 | the result is maximal (no two neighbours are joinable), and optimising it again changes nothing |
| AbsorbChunks.MergeRunsKeepsLines | eden/scm/sapling/ext/absorb/__init__.py:498-527 | merging keeps the total number of replaced lines and of target lines |
| AbsorbChunks.AnalyseDiffChunk | eden/scm/sapling/ext/absorb/__init__.py:330-377 | the method computes `Analyse`: single-revision path, else the 1:1 or deletion per-line path, then `_optimizefixups` |
| AbsorbChunks.AnalyseSingleRevision | eden/scm/sapling/ext/absorb/__init__.py:356-361 | when exactly one revision is involved and the range is continuous, the result is exactly one fixup covering the whole hunk, for the revision after the involved one, when that revision exceeds 1; for revision 1 (the public changeset) or lower it is empty |
| AbsorbChunks.AnalysePerLine | eden/scm/sapling/ext/absorb/__init__.py:362-376 | otherwise, for 1:1 or deleting hunks, every fixup lies inside the hunk, all its lines belong to its revision minus one, and it maps line for line (or to `0..0` when deleting); and every line of the hunk annotated with a revision above 1 is covered by some fixup for that revision plus one, so no absorbable line is dropped |
| AbsorbChunks.AnalyseAttribution | eden/scm/sapling/ext/absorb/__init__.py:347-376 | every fixup's revision is an involved revision plus one and exceeds 2, and every line it replaces belongs to that involved revision |
| AbsorbChunks.AnalyseOutcomes | eden/scm/sapling/ext/absorb/__init__.py:353-376 | the three outcomes by hunk shape: single-revision (exactly the whole-hunk fixup, or nothing when the revision is at most 1), deletion and 1:1 (sound and covering every absorbable line); a hunk of any other shape yields no fixup |
| AbsorbEditor.SplitLinesJoin | eden/scm/sapling/ext/absorb/__init__.py:462 | `splitlines(True)` keeps every character: the lines join back to the text, and none is empty |
| AbsorbEditor.JoinSplitLines | eden/scm/sapling/ext/absorb/__init__.py:462 | splitting the concatenation of newline-terminated lines gives those lines back |
| AbsorbEditor.AddRow | eden/scm/sapling/ext/absorb/__init__.py:467-469 | the column loop appends the row's content to every revision whose column is `y`, and changes nothing else |
| AbsorbEditor.ParseEditedText | eden/scm/sapling/ext/absorb/__init__.py:455-469 | the parse loop computes `ParseText`: empty text aborts, header lines are skipped, the first malformed line aborts |
| AbsorbEditor.ParseLinesMeaning | eden/scm/sapling/ext/absorb/__init__.py:458-469 | the parse succeeds exactly when every line is a header or a row; otherwise it fails with the first line that is neither. Each visible revision gets exactly its column's flagged rows, and a hidden revision gets nothing |
| AbsorbEditor.EditorRoundTrip | eden/scm/sapling/ext/absorb/__init__.py:446-469 | rendering headers and rows as `"    flags : line"` and parsing the result gives each visible revision the lines flagged in its column |
| AbsorbState.AnalyseHunks | eden/scm/sapling/ext/absorb/__init__.py:294-300 | the hunk loop of `diffwith` collects every hunk's fixups in order and counts the hunks that yielded any |
| AbsorbState.AllFixupsAttributed | eden/scm/sapling/ext/absorb/__init__.py:294-300 | at most every hunk is adopted; none is adopted exactly when there are no fixups; every fixup is attributed to a revision after the first |
| AbsorbState.FileFixupState.constructor | eden/scm/sapling/ext/absorb/__init__.py:243-268 | starts with chunkstats `(0, 0)` and no fixups; the gap lines are those of the corrected scan of the Findings row, so they hold exactly the gaps of the history (the program stores the scan as written) |
| AbsorbState.FileFixupState.DiffWith | eden/scm/sapling/ext/absorb/__init__.py:271-300 | sets the target lines; appends the fixups of the relabelled annotation; adds the adopted and total hunk counts; keeps adopted <= total and every fixup past revision 2 |
| AbsorbState.FileFixupState.EditLines | eden/scm/sapling/ext/absorb/__init__.py:455-475 | returns the parse of the edited text; chunkstats become `(1, 1)` exactly when the parse succeeds and the text changed, and are otherwise kept |
| AbsorbStack.Uniq | eden/scm/sapling/ext/absorb/__init__.py:89-97 | no duplicates, the same items as the input, in order of first occurrence |
| AbsorbStack.GetDraftStack | eden/scm/sapling/ext/absorb/__init__.py:100-119 | the result is a first-parent chain, oldest first, ending at the head; every item is draft with one parent; there are at most `limit` items when a limit is set; the walk stopped at a public or obsolete changeset, a merge, or the limit |
| AbsorbStack.WillBecomeNoopMeaning | eden/scm/sapling/ext/absorb/__init__.py:774-797 | with no given parent and other than one parent it is false; otherwise, when the files list names every changed path, it holds exactly when the commit with the overrides written over it has the parent's manifest, the commit touches only overridden paths, and every overridden path is in the commit |
| AbsorbStack.NoopNotDetected | eden/scm/sapling/ext/absorb/__init__.py:785-787 | the answer is conservative: a commit whose files list names a path that is not overridden is never a no-op, even when the rewritten commit equals its parent |
| AbsorbStack.SpliceDescending | eden/scm/sapling/ext/absorb/__init__.py:856-863 | splicing ascending, non-overlapping patches in descending order gives the left-to-right patched file |
| AbsorbStack.PatchedKeepsOutside | eden/scm/sapling/ext/absorb/__init__.py:856-863 | the patched file keeps the lines before the first patch and after the last; its length changes by what the patches add minus what they remove |
| BonsaiGitMapping.IsEmptyIffCountZero | eden/mononoke/bonsai_git_mapping/src/lib.rs:61-73 | `is_empty` holds exactly when `count` is zero, for both kinds of ids |
| BonsaiGitMapping.FromConversions | eden/mononoke/bonsai_git_mapping/src/lib.rs:76-98 | a single id becomes a one-element list of its kind; a list becomes the same list of its kind |
| BonsaiGitMapping.LastOccurrenceWins | eden/mononoke/bonsai_git_mapping/src/lib.rs:303-310 | when a key repeats in the extras, the last value wins |
| BonsaiGitMapping.ExtractGitSha1FromBonsaiExtra | eden/mononoke/bonsai_git_mapping/src/lib.rs:298-320 | `None` exactly when the last source extra is not `git` or there is no `convert_revision`; an error exactly when the revision is not ASCII or does not parse; otherwise the parsed id |
| BonsaiGitMapping.ResolvePrefix | eden/mononoke/bonsai_git_mapping/src/lib.rs:163-171 | zero fetched ids is `NoMatch`; one is `Single`; two up to `limit` is `Multiple` with all of them; more is `TooMany` without the last fetched id |
| BonsaiGitMapping.ResolvePrefixBounded | eden/mononoke/bonsai_git_mapping/src/lib.rs:158-171 | with at most `limit + 1` fetched, every reported list has at most `limit` ids, and `TooMany` holds exactly the first `limit` |
| BonsaiGitMapping.ConvertAllGitToBonsai | eden/mononoke/bonsai_git_mapping/src/lib.rs:222-243 | an error exactly when the row count differs and some git id has no row, and the error set is those ids; otherwise the rows' changeset ids in order |
| BonsaiGitMapping.ConvertAllBonsaiToHg | eden/mononoke/bonsai_git_mapping/src/lib.rs:257-278 | the same rule with bonsai ids requested and git ids returned |
| GitHubMock.ParseIntToString | eden/scm/edenscm/ext/github/mock_utils.py:313 | decimal rendering of an integer parses back to it, so distinct values render distinctly |
| GitHubMock.SortByKeySorted | eden/scm/edenscm/ext/github/mock_utils.py:313 | `sorted(params.items())` yields the same items in strictly ascending key order |
| GitHubMock.SortedUnique | eden/scm/edenscm/ext/github/mock_utils.py:313 | two key-sorted lists with the same items are equal |
| GitHubMock.RequestKeyShape | eden/scm/edenscm/ext/github/mock_utils.py:303-314 | the key is the hostname, endpoint and method, each followed by a bar, then the comma-joined `k=v` items in ascending key order |
| GitHubMock.RequestKeyOrderIndependent | eden/scm/edenscm/ext/github/mock_utils.py:303-314 | parameter dicts with the same items give the same key, whatever their insertion order |
| GitHubMock.MockRunGitCommand | eden/scm/edenscm/ext/github/mock_utils.py:35-47 | a `push` returns empty output; any other command, and no arguments at all, goes to the real runner |
| GitHubMock.PrBranchNameInjective | eden/scm/edenscm/ext/github/mock_utils.py:139 | distinct PR numbers give distinct default branch names `pr{n}` |
| GitHubMock.DefaultHead | eden/scm/edenscm/ext/github/mock_utils.py:139 | an empty head becomes `pr` followed by the issue number, which parses back to the issue; a non-empty head is kept |
| GitHubMock.RespondsExactly | eden/scm/edenscm/ext/github/mock_utils.py:210-228 | after `and_respond(start, n)`, exactly `n` calls succeed, numbered `start` to `start+n-1`, and every later call runs out |
| GitHubMock.GetRepositoryRequest.GetResponse | eden/scm/edenscm/ext/github/mock_utils.py:174-207 | not set until `and_respond`; afterwards the stored payload |
| GitHubMock.CreatePrPlaceholderRequest.constructor | eden/scm/edenscm/ext/github/mock_utils.py:210-215 | a new placeholder request answers once, with number 1 |
| GitHubMock.CreatePrPlaceholderRequest.GetResponse | eden/scm/edenscm/ext/github/mock_utils.py:221-228 | while responses remain, answers the current number, then advances the counter and uses up one response; otherwise runs out and changes nothing |
| GitHubMock.CreatePrPlaceholderRequest.GetResponses | eden/scm/edenscm/ext/github/mock_utils.py:221-228 | `k` calls in a row answer as `Responses` says |
| GitHubMock.CreatePrRequest.AndRespond | eden/scm/edenscm/ext/github/mock_utils.py:240-246 | stores the number and the pull URL `https://github.com/owner/name/pull/n` |
| GitHubMock.GetPrDetailsRequest.AndRespond | eden/scm/edenscm/ext/github/mock_utils.py:263-283 | an empty head name defaults to `pr{n}`; an empty head oid defaults to the SHA-1 hex of the PR id; the payload is stored |
| GitHubMock.MockGitHubServer.AddRequest | eden/scm/edenscm/ext/github/mock_utils.py:99-100 | registering a key again replaces the earlier request |
| GitHubMock.MockGitHubServer.ExpectGetRepositoryRequest | eden/scm/edenscm/ext/github/mock_utils.py:102-113 | registers a new request under the key of `query`/`owner`/`name` on `graphql` |
| GitHubMock.MockGitHubServer.ExpectCreatePrPlaceholderRequest | eden/scm/edenscm/ext/github/mock_utils.py:115-125 | registers a new placeholder request under the issues endpoint of the repository |
| GitHubMock.MockGitHubServer.ExpectCreatePrRequest | eden/scm/edenscm/ext/github/mock_utils.py:127-148 | registers a new PR request for the given owner, name and issue, whose key carries the defaulted head, under the pulls endpoint; after `AndRespond` its answer is therefore fully determined |
| GitHubMock.MockGitHubServer.ExpectGetPrDetailsRequest | eden/scm/edenscm/ext/github/mock_utils.py:150-165 | registers a new details request for the given owner, name and number, under the key of query, owner, name and number |
| GitHubMock.MockGitHubServer.MakeRequest | eden/scm/edenscm/ext/github/mock_utils.py:76-97 | answers with what the request registered under the call's key would answer next, and an unknown key is `MockRequestNotFound` with that key; the registry and every other request are unchanged, a placeholder with responses left advances its number and uses one up, and the other kinds are unchanged |
| OsUtil.EntKind | eden/scm/sapling/cext/osutil.c:408-428 | the kind is `-1` exactly when `d_type` is none of the seven known types, and otherwise a file type: the `d_type` shifted into the file-type bits, as `DTTOIF` computes it |
| OsUtil.AttrKind | eden/scm/sapling/cext/osutil.c:566-584 | the kind is `-1` exactly when `obj_type` is none of the seven vnode types, and otherwise a file type |
| OsUtil.EntKindInjective | eden/scm/sapling/cext/osutil.c:408-428 | distinct known `d_type` values give distinct kinds |
| OsUtil.AttrKindInjective | eden/scm/sapling/cext/osutil.c:566-584 | distinct known vnode types give distinct kinds |
| OsUtil.KindsCovered | eden/scm/sapling/cext/osutil.c:408-428 | both mappings reach every one of the seven file types |
| OsUtil.KindIsTypeBits | eden/scm/sapling/cext/osutil.c:505 | every file type equals its own `st_mode & S_IFMT` bits, so kinds from `d_type` and from `lstat` agree |
| OsUtil.Step | eden/scm/sapling/cext/osutil.c:480-524 | one entry: `.`/`..` and entries that vanish (ENOENT) are dropped; any other `lstat` error fails, naming the entry's full path `path/name`; the `skip` directory quits; anything else is kept with its kind, and with its stat when asked |
| OsUtil.ListOutcomeMeaning | eden/scm/sapling/cext/osutil.c:480-527 | the listing completes exactly when no entry quits or fails, and then holds the kept entries in order; otherwise the first such entry decides the outcome |
| OsUtil.KeptHasNoDots | eden/scm/sapling/cext/osutil.c:481-483 | no listed item is `.` or `..` |
| OsUtil.ListdirStat | eden/scm/sapling/cext/osutil.c:441-527 | a path of `PATH_MAX` characters or more fails with ENAMETOOLONG naming the path; otherwise the loop returns the listing, an empty list when `skip` is met, or the first error, as `ListOutcome` says |
| OsUtil.FullPath | eden/scm/sapling/cext/osutil.c:499-501 | the name an `lstat` error reports: the directory, `/`, then as much of the entry name as fits in `PATH_MAX` characters, and the whole `path/name` when it fits |
| OsUtil.StatSlot | eden/scm/sapling/cext/osutil.c:805-813 | a slot holds a stat exactly for a successful `lstat` of a regular file or symlink |
| OsUtil.StatFiles | eden/scm/sapling/cext/osutil.c:778-817 | one slot per name, in order, each as `StatSlot` says |
| OsUtil.SearchPatternShape | eden/scm/sapling/cext/osutil.c:223-237 | the pattern starts with the path and ends in `*`, with a separator before the `*` for a non-empty path; with its NUL it fits the `plen + 3` buffer |
| OsUtil.BuildPattern | eden/scm/sapling/cext/osutil.c:337-350 | the buffer of `plen + 3` characters holds the search pattern followed by NUL |
| OsUtil.DecodeMode | eden/scm/sapling/cext/osutil.c:1089-1134 | the decoding that writes the `fdopen` mode into its four-byte buffer returns `DecodedMode` of the mode |
| OsUtil.DecodedModeMeaning | eden/scm/sapling/cext/osutil.c:1089-1134 | the binary/text, read-only/read-write and append flags, the access rights, the creation disposition and the `fdopen` mode, each stated from the mode's first three characters; an error exactly when the first is not `r`, `w` or `a`; the `fdopen` mode and its NUL fit four bytes |
| OsUtil.FiletimeSecondsRoundTrip | eden/scm/sapling/cext/osutil.c:157-165 | the tick count of any 32-bit Unix time after 1601, plus any sub-second ticks, converts back to that time |
| OsUtil.ToPythonTimeRoundTrip | eden/scm/sapling/cext/osutil.c:157-165 | the same round trip through the two `DWORD` halves of the FILETIME |
| OsUtil.ArgvImageName | eden/scm/sapling/cext/osutil.c:974-978 | the process name read back from the argv area is the name's bytes, cut to the area's size minus one |
| OsUtil.SetProcName | eden/scm/sapling/cext/osutil.c:957-984 | a name with an embedded NUL is refused and changes nothing; otherwise an argv area of more than one byte gets the `snprintf` image of the name's bytes, with the rest zeroed when the name fits, and a smaller area is left alone |

## Left out

- The linelog engine (`bindings.linelog`), `mdiff` diffing, `_buildlinelog`, `_checkoutlinelog`, `apply`, `getfinalcontent` and commit creation need the native linelog and the repository. The annotated checkout and the diff hunks are inputs.
- `_checkoutlinelogwithedits` is modelled from the edited text on; building the editor text, the editor itself and `identity.tmplprefix()` are inputs. Contents are strings, not byte strings.
- Progress display (`_showchanges`, formatters, `ui`) is left out as output only.
- AbsorbStack.SpliceDescending: the patches are taken ascending and non-overlapping, which `patches.sort(reverse=True)` then reverses. Two empty insertions at the same position are applied in the order given, the earlier one ending up first, while the sort orders them by their new lines. Overlapping hunks, and the parsing of hunks into patches (`_parsechunk`), are not modelled.
- AbsorbStack.GetDraftStack: the repository is a revision-indexed list in which every changeset has at least one parent, the null revision standing for none. A `limit` of `None` is the same as `0`.
- AbsorbState.FileFixupState.constructor: the gap lines come from the corrected scan (`GapLinesFixed`), not from `_calculate_gap_lines` as written (`GapLines`). The two agree whenever every deleted entry directly follows a visible one (`AbsorbGaps.GapLinesAgree`). They differ when a deleted entry leads the history or follows another deleted entry: on deleted, kept, deleted, kept the program holds 1.5 and the model 0.5.
- AbsorbState.FileFixupState.DiffWith: it uses the corrected gap lines, so on histories where the two scans differ its `_iscontinuous` answers, and with them the single-revision fixups and the chunk statistics, can differ from the program's. On deleted, kept, deleted, kept, `_iscontinuous(1, 2)` is true in the model and false in the program. The annotation must have one entry per line plus the end entry, which the source asserts.
- BonsaiGitMapping: the SQL store (`get`, `get_in_range`, `bulk_add` and the other store operations) is not part of this model. What the store returns is an input.
- BonsaiGitMapping.ExtractGitSha1FromBonsaiExtra: `GitSha1::from_ascii_str` is passed in as a function, and so is the hash itself.
- GitHubMock: the GraphQL query constants are parameters. The `real_make_request.__name__` assertion and `async` are left out.
- GitHubMock.GetPrDetailsRequest.AndRespond: `hashlib.sha1(...).hexdigest()` is a parameter.
- GitHubMock.MakeRequest: the Python dict key order of the JSON payload is modelled as a field list.
- OsUtil.StatFiles: `PyErr_CheckSignals` every 1000 names and the UTF-8 conversion failure of a name are left out. They concern signals and Python objects.
- OsUtil.ListdirStat: these parts are left out:
  - the `open`/`opendir` failures, which happen before the loop;
  - `PATH_MAX` is fixed at 4096, the Linux value, and paths and names are strings, so the `PATH_MAX` limits count characters where the program counts bytes;
  - the Python allocation failures;
  - the batched macOS `getattrlistbulk` listing, except `attrkind`;
  - the Windows `FindNextFile` loop and `make_item`.
- OsUtil.SetProcName: `getarg0size`, which finds the argv area, and the static caching of its result are left out. The area is the array argument. The `setproctitle` variant is left out. The name is given as its UTF-8 bytes: the encoding of the Python string, and its failure on unencodable strings, are left out. A name cut to the area can therefore end inside a multibyte sequence, as in the program.
- OsUtil.DecodeMode: opening the file (`CreateFileW`, `_open_osfhandle`, `_fdopen`) is left out.
- OsUtil.ToPythonTime: the left shift of a `DWORD` above `2^31` into the sign bit is modelled as two's-complement wrap-around, as compilers implement it.

## Findings

| source | as written | input that shows it | evidently intended | confidence | as-written member | corrected member |
|---|---|---|---|---|---|---|
| eden/scm/sapling/ext/absorb/__init__.py:1092-1097 | in `_calculate_gap_lines`, a deleted entry that records no gap (leading, or right after another deleted entry) takes the `else` branch and advances `lineno` as if it were a visible line | full history deleted, kept, deleted, kept: gives `[1.5]` | `[0.5]`: the deletion follows visible line 0, and deleted entries should never advance the numbering | medium, not executed | AbsorbGaps.GapLinesMisnumbered | AbsorbGaps.GapLinesFixedCorrect |
