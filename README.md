# aipr — verified model of the issue-to-patch script

`aipr.py` reads an issue text, finds the file paths it mentions, asks a
completion endpoint for new content for each of those files (whole, or one
fixed-size chunk at a time), diffs old against new content and keeps every
non-blank diff as a patch. This project models the string and sequence logic
between those outside calls, and proves what it does:

- `pystr.dfy` (module `PyStr`): the Python string built-ins the script relies
  on. These are integer slicing with Python's bound rules, `str.strip()` with
  Python's whitespace set, and `"".join`.
- `chunking.dfy` (module `Chunking`): `split_into_chunks`, as the `while`
  loop of the script. It is proved against a recursive chunk-list function.
  A second lemma shows the loop never ends normally on non-empty text for a chunk
  size of zero or below.
- `completion.dfy` (module `Completion`): `request_changes_from_openai` and
  `request_changes_from_openai_in_chunks`. The endpoint is an oracle: a
  function from (file name, content) to either "raised" or a list of choice
  texts. The chunked version is the script's `for` loop, proved against a
  function of the chunk list.
- `pathrefs.dfy` (module `PathRefs`): `extract_specific_file_path`, as a
  hand-written left-to-right scanner for the pattern `\.?/[\w/.-]+\.\w+`.
  It is proved to return exactly the leftmost-longest, non-overlapping
  matches that `re.findall` returns. The module also models the
  `lstrip(".")`, `os.path.join` and `os.path.abspath` resolution step.
- `driver.dfy` (module `Driver`): the loop of the main block. It picks the
  mode from `int(chunks)`, asks for new content for referenced files, and
  fills the `patches` dictionary with the non-blank patches.

Where the description of the tool and the code disagree, the model follows
the code:

- A path written without a leading `./` or `/`, such as `docs/readme.md`,
  is extracted as `/readme.md`: everything before the first slash is lost
  (`src/app/main.py` gives `/app/main.py`). The match cannot begin at a word
  character, so it begins at the first slash (`PathRefs.DirectoryPrefixDropped`).
- Every extracted path begins with `/` once its leading dot is stripped. So
  `os.path.join(directory, …)` discards the target directory, and paths are
  not resolved under it (`PathRefs.ReferencesIgnoreDirectory`).
- The names of the files read come from `os.path.join(root, file)` under the
  target directory. For the default `./` they are relative (`./src/app.py`).
  The resolved references are absolute, so no file is ever processed
  (`Driver.RelativeNamesGiveNoPatches`).
- Chunked mode strips each chunk's reply separately. So even an endpoint
  that echoes its input can give different content in the two modes: on
  `"a \nb"` with chunk size 2, whole-file mode gives back `"a \nb"` and
  chunked mode gives `"ab"` (`Completion.EchoModesDisagree`).
- The chunked output reproduces the input under an echoing endpoint
  exactly when no chunk begins or ends with whitespace
  (`Completion.EchoKeepsUnpaddedChunks`, both directions).

## Model

| member | source | states |
|---|---|---|
| PyStr.IsSpace | aipr.py:50 | the characters `str.strip()` removes, Python's `str.isspace()` set; the contracts of `LStrip`, `RStrip`, `Strip` and `BlankIffAllSpace` state what is removed in its terms |
| PyStr.SliceTo | aipr.py:37 | `text[:chunk_size]`; `SliceSplit` states its length under Python's bound rules and that it and `SliceFrom` split the text |
| PyStr.SliceFrom | aipr.py:38 | `text[chunk_size:]`; `SliceSplit` states what it keeps under Python's bound rules |
| PyStr.SliceSplit | aipr.py:37-38 | `s[:k] + s[k:] == s` for every integer `k`; `s[:k]` has `min(k, len(s))` characters for `k >= 0`, and `s[k:]` has `min(-k, len(s))` for `k < 0` |
| PyStr.LStrip | aipr.py:50 | the result is a suffix of the input, everything removed is whitespace, and the result does not start with whitespace |
| PyStr.RStrip | aipr.py:50 | the result is a prefix of the input, everything removed is whitespace, and the result does not end with whitespace |
| PyStr.Strip | aipr.py:50 | `str.strip()` gives a contiguous piece `s[i..j]` of the input, all characters outside it are whitespace, and the piece neither starts nor ends with whitespace |
| PyStr.BlankIffAllSpace | aipr.py:100 | `not patch.strip()` holds exactly when every character of the patch is whitespace, in both directions |
| PyStr.StripIdempotent | aipr.py:50 | stripping an already stripped text changes nothing |
| PyStr.StripShortens | aipr.py:50 | stripping never lengthens a text and strictly shortens every text it changes |
| PyStr.IsBlank | aipr.py:100 | `not patch.strip()`; `BlankIffAllSpace` states that it holds exactly when every character is whitespace |
| PyStr.Concat | aipr.py:74 | `"".join`; `ConcatAppend`, `ConcatShorter` and `Chunking.ConcatChunks` state what it gives |
| PyStr.ConcatShorter | aipr.py:74 | joining parts no longer than their counterparts gives a join no longer than theirs, strictly shorter once one part is strictly shorter |
| PyStr.ConcatAppend | aipr.py:74 | `"".join` of two part lists one after the other is the join of the first followed by the join of the second |
| Chunking.ConcatChunks | aipr.py:35-40 | joining the chunks gives back the text exactly, for every chunk size above zero, and for the empty text whatever the size |
| Chunking.ChunkLengths | aipr.py:36-39 | every chunk is non-empty and at most `chunk_size` long, and every chunk but the last is exactly `chunk_size` long |
| Chunking.ChunkCount | aipr.py:36-39 | there are ceil(len(text) / chunk_size) chunks, so none for the empty text |
| Chunking.ChunkCountBounds | aipr.py:36-39 | the chunk count `q` is the least number with `q * chunk_size >= len(text)` |
| Chunking.NonPositiveSizeNeverEnds | aipr.py:36-38 | with a chunk size of zero or below, `text = text[chunk_size:]` never empties a non-empty text, after any number of turns: the loop does not end |
| Chunking.PositiveSizeEnds | aipr.py:36-38 | with a positive chunk size the loop empties the text after exactly one turn per chunk: empty after that many turns, non-empty after any fewer |
| Chunking.Chunks | aipr.py:35-39 | the chunk list the loop builds; its meaning is stated by `ConcatChunks`, `ChunkLengths` and `ChunkCount`, and it is defined for every size on the empty text |
| Chunking.AfterTurns | aipr.py:36-38 | the text after `n` turns of `text = text[chunk_size:]`; `NonPositiveSizeNeverEnds` and `PositiveSizeEnds` state when it becomes empty |
| Chunking.SplitIntoChunks | aipr.py:31-40 | for a positive size or an empty text, the loop returns the chunk list: its join is the text and each chunk has length in `1..chunk_size` |
| Completion.RequestChanges | aipr.py:43-53 | `request_changes_from_openai`; its fallback policy is stated by `WholeFileFallback` |
| Completion.WholeFileFallback | aipr.py:43-53 | when the call raises or has no choices the content comes back unchanged; otherwise the result is the first choice stripped, with no whitespace at either end |
| Completion.ChunkResult | aipr.py:62-72 | one turn of the chunked loop; `ChunkPolicyMatchesWholeFile` states that it applies the whole-file policy to the chunk |
| Completion.ChunkPolicyMatchesWholeFile | aipr.py:59-74 | a chunk's result (stripped first choice, or the chunk itself when the call raises, including the `IndexError` of an empty choice list) is what whole-file mode gives for that chunk alone |
| Completion.ChunkResults | aipr.py:60-72 | the `modified_chunks` list; `ChunkResultsAppend` states that each chunk is handled on its own and in order, `EchoStripsEachChunk` what an echoing endpoint gives |
| Completion.ChunkResultsAppend | aipr.py:61-72 | the results of two chunk lists, one after the other, are the results of the joined list: each chunk is handled on its own and in order |
| Completion.ChunkedChanges | aipr.py:55-74 | the joined per-chunk results; `AllChunksFailKeepsContent`, `FailedPrefixKept` and `EchoKeepsUnpaddedChunks` state what it gives |
| Completion.AllChunksFailKeepsContent | aipr.py:59-74 | when the call fails for every chunk, the chunked output equals the content exactly |
| Completion.FailedPrefixKept | aipr.py:59-74 | the output begins with the original text of a leading run of chunks whose calls failed, followed by the results of the rest |
| Completion.RequestChangesInChunks | aipr.py:55-74 | for a positive size or empty content, the loop's output is the in-order join of the per-chunk results of the content's chunks |
| Completion.EchoKeepsUnpaddedChunks | aipr.py:43-74 | with an echoing endpoint, chunked mode gives back the content if and only if no chunk begins or ends with whitespace, and whole-file mode gives the content stripped |
| Completion.EchoStripsEachChunk | aipr.py:69 | with an echoing endpoint each chunk's result is the chunk stripped: never longer, strictly shorter when changed, and all results equal their chunks exactly when every chunk is unpadded |
| Completion.EqualJoinOfShorterParts | aipr.py:74 | when no part is longer than its counterpart and changed parts are strictly shorter, equal joins mean equal part lists |
| Completion.EchoModesDisagree | aipr.py:43-74 | with an echoing endpoint the two modes give different content for `"a \nb"` and chunk size 2 |
| PathRefs.PathRunEnd | aipr.py:85 | the greedy `[\w/.-]+` run from a position stops at the first character outside the class |
| PathRefs.WordRunEnd | aipr.py:85 | the greedy `\w+` run from a position stops at the first non-word character |
| PathRefs.SlashTokenAt | aipr.py:85 | `s[p..q]` matches `/[\w/.-]+\.\w+`; the reference definition against which `MatchFromSlashIsLongest` measures the scanner |
| PathRefs.TokenAt | aipr.py:85 | `s[i..q]` matches `\.?/[\w/.-]+\.\w+`; the reference definition against which `MatchAtIsLongest`, `ScanIsLeftmostLongest` and `LeftmostLongestIsScan` measure the scanner |
| PathRefs.LastExtensionStart | aipr.py:85 | the backtracking of `[\w/.-]+` stops at the last dot followed by a word character inside the run, or there is none |
| PathRefs.MatchFromSlash | aipr.py:85 | a match at a slash is at least four characters long and stays inside the text |
| PathRefs.MatchAt | aipr.py:85 | a match at a position is non-empty and stays inside the text |
| PathRefs.MatchFromSlashIsLongest | aipr.py:85 | at a slash, the scanner finds a match of `/[\w/.-]+\.\w+` exactly when one exists, and the one it finds is the longest |
| PathRefs.MatchAtIsLongest | aipr.py:85 | at any position, the scanner's match of `\.?/[\w/.-]+\.\w+` is a match, no match there is longer, and there is none when the scanner finds none |
| PathRefs.Scan | aipr.py:86 | the reported spans lie inside the text, are non-empty and are in text order without overlap |
| PathRefs.ScanIsLeftmostLongest | aipr.py:85-86 | the scan's spans are matches, each the longest at its start, and no match starts at any position the spans do not cover |
| PathRefs.LeftmostLongestIsScan | aipr.py:85-86 | any span list with those properties is the scan's: `re.findall`'s result is determined and the scanner computes it |
| PathRefs.ExtractFilePaths | aipr.py:84-86 | `extract_specific_file_path`: the substrings of the scan's spans; `ScanIsLeftmostLongest`, `LeftmostLongestIsScan` and `ExtractedPathsAreTokens` state what they are |
| PathRefs.ExtractedPathsAreTokens | aipr.py:84-86 | every extracted path is an optional dot, a slash, one or more of `[\w/.-]`, a dot and one or more word characters |
| PathRefs.DirectoryPrefixDropped | aipr.py:84-86 | `"./a.py docs/b.md"` yields `["./a.py", "/b.md"]`: everything before the first slash of a path written without a leading `./` or `/` is lost |
| PathRefs.LStripDots | aipr.py:93 | `x.lstrip(".")`; `StrippedTokenIsAbsolute` states what it leaves of an extracted path |
| PathRefs.JoinPath | aipr.py:93 | POSIX `os.path.join` of two parts, all three branches: a slash-led second part replaces the first; otherwise the parts are joined with one slash between them, none added after an empty or slash-ended first part; `ReferencesIgnoreDirectory` states the first branch is the one taken |
| PathRefs.ResolveAll | aipr.py:93 | the list comprehension over the extracted paths; `ReferencesIgnoreDirectory` states its result |
| PathRefs.ReferencedFiles | aipr.py:92-93 | `files_in_prompt_full_path`; `ReferencesIgnoreDirectory` states its result |
| PathRefs.StrippedTokenIsAbsolute | aipr.py:93 | every extracted path begins with `/` once its leading dots are stripped |
| PathRefs.ReferencesIgnoreDirectory | aipr.py:92-93 | there is one resolved path per extracted path, and each is the normalised stripped path whatever the target directory is |
| Driver.ModifiedContent | aipr.py:98 | whole-file mode when `chunks == 0`, chunked mode otherwise; `PatchesKeptExactly` and `FailedRequestsGiveNoPatches` state its effect |
| Driver.PatchFor | aipr.py:98-99 | the patch built for one file in the mode `int(chunks)` picks; `PatchesKeptExactly` states that it is the stored entry |
| Driver.Kept | aipr.py:96-100 | the file is referenced and its patch is not blank; `PatchesKeptExactly` states that a file has an entry exactly when this holds |
| Driver.Patches | aipr.py:95-101 | the dictionary after the loop; `PatchesKeptExactly`, `PatchesAreReferencedAndNonBlank`, `FailedRequestsGiveNoPatches` and `RelativeNamesGiveNoPatches` state its contents |
| Driver.CollectPatches | aipr.py:95-104 | for a non-negative size, or a negative one with every referenced file empty, the loop's dictionary is the fold of the files in order; every entry belongs to a referenced file and holds a non-blank patch |
| Driver.PatchesStep | aipr.py:95-101 | one turn of the loop updates the dictionary with the next file's patch exactly when that file is kept |
| Driver.StoredFromKept | aipr.py:95-101 | every entry of the dictionary the loop fills comes from a selected file of that name and holds that file's patch |
| Driver.StoredExactly | aipr.py:95-101 | with distinct names, a file has an entry exactly when it is selected, and the entry is its patch |
| Driver.NothingSelected | aipr.py:95-101 | a loop that selects no file leaves the dictionary empty |
| Driver.PatchesAreReferencedAndNonBlank | aipr.py:96-101 | every stored patch belongs to a referenced file and is not blank after `strip()` |
| Driver.PatchesKeptExactly | aipr.py:95-104 | for distinct file names, a file has an entry exactly when it is referenced and its patch (whole-file mode exactly when `chunks == 0`) is non-blank; the entry is that patch; there are no other entries |
| Driver.FailedRequestsGiveNoPatches | aipr.py:95-104 | when every request fails and the diff of a text against itself is blank, no patch is stored in either mode |
| Driver.RelativeNamesGiveNoPatches | aipr.py:90-104 | when file names do not begin with `/` and normalised paths do, no file is referenced and no patch is stored, whatever the issue text and whatever the chunk size |

## Left out

- Reading the environment and the `int()` conversions (aipr.py:9-15, 48, 98) are configuration input. The chunk size arrives as an integer parameter.
- Walking the directory and reading files (aipr.py:22-29) is filesystem input. The files are a given sequence of (name, content) pairs in walk order.
- The completion call (aipr.py:45-49, 64-68) is a network boundary. The prompt text, model name and token limit are fixed for a run and folded into the oracle. The oracle is a total function, so it gives the same reply to the same request.
- `generate_patch` and `difflib.unified_diff` (aipr.py:77-81) are library code. The patch generator is a function parameter.
- `os.path.abspath` (aipr.py:93) is library code and is a function parameter. `os.path.join` is modelled for two parts with all three branches of `posixpath.join`; the Windows rules of `ntpath.join` are not.
- Writing `changes.patch` and running `git apply --check` and `git apply` (aipr.py:107-124) are file and process output.
- The console messages (aipr.py:51, 71, 97, 102, 104) are output only.
- `\w` is modelled as ASCII letters, digits and `_`. Python's `\w` on `str` also matches non-ASCII letters and digits.
- The order of the `patches` dictionary is not modelled. A Dafny `map` is unordered, and the order only matters to the patch file, which is left out.
- Driver.CollectPatches: requires a non-negative `chunks`, or every referenced file to be empty. It leaves out only the runs with a negative `FILE_CHUNKS` and a referenced non-empty file: in those `split_into_chunks` never ends normally: it appends a chunk every turn, an empty one from some turn on, until memory runs out outside any `try` (`Chunking.NonPositiveSizeNeverEnds`), so they give no result.
- Completion.RequestChangesInChunks: requires a positive size or empty content. The caller at aipr.py:98 passes every non-zero value, negatives included; the calls left out are those with a negative size on non-empty content, which never end normally: the chunk list grows until memory runs out (`Chunking.NonPositiveSizeNeverEnds`).
- Chunking.SplitIntoChunks: requires a positive size or an empty text. On empty text the loop ends at once for any size; on non-empty text it ends exactly when the size is positive (`Chunking.NonPositiveSizeNeverEnds`, `Chunking.PositiveSizeEnds`).
