/** The main block of the script: for every file read from the target
    directory, in the order the walk produced them, ask for new content when
    the issue text refers to the file, build a patch, and keep the patch when
    it is not blank. */
module Driver {
  import opened PyStr
  import opened Completion
  import opened PathRefs

  /** `generate_patch(original, modified, filename)`; the diff itself is the
      library's. */
  type PatchGenerator = (string, string, string) -> string

  /** `int(chunks) == 0` selects whole-file mode, any other value chunked
      mode with that chunk size. A negative size is usable only on empty
      content, where the split loop does not run. */
  function ModifiedContent(oracle: Oracle, content: string, filename: string, chunks: int): string
    requires chunks >= 0 || content == []
  {
    if chunks == 0 then RequestChanges(oracle, content, filename)
    else ChunkedChanges(oracle, content, filename, chunks)
  }

  /** The patch the script builds for one file. */
  function PatchFor(oracle: Oracle, generatePatch: PatchGenerator, chunks: int, file: (string, string)): string
    requires chunks >= 0 || file.1 == []
  {
    generatePatch(file.1, ModifiedContent(oracle, file.1, file.0, chunks), file.0)
  }

  /** Whether the loop stores a patch for `file = (filename, content)`: the
      file is referenced and its patch is not blank. */
  predicate Kept(oracle: Oracle, generatePatch: PatchGenerator, chunks: int,
                 referenced: seq<string>, file: (string, string))
    requires chunks >= 0 || file.0 !in referenced || file.1 == []
  {
    file.0 in referenced && !IsBlank(PatchFor(oracle, generatePatch, chunks, file))
  }

  /** The runs of the loop that end: the chunk size is not negative, or every
      referenced file is empty, so `split_into_chunks` always ends normally. */
  predicate SizeUsable(chunks: int, referenced: seq<string>, files: seq<(string, string)>)
  {
    chunks >= 0 || forall k :: 0 <= k < |files| && files[k].0 in referenced ==> files[k].1 == []
  }

  /** The dictionary a loop over `files` builds when it stores `patchOf(file)`
      under the file's name for each file that `keep` selects, in order; a
      later entry for the same name replaces an earlier one. */
  function StoredPatches(patchOf: ((string, string)) --> string, keep: ((string, string)) --> bool,
                         files: seq<(string, string)>): map<string, string>
    requires forall k :: 0 <= k < |files| ==> keep.requires(files[k])
    requires forall k :: 0 <= k < |files| && keep(files[k]) ==> patchOf.requires(files[k])
  {
    if files == [] then map[]
    else
      var before := StoredPatches(patchOf, keep, files[..|files| - 1]);
      var file := files[|files| - 1];
      if keep(file) then before[file.0 := patchOf(file)] else before
  }

  /** The `patches` dictionary after the main loop has gone through `files`. */
  function Patches(oracle: Oracle, generatePatch: PatchGenerator, chunks: int,
                   referenced: seq<string>, files: seq<(string, string)>): map<string, string>
    requires SizeUsable(chunks, referenced, files)
  {
    StoredPatches(PatchOf(oracle, generatePatch, chunks), KeepOf(oracle, generatePatch, chunks, referenced), files)
  }

  /** `PatchFor` as a function of the file alone. */
  function PatchOf(oracle: Oracle, generatePatch: PatchGenerator, chunks: int): ((string, string)) --> string
  {
    (file: (string, string)) requires chunks >= 0 || file.1 == [] => PatchFor(oracle, generatePatch, chunks, file)
  }

  /** `Kept` as a function of the file alone. */
  function KeepOf(oracle: Oracle, generatePatch: PatchGenerator, chunks: int,
                  referenced: seq<string>): ((string, string)) --> bool
  {
    (file: (string, string)) requires chunks >= 0 || file.0 !in referenced || file.1 == [] => Kept(oracle, generatePatch, chunks, referenced, file)
  }

  /** The file names are those of a dictionary: no name occurs twice. */
  predicate DistinctNames(files: seq<(string, string)>)
  {
    forall k, l :: 0 <= k < l < |files| ==> files[k].0 != files[l].0
  }

  /** The loop of the main block. `files` is `all_files.items()`,
      `referenced` is `files_in_prompt_full_path`. */
  method CollectPatches(oracle: Oracle, generatePatch: PatchGenerator, chunks: int,
                        referenced: seq<string>, files: seq<(string, string)>)
    returns (patches: map<string, string>)
    requires SizeUsable(chunks, referenced, files)
    ensures patches == Patches(oracle, generatePatch, chunks, referenced, files)
    ensures forall f :: f in patches ==> f in referenced && !IsBlank(patches[f])
  {
    patches := map[];
    for i := 0 to |files|
      invariant patches == Patches(oracle, generatePatch, chunks, referenced, files[..i])
    {
      var (filename, content) := files[i];
      PatchesStep(oracle, generatePatch, chunks, referenced, files, i);
      if filename in referenced {
        var modified: string;
        if chunks == 0 {
          modified := RequestChanges(oracle, content, filename);
        } else {
          modified := RequestChangesInChunks(oracle, content, filename, chunks);
        }
        var patch := generatePatch(content, modified, filename);
        assert patch == PatchFor(oracle, generatePatch, chunks, files[i]);
        if !IsBlank(patch) {
          patches := patches[filename := patch];
        }
      }
    }
    assert files[..|files|] == files;
    PatchesAreReferencedAndNonBlank(oracle, generatePatch, chunks, referenced, files);
  }

  /** One turn of the loop: the dictionary after `i + 1` files is the one after
      `i` files, updated with the next file's patch when that file is kept. */
  lemma PatchesStep(oracle: Oracle, generatePatch: PatchGenerator, chunks: int,
                    referenced: seq<string>, files: seq<(string, string)>, i: nat)
    requires SizeUsable(chunks, referenced, files)
    requires i < |files|
    ensures SizeUsable(chunks, referenced, files[..i]) && SizeUsable(chunks, referenced, files[..i + 1])
    ensures chunks >= 0 || files[i].0 !in referenced || files[i].1 == []
    ensures var before := Patches(oracle, generatePatch, chunks, referenced, files[..i]);
      Patches(oracle, generatePatch, chunks, referenced, files[..i + 1])
      == if Kept(oracle, generatePatch, chunks, referenced, files[i])
         then before[files[i].0 := PatchFor(oracle, generatePatch, chunks, files[i])]
         else before
  {
    assert files[..i + 1][..i] == files[..i];
  }

  /** Every stored entry comes from a selected file of that name. */
  lemma {:induction false} StoredFromKept(patchOf: ((string, string)) --> string, keep: ((string, string)) --> bool,
                                          files: seq<(string, string)>)
    requires forall k :: 0 <= k < |files| ==> keep.requires(files[k])
    requires forall k :: 0 <= k < |files| && keep(files[k]) ==> patchOf.requires(files[k])
    ensures forall f :: f in StoredPatches(patchOf, keep, files) ==>
      exists k :: 0 <= k < |files| && files[k].0 == f && keep(files[k])
                  && StoredPatches(patchOf, keep, files)[f] == patchOf(files[k])
  {
    if files != [] {
      var init := files[..|files| - 1];
      StoredFromKept(patchOf, keep, init);
      var p := StoredPatches(patchOf, keep, files);
      var before := StoredPatches(patchOf, keep, init);
      forall f | f in p
        ensures exists k :: 0 <= k < |files| && files[k].0 == f && keep(files[k]) && p[f] == patchOf(files[k])
      {
        if f == files[|files| - 1].0 && keep(files[|files| - 1]) {
          assert p[f] == patchOf(files[|files| - 1]);
        } else {
          assert f in before && p[f] == before[f];
          var k :| 0 <= k < |init| && init[k].0 == f && keep(init[k]) && before[f] == patchOf(init[k]);
          assert files[k] == init[k];
        }
      }
    }
  }

  /** With distinct names, every selected file has its own entry, holding its
      patch, and no other file has one. */
  lemma {:induction false} StoredExactly(patchOf: ((string, string)) --> string, keep: ((string, string)) --> bool,
                                         files: seq<(string, string)>)
    requires forall k :: 0 <= k < |files| ==> keep.requires(files[k])
    requires forall k :: 0 <= k < |files| && keep(files[k]) ==> patchOf.requires(files[k])
    requires DistinctNames(files)
    ensures var p := StoredPatches(patchOf, keep, files);
      forall k :: 0 <= k < |files| ==>
        (files[k].0 in p <==> keep(files[k])) && (files[k].0 in p ==> p[files[k].0] == patchOf(files[k]))
  {
    if files != [] {
      var init := files[..|files| - 1];
      var last := files[|files| - 1];
      assert DistinctNames(init);
      StoredExactly(patchOf, keep, init);
      StoredFromKept(patchOf, keep, init);
      forall k | 0 <= k < |init|
        ensures files[k] == init[k] && init[k].0 != last.0
      {
      }
    }
  }

  /** Every stored patch belongs to a referenced file and is not blank. */
  lemma PatchesAreReferencedAndNonBlank(oracle: Oracle, generatePatch: PatchGenerator, chunks: int,
                                        referenced: seq<string>, files: seq<(string, string)>)
    requires SizeUsable(chunks, referenced, files)
    ensures var p := Patches(oracle, generatePatch, chunks, referenced, files);
      forall f :: f in p ==> f in referenced && !IsBlank(p[f])
  {
    var patchOf := PatchOf(oracle, generatePatch, chunks);
    var keep := KeepOf(oracle, generatePatch, chunks, referenced);
    StoredFromKept(patchOf, keep, files);
  }

  /** For the files of a dictionary, a file has an entry exactly when it is
      kept, the entry is that file's patch, and there are no other entries. */
  lemma PatchesKeptExactly(oracle: Oracle, generatePatch: PatchGenerator, chunks: int,
                           referenced: seq<string>, files: seq<(string, string)>)
    requires SizeUsable(chunks, referenced, files)
    requires DistinctNames(files)
    ensures var p := Patches(oracle, generatePatch, chunks, referenced, files);
      && (forall k :: 0 <= k < |files| ==>
            (files[k].0 in p <==> Kept(oracle, generatePatch, chunks, referenced, files[k])))
      && (forall k :: 0 <= k < |files| && files[k].0 in p ==>
            p[files[k].0] == PatchFor(oracle, generatePatch, chunks, files[k]))
      && (forall f :: f in p ==> exists k :: 0 <= k < |files| && files[k].0 == f)
  {
    var patchOf := PatchOf(oracle, generatePatch, chunks);
    var keep := KeepOf(oracle, generatePatch, chunks, referenced);
    StoredFromKept(patchOf, keep, files);
    StoredExactly(patchOf, keep, files);
  }

  /** A loop that selects none of the files stores nothing. */
  lemma {:induction false} NothingSelected(patchOf: ((string, string)) --> string, keep: ((string, string)) --> bool,
                                           files: seq<(string, string)>)
    requires forall k :: 0 <= k < |files| ==> keep.requires(files[k])
    requires forall k :: 0 <= k < |files| && keep(files[k]) ==> patchOf.requires(files[k])
    requires forall k :: 0 <= k < |files| ==> !keep(files[k])
    ensures StoredPatches(patchOf, keep, files) == map[]
  {
    if files != [] {
      var init := files[..|files| - 1];
      assert forall k :: 0 <= k < |init| ==> init[k] == files[k];
      NothingSelected(patchOf, keep, init);
    }
  }

  /** When every request fails and the diff of a text against itself is
      blank, no patch is stored: each file's new content is its old content. */
  lemma FailedRequestsGiveNoPatches(oracle: Oracle, generatePatch: PatchGenerator, chunks: int,
                                    referenced: seq<string>, files: seq<(string, string)>)
    requires SizeUsable(chunks, referenced, files)
    requires forall filename, content :: !Answered(oracle(filename, content))
    requires forall text, filename :: IsBlank(generatePatch(text, text, filename))
    ensures Patches(oracle, generatePatch, chunks, referenced, files) == map[]
  {
    var patchOf := PatchOf(oracle, generatePatch, chunks);
    var keep := KeepOf(oracle, generatePatch, chunks, referenced);
    forall k | 0 <= k < |files| && files[k].0 in referenced
      ensures !keep(files[k])
    {
      var (filename, content) := files[k];
      if chunks != 0 {
        AllChunksFailKeepsContent(oracle, content, filename, chunks);
      }
      assert ModifiedContent(oracle, content, filename, chunks) == content;
    }
    NothingSelected(patchOf, keep, files);
  }

  /** When the walk yields names that do not begin with a slash (as it does
      for the default target directory `./`) and path normalisation always
      yields a slash-led path, no file is ever referenced, whatever the issue
      says, so no patch is stored, for any chunk size. */
  lemma RelativeNamesGiveNoPatches(oracle: Oracle, generatePatch: PatchGenerator, chunks: int,
                                   absPath: string -> string, directory: string, issueBody: string,
                                   files: seq<(string, string)>)
    requires forall path :: absPath(path) != [] && absPath(path)[0] == '/'
    requires forall k :: 0 <= k < |files| ==> files[k].0 == [] || files[k].0[0] != '/'
    ensures var refs := ReferencedFiles(absPath, directory, issueBody);
      SizeUsable(chunks, refs, files) && Patches(oracle, generatePatch, chunks, refs, files) == map[]
  {
    var refs := ReferencedFiles(absPath, directory, issueBody);
    var patchOf := PatchOf(oracle, generatePatch, chunks);
    var keep := KeepOf(oracle, generatePatch, chunks, refs);
    forall k | 0 <= k < |refs|
      ensures refs[k] != [] && refs[k][0] == '/'
    {
      var tokens := ExtractFilePaths(issueBody);
      assert refs[k] == absPath(JoinPath(directory, LStripDots(tokens[k])));
    }
    assert forall k :: 0 <= k < |files| ==> files[k].0 !in refs;
    NothingSelected(patchOf, keep, files);
  }
}
