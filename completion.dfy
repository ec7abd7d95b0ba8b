/** The two ways the script asks the completion endpoint for new file content:
    `request_changes_from_openai` (whole file) and
    `request_changes_from_openai_in_chunks` (one request per chunk), with
    their fall-back-to-original policy. */
module Completion {
  import opened PyStr
  import opened Chunking

  /** What one `openai.Completion.create` call gives back: it raises, or it
      returns the texts of its choices (possibly none). */
  datatype Reply = Raised | Choices(texts: seq<string>)

  /** The endpoint as seen from one run: the reply to a request about a file
      name and a piece of content. The issue text, the model name and the
      token limit that also go into the request are fixed for the run. */
  type Oracle = (string, string) -> Reply

  /** A reply that carries at least one choice. */
  predicate Answered(reply: Reply)
  {
    reply.Choices? && reply.texts != []
  }

  /** `request_changes_from_openai(context, filename)`: the stripped first
      choice; the content unchanged when the call raises or has no choices. */
  function RequestChanges(oracle: Oracle, context: string, filename: string): string
  {
    match oracle(filename, context)
    case Raised => context
    case Choices(texts) => if texts != [] then Strip(texts[0]) else context
  }

  /** When the call produced no choice, whole-file mode gives back the content
      verbatim; otherwise it gives the first choice without surrounding
      whitespace. */
  lemma WholeFileFallback(oracle: Oracle, context: string, filename: string)
    ensures var reply := oracle(filename, context);
      && (!Answered(reply) ==> RequestChanges(oracle, context, filename) == context)
      && (Answered(reply) ==> RequestChanges(oracle, context, filename) == Strip(reply.texts[0]))
    ensures var r := RequestChanges(oracle, context, filename);
      Answered(oracle(filename, context)) && r != [] ==> !IsSpace(r[0]) && !IsSpace(r[|r| - 1])
  {
  }

  /** The result of one chunk in the chunked loop: the stripped first choice,
      or the chunk itself when the call raises. Indexing `choices[0]` of an
      empty choice list raises inside the `try` too. */
  function ChunkResult(oracle: Oracle, filename: string, chunk: string): string
  {
    var reply := oracle(filename, chunk);
    if reply.Raised? then chunk
    else if |reply.texts| == 0 then chunk   // IndexError, caught
    else Strip(reply.texts[0])
  }

  /** The two code paths apply the same fallback policy: a chunk's result is
      what whole-file mode would give for that chunk alone. */
  lemma ChunkPolicyMatchesWholeFile(oracle: Oracle, filename: string, chunk: string)
    ensures ChunkResult(oracle, filename, chunk) == RequestChanges(oracle, chunk, filename)
  {
  }

  /** The per-chunk results, in chunk order. */
  function ChunkResults(oracle: Oracle, filename: string, chunks: seq<string>): seq<string>
  {
    seq(|chunks|, k requires 0 <= k < |chunks| => ChunkResult(oracle, filename, chunks[k]))
  }

  /** Taking the results of two chunk lists one after the other is taking the
      results of the joined list. */
  lemma ChunkResultsAppend(oracle: Oracle, filename: string, a: seq<string>, b: seq<string>)
    ensures ChunkResults(oracle, filename, a + b)
         == ChunkResults(oracle, filename, a) + ChunkResults(oracle, filename, b)
  {
    var l, r := ChunkResults(oracle, filename, a + b), ChunkResults(oracle, filename, a) + ChunkResults(oracle, filename, b);
    assert |l| == |r|;
    forall k | 0 <= k < |l| ensures l[k] == r[k] {
      if k < |a| {
        assert (a + b)[k] == a[k];
      } else {
        assert (a + b)[k] == b[k - |a|];
      }
    }
  }

  /** What `request_changes_from_openai_in_chunks` returns: the per-chunk
      results of the text's chunks, joined in order. */
  function ChunkedChanges(oracle: Oracle, context: string, filename: string, size: int): string
    requires size > 0 || context == []
  {
    Concat(ChunkResults(oracle, filename, Chunks(context, size)))
  }

  /** When the call for every chunk fails (raises or returns no choices), the
      chunked result is the content, character for character. */
  lemma AllChunksFailKeepsContent(oracle: Oracle, context: string, filename: string, size: int)
    requires size > 0 || context == []
    requires forall chunk :: chunk in Chunks(context, size) ==> !Answered(oracle(filename, chunk))
    ensures ChunkedChanges(oracle, context, filename, size) == context
  {
    var chunks := Chunks(context, size);
    assert ChunkResults(oracle, filename, chunks) == chunks;
    ConcatChunks(context, size);
  }

  /** Replacing the chunks of a failing prefix leaves that prefix of the
      content in place: the result starts with the chunks whose calls failed. */
  lemma {:induction false} FailedPrefixKept(oracle: Oracle, filename: string, chunks: seq<string>, n: nat)
    requires n <= |chunks|
    requires forall k :: 0 <= k < n ==> !Answered(oracle(filename, chunks[k]))
    ensures Concat(ChunkResults(oracle, filename, chunks))
         == Concat(chunks[..n]) + Concat(ChunkResults(oracle, filename, chunks[n..]))
  {
    var rs := ChunkResults(oracle, filename, chunks);
    assert rs == chunks[..n] + ChunkResults(oracle, filename, chunks[n..]);
    ConcatAppend(chunks[..n], ChunkResults(oracle, filename, chunks[n..]));
  }

  /** `request_changes_from_openai_in_chunks(context, filename, max_chunk_size)`:
      split the content, ask once per chunk, keep the chunk when its call
      fails, and join the results in order. */
  method RequestChangesInChunks(oracle: Oracle, context: string, filename: string, maxChunkSize: int)
    returns (r: string)
    requires maxChunkSize > 0 || context == []
    ensures r == ChunkedChanges(oracle, context, filename, maxChunkSize)
  {
    var chunks := SplitIntoChunks(context, maxChunkSize);
    var modified: seq<string> := [];
    for i := 0 to |chunks|
      invariant modified == ChunkResults(oracle, filename, chunks[..i])
    {
      var chunk := chunks[i];
      var reply := oracle(filename, chunk);
      if reply.Choices? && |reply.texts| > 0 {
        modified := modified + [Strip(reply.texts[0])];
      } else {
        modified := modified + [chunk];  // the call raised, or gave no choices (the `IndexError`): keep the original chunk
      }
      assert chunks[..i + 1] == chunks[..i] + [chunk];
      ChunkResultsAppend(oracle, filename, chunks[..i], [chunk]);
    }
    assert chunks[..|chunks|] == chunks;
    r := Concat(modified);
  }

  /** A stand-in endpoint that answers every request with its content unchanged. */
  function Echo(): Oracle
  {
    (filename: string, content: string) => Choices([content])
  }

  /** With an echoing endpoint, chunked mode gives back the content exactly
      when no chunk begins or ends with whitespace, while whole-file mode
      gives back the content stripped. */
  lemma EchoKeepsUnpaddedChunks(context: string, filename: string, size: int)
    requires size > 0 || context == []
    ensures ChunkedChanges(Echo(), context, filename, size) == context
        <==> forall chunk :: chunk in Chunks(context, size) ==> Strip(chunk) == chunk
    ensures RequestChanges(Echo(), context, filename) == Strip(context)
  {
    assert RequestChanges(Echo(), context, filename) == Strip(context) by {
      EchoReply(filename, context);
    }
    var chunks := Chunks(context, size);
    var rs := ChunkResults(Echo(), filename, chunks);
    ConcatChunks(context, size);
    assert ChunkedChanges(Echo(), context, filename, size) == Concat(rs);
    EchoStripsEachChunk(filename, chunks);
    if Concat(rs) == Concat(chunks) {
      EqualJoinOfShorterParts(rs, chunks);
    }
  }

  /** With an echoing endpoint each chunk's result is the chunk stripped, so
      the results equal the chunks exactly when every chunk is unpadded. */
  lemma EchoStripsEachChunk(filename: string, chunks: seq<string>)
    ensures var rs := ChunkResults(Echo(), filename, chunks);
      && |rs| == |chunks|
      && (forall k :: 0 <= k < |chunks| ==> |rs[k]| <= |chunks[k]| && (rs[k] != chunks[k] ==> |rs[k]| < |chunks[k]|))
      && (rs == chunks <==> forall chunk :: chunk in chunks ==> Strip(chunk) == chunk)
      && (forall k :: 0 <= k < |chunks| ==> rs[k] == Strip(chunks[k]))
  {
    var rs := ChunkResults(Echo(), filename, chunks);
    forall k | 0 <= k < |chunks|
      ensures rs[k] == Strip(chunks[k])
      ensures |rs[k]| <= |chunks[k]| && (rs[k] != chunks[k] ==> |rs[k]| < |chunks[k]|)
    {
      EchoChunkResult(filename, chunks[k]);
      StripShortens(chunks[k]);
    }
  }

  /** When no part is longer than its counterpart and every changed part is
      strictly shorter, equal joins mean equal part lists. */
  lemma EqualJoinOfShorterParts(rs: seq<string>, cs: seq<string>)
    requires |rs| == |cs|
    requires forall k :: 0 <= k < |cs| ==> |rs[k]| <= |cs[k]| && (rs[k] != cs[k] ==> |rs[k]| < |cs[k]|)
    requires Concat(rs) == Concat(cs)
    ensures rs == cs
  {
    ConcatShorter(rs, cs);
    forall k | 0 <= k < |cs|
      ensures rs[k] == cs[k]
    {
    }
  }

  /** The two modes can disagree even when the endpoint echoes its input: the
      strip is applied per chunk, so whitespace at a chunk boundary is lost. */
  lemma EchoModesDisagree()
    ensures RequestChanges(Echo(), "a \nb", "f.py") == "a \nb"
    ensures ChunkedChanges(Echo(), "a \nb", "f.py", 2) == "ab"
  {
    WholeFileEchoExample();
    ChunkedEchoExample();
  }

  lemma WholeFileEchoExample()
    ensures RequestChanges(Echo(), "a \nb", "f.py") == "a \nb"
  {
    var text := "a \nb";
    EchoReply("f.py", text);
    assert LStrip(text) == text by { assert !IsSpace('a'); }
    assert RStrip(text) == text by { assert !IsSpace('b'); }
  }

  lemma ChunkedEchoExample()
    ensures ChunkedChanges(Echo(), "a \nb", "f.py", 2) == "ab"
  {
    TwoChunks("a \nb");
    EchoResultsExample();
    assert Concat(["a", "b"]) == "ab" by {
      assert ["a", "b"][1..] == ["b"];
    }
  }

  lemma EchoResultsExample()
    ensures ChunkResults(Echo(), "f.py", ["a ", "\nb"]) == ["a", "b"]
  {
    ChunkResultsPair(Echo(), "f.py", "a ", "\nb");
    EchoChunkResult("f.py", "a ");
    EchoChunkResult("f.py", "\nb");
    StripDropsTrailingSpace();
    StripDropsLeadingNewline();
  }

  lemma ChunkResultsPair(oracle: Oracle, filename: string, x: string, y: string)
    ensures ChunkResults(oracle, filename, [x, y])
         == [ChunkResult(oracle, filename, x), ChunkResult(oracle, filename, y)]
  {
  }

  lemma EchoChunkResult(filename: string, chunk: string)
    ensures ChunkResult(Echo(), filename, chunk) == Strip(chunk)
  {
    EchoReply(filename, chunk);
  }

  lemma EchoReply(filename: string, content: string)
    ensures Echo()(filename, content) == Choices([content])
  {
  }

  lemma TwoChunks(text: string)
    requires text == "a \nb"
    ensures Chunks(text, 2) == ["a ", "\nb"]
  {
    assert text[..2] == "a " && text[2..] == "\nb";
    var rest := text[2..];
    assert rest[..2] == "\nb" && rest[2..] == [];
  }

  lemma StripDropsTrailingSpace()
    ensures Strip("a ") == "a"
  {
    assert LStrip("a ") == "a " by {
      assert !IsSpace('a');
    }
    assert RStrip("a ") == "a" by {
      assert "a "[..1] == "a";
      assert IsSpace(' ');
    }
  }

  lemma StripDropsLeadingNewline()
    ensures Strip("\nb") == "b"
  {
    assert LStrip("\nb") == "b" by {
      assert "\nb"[1..] == "b";
      assert IsSpace('\n');
    }
    assert RStrip("b") == "b" by {
      assert !IsSpace('b');
    }
  }
}
