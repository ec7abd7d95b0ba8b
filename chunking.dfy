/** `split_into_chunks(text, chunk_size)`: cut a text into consecutive pieces
    of at most `chunk_size` characters. */
module Chunking {
  import opened PyStr

  /** The chunk list the split promises: consecutive pieces of `c` characters,
      the last one possibly shorter, and none for the empty text (whatever
      `c` is, since `while text:` then never runs). */
  function Chunks(text: string, c: int): seq<string>
    requires c > 0 || text == []
    decreases |text|
  {
    if text == [] then []
    else
      var n := if |text| < c then |text| else c;
      [text[..n]] + Chunks(text[n..], c)
  }

  /** Joining the chunks gives back the text. */
  lemma {:induction false} ConcatChunks(text: string, c: int)
    requires c > 0 || text == []
    ensures Concat(Chunks(text, c)) == text
  {
    if text != [] {
      var n := if |text| < c then |text| else c;
      ConcatChunks(text[n..], c);
      assert text == text[..n] + text[n..];
    }
  }

  /** Every chunk is non-empty and at most `c` long, and every chunk but the
      last is exactly `c` long. */
  lemma {:induction false} ChunkLengths(text: string, c: int)
    requires c > 0 || text == []
    ensures var cs := Chunks(text, c);
      forall k :: 0 <= k < |cs| ==> 0 < |cs[k]| <= c && (k < |cs| - 1 ==> |cs[k]| == c)
  {
    if text != [] {
      var n := if |text| < c then |text| else c;
      ChunkLengths(text[n..], c);
      var cs := Chunks(text, c);
      assert cs[1..] == Chunks(text[n..], c);
      forall k | 0 < k < |cs|
        ensures 0 < |cs[k]| <= c && (k < |cs| - 1 ==> |cs[k]| == c)
      {
        assert cs[k] == cs[1..][k - 1];
      }
    }
  }

  /** There are ceil(|text| / c) chunks; in particular none for the empty text. */
  lemma ChunkCount(text: string, c: nat)
    requires c > 0
    ensures |Chunks(text, c)| == (|text| + c - 1) / c
  {
    var q := |Chunks(text, c)|;
    ChunkCountBounds(text, c);
    if text == [] {
      DivisionRange(c - 1, c, 0);
    } else {
      assert (q - 1) * c + c == q * c;
      DivisionRange(|text| + c - 1, c, q);
    }
  }

  /** The chunk count `q` is the least number with `q * c` at least the text
      length, stated without division. */
  lemma {:induction false} ChunkCountBounds(text: string, c: nat)
    requires c > 0
    ensures var q := |Chunks(text, c)|;
      |text| <= q * c && (text != [] ==> (q - 1) * c < |text|)
  {
    if text != [] {
      var n := if |text| < c then |text| else c;
      ChunkCountBounds(text[n..], c);
      var q' := |Chunks(text[n..], c)|;
      assert |Chunks(text, c)| == q' + 1;
      assert (q' + 1) * c == q' * c + c;
      if text[n..] == [] {
        assert q' == 0;
      }
    }
  }

  lemma DivisionRange(x: nat, c: nat, q: nat)
    requires c > 0 && q * c <= x < q * c + c
    ensures x / c == q
  {
    var d := x / c;
    assert d * c <= x < d * c + c;
    if d < q {
      MultiplyMonotone(d + 1, q, c);
    } else if d > q {
      MultiplyMonotone(q + 1, d, c);
    }
  }

  lemma MultiplyMonotone(a: nat, b: nat, c: nat)
    requires a <= b
    ensures a * c <= b * c
  {
  }

  /** What `text` holds after at most `n` turns of `while text:`, each turn
      doing `text = text[chunk_size:]`; the loop stops as soon as `text` is
      empty. */
  function AfterTurns(text: string, c: int, n: nat): string
  {
    if n == 0 || text == [] then text else AfterTurns(SliceFrom(text, c), c, n - 1)
  }

  /** With a chunk size of zero or below, a non-empty text is never emptied, so
      the loop never ends normally (each turn appends another chunk, so the
      list grows until memory runs out): `c > 0` is what termination needs. */
  lemma {:induction false} NonPositiveSizeNeverEnds(text: string, c: int, n: nat)
    requires c <= 0 && text != []
    ensures AfterTurns(text, c, n) != []
  {
    if n > 0 {
      assert SliceIndex(|text|, c) < |text|;
      NonPositiveSizeNeverEnds(SliceFrom(text, c), c, n - 1);
    }
  }

  /** With a positive size the loop ends after exactly one turn per chunk:
      the text is empty after that many turns and not before. */
  lemma {:induction false} PositiveSizeEnds(text: string, c: nat)
    requires c > 0
    ensures AfterTurns(text, c, |Chunks(text, c)|) == []
    ensures forall n: nat :: n < |Chunks(text, c)| ==> AfterTurns(text, c, n) != []
  {
    if text != [] {
      var m := if |text| < c then |text| else c;
      assert SliceFrom(text, c) == text[m..];
      PositiveSizeEnds(text[m..], c);
      forall n: nat | 0 < n < |Chunks(text, c)|
        ensures AfterTurns(text, c, n) != []
      {
        assert AfterTurns(text, c, n) == AfterTurns(text[m..], c, n - 1);
      }
    }
  }

  /** `split_into_chunks(text, chunk_size)`: the loop of the script, with Python's
      slicing; it returns exactly the chunk list above. */
  method SplitIntoChunks(text: string, chunkSize: int) returns (chunks: seq<string>)
    requires chunkSize > 0 || text == []
    ensures chunks == Chunks(text, chunkSize)
    ensures Concat(chunks) == text
    ensures forall k :: 0 <= k < |chunks| ==> 0 < |chunks[k]| <= chunkSize
  {
    chunks := [];
    var rest := text;
    while rest != []
      invariant chunkSize > 0 || rest == []
      invariant chunks + Chunks(rest, chunkSize) == Chunks(text, chunkSize)
      decreases |rest|
    {
      var chunk := SliceTo(rest, chunkSize);
      assert [chunk] + Chunks(SliceFrom(rest, chunkSize), chunkSize) == Chunks(rest, chunkSize);
      rest := SliceFrom(rest, chunkSize);
      chunks := chunks + [chunk];
    }
    ConcatChunks(text, chunkSize);
    ChunkLengths(text, chunkSize);
  }
}
