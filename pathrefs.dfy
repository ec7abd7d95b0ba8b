/** `extract_specific_file_path` and the resolve step of the main block: find
    the path-like tokens of the issue text the way `re.findall` does with the
    pattern `\.?/[\w/.-]+\.\w+`, strip their leading dots and join them to
    the target directory. */
module PathRefs {

  datatype Option<T> = None | Some(value: T)

  /** `\w`, restricted to ASCII: letters, digits and the underscore. */
  predicate IsWordChar(c: char)
  {
    ('a' <= c <= 'z') || ('A' <= c <= 'Z') || ('0' <= c <= '9') || c == '_'
  }

  /** The character class `[\w/.-]`. */
  predicate IsPathChar(c: char)
  {
    IsWordChar(c) || c == '/' || c == '.' || c == '-'
  }

  // ---------------------------------------------------------------------
  // What the pattern matches, stated on positions of a string.
  // ---------------------------------------------------------------------

  /** `s[k..q]` matches `\.\w+`. */
  ghost predicate ExtensionAt(s: string, k: nat, q: nat)
  {
    k + 1 < q <= |s| && s[k] == '.' && forall j :: k < j < q ==> IsWordChar(s[j])
  }

  /** `s[p..q]` matches `/[\w/.-]+\.\w+`. */
  ghost predicate SlashTokenAt(s: string, p: nat, q: nat)
  {
    && p < q <= |s| && s[p] == '/'
    && (forall j :: p < j < q ==> IsPathChar(s[j]))
    && exists k :: p + 2 <= k && ExtensionAt(s, k, q)
  }

  /** `s[i..q]` matches the whole pattern `\.?/[\w/.-]+\.\w+`. */
  ghost predicate TokenAt(s: string, i: nat, q: nat)
  {
    SlashTokenAt(s, i, q) || (i < |s| && s[i] == '.' && SlashTokenAt(s, i + 1, q))
  }

  /** A string the pattern matches in full: an optional dot, a slash, one or
      more characters of `[\w/.-]`, a dot and one or more word characters. */
  ghost predicate IsPathToken(t: string)
  {
    TokenAt(t, 0, |t|)
  }

  // ---------------------------------------------------------------------
  // The scanner: what the regular-expression engine does at one position.
  // ---------------------------------------------------------------------

  /** The end of the run of `[\w/.-]` characters that starts at `j`. */
  function PathRunEnd(s: string, j: nat): (e: nat)
    requires j <= |s|
    ensures j <= e <= |s|
    ensures forall k :: j <= k < e ==> IsPathChar(s[k])
    ensures e < |s| ==> !IsPathChar(s[e])
    decreases |s| - j
  {
    if j < |s| && IsPathChar(s[j]) then PathRunEnd(s, j + 1) else j
  }

  /** The end of the run of word characters that starts at `j` (`\w+` is greedy). */
  function WordRunEnd(s: string, j: nat): (e: nat)
    requires j <= |s|
    ensures j <= e <= |s|
    ensures forall k :: j <= k < e ==> IsWordChar(s[k])
    ensures e < |s| ==> !IsWordChar(s[e])
    decreases |s| - j
  {
    if j < |s| && IsWordChar(s[j]) then WordRunEnd(s, j + 1) else j
  }

  /** `s[k]` is a dot followed by a word character: where `\.\w+` can begin. */
  predicate ExtensionStart(s: string, k: nat)
  {
    k + 1 < |s| && s[k] == '.' && IsWordChar(s[k + 1])
  }

  /** The backtracking of the greedy `[\w/.-]+`: having taken the run up to
      `hi`, it gives characters back one at a time, never going below `lo`,
      until `\.\w` can follow. The result is the position of that dot: the
      last one in the run. */
  function LastExtensionStart(s: string, lo: nat, hi: nat): (r: Option<nat>)
    requires hi <= |s|
    ensures r.Some? ==> lo <= r.value && r.value + 1 < hi && ExtensionStart(s, r.value)
    ensures r.Some? ==> forall k :: r.value < k && k + 1 < hi ==> !ExtensionStart(s, k)
    ensures r.None? ==> forall k :: lo <= k && k + 1 < hi ==> !ExtensionStart(s, k)
    decreases hi
  {
    if hi < lo + 2 then None
    else if ExtensionStart(s, hi - 2) then Some(hi - 2)
    else LastExtensionStart(s, lo, hi - 1)
  }

  /** The end of the match of `/[\w/.-]+\.\w+` at the slash `s[p]`, if any. */
  function MatchFromSlash(s: string, p: nat): (r: Option<nat>)
    requires p < |s| && s[p] == '/'
    ensures r.Some? ==> p + 4 <= r.value <= |s|
  {
    var e := PathRunEnd(s, p + 1);
    match LastExtensionStart(s, p + 2, e)
    case None => None
    case Some(k) => Some(WordRunEnd(s, k + 1))
  }

  /** The end of the match of the whole pattern at position `i`, if any. The
      optional dot is taken first; without it the match would need a slash
      where the dot is, so the engine's second try never succeeds. */
  function MatchAt(s: string, i: nat): (r: Option<nat>)
    requires i < |s|
    ensures r.Some? ==> i < r.value <= |s|
  {
    if s[i] == '/' then MatchFromSlash(s, i)
    else if s[i] == '.' && i + 1 < |s| && s[i + 1] == '/' then MatchFromSlash(s, i + 1)
    else None
  }

  /** The slash matcher finds a match exactly when there is one, and the one
      it finds is the longest. */
  lemma MatchFromSlashIsLongest(s: string, p: nat)
    requires p < |s| && s[p] == '/'
    ensures MatchFromSlash(s, p).Some? ==>
              SlashTokenAt(s, p, MatchFromSlash(s, p).value)
              && forall q: nat :: SlashTokenAt(s, p, q) ==> q <= MatchFromSlash(s, p).value
    ensures MatchFromSlash(s, p).None? ==> forall q: nat :: !SlashTokenAt(s, p, q)
  {
    var e := PathRunEnd(s, p + 1);
    var dot := LastExtensionStart(s, p + 2, e);
    forall q: nat | SlashTokenAt(s, p, q)
      ensures dot.Some? && q <= WordRunEnd(s, dot.value + 1)
    {
      var k' :| p + 2 <= k' && ExtensionAt(s, k', q);
      assert ExtensionStart(s, k');
      var k := dot.value;
      assert k' <= k;
      var m := WordRunEnd(s, k + 1);
      if k == k' {
        assert m < |s| ==> !IsWordChar(s[m]);
      } else {
        assert !IsWordChar(s[k]);
      }
    }
    if dot.Some? {
      var k := dot.value;
      var m := WordRunEnd(s, k + 1);
      assert ExtensionAt(s, k, m);
      assert SlashTokenAt(s, p, m);
    }
  }

  /** `MatchAt` returns the end of the longest match at `i`, and nothing
      exactly when no match starts at `i`. */
  lemma MatchAtIsLongest(s: string, i: nat)
    requires i < |s|
    ensures MatchAt(s, i).Some? ==>
              TokenAt(s, i, MatchAt(s, i).value)
              && forall q: nat :: TokenAt(s, i, q) ==> q <= MatchAt(s, i).value
    ensures MatchAt(s, i).None? ==> forall q: nat :: !TokenAt(s, i, q)
  {
    if s[i] == '/' {
      MatchFromSlashIsLongest(s, i);
    } else if s[i] == '.' && i + 1 < |s| && s[i + 1] == '/' {
      MatchFromSlashIsLongest(s, i + 1);
    }
  }

  // ---------------------------------------------------------------------
  // re.findall: scan left to right, resume after each match.
  // ---------------------------------------------------------------------

  /** A match, as the half-open range `[start, end)` of the text. */
  type Span = (nat, nat)

  /** The matches `re.findall` reports from position `i` on: try each
      position in turn; after a match, resume where it ended. */
  function Scan(s: string, i: nat): (r: seq<Span>)
    requires i <= |s|
    ensures forall k :: 0 <= k < |r| ==> i <= r[k].0 < r[k].1 <= |s|
    ensures forall k, l :: 0 <= k < l < |r| ==> r[k].1 <= r[l].0
    decreases |s| - i
  {
    if i == |s| then []
    else
      match MatchAt(s, i)
      case None => Scan(s, i + 1)
      case Some(m) => [(i, m)] + Scan(s, m)
  }

  /** Position `j` lies inside one of the spans. */
  ghost predicate Covered(r: seq<Span>, j: nat)
    decreases |r|
  {
    r != [] && (r[0].0 <= j < r[0].1 || Covered(r[1..], j))
  }

  /** No span that starts after `j` covers `j`. */
  lemma {:induction false} NotCoveredBefore(r: seq<Span>, j: nat)
    requires forall k :: 0 <= k < |r| ==> j < r[k].0
    ensures !Covered(r, j)
    decreases |r|
  {
    if r != [] {
      assert forall k :: 0 <= k < |r[1..]| ==> r[1..][k] == r[k + 1];
      NotCoveredBefore(r[1..], j);
    }
  }

  /** The leftmost-longest, non-overlapping matches in a text of length `n`,
      from position `i` on, for a relation `isMatch` saying which ranges are
      matches: spans in text order that do not overlap, each a match, each as
      long as a match at its start can be, and no match starting at any
      position that no span covers. */
  ghost predicate LeftmostLongestFor(isMatch: (nat, nat) -> bool, n: nat, i: nat, r: seq<Span>)
  {
    && (forall k :: 0 <= k < |r| ==> i <= r[k].0 < r[k].1 <= n)
    && (forall k, l :: 0 <= k < l < |r| ==> r[k].1 <= r[l].0)
    && (forall k :: 0 <= k < |r| ==> isMatch(r[k].0, r[k].1))
    && (forall k, q: nat :: 0 <= k < |r| && isMatch(r[k].0, q) ==> q <= r[k].1)
    && (forall j: nat, q: nat :: i <= j < n && !Covered(r, j) ==> !isMatch(j, q))
  }

  /** The same for the pattern of `extract_specific_file_path` in `s`. */
  ghost predicate LeftmostLongest(s: string, i: nat, r: seq<Span>)
  {
    LeftmostLongestFor((a: nat, b: nat) => TokenAt(s, a, b), |s|, i, r)
  }

  /** The scan finds the leftmost-longest matches. */
  lemma {:induction false} ScanIsLeftmostLongest(s: string, i: nat)
    requires i <= |s|
    ensures LeftmostLongest(s, i, Scan(s, i))
    decreases |s| - i
  {
    if i < |s| {
      MatchAtIsLongest(s, i);
      match MatchAt(s, i)
      case None =>
        ScanIsLeftmostLongest(s, i + 1);
        SkipNonMatch((a: nat, b: nat) => TokenAt(s, a, b), |s|, i, Scan(s, i + 1));
      case Some(m) =>
        ScanIsLeftmostLongest(s, m);
        PrependMatch((a: nat, b: nat) => TokenAt(s, a, b), |s|, i, m, Scan(s, m));
    }
  }

  /** When no match starts at `i`, the leftmost-longest list from `i + 1` is
      also the one from `i`. */
  lemma SkipNonMatch(isMatch: (nat, nat) -> bool, n: nat, i: nat, t: seq<Span>)
    requires i < n
    requires forall q: nat :: !isMatch(i, q)
    requires LeftmostLongestFor(isMatch, n, i + 1, t)
    ensures LeftmostLongestFor(isMatch, n, i, t)
  {
  }

  /** A longest match at `i` followed by the leftmost-longest matches from its
      end is the leftmost-longest list from `i`. */
  lemma PrependMatch(isMatch: (nat, nat) -> bool, n: nat, i: nat, m: nat, t: seq<Span>)
    requires i < m <= n && isMatch(i, m)
    requires forall q: nat :: isMatch(i, q) ==> q <= m
    requires LeftmostLongestFor(isMatch, n, m, t)
    ensures LeftmostLongestFor(isMatch, n, i, [(i, m)] + t)
  {
    var r := [(i, m)] + t;
    assert r[1..] == t;
    forall k | 0 < k < |r|
      ensures r[k] == t[k - 1]
    {
    }
  }

  /** There is only one list of leftmost-longest matches, so the scan is
      determined by the pattern alone. */
  lemma {:induction false} LeftmostLongestIsScan(s: string, i: nat, r: seq<Span>)
    requires i <= |s|
    requires LeftmostLongest(s, i, r)
    ensures r == Scan(s, i)
    decreases |s| - i
  {
    if i < |s| {
      MatchAtIsLongest(s, i);
      match MatchAt(s, i)
      case None =>
        forall k | 0 <= k < |r|
          ensures i + 1 <= r[k].0
        {
          if k > 0 {
            assert r[0].1 <= r[k].0;
          }
        }
        LeftmostLongestIsScan(s, i + 1, r);
      case Some(m) =>
        var t := FirstMatchIs((a: nat, b: nat) => TokenAt(s, a, b), |s|, i, m, r);
        LeftmostLongestIsScan(s, m, t);
    }
  }

  /** When the longest match at `i` ends at `m`, a leftmost-longest list from
      `i` begins with that match, and the rest of it is leftmost-longest from
      `m`. */
  lemma FirstMatchIs(isMatch: (nat, nat) -> bool, n: nat, i: nat, m: nat, r: seq<Span>)
    returns (t: seq<Span>)
    requires i < m <= n && isMatch(i, m)
    requires forall q: nat :: isMatch(i, q) ==> q <= m
    requires LeftmostLongestFor(isMatch, n, i, r)
    ensures r == [(i, m)] + t && LeftmostLongestFor(isMatch, n, m, t)
  {
    assert Covered(r, i);
    t := r[1..];
    forall l | 0 <= l < |t|
      ensures t[l] == r[l + 1] && r[0].1 <= t[l].0
    {
    }
    if r[0].0 != i {
      NotCoveredBefore(t, i);
    }
    assert r[0].0 == i;
    assert isMatch(i, r[0].1);
    assert r[0] == (i, m);
    assert r == [(i, m)] + t;
  }

  /** `extract_specific_file_path(text)`: the matched substrings, in text
      order, duplicates kept. */
  function ExtractFilePaths(text: string): seq<string>
  {
    var spans := Scan(text, 0);
    seq(|spans|, k requires 0 <= k < |spans| => text[spans[k].0..spans[k].1])
  }

  /** A match inside a text is still a match once cut out of it. */
  lemma SlashTokenSlice(s: string, a: nat, p: nat, q: nat, b: nat)
    requires a <= p && q <= b <= |s|
    requires SlashTokenAt(s, p, q)
    ensures SlashTokenAt(s[a..b], p - a, q - a)
  {
    var t := s[a..b];
    var k :| p + 2 <= k && ExtensionAt(s, k, q);
    assert ExtensionAt(t, k - a, q - a);
  }

  /** Each span the scan reports is a match of the pattern. */
  lemma ScanSpanIsToken(s: string, k: nat)
    requires k < |Scan(s, 0)|
    ensures TokenAt(s, Scan(s, 0)[k].0, Scan(s, 0)[k].1)
  {
    ScanIsLeftmostLongest(s, 0);
    var isMatch := (a: nat, b: nat) => TokenAt(s, a, b);
    assert isMatch(Scan(s, 0)[k].0, Scan(s, 0)[k].1);
  }

  /** A match cut out of its text matches the pattern in full. */
  lemma TokenSlice(s: string, a: nat, b: nat)
    requires TokenAt(s, a, b)
    ensures IsPathToken(s[a..b])
  {
    if SlashTokenAt(s, a, b) {
      SlashTokenSlice(s, a, a, b, b);
    } else {
      SlashTokenSlice(s, a, a + 1, b, b);
    }
  }

  /** Every extracted path has the shape of the pattern. */
  lemma ExtractedPathsAreTokens(text: string)
    ensures forall t :: t in ExtractFilePaths(text) ==> IsPathToken(t)
  {
    var spans := Scan(text, 0);
    var paths := ExtractFilePaths(text);
    forall t | t in paths
      ensures IsPathToken(t)
    {
      var k :| 0 <= k < |paths| && paths[k] == t;
      ScanSpanIsToken(text, k);
      TokenSlice(text, spans[k].0, spans[k].1);
    }
  }

  /** A run of path characters from `j` that stops at `e` ends at `e`. */
  lemma PathRunEndIs(s: string, j: nat, e: nat)
    requires j <= e <= |s|
    requires forall k :: j <= k < e ==> IsPathChar(s[k])
    requires e < |s| ==> !IsPathChar(s[e])
    ensures PathRunEnd(s, j) == e
  {
  }

  /** A run of word characters from `j` that stops at `e` ends at `e`. */
  lemma WordRunEndIs(s: string, j: nat, e: nat)
    requires j <= e <= |s|
    requires forall k :: j <= k < e ==> IsWordChar(s[k])
    requires e < |s| ==> !IsWordChar(s[e])
    ensures WordRunEnd(s, j) == e
  {
  }

  /** No match can start at a character that is neither a slash nor a dot, so
      the scan passes over such characters. */
  lemma {:induction false} ScanSkips(s: string, i: nat, j: nat)
    requires i <= j <= |s|
    requires forall k :: i <= k < j ==> s[k] != '/' && s[k] != '.'
    ensures Scan(s, i) == Scan(s, j)
    decreases j - i
  {
    if i < j {
      ScanSkips(s, i + 1, j);
    }
  }

  // "./a.py docs/b.md"
  //  0123456789012345
  lemma ExampleSpans(s: string)
    requires s == "./a.py docs/b.md"
    ensures Scan(s, 0) == [(0, 6), (11, 16)]
  {
    PathRunEndIs(s, 2, 6);
    assert LastExtensionStart(s, 3, 6) == Some(3);
    WordRunEndIs(s, 4, 6);
    assert MatchAt(s, 0) == Some(6);
    ScanSkips(s, 6, 11);
    PathRunEndIs(s, 12, 16);
    assert LastExtensionStart(s, 13, 16) == Some(13);
    WordRunEndIs(s, 14, 16);
    assert MatchAt(s, 11) == Some(16);
  }

  lemma ExampleSlices(s: string)
    requires s == "./a.py docs/b.md"
    ensures s[0..6] == "./a.py" && s[11..16] == "/b.md"
  {
    var a, b := s[0..6], s[11..16];
    assert |a| == 6 && a[0] == '.' && a[1] == '/' && a[2] == 'a' && a[3] == '.' && a[4] == 'p' && a[5] == 'y';
    assert |b| == 5 && b[0] == '/' && b[1] == 'b' && b[2] == '.' && b[3] == 'm' && b[4] == 'd';
  }

  /** A path written without a leading `./` or `/` loses everything before its
      first slash: the pattern has no room for a word before the slash, so
      `docs/b.md` yields only `/b.md` (and `src/app/main.py` would yield
      `/app/main.py`). */
  lemma DirectoryPrefixDropped()
    ensures ExtractFilePaths("./a.py docs/b.md") == ["./a.py", "/b.md"]
  {
    var s := "./a.py docs/b.md";
    ExampleSpans(s);
    ExampleSlices(s);
  }

  // ---------------------------------------------------------------------
  // Resolving the extracted paths (the list comprehension of the main block).
  // ---------------------------------------------------------------------

  /** `x.lstrip(".")` */
  function LStripDots(t: string): string
  {
    if t != [] && t[0] == '.' then LStripDots(t[1..]) else t
  }

  /** Once its leading dot is stripped, every path token begins with a slash. */
  lemma StrippedTokenIsAbsolute(t: string)
    requires IsPathToken(t)
    ensures LStripDots(t) != [] && LStripDots(t)[0] == '/'
  {
    if t[0] == '.' {
      assert t[1] == '/';
      assert LStripDots(t) == LStripDots(t[1..]);
    }
  }

  /** `os.path.join(a, b)` for two POSIX path components: a second component
      that begins with a slash replaces the first; otherwise the two are
      joined, with a slash between them unless the first is empty or already
      ends with one. */
  function JoinPath(a: string, b: string): string
  {
    if b != [] && b[0] == '/' then b
    else if a == [] || a[|a| - 1] == '/' then a + b
    else a + "/" + b
  }

  /** `[os.path.abspath(os.path.join(directory, x.lstrip("."))) for x in tokens]`;
      `absPath` stands for the library's normalisation of a path. */
  function ResolveAll(absPath: string -> string, directory: string, tokens: seq<string>): seq<string>
  {
    seq(|tokens|, k requires 0 <= k < |tokens| => absPath(JoinPath(directory, LStripDots(tokens[k]))))
  }

  /** `files_in_prompt_full_path`: the paths the issue text refers to. */
  function ReferencedFiles(absPath: string -> string, directory: string, issueBody: string): seq<string>
  {
    ResolveAll(absPath, directory, ExtractFilePaths(issueBody))
  }

  /** The target directory plays no part in the resolved paths: each one is the
      normalised token itself, because the join keeps only its second,
      slash-led component. */
  lemma ReferencesIgnoreDirectory(absPath: string -> string, directory: string, issueBody: string)
    ensures var tokens := ExtractFilePaths(issueBody);
      var refs := ReferencedFiles(absPath, directory, issueBody);
      |refs| == |tokens| && forall k :: 0 <= k < |tokens| ==> refs[k] == absPath(LStripDots(tokens[k]))
  {
    var tokens := ExtractFilePaths(issueBody);
    ExtractedPathsAreTokens(issueBody);
    forall k | 0 <= k < |tokens|
      ensures JoinPath(directory, LStripDots(tokens[k])) == LStripDots(tokens[k])
    {
      StrippedTokenIsAbsolute(tokens[k]);
    }
  }
}
