/** The Python string built-ins the script relies on, stated over code points:
    slicing with an integer bound (`s[:k]`, `s[k:]`), `str.strip()` with no
    argument, and `"".join(parts)`. */
module PyStr {

  /** Python's `str.isspace()` for one code point: the characters whose Unicode
      category is Zs or whose bidirectional class is WS, B or S. */
  predicate IsSpace(c: char)
  {
    var n := c as int;
    (9 <= n <= 13) || (0x1C <= n <= 0x20) || n == 0x85 || n == 0xA0 || n == 0x1680
    || (0x2000 <= n <= 0x200A) || n == 0x2028 || n == 0x2029 || n == 0x202F
    || n == 0x205F || n == 0x3000
  }

  /** Python's normalisation of a slice bound `k` against a length `n`:
      a negative bound counts from the end, and the result is clamped to `[0, n]`. */
  function SliceIndex(n: nat, k: int): nat
  {
    if k < 0 then (if n + k < 0 then 0 else n + k)
    else if k > n then n
    else k
  }

  /** `s[:k]` */
  function SliceTo(s: string, k: int): string
  {
    s[..SliceIndex(|s|, k)]
  }

  /** `s[k:]` */
  function SliceFrom(s: string, k: int): string
  {
    s[SliceIndex(|s|, k)..]
  }

  /** `s[:k] + s[k:] == s` for every integer `k`; a bound of zero or above
      keeps the first `k` characters (all of them when `k` exceeds the
      length), a negative one all but the last `-k` (none when `-k` exceeds
      the length). */
  lemma SliceSplit(s: string, k: int)
    ensures SliceTo(s, k) + SliceFrom(s, k) == s
    ensures 0 <= k ==> |SliceTo(s, k)| == (if k <= |s| then k else |s|)
    ensures k < 0 ==> |SliceFrom(s, k)| == (if -k <= |s| then -k else |s|)
  {
    assert s[..SliceIndex(|s|, k)] + s[SliceIndex(|s|, k)..] == s;
  }

  /** `s.lstrip()`: the suffix of `s` left once leading whitespace is removed. */
  function LStrip(s: string): (r: string)
    ensures |r| <= |s| && r == s[|s| - |r|..]
    ensures forall k :: 0 <= k < |s| - |r| ==> IsSpace(s[k])
    ensures r != [] ==> !IsSpace(r[0])
  {
    if s != [] && IsSpace(s[0]) then LStrip(s[1..]) else s
  }

  /** `s.rstrip()`: the prefix of `s` left once trailing whitespace is removed. */
  function RStrip(s: string): (r: string)
    ensures |r| <= |s| && r == s[..|r|]
    ensures forall k :: |r| <= k < |s| ==> IsSpace(s[k])
    ensures r != [] ==> !IsSpace(r[|r| - 1])
  {
    if s != [] && IsSpace(s[|s| - 1]) then RStrip(s[..|s| - 1]) else s
  }

  /** `s.strip()`: `s` without its leading and trailing whitespace. The result
      is a contiguous piece `s[i..j]` of `s`, everything cut off is whitespace,
      and the result neither starts nor ends with whitespace. */
  function Strip(s: string): (r: string)
    ensures exists i, j :: 0 <= i <= j <= |s| && r == s[i..j]
                           && (forall k :: 0 <= k < i ==> IsSpace(s[k]))
                           && (forall k :: j <= k < |s| ==> IsSpace(s[k]))
    ensures r != [] ==> !IsSpace(r[0]) && !IsSpace(r[|r| - 1])
  {
    var l := LStrip(s);
    var r := RStrip(l);
    var i := |s| - |l|;
    assert r == s[i..i + |r|];
    r
  }

  /** True when `s.strip()` is the empty string, i.e. `not s.strip()` in Python. */
  predicate IsBlank(s: string)
  {
    Strip(s) == []
  }

  /** A string is blank exactly when every character of it is whitespace. */
  lemma BlankIffAllSpace(s: string)
    ensures IsBlank(s) <==> forall k :: 0 <= k < |s| ==> IsSpace(s[k])
  {
    if IsBlank(s) {
      var i, j :| 0 <= i <= j <= |s| && Strip(s) == s[i..j]
                  && (forall k :: 0 <= k < i ==> IsSpace(s[k]))
                  && (forall k :: j <= k < |s| ==> IsSpace(s[k]));
      assert i == j;
    } else {
      var r := Strip(s);
      var i, j :| 0 <= i <= j <= |s| && r == s[i..j];
      assert s[i] == r[0];
    }
  }

  /** Stripping twice is the same as stripping once. */
  lemma StripIdempotent(s: string)
    ensures Strip(Strip(s)) == Strip(s)
  {
    var r := Strip(s);
    if r != [] {
      assert LStrip(r) == r;
      assert RStrip(r) == r;
    }
  }

  /** Stripping never lengthens a text, and strictly shortens every text it
      changes. */
  lemma StripShortens(s: string)
    ensures |Strip(s)| <= |s|
    ensures Strip(s) != s ==> |Strip(s)| < |s|
  {
    var r := Strip(s);
    var i, j :| 0 <= i <= j <= |s| && r == s[i..j];
    if |r| == |s| {
      assert i == 0 && j == |s|;
    }
  }

  /** `"".join(parts)` */
  function Concat(parts: seq<string>): string
  {
    if parts == [] then [] else parts[0] + Concat(parts[1..])
  }

  /** Joining distributes over the concatenation of the part lists. */
  lemma {:induction false} ConcatAppend(a: seq<string>, b: seq<string>)
    ensures Concat(a + b) == Concat(a) + Concat(b)
  {
    if a == [] {
      assert a + b == b;
    } else {
      assert (a + b)[1..] == a[1..] + b;
      ConcatAppend(a[1..], b);
    }
  }

  /** Joining parts that are each no longer than their counterparts gives a
      text no longer than the join of the counterparts, and a strictly
      shorter one as soon as one part is strictly shorter. */
  lemma {:induction false} ConcatShorter(rs: seq<string>, cs: seq<string>)
    requires |rs| == |cs|
    requires forall k :: 0 <= k < |cs| ==> |rs[k]| <= |cs[k]|
    ensures |Concat(rs)| <= |Concat(cs)|
    ensures forall k :: 0 <= k < |cs| && |rs[k]| < |cs[k]| ==> |Concat(rs)| < |Concat(cs)|
  {
    if cs != [] {
      forall k | 0 <= k < |cs| - 1
        ensures rs[1..][k] == rs[k + 1] && cs[1..][k] == cs[k + 1]
      {
      }
      ConcatShorter(rs[1..], cs[1..]);
    }
  }
}
