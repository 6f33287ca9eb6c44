/** The Python `str` operations the synchronizer relies on, over `string` (`seq<char>`).
    Each function is named after the method it models and keeps that method's edge cases. */
module Text {

  /** `s.startswith(prefix)` */
  predicate StartsWith(s: string, prefix: string) {
    |prefix| <= |s| && s[..|prefix|] == prefix
  }

  /** `s.endswith(suffix)` */
  predicate EndsWith(s: string, suffix: string) {
    |suffix| <= |s| && s[|s| - |suffix|..] == suffix
  }

  /** `needle in s` for a string needle */
  predicate Contains(s: string, needle: string)
    decreases |s|
  {
    StartsWith(s, needle) || (|s| > 0 && Contains(s[1..], needle))
  }

  lemma EndsWithTrans(a: string, b: string, c: string)
    requires EndsWith(a, b) && EndsWith(b, c)
    ensures EndsWith(a, c)
  {
    assert a[|a| - |c|..] == b[|b| - |c|..];
  }

  /** Python slicing clamps: `s[:n]` */
  function Take(s: string, n: nat): (r: string)
    ensures StartsWith(s, r)
    ensures |r| == if |s| < n then |s| else n
  {
    if |s| < n then s else s[..n]
  }

  /** Python slicing clamps: `s[n:]` */
  function Drop(s: string, n: nat): (r: string)
    ensures Take(s, n) + r == s
  {
    if |s| < n then [] else s[n..]
  }

  // ---------------------------------------------------------------------------
  // Whitespace and `strip()`

  /** The characters for which Python's `str.isspace()` holds, as code-point ranges:
      tab to carriage return, the four separators U+001C..U+001F with space, NEL,
      no-break space, and the Unicode space separators and line/paragraph separators. */
  predicate IsSpace(c: char) {
    || '\t' <= c <= '\r'
    || '\U{001C}' <= c <= ' '
    || c == '\U{0085}' || c == '\U{00A0}' || c == '\U{1680}'
    || '\U{2000}' <= c <= '\U{200A}'
    || c == '\U{2028}' || c == '\U{2029}' || c == '\U{202F}' || c == '\U{205F}' || c == '\U{3000}'
  }

  predicate AllSpace(s: string) {
    forall k | 0 <= k < |s| :: IsSpace(s[k])
  }

  /** Every character of `s[lo..hi]` is whitespace. */
  predicate SpacesBetween(s: string, lo: int, hi: int)
    requires 0 <= lo <= hi <= |s|
  {
    forall k | lo <= k < hi :: IsSpace(s[k])
  }

  /** `s.lstrip()`: the suffix of `s` left after dropping leading whitespace */
  function TrimStart(s: string): (r: string)
    ensures |r| <= |s| && r == s[|s| - |r|..]
    ensures SpacesBetween(s, 0, |s| - |r|)
    ensures r == [] || !IsSpace(r[0])
    decreases |s|
  {
    if s != [] && IsSpace(s[0]) then
      var t := s[1..];
      var r := TrimStart(t);
      assert t[|t| - |r|..] == s[|s| - |r|..];
      SpacesShift(s, |s| - |r|);
      r
    else s
  }

  /** `s.rstrip()`: the prefix of `s` left after dropping trailing whitespace */
  function TrimEnd(s: string): (r: string)
    ensures |r| <= |s| && r == s[..|r|]
    ensures SpacesBetween(s, |r|, |s|)
    ensures r == [] || !IsSpace(r[|r| - 1])
    decreases |s|
  {
    if s != [] && IsSpace(s[|s| - 1]) then
      var t := s[..|s| - 1];
      var r := TrimEnd(t);
      assert t[..|r|] == s[..|r|];
      SpacesExtend(s, |r|);
      r
    else s
  }

  lemma SpacesShift(s: string, n: nat)
    requires 1 <= n <= |s| && IsSpace(s[0]) && SpacesBetween(s[1..], 0, n - 1)
    ensures SpacesBetween(s, 0, n)
  {
    forall k | 0 < k < n ensures IsSpace(s[k]) {
      assert s[k] == s[1..][k - 1];
    }
  }

  lemma SpacesExtend(s: string, n: nat)
    requires n < |s| && IsSpace(s[|s| - 1]) && SpacesBetween(s[..|s| - 1], n, |s| - 1)
    ensures SpacesBetween(s, n, |s|)
  {
    forall k | n <= k < |s| - 1 ensures IsSpace(s[k]) {
      assert s[k] == s[..|s| - 1][k];
    }
  }

  lemma SpacesSuffix(s: string, i: nat, n: nat)
    requires i + n <= |s| && SpacesBetween(s[i..], n, |s| - i)
    ensures SpacesBetween(s, i + n, |s|)
  {
    forall k | i + n <= k < |s| ensures IsSpace(s[k]) {
      assert s[k] == s[i..][k - i];
    }
  }

  /** `r` occurs in `s` at offset `i` with nothing but whitespace around it. */
  predicate WhitespaceAround(s: string, r: string, i: nat) {
    && i + |r| <= |s|
    && s[i..i + |r|] == r
    && SpacesBetween(s, 0, i)
    && SpacesBetween(s, i + |r|, |s|)
  }

  /** `s.strip()` */
  function Strip(s: string): (r: string)
    ensures r == [] || (!IsSpace(r[0]) && !IsSpace(r[|r| - 1]))
    ensures WhitespaceAround(s, r, |s| - |TrimStart(s)|)
  {
    var t := TrimStart(s);
    var r := TrimEnd(t);
    StripBounds(s, t, r);
    r
  }

  lemma StripBounds(s: string, t: string, r: string)
    requires |t| <= |s| && t == s[|s| - |t|..] && SpacesBetween(s, 0, |s| - |t|)
    requires t == [] || !IsSpace(t[0])
    requires |r| <= |t| && r == t[..|r|] && SpacesBetween(t, |r|, |t|)
    requires r == [] || !IsSpace(r[|r| - 1])
    ensures r == [] || (!IsSpace(r[0]) && !IsSpace(r[|r| - 1]))
    ensures WhitespaceAround(s, r, |s| - |t|)
  {
    var i := |s| - |t|;
    assert s[i..i + |r|] == r;
    SpacesSuffix(s, i, |r|);
    if r != [] {
      assert r[0] == t[0];
    }
  }

  /** A string with no whitespace at either end is its own `strip()`. */
  lemma StripOfTrimmed(s: string)
    requires s == [] || (!IsSpace(s[0]) && !IsSpace(s[|s| - 1]))
    ensures Strip(s) == s
  {
    assert TrimStart(s) == s;
  }

  lemma {:induction false} TrimStartPadded(a: string, b: string)
    requires AllSpace(a)
    ensures TrimStart(a + b) == TrimStart(b)
    decreases |a|
  {
    if a != [] {
      assert (a + b)[0] == a[0] && IsSpace(a[0]);
      assert (a + b)[1..] == a[1..] + b;
      assert AllSpace(a[1..]) by {
        forall k | 0 <= k < |a[1..]| ensures IsSpace(a[1..][k]) {
          assert a[1..][k] == a[k + 1];
        }
      }
      TrimStartPadded(a[1..], b);
    } else {
      assert a + b == b;
    }
  }

  lemma {:induction false} TrimEndPadded(b: string, c: string)
    requires AllSpace(c)
    ensures TrimEnd(b + c) == TrimEnd(b)
    decreases |c|
  {
    if c != [] {
      assert (b + c)[|b + c| - 1] == c[|c| - 1] && IsSpace(c[|c| - 1]);
      assert (b + c)[..|b + c| - 1] == b + c[..|c| - 1];
      TrimEndPadded(b, c[..|c| - 1]);
    } else {
      assert b + c == b;
    }
  }

  lemma {:induction false} TrimStartAppend(b: string, c: string)
    requires !AllSpace(b)
    ensures TrimStart(b + c) == TrimStart(b) + c
    decreases |b|
  {
    if IsSpace(b[0]) {
      assert (b + c)[1..] == b[1..] + c;
      assert !AllSpace(b[1..]) by {
        var k :| 0 <= k < |b| && !IsSpace(b[k]);
        assert b[1..][k - 1] == b[k];
      }
      TrimStartAppend(b[1..], c);
    }
  }

  /** Whitespace around a string does not change what `strip()` returns. */
  lemma StripPadded(a: string, b: string, c: string)
    requires AllSpace(a) && AllSpace(c)
    ensures Strip(a + b + c) == Strip(b)
  {
    assert a + b + c == a + (b + c);
    TrimStartPadded(a, b + c);
    if AllSpace(b) {
      StripPaddedBlank(b, c);
    } else {
      TrimStartAppend(b, c);
      TrimEndPadded(TrimStart(b), c);
    }
  }

  lemma StripPaddedBlank(b: string, c: string)
    requires AllSpace(b) && AllSpace(c)
    ensures TrimStart(b + c) == [] && TrimStart(b) == []
  {
    assert AllSpace(b + c);
    TrimStartPadded(b + c, []);
    TrimStartPadded(b, []);
    assert b + c + [] == b + c && b + [] == b;
  }

  // ---------------------------------------------------------------------------
  // `split` with a one-character separator, and its inverse

  /** `sep.join(parts)` */
  function JoinWith(parts: seq<string>, sep: char): string
    requires |parts| >= 1
  {
    if |parts| == 1 then parts[0] else parts[0] + [sep] + JoinWith(parts[1..], sep)
  }

  /** `s.split(sep)` for a one-character separator: always at least one part, none
      containing the separator, and joining them back gives `s`. */
  function SplitOn(s: string, sep: char): (parts: seq<string>)
    ensures |parts| >= 1
    ensures forall p | p in parts :: sep !in p
    ensures JoinWith(parts, sep) == s
    decreases |s|
  {
    if s == [] then [""]
    else
      var rest := SplitOn(s[1..], sep);
      if s[0] == sep then
        assert ([""] + rest)[1..] == rest;
        [""] + rest
      else
        var parts := [[s[0]] + rest[0]] + rest[1..];
        assert parts[1..] == rest[1..];
        parts
  }

  lemma {:induction false} SplitOnNoSepPrefix(x: string, y: string, sep: char)
    requires sep !in x
    ensures SplitOn(x + y, sep) == [x + SplitOn(y, sep)[0]] + SplitOn(y, sep)[1..]
    decreases |x|
  {
    if x != [] {
      assert (x + y)[1..] == x[1..] + y;
      SplitOnNoSepPrefix(x[1..], y, sep);
      assert [x[0]] + (x[1..] + SplitOn(y, sep)[0]) == x + SplitOn(y, sep)[0];
    } else {
      assert x + y == y;
      var p := SplitOn(y, sep);
      assert x + p[0] == p[0];
      assert p == [p[0]] + p[1..];
    }
  }

  /** Splitting a joined list of separator-free parts gives the parts back. */
  lemma {:induction false} SplitJoinRoundTrip(parts: seq<string>, sep: char)
    requires |parts| >= 1
    requires forall p | p in parts :: sep !in p
    ensures SplitOn(JoinWith(parts, sep), sep) == parts
    decreases |parts|
  {
    if |parts| == 1 {
      SplitOnNoSepPrefix(parts[0], [], sep);
      assert parts[0] + [] == parts[0];
    } else {
      var tail := JoinWith(parts[1..], sep);
      SplitJoinRoundTrip(parts[1..], sep);
      assert parts[0] + [sep] + tail == parts[0] + ([sep] + tail);
      SplitOnNoSepPrefix(parts[0], [sep] + tail, sep);
      assert ([sep] + tail)[1..] == tail;
      assert SplitOn([sep] + tail, sep) == [""] + parts[1..];
      assert parts[0] + "" == parts[0];
      assert parts == [parts[0]] + parts[1..];
    }
  }

  // ---------------------------------------------------------------------------
  // `replace`

  /** `s.replace(pat, rep)`: every non-overlapping occurrence of `pat`, scanning
      from the left, is replaced. (Python also allows an empty `pat`; no caller here
      passes one.) */
  function ReplaceAll(s: string, pat: string, rep: string): (r: string)
    requires pat != []
    ensures !Contains(s, pat) ==> r == s
    decreases |s|
  {
    if |s| < |pat| then s
    else if s[..|pat|] == pat then rep + ReplaceAll(s[|pat|..], pat, rep)
    else [s[0]] + ReplaceAll(s[1..], pat, rep)
  }

  function Last(s: string): char
    requires s != []
  {
    s[|s| - 1]
  }

  lemma LastAppend(a: string, b: string)
    requires b != []
    ensures a + b != [] && Last(a + b) == Last(b)
  {
  }

  /** Dropping a prefix keeps a string from ending with `pat`. */
  lemma NotEndsWithDrop(s: string, pat: string, k: nat)
    requires k < |s| && !EndsWith(s, pat)
    ensures !EndsWith(s[k..], pat) && Last(s[k..]) == Last(s)
  {
    var t := s[k..];
    if |pat| <= |t| {
      assert t[|t| - |pat|..] == s[|s| - |pat|..];
    }
  }

  /** When `s` does not end with `pat`, `replace` keeps the last character of `s`. */
  lemma {:induction false} ReplaceAllKeepsLast(s: string, pat: string, rep: string)
    requires pat != [] && s != []
    requires !EndsWith(s, pat)
    ensures ReplaceAll(s, pat, rep) != [] && Last(ReplaceAll(s, pat, rep)) == Last(s)
    decreases |s|
  {
    if |s| < |pat| {
    } else if s[..|pat|] == pat {
      assert s[|s| - |pat|..] != pat;
      assert |s| != |pat|;
      NotEndsWithDrop(s, pat, |pat|);
      ReplaceAllKeepsLast(s[|pat|..], pat, rep);
      LastAppend(rep, ReplaceAll(s[|pat|..], pat, rep));
    } else if |s| == 1 {
    } else {
      NotEndsWithDrop(s, pat, 1);
      ReplaceAllKeepsLast(s[1..], pat, rep);
      LastAppend([s[0]], ReplaceAll(s[1..], pat, rep));
    }
  }

  /** Character-for-string substitution, one character at a time. */
  function ReplaceChar(s: string, c: char, rep: string): string
  {
    if s == [] then [] else (if s[0] == c then rep else [s[0]]) + ReplaceChar(s[1..], c, rep)
  }

  lemma {:induction false} ReplaceCharAppend(a: string, b: string, c: char, rep: string)
    ensures ReplaceChar(a + b, c, rep) == ReplaceChar(a, c, rep) + ReplaceChar(b, c, rep)
    decreases |a|
  {
    if a != [] {
      assert (a + b)[1..] == a[1..] + b;
      ReplaceCharAppend(a[1..], b, c, rep);
    } else {
      assert a + b == b;
    }
  }

  /** Replacing a one-character pattern is the per-character substitution. */
  lemma {:induction false} ReplaceAllOneChar(s: string, c: char, rep: string)
    ensures ReplaceAll(s, [c], rep) == ReplaceChar(s, c, rep)
    decreases |s|
  {
    if s != [] {
      ReplaceAllOneChar(s[1..], c, rep);
    }
  }

  /** Replacing one character by another removes every occurrence of the first. */
  lemma {:induction false} ReplaceCharRemoves(s: string, c: char, d: char)
    requires c != d
    ensures c !in ReplaceChar(s, c, [d])
    ensures |ReplaceChar(s, c, [d])| == |s|
    decreases |s|
  {
    if s != [] {
      ReplaceCharRemoves(s[1..], c, d);
    }
  }

  /** Replacing a character that is not there changes nothing. */
  lemma {:induction false} ReplaceCharAbsent(s: string, c: char, rep: string)
    requires c !in s
    ensures ReplaceChar(s, c, rep) == s
    decreases |s|
  {
    if s != [] {
      assert c !in s[1..];
      ReplaceCharAbsent(s[1..], c, rep);
    }
  }
}
