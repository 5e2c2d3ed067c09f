/** The Python `str` operations the feedback code relies on: `find`,
    `rfind`, `split`, `replace`, `strip`, `join` and `str()` of an integer,
    each written out over `seq<char>` (a `char` is one Unicode code point,
    as a Python string index is). */
module PyStr {

  /** `sub` occurs in `s` starting at index `i`. */
  predicate IsOccurrence(s: string, sub: string, i: int)
  {
    0 <= i && i + |sub| <= |s| && s[i..i + |sub|] == sub
  }

  /** Python's `sub in s`. */
  predicate Contains(s: string, sub: string)
  {
    exists i | 0 <= i <= |s| - |sub| :: IsOccurrence(s, sub, i)
  }

  /** A one-character substring occurs exactly where that character is. */
  lemma CharOccurrence(s: string, c: char, i: int)
    ensures IsOccurrence(s, [c], i) <==> 0 <= i < |s| && s[i] == c
  {
    if 0 <= i < |s| {
      assert s[i..i + 1] == [s[i]];
    }
  }

  /** `s.find(c)` for one character: -1 when `c` is absent, otherwise the
      index of its first occurrence. */
  lemma FindChar(s: string, c: char)
    ensures Find(s, [c]) == -1 <==> c !in s
    ensures Find(s, [c]) >= 0 ==> Find(s, [c]) < |s| && s[Find(s, [c])] == c
    ensures forall k :: 0 <= k < Find(s, [c]) ==> s[k] != c
  {
    var r := Find(s, [c]);
    forall k | 0 <= k < |s| ensures IsOccurrence(s, [c], k) <==> s[k] == c {
      CharOccurrence(s, c, k);
    }
    CharOccurrence(s, c, r);
    if r == -1 {
      forall k | 0 <= k < |s| ensures s[k] != c {
        assert !IsOccurrence(s, [c], k);
      }
    }
  }

  /** `s.rfind(c)` for one character: -1 when `c` is absent, otherwise the
      index of its last occurrence. */
  lemma RFindChar(s: string, c: char)
    ensures RFind(s, [c]) == -1 <==> c !in s
    ensures RFind(s, [c]) >= 0 ==> RFind(s, [c]) < |s| && s[RFind(s, [c])] == c
    ensures forall k :: RFind(s, [c]) < k < |s| ==> s[k] != c
  {
    var r := RFind(s, [c]);
    forall k | 0 <= k < |s| ensures IsOccurrence(s, [c], k) <==> s[k] == c {
      CharOccurrence(s, c, k);
    }
    CharOccurrence(s, c, r);
    if r == -1 {
      forall k | 0 <= k < |s| ensures s[k] != c {
        assert !IsOccurrence(s, [c], k);
      }
    }
  }

  /** A text lacking one of the characters of `sub` does not contain
      `sub`. */
  lemma MissingChar(s: string, sub: string, c: char)
    requires c in sub && c !in s
    ensures !Contains(s, sub)
  {
    var k :| 0 <= k < |sub| && sub[k] == c;
    forall j ensures !IsOccurrence(s, sub, j) {
      if 0 <= j && j + |sub| <= |s| {
        assert s[j..j + |sub|][k] == s[j + k];
      }
    }
  }

  /** In `b + sub + c`, where `b` lacks `sub` and the first character of
      `sub` does not recur in it, the first `sub` is the one after `b`:
      no occurrence can straddle the end of `b`. */
  lemma FindAfter(b: string, sub: string, c: string)
    requires sub != [] && sub[0] !in sub[1..]
    requires !Contains(b, sub)
    ensures Find(b + sub + c, sub) == |b|
  {
    var x := b + sub + c;
    assert x[|b|..|b| + |sub|] == sub;
    assert IsOccurrence(x, sub, |b|);
    assert x[..|b|] == b;
    forall j | 0 <= j < |b| ensures !IsOccurrence(x, sub, j) {
      if j + |sub| <= |b| {
        OccurrenceInPrefix(x, sub, |b|, j);
      } else {
        var k := |b| - j;
        assert sub[1..][k - 1] == sub[k];
        assert x[j..j + |sub|][k] == x[|b|] == sub[0] != sub[k];
      }
    }
  }

  /** The first `c` of `t + rest` is where `rest` starts, when `t` has
      none and `rest` starts with one. */
  lemma FindAtBoundary(t: string, rest: string, c: char)
    requires c !in t
    requires |rest| > 0 && rest[0] == c
    ensures Find(t + rest, [c]) == |t|
  {
    var x := t + rest;
    FindChar(x, c);
    assert x[|t|] == c;
    forall k | 0 <= k < |t| ensures x[k] != c {
      assert x[k] == t[k];
    }
  }

  /** The last `c` of `rest + t` is where `rest` ends, when `t` has none
      and `rest` ends with one. */
  lemma RFindAtBoundary(rest: string, t: string, c: char)
    requires c !in t
    requires |rest| > 0 && rest[|rest| - 1] == c
    ensures RFind(rest + t, [c]) == |rest| - 1
  {
    var x := rest + t;
    RFindChar(x, c);
    assert x[|rest| - 1] == c;
    forall k | |rest| <= k < |x| ensures x[k] != c {
      assert x[k] == t[k - |rest|];
    }
  }

  /** Occurrences in `s[1..]` are the occurrences in `s` shifted by one. */
  lemma OccurrenceInTail(s: string, sub: string, j: int)
    requires |s| > 0 && 0 <= j
    ensures IsOccurrence(s[1..], sub, j) <==> IsOccurrence(s, sub, j + 1)
  {
    if 0 <= j && j + |sub| <= |s| - 1 {
      assert s[1..][j..j + |sub|] == s[j + 1..j + 1 + |sub|];
    }
  }

  /** Occurrences in a prefix of `s` are the occurrences in `s` that end
      inside that prefix. */
  lemma OccurrenceInPrefix(s: string, sub: string, n: int, j: int)
    requires 0 <= n <= |s|
    ensures IsOccurrence(s[..n], sub, j) <==> IsOccurrence(s, sub, j) && j + |sub| <= n
  {
    if 0 <= j && j + |sub| <= n {
      assert s[..n][j..j + |sub|] == s[j..j + |sub|];
    }
  }

  /** An occurrence inside the slice `s[lo..hi]` is an occurrence in `s`. */
  lemma OccurrenceInSlice(s: string, sub: string, lo: int, hi: int, j: int)
    requires 0 <= lo <= hi <= |s|
    requires IsOccurrence(s[lo..hi], sub, j)
    ensures IsOccurrence(s, sub, lo + j)
  {
    var u, v := s[lo..hi][j..j + |sub|], s[lo + j..lo + j + |sub|];
    forall k | 0 <= k < |sub| ensures u[k] == v[k] {
      assert u[k] == s[lo..hi][j + k];
    }
  }

  /** Python's `s.find(sub)`: the lowest index where `sub` occurs, or -1. */
  function Find(s: string, sub: string): (r: int)
    ensures -1 <= r
    ensures r == -1 <==> !Contains(s, sub)
    ensures r >= 0 ==> IsOccurrence(s, sub, r)
    ensures forall j :: 0 <= j < r ==> !IsOccurrence(s, sub, j)
    decreases |s|
  {
    if |s| < |sub| then
      assert forall j :: !IsOccurrence(s, sub, j);
      -1
    else if s[..|sub|] == sub then
      assert IsOccurrence(s, sub, 0);
      0
    else
      var r := Find(s[1..], sub);
      assert !IsOccurrence(s, sub, 0);
      assert forall j | 1 <= j :: IsOccurrence(s[1..], sub, j - 1) <==> IsOccurrence(s, sub, j) by {
        forall j | 1 <= j ensures IsOccurrence(s[1..], sub, j - 1) <==> IsOccurrence(s, sub, j) {
          OccurrenceInTail(s, sub, j - 1);
        }
      }
      if r == -1 then
        assert forall j | 0 <= j :: !IsOccurrence(s[1..], sub, j);
        -1
      else
        assert IsOccurrence(s, sub, r + 1);
        r + 1
  }

  /** Python's `s.rfind(sub)`: the highest index where `sub` occurs, or -1. */
  function RFind(s: string, sub: string): (r: int)
    ensures -1 <= r
    ensures r == -1 <==> !Contains(s, sub)
    ensures r >= 0 ==> IsOccurrence(s, sub, r)
    ensures forall j :: r < j ==> !IsOccurrence(s, sub, j)
    decreases |s|
  {
    if |s| < |sub| then
      assert forall j :: !IsOccurrence(s, sub, j);
      -1
    else if s[|s| - |sub|..] == sub then
      assert IsOccurrence(s, sub, |s| - |sub|);
      |s| - |sub|
    else
      var pre := s[..|s| - 1];
      var r := RFind(pre, sub);
      assert !IsOccurrence(s, sub, |s| - |sub|);
      assert forall j :: IsOccurrence(s[..|s| - 1], sub, j) <==> IsOccurrence(s, sub, j) && j != |s| - |sub| by {
        forall j ensures IsOccurrence(s[..|s| - 1], sub, j) <==> IsOccurrence(s, sub, j) && j != |s| - |sub| {
          OccurrenceInPrefix(s, sub, |s| - 1, j);
        }
      }
      if r == -1 then
        assert forall j | 0 <= j :: !IsOccurrence(pre, sub, j);
        -1
      else
        assert IsOccurrence(s, sub, r);
        r
  }

  /** Python's `sep.join(xs)`: empty for no elements; otherwise it starts
      with the first element. */
  function Join(xs: seq<string>, sep: string): (r: string)
    ensures |xs| == 0 ==> r == []
    ensures |xs| > 0 ==> |xs[0]| <= |r| && r[..|xs[0]|] == xs[0]
    decreases |xs|
  {
    if |xs| == 0 then ""
    else if |xs| == 1 then xs[0]
    else xs[0] + sep + Join(xs[1..], sep)
  }

  /** Python's `s.split(sep)` for a non-empty separator: the pieces between
      ALL non-overlapping occurrences of `sep`, scanning left to right.
      No piece contains `sep`, and joining the pieces with `sep` gives
      back `s`. */
  function Split(s: string, sep: string): (parts: seq<string>)
    requires sep != []
    ensures |parts| >= 1
    ensures forall k :: 0 <= k < |parts| ==> !Contains(parts[k], sep)
    ensures Join(parts, sep) == s
    decreases |s|
  {
    var i := Find(s, sep);
    if i == -1 then [s]
    else
      var rest := Split(s[i + |sep|..], sep);
      assert !Contains(s[..i], sep) by {
        forall j ensures !IsOccurrence(s[..i], sep, j) { OccurrenceInPrefix(s, sep, i, j); }
      }
      var parts := [s[..i]] + rest;
      assert parts[1..] == rest;
      assert forall k :: 1 <= k < |parts| ==> parts[k] == rest[k - 1];
      assert Join(parts, sep) == s[..i] + sep + Join(rest, sep);
      assert s[i..i + |sep|] == sep;
      assert s == s[..i] + s[i..i + |sep|] + s[i + |sep|..];
      parts
  }

  /** Every piece but the last, followed by `sep`, has its first `sep`
      right after the piece: the cuts are at leftmost occurrences. */
  predicate LeftmostCuts(parts: seq<string>, sep: string)
  {
    forall k :: 0 <= k < |parts| - 1 ==> Find(parts[k] + sep, sep) == |parts[k]|
  }

  /** `Split` cuts at the leftmost occurrences, as Python's `split` scans
      left to right: for `"aaa".split("aa")` it gives `["", "a"]`, never
      `["a", ""]`. */
  lemma {:induction false} SplitLeftmost(s: string, sep: string)
    requires sep != []
    ensures LeftmostCuts(Split(s, sep), sep)
    decreases |s|
  {
    var i := Find(s, sep);
    if i >= 0 {
      var rest := s[i + |sep|..];
      assert Split(s, sep) == [s[..i]] + Split(rest, sep);
      SplitLeftmost(rest, sep);
      assert s[..i] + sep == s[..i + |sep|];
      FindInPrefix(s, sep, i + |sep|);
      LeftmostCons(s[..i], Split(rest, sep), sep);
    }
  }

  lemma LeftmostCons(x: string, tail: seq<string>, sep: string)
    requires Find(x + sep, sep) == |x| && LeftmostCuts(tail, sep)
    ensures LeftmostCuts([x] + tail, sep)
  {
    var parts := [x] + tail;
    forall k | 0 <= k < |parts| - 1 ensures Find(parts[k] + sep, sep) == |parts[k]| {
      if k > 0 {
        assert parts[k] == tail[k - 1];
      }
    }
  }

  /** The first occurrence stays first in any prefix that holds it. */
  lemma FindInPrefix(s: string, sub: string, n: int)
    requires Find(s, sub) >= 0 && Find(s, sub) + |sub| <= n <= |s|
    ensures Find(s[..n], sub) == Find(s, sub)
  {
    var i := Find(s, sub);
    OccurrenceInPrefix(s, sub, n, i);
    forall j | 0 <= j < i ensures !IsOccurrence(s[..n], sub, j) {
      OccurrenceInPrefix(s, sub, n, j);
    }
  }

  /** The text of `s` before its first `sep`, or all of `s` if there is
      none. */
  function UpToFirst(s: string, sep: string): (r: string)
    requires sep != []
    ensures !Contains(s, sep) ==> r == s
    ensures !Contains(r, sep)
  {
    var k := Find(s, sep);
    if k == -1 then s
    else
      assert !Contains(s[..k], sep) by {
        forall j ensures !IsOccurrence(s[..k], sep, j) {
          OccurrenceInPrefix(s, sep, k, j);
        }
      }
      s[..k]
  }

  /** The first two pieces of `s.split(sep)`: with no `sep` the one piece
      is `s`; otherwise the text before the first `sep`, then the text
      after it up to the next `sep` or the end. */
  lemma SplitFirstPieces(s: string, sep: string)
    requires sep != []
    ensures Find(s, sep) == -1 ==> Split(s, sep) == [s]
    ensures var i := Find(s, sep);
            i >= 0 ==>
              && |Split(s, sep)| >= 2
              && Split(s, sep)[0] == s[..i]
              && Split(s, sep)[1] == UpToFirst(s[i + |sep|..], sep)
  {
    var i := Find(s, sep);
    if i >= 0 {
      var rest := s[i + |sep|..];
      assert Split(s, sep) == [s[..i]] + Split(rest, sep);
      var k := Find(rest, sep);
      if k >= 0 {
        assert Split(rest, sep) == [rest[..k]] + Split(rest[k + |sep|..], sep);
      }
    }
  }

  /** Python's `s.replace(old, new)` for a non-empty `old`: every
      non-overlapping occurrence, leftmost first, is replaced. */
  function Replace(s: string, pat: string, rep: string): (r: string)
    requires pat != []
    ensures !Contains(s, pat) ==> r == s
    ensures rep == pat ==> r == s
    ensures Find(s, pat) >= 0 ==> Find(s, pat) <= |r| && r[..Find(s, pat)] == s[..Find(s, pat)]
    decreases |s|
  {
    var i := Find(s, pat);
    if i == -1 then s
    else
      var tail := Replace(s[i + |pat|..], pat, rep);
      assert rep == pat ==> s[..i] + rep + tail == s by {
        if rep == pat {
          assert s[i..i + |pat|] == pat;
          assert s == s[..i] + s[i..i + |pat|] + s[i + |pat|..];
        }
      }
      s[..i] + rep + tail
  }

  /** `s.replace(old, new) == new.join(s.split(old))`, the identity that
      ties `replace` to `split`. */
  lemma {:induction false} ReplaceIsJoinOfSplit(s: string, pat: string, rep: string)
    requires pat != []
    ensures Replace(s, pat, rep) == Join(Split(s, pat), rep)
    decreases |s|
  {
    var i := Find(s, pat);
    if i != -1 {
      var rest := s[i + |pat|..];
      ReplaceIsJoinOfSplit(rest, pat, rep);
      var parts := [s[..i]] + Split(rest, pat);
      assert Split(s, pat) == parts;
      assert parts[1..] == Split(rest, pat);
    }
  }

  /** Joining pieces that are free of a one-character separator and then
      splitting on it gives back the pieces. */
  lemma {:induction false} SplitJoin(xs: seq<string>, c: char)
    requires |xs| >= 1
    requires forall k :: 0 <= k < |xs| ==> c !in xs[k]
    ensures Split(Join(xs, [c]), [c]) == xs
    decreases |xs|
  {
    var s := Join(xs, [c]);
    if |xs| == 1 {
      assert !Contains(s, [c]) by {
        forall j ensures !IsOccurrence(s, [c], j) { CharOccurrence(s, c, j); }
      }
    } else {
      var x := xs[0];
      var tail := Join(xs[1..], [c]);
      assert s == x + [c] + tail;
      forall j | 0 <= j < |x| ensures !IsOccurrence(s, [c], j) {
        CharOccurrence(s, c, j);
        assert s[j] == x[j];
      }
      CharOccurrence(s, c, |x|);
      assert Find(s, [c]) == |x|;
      assert s[|x| + 1..] == tail;
      SplitJoin(xs[1..], c);
      assert s[..|x|] == x;
      assert xs == [x] + xs[1..];
    }
  }

  /** The characters Python's `str.isspace` (and so `str.strip()`) treats
      as whitespace. */
  predicate IsSpace(c: char)
  {
    c == ' ' || c == '\t' || c == '\n' || c == '\r' || c == '\U{0B}' || c == '\U{0C}'
    || ('\U{1C}' <= c <= '\U{1F}') || c == '\U{85}' || c == '\U{A0}' || c == '\U{1680}'
    || ('\U{2000}' <= c <= '\U{200A}') || c == '\U{2028}' || c == '\U{2029}'
    || c == '\U{202F}' || c == '\U{205F}' || c == '\U{3000}'
  }

  predicate AllSpace(s: string)
  {
    forall k :: 0 <= k < |s| ==> IsSpace(s[k])
  }

  /** Python's `s.lstrip()`: a suffix of `s` that does not start with
      whitespace, everything dropped being whitespace. */
  function TrimStart(s: string): (r: string)
    ensures |r| <= |s| && r == s[|s| - |r|..]
    ensures AllSpace(s[..|s| - |r|])
    ensures r != [] ==> !IsSpace(r[0])
    decreases |s|
  {
    if s != [] && IsSpace(s[0]) then
      var r := TrimStart(s[1..]);
      assert s[1..][..|s| - 1 - |r|] == s[1..|s| - |r|];
      assert forall k | 1 <= k < |s| - |r| :: s[k] == s[1..|s| - |r|][k - 1];
      r
    else s
  }

  /** Python's `s.rstrip()`: a prefix of `s` that does not end with
      whitespace, everything dropped being whitespace. */
  function TrimEnd(s: string): (r: string)
    ensures |r| <= |s| && r == s[..|r|]
    ensures AllSpace(s[|r|..])
    ensures r != [] ==> !IsSpace(r[|r| - 1])
    decreases |s|
  {
    if s != [] && IsSpace(s[|s| - 1]) then
      var r := TrimEnd(s[..|s| - 1]);
      assert s[..|s| - 1][|r|..] == s[|r|..|s| - 1];
      assert forall k | |r| <= k < |s| - 1 :: s[k] == s[|r|..|s| - 1][k - |r|];
      r
    else s
  }

  /** Python's `s.strip()`: no longer than `s`, and neither starting nor
      ending with whitespace. */
  function Strip(s: string): (r: string)
    ensures |r| <= |s|
    ensures r != [] ==> !IsSpace(r[0]) && !IsSpace(r[|r| - 1])
  {
    var a := TrimStart(s);
    var r := TrimEnd(a);
    assert r != [] ==> r[0] == a[0];
    r
  }

  /** `strip()` is characterised by its effect: for `s == lead + m + trail`
      with `lead` and `trail` whitespace and `m` neither starting nor
      ending with whitespace, the result is `m`. */
  lemma StripExact(lead: string, m: string, trail: string)
    requires AllSpace(lead) && AllSpace(trail)
    requires m != [] ==> !IsSpace(m[0]) && !IsSpace(m[|m| - 1])
    ensures Strip(lead + m + trail) == m
  {
    assert lead + m + trail == lead + (m + trail);
    if m == [] {
      assert lead + m + trail == lead + trail;
      TrimStartAllSpace(lead + trail);
    } else {
      TrimStartExact(lead, m + trail);
      TrimEndExact(m, trail);
    }
  }

  lemma {:induction false} TrimStartAllSpace(s: string)
    requires AllSpace(s)
    ensures TrimStart(s) == []
    decreases |s|
  {
    if s != [] {
      TrimStartAllSpace(s[1..]);
    }
  }

  lemma {:induction false} TrimStartExact(lead: string, rest: string)
    requires AllSpace(lead)
    requires rest != [] ==> !IsSpace(rest[0])
    ensures TrimStart(lead + rest) == rest
    decreases |lead|
  {
    if lead == [] {
      assert lead + rest == rest;
    } else {
      assert (lead + rest)[1..] == lead[1..] + rest;
      TrimStartExact(lead[1..], rest);
    }
  }

  lemma {:induction false} TrimEndExact(m: string, trail: string)
    requires AllSpace(trail)
    requires m != [] ==> !IsSpace(m[|m| - 1])
    ensures TrimEnd(m + trail) == m
    decreases |trail|
  {
    if trail == [] {
      assert m + trail == m;
    } else {
      var t := trail[..|trail| - 1];
      assert (m + trail)[..|m + trail| - 1] == m + t;
      TrimEndExact(m, t);
    }
  }

  /** `strip()` returns a contiguous slice of its input, so it never
      creates an occurrence of a substring the input did not have. */
  lemma StripKeepsAbsence(s: string, sub: string)
    requires !Contains(s, sub)
    ensures !Contains(Strip(s), sub)
  {
    var a := TrimStart(s);
    var lo := |s| - |a|;
    var r := TrimEnd(a);
    assert r == s[lo..lo + |r|];
    forall j ensures !IsOccurrence(r, sub, j) {
      if IsOccurrence(r, sub, j) {
        OccurrenceInSlice(s, sub, lo, lo + |r|, j);
      }
    }
  }

  /** `strip()` is idempotent. */
  lemma StripIdempotent(s: string)
    ensures Strip(Strip(s)) == Strip(s)
  {
    var a := TrimStart(s);
    var m := TrimEnd(a);
    assert m != [] ==> m[0] == a[0];
    TrimmedStart(m);
    TrimmedEnd(m);
  }

  lemma TrimmedStart(m: string)
    requires m != [] ==> !IsSpace(m[0])
    ensures TrimStart(m) == m
  {
  }

  lemma TrimmedEnd(m: string)
    requires m != [] ==> !IsSpace(m[|m| - 1])
    ensures TrimEnd(m) == m
  {
  }

  /** The decimal digit for `d`. */
  function DigitChar(d: int): char
    requires 0 <= d < 10
  {
    "0123456789"[d]
  }

  predicate IsDigit(c: char)
  {
    '0' <= c <= '9'
  }

  /** Python's `str(n)` for a natural number: decimal digits, without
      leading zeros. */
  function NatToString(n: nat): (r: string)
    ensures |r| >= 1
    ensures forall k :: 0 <= k < |r| ==> IsDigit(r[k])
    ensures r[0] == '0' ==> n == 0 && |r| == 1
    decreases n
  {
    if n < 10 then [DigitChar(n)] else NatToString(n / 10) + [DigitChar(n % 10)]
  }

  /** Python's `str(n)` (and the `{n}` of an f-string) for any integer:
      a minus sign exactly for a negative `n`, then the decimal digits of
      its magnitude, without leading zeros, which read back as that
      magnitude. */
  function IntToString(n: int): (r: string)
    ensures |r| >= 1
    ensures n >= 0 <==> r[0] != '-'
    ensures forall k :: 0 <= k < |r| ==> IsDigit(r[k]) || r[k] == '-'
    ensures var digits := if n < 0 then r[1..] else r;
            && digits != []
            && (forall k :: 0 <= k < |digits| ==> IsDigit(digits[k]))
            && (digits[0] == '0' ==> n == 0 && |digits| == 1)
            && DecimalValue(digits) == if n < 0 then -n else n
  {
    NatToStringRoundTrip(if n < 0 then -n else n);
    if n < 0 then
      var m := NatToString(-n);
      assert ("-" + m)[1..] == m;
      "-" + m
    else NatToString(n)
  }

  /** Reading a string of decimal digits as a number. */
  function DecimalValue(s: string): int
    decreases |s|
  {
    if s == [] then 0
    else var c := s[|s| - 1];
    DecimalValue(s[..|s| - 1]) * 10 + (if IsDigit(c) then c as int - '0' as int else 0)
  }

  /** The decimal text of `n` reads back as `n`. */
  lemma {:induction false} NatToStringRoundTrip(n: nat)
    ensures DecimalValue(NatToString(n)) == n
    decreases n
  {
    var s := NatToString(n);
    if n < 10 {
      assert s[..0] == [];
    } else {
      NatToStringRoundTrip(n / 10);
      assert s[..|s| - 1] == NatToString(n / 10);
    }
  }

  /** Distinct numbers have distinct decimal texts. */
  lemma IntToStringInjective(a: int, b: int)
    requires IntToString(a) == IntToString(b)
    ensures a == b
  {
    var sa, sb := IntToString(a), IntToString(b);
    if a >= 0 {
      NatToStringRoundTrip(a);
      NatToStringRoundTrip(b);
    } else {
      assert NatToString(-a) == sa[1..] == sb[1..] == NatToString(-b);
      NatToStringRoundTrip(-a);
      NatToStringRoundTrip(-b);
    }
  }
}
