/**
 * The Python string operations the payment code calls, restricted to ASCII:
 * `strip`, `lower`, `upper`, `split(sep)` and an anchored
 * `re.match(r"^[class]+$", s)`; with `isspace`, the whitespace notion behind
 * `strip`, and `count`, used to state how many separators a string holds.
 */
module PyStr {

  /** `str.isspace` on ASCII: space, \t \n \v \f \r and the separators 0x1C-0x1F. */
  predicate IsSpace(c: char) {
    c == ' ' || 9 <= c as int <= 13 || 28 <= c as int <= 31
  }

  predicate AllSpace(s: string) {
    forall k :: 0 <= k < |s| ==> IsSpace(s[k])
  }

  // ---------------------------------------------------------------------
  // lower / upper

  function LowerChar(c: char): char {
    if 'A' <= c <= 'Z' then (c as int - 'A' as int + 'a' as int) as char else c
  }

  function UpperChar(c: char): char {
    if 'a' <= c <= 'z' then (c as int - 'a' as int + 'A' as int) as char else c
  }

  /**
   * `s.lower()`: the same length, no upper-case letter left, and each
   * character equal to the original up to letter case.
   */
  function Lower(s: string): (r: string)
    ensures |r| == |s|
    ensures forall k :: 0 <= k < |r| ==> !('A' <= r[k] <= 'Z') && UpperChar(r[k]) == UpperChar(s[k])
  {
    seq(|s|, k requires 0 <= k < |s| => LowerChar(s[k]))
  }

  /**
   * `s.upper()`: the same length, no lower-case letter left, and each
   * character equal to the original up to letter case.
   */
  function Upper(s: string): (r: string)
    ensures |r| == |s|
    ensures forall k :: 0 <= k < |r| ==> !('a' <= r[k] <= 'z') && LowerChar(r[k]) == LowerChar(s[k])
  {
    seq(|s|, k requires 0 <= k < |s| => UpperChar(s[k]))
  }

  /** Lower-casing never creates or removes whitespace. */
  lemma LowerCharSpace(c: char)
    ensures IsSpace(LowerChar(c)) <==> IsSpace(c)
  {
  }

  lemma LowerIdempotent(s: string)
    ensures Lower(Lower(s)) == Lower(s)
  {
  }

  lemma LowerSlice(s: string, i: nat, j: nat)
    requires i <= j <= |s|
    ensures Lower(s)[i..j] == Lower(s[i..j])
  {
  }

  // ---------------------------------------------------------------------
  // strip

  /** The first index at or after `i` that is not whitespace, or `|s|`. */
  function SkipSpaces(s: string, i: nat): (n: nat)
    requires i <= |s|
    ensures i <= n <= |s|
    ensures forall k :: i <= k < n ==> IsSpace(s[k])
    ensures n < |s| ==> !IsSpace(s[n])
    decreases |s| - i
  {
    if i < |s| && IsSpace(s[i]) then SkipSpaces(s, i + 1) else i
  }

  /** The index just past the last non-whitespace character before `j`, or 0. */
  function SkipSpacesBack(s: string, j: nat): (n: nat)
    requires j <= |s|
    ensures n <= j
    ensures forall k :: n <= k < j ==> IsSpace(s[k])
    ensures 0 < n ==> !IsSpace(s[n - 1])
  {
    if 0 < j && IsSpace(s[j - 1]) then SkipSpacesBack(s, j - 1) else j
  }

  /**
   * The slice `s[i..j]` that `s.strip()` keeps: everything outside it is
   * whitespace, and it neither starts nor ends with whitespace.
   */
  function StripBounds(s: string): (b: (nat, nat))
    ensures b.0 <= b.1 <= |s|
    ensures forall k :: 0 <= k < b.0 ==> IsSpace(s[k])
    ensures forall k :: b.1 <= k < |s| ==> IsSpace(s[k])
    ensures b.0 < b.1 ==> !IsSpace(s[b.0]) && !IsSpace(s[b.1 - 1])
  {
    var a := SkipSpaces(s, 0);
    if a == |s| then (a, a) else (a, SkipSpacesBack(s, |s|))
  }

  /** `s.strip()` */
  function Strip(s: string): (r: string)
    ensures |r| <= |s|
    ensures r == [] || (!IsSpace(r[0]) && !IsSpace(r[|r| - 1]))
  {
    var b := StripBounds(s);
    s[b.0..b.1]
  }

  /**
   * A slice of `s` with only whitespace around it, and none at either of its
   * own ends, is what `strip` returns.
   */
  lemma StripUnique(s: string, i: nat, j: nat)
    requires i <= j <= |s|
    requires forall k :: 0 <= k < i ==> IsSpace(s[k])
    requires forall k :: j <= k < |s| ==> IsSpace(s[k])
    requires i < j ==> !IsSpace(s[i]) && !IsSpace(s[j - 1])
    ensures Strip(s) == s[i..j]
  {
    var b := StripBounds(s);
    if i < j {
      assert b.0 == i && b.1 == j;
    } else {
      assert b.0 == b.1;
    }
  }

  /** A character that is not whitespace survives `strip`. */
  lemma StripKeeps(s: string, k: nat)
    requires k < |s| && !IsSpace(s[k])
    ensures StripBounds(s).0 <= k < StripBounds(s).1
  {
  }

  /** What `strip` removes in front is whitespace. */
  lemma StrippedPrefix(s: string)
    ensures AllSpace(s[..StripBounds(s).0])
  {
    var b := StripBounds(s);
    forall k | 0 <= k < b.0 ensures IsSpace(s[..b.0][k]) { assert s[..b.0][k] == s[k]; }
  }

  /** What `strip` removes at the back is whitespace. */
  lemma StrippedSuffix(s: string)
    ensures AllSpace(s[StripBounds(s).1..])
  {
    var b := StripBounds(s);
    forall k | 0 <= k < |s| - b.1 ensures IsSpace(s[b.1..][k]) { assert s[b.1..][k] == s[b.1 + k]; }
  }

  /** Whitespace added around a string does not change what `strip` returns. */
  lemma StripPadded(w1: string, s: string, w2: string)
    requires AllSpace(w1) && AllSpace(w2)
    ensures Strip(w1 + s + w2) == Strip(s)
  {
    var x := w1 + s + w2;
    var a, c := |w1|, |w1| + |s|;
    assert x[a..c] == s;
    forall k | 0 <= k < a ensures IsSpace(x[k]) { assert x[k] == w1[k]; }
    forall k | c <= k < |x| ensures IsSpace(x[k]) { assert x[k] == w2[k - c]; }
    StripWithin(x, a, c);
  }

  /** `strip` of a string whose only characters outside `x[a..c]` are whitespace. */
  lemma StripWithin(x: string, a: nat, c: nat)
    requires a <= c <= |x|
    requires forall k :: 0 <= k < a ==> IsSpace(x[k])
    requires forall k :: c <= k < |x| ==> IsSpace(x[k])
    ensures Strip(x) == Strip(x[a..c])
  {
    var b := StripBounds(x[a..c]);
    WithinBounds(x, a, c, b.0, b.1);
    StripUnique(x, a + b.0, a + b.1);
    MidSlice(x, a, c, b.0, b.1);
  }

  /** Bounds that frame the middle part also frame the whole string. */
  lemma WithinBounds(x: string, a: nat, c: nat, p: nat, q: nat)
    requires a <= c <= |x| && p <= q <= c - a
    requires forall k :: 0 <= k < a ==> IsSpace(x[k])
    requires forall k :: c <= k < |x| ==> IsSpace(x[k])
    requires forall k :: 0 <= k < p ==> IsSpace(x[a..c][k])
    requires forall k :: q <= k < c - a ==> IsSpace(x[a..c][k])
    requires p < q ==> !IsSpace(x[a..c][p]) && !IsSpace(x[a..c][q - 1])
    ensures forall k :: 0 <= k < a + p ==> IsSpace(x[k])
    ensures forall k :: a + q <= k < |x| ==> IsSpace(x[k])
    ensures p < q ==> !IsSpace(x[a + p]) && !IsSpace(x[a + q - 1])
  {
    var s := x[a..c];
    forall k | a <= k < a + p ensures IsSpace(x[k]) { assert x[k] == s[k - a]; }
    forall k | a + q <= k < c ensures IsSpace(x[k]) { assert x[k] == s[k - a]; }
  }

  lemma MidSlice(x: string, a: nat, c: nat, p: nat, q: nat)
    requires a <= c <= |x| && p <= q <= c - a
    ensures x[a..c][p..q] == x[a + p..a + q]
  {
    assert forall k :: 0 <= k < q - p ==> x[a..c][p..q][k] == x[a + p + k];
  }

  /** `strip` and `lower` commute. */
  lemma StripLower(s: string)
    ensures Strip(Lower(s)) == Lower(Strip(s))
  {
    var b := StripBounds(s);
    var l := Lower(s);
    forall k | 0 <= k < |s| ensures IsSpace(l[k]) <==> IsSpace(s[k]) { LowerCharSpace(s[k]); }
    StripUnique(l, b.0, b.1);
    LowerSlice(s, b.0, b.1);
  }

  // ---------------------------------------------------------------------
  // count / find / split / join

  /** `s.count(c)` for a single character. */
  function Count(s: string, c: char): nat {
    multiset(s)[c]
  }

  lemma CountZero(s: string, c: char)
    ensures Count(s, c) == 0 <==> c !in s
  {
    if c in s {
      var k :| 0 <= k < |s| && s[k] == c;
      assert s == s[..k] + [c] + s[k + 1..];
    }
  }

  /** A character that occurs once at `k` occurs nowhere else. */
  lemma CountOnce(s: string, c: char, k: nat)
    requires k < |s| && s[k] == c && Count(s, c) == 1
    ensures c !in s[..k] && c !in s[k + 1..]
  {
    assert s == s[..k] + [c] + s[k + 1..];
    assert multiset(s) == multiset(s[..k]) + multiset{c} + multiset(s[k + 1..]);
    CountZero(s[..k], c);
    CountZero(s[k + 1..], c);
  }

  /** A character found at `k` and nowhere else occurs once. */
  lemma CountExactlyOnce(s: string, c: char, k: nat)
    requires k < |s| && s[k] == c && c !in s[..k] && c !in s[k + 1..]
    ensures Count(s, c) == 1
  {
    assert s == s[..k] + [c] + s[k + 1..];
    assert multiset(s) == multiset(s[..k]) + multiset{c} + multiset(s[k + 1..]);
    CountZero(s[..k], c);
    CountZero(s[k + 1..], c);
  }

  /** Whitespace holds no occurrence of a non-whitespace character. */
  lemma CountSpace(w: string, c: char)
    requires AllSpace(w) && !IsSpace(c)
    ensures Count(w, c) == 0
  {
    CountZero(w, c);
  }

  /** `strip` removes no separator that is not whitespace. */
  lemma CountStrip(s: string, c: char)
    requires !IsSpace(c)
    ensures Count(Strip(s), c) == Count(s, c)
  {
    var b := StripBounds(s);
    CountThreeWay(s, b.0, b.1, c);
    StrippedPrefix(s);
    StrippedSuffix(s);
    CountSpace(s[..b.0], c);
    CountSpace(s[b.1..], c);
  }

  lemma CountThreeWay(s: string, i: nat, j: nat, c: char)
    requires i <= j <= |s|
    ensures Count(s, c) == Count(s[..i], c) + Count(s[i..j], c) + Count(s[j..], c)
  {
    assert s == s[..i] + s[i..j] + s[j..];
  }

  /** Lower-casing keeps every occurrence of a character that is not a letter. */
  lemma {:induction false} CountLower(s: string, c: char)
    requires !('A' <= c <= 'Z') && !('a' <= c <= 'z')
    ensures Count(Lower(s), c) == Count(s, c)
  {
    if s != [] {
      CountLower(s[1..], c);
      assert multiset(Lower(s)) == multiset{LowerChar(s[0])} + multiset(Lower(s[1..])) by { LowerCons(s); }
      assert multiset(s) == multiset{s[0]} + multiset(s[1..]) by { assert s == [s[0]] + s[1..]; }
    }
  }

  lemma LowerCons(s: string)
    requires s != []
    ensures Lower(s) == [LowerChar(s[0])] + Lower(s[1..])
  {
  }

  /** `s.find(c)`, for a character that occurs. */
  function Find(s: string, c: char): (k: nat)
    requires c in s
    ensures k < |s| && s[k] == c && c !in s[..k]
  {
    if s[0] == c then 0
    else
      var k := 1 + Find(s[1..], c);
      assert s[..k] == [s[0]] + s[1..][..k - 1];
      k
  }

  /** `sep.join(parts)` */
  function Join(parts: seq<string>, sep: char): string
    requires |parts| >= 1
  {
    if |parts| == 1 then parts[0] else parts[0] + [sep] + Join(parts[1..], sep)
  }

  /**
   * `s.split(sep)`: cut at every occurrence of `sep`, so there is one more
   * part than occurrences, no part holds `sep`, and joining restores `s`.
   */
  function Split(s: string, sep: char): (parts: seq<string>)
    ensures |parts| == Count(s, sep) + 1
    ensures forall i :: 0 <= i < |parts| ==> sep !in parts[i]
    ensures Join(parts, sep) == s
    decreases |s|
  {
    if sep !in s then
      CountZero(s, sep);
      [s]
    else
      var k := Find(s, sep);
      var rest := Split(s[k + 1..], sep);
      assert s == s[..k] + [sep] + s[k + 1..];
      assert multiset(s) == multiset(s[..k]) + multiset{sep} + multiset(s[k + 1..]);
      CountZero(s[..k], sep);
      assert ([s[..k]] + rest)[1..] == rest;
      [s[..k]] + rest
  }

  /** Splitting at the only occurrence of `sep` gives the two sides. */
  lemma SplitOnce(s: string, sep: char, k: nat)
    requires k < |s| && s[k] == sep && Count(s, sep) == 1
    ensures Split(s, sep) == [s[..k], s[k + 1..]]
  {
    CountOnce(s, sep, k);
    assert Find(s, sep) == k;
    CountZero(s[k + 1..], sep);
  }

  /**
   * Strip-then-split at a non-whitespace separator that occurs once gives
   * the two sides of it, cut down to the part `strip` keeps.
   */
  lemma StripSplitOnce(s: string, sep: char, k: nat)
    requires k < |s| && s[k] == sep && Count(s, sep) == 1 && !IsSpace(sep)
    ensures StripBounds(s).0 <= k < StripBounds(s).1
    ensures Split(Strip(s), sep) == [s[StripBounds(s).0..k], s[k + 1..StripBounds(s).1]]
  {
    var b := StripBounds(s);
    StripKeeps(s, k);
    assert Count(s[b.0..b.1], sep) == 1 by { CountStrip(s, sep); }
    SplitSlice(s, b.0, b.1, k, sep);
  }

  /** Splitting a slice at the only separator inside it. */
  lemma SplitSlice(s: string, i: nat, j: nat, k: nat, sep: char)
    requires i <= k < j <= |s| && s[k] == sep && Count(s[i..j], sep) == 1
    ensures Split(s[i..j], sep) == [s[i..k], s[k + 1..j]]
  {
    var t := s[i..j];
    assert t[k - i] == sep;
    SliceOfSlice(s, i, j, k - i);
    SplitOnce(t, sep, k - i);
  }

  lemma SliceOfSlice(s: string, i: nat, j: nat, m: nat)
    requires i <= i + m < j <= |s|
    ensures s[i..j][..m] == s[i..i + m] && s[i..j][m + 1..] == s[i + m + 1..j]
  {
  }

  /** Stripping a prefix ending where `strip` keeps going. */
  lemma StripPrefix(s: string, k: nat)
    requires StripBounds(s).0 <= k <= |s|
    ensures Strip(s[..k]) == Strip(s[StripBounds(s).0..k])
  {
    var b := StripBounds(s);
    PrefixSlice(s, k, b.0);
    StripWithin(s[..k], b.0, k);
  }

  /** Stripping a suffix starting before where `strip` stops. */
  lemma StripSuffix(s: string, k: nat)
    requires k <= StripBounds(s).1
    ensures Strip(s[k..]) == Strip(s[k..StripBounds(s).1])
  {
    var b := StripBounds(s);
    SuffixSlice(s, k, b.1);
    StripWithin(s[k..], 0, b.1 - k);
  }

  /** A prefix `s[..k]` that starts with whitespace up to `i`, and its slice from `i`. */
  lemma PrefixSlice(s: string, k: nat, i: nat)
    requires i <= k <= |s|
    requires forall n :: 0 <= n < i ==> IsSpace(s[n])
    ensures forall n :: 0 <= n < i ==> IsSpace(s[..k][n])
    ensures s[..k][i..k] == s[i..k]
  {
  }

  /** A suffix `s[k..]` that ends with whitespace from `j`, and its slice up to `j`. */
  lemma SuffixSlice(s: string, k: nat, j: nat)
    requires k <= j <= |s|
    requires forall n :: j <= n < |s| ==> IsSpace(s[n])
    ensures forall n :: j - k <= n < |s| - k ==> IsSpace(s[k..][n])
    ensures s[k..][0..j - k] == s[k..j]
  {
  }

  // ---------------------------------------------------------------------
  // re.match(r"^[class]+$", s)

  predicate AllIn(cls: char -> bool, s: string) {
    forall k :: 0 <= k < |s| ==> cls(s[k])
  }

  /**
   * `re.match(r"^[class]+$", s)`: one or more class characters up to the
   * end, where Python's `$` also matches just before one final "\n".
   */
  predicate MatchesClassPlus(cls: char -> bool, s: string)
    ensures MatchesClassPlus(cls, s) ==>
      && |s| >= 1
      && (forall k :: 0 <= k < |s| - 1 ==> cls(s[k]))
      && (cls(s[|s| - 1]) || (|s| >= 2 && s[|s| - 1] == '\n'))
    ensures |s| >= 1 && AllIn(cls, s) ==> MatchesClassPlus(cls, s)
  {
    (|s| >= 1 && AllIn(cls, s))
    || (|s| >= 2 && s[|s| - 1] == '\n' && AllIn(cls, s[..|s| - 1]))
  }

  /** On a string that does not end in whitespace the final-newline case of `$` never applies. */
  lemma MatchesClassPlusStripped(cls: char -> bool, s: string)
    requires s == [] || !IsSpace(s[|s| - 1])
    ensures MatchesClassPlus(cls, s) <==> |s| >= 1 && AllIn(cls, s)
  {
  }
}
