/**
 * The handful of Python `str` operations the pipeline relies on, written out
 * over `seq<char>`: `strip`, ASCII `lower`, `replace(pat, "")`, `split(sep)`,
 * `sep.join(...)`, and first/last index of a character.
 */
module PyText {

  datatype Option<T> = None | Some(value: T)

  /** The characters Python's `str.isspace()` accepts; `str.strip()` with no
      argument removes exactly these from both ends. */
  predicate IsSpace(c: char) {
    || ('\t' <= c <= '\r')              // \t \n \v \f \r
    || ('\U{1C}' <= c <= '\U{1F}')      // information separators
    || c == ' ' || c == '\U{85}' || c == '\U{A0}' || c == '\U{1680}'
    || ('\U{2000}' <= c <= '\U{200A}')
    || c == '\U{2028}' || c == '\U{2029}' || c == '\U{202F}'
    || c == '\U{205F}' || c == '\U{3000}'
  }

  /** `s[k..]` starts with `pat`. */
  predicate OccursAt(s: string, pat: string, k: nat) {
    k + |pat| <= |s| && s[k..k + |pat|] == pat
  }

  /** `t` occurs in `s` as a contiguous piece. */
  ghost predicate IsSubstring(t: string, s: string) {
    exists a: nat :: OccursAt(s, t, a)
  }

  /** Neither end of `s` is whitespace: `s.strip() == s`. */
  predicate IsStripped(s: string) {
    s == [] || (!IsSpace(s[0]) && !IsSpace(s[|s| - 1]))
  }

  /** Index of the first non-whitespace character of `s` at or after `i`
      (`|s|` when there is none). */
  function SkipSpaces(s: string, i: nat): (k: nat)
    requires i <= |s|
    ensures i <= k <= |s|
    ensures forall j :: i <= j < k ==> IsSpace(s[j])
    ensures k < |s| ==> !IsSpace(s[k])
    decreases |s| - i
  {
    if i < |s| && IsSpace(s[i]) then SkipSpaces(s, i + 1) else i
  }

  /** End of `s[lo..hi]` once trailing whitespace is cut off. */
  function TrimEnd(s: string, lo: nat, hi: nat): (k: nat)
    requires lo <= hi <= |s|
    ensures lo <= k <= hi
    ensures forall j :: k <= j < hi ==> IsSpace(s[j])
    ensures k > lo ==> !IsSpace(s[k - 1])
    decreases hi
  {
    if hi > lo && IsSpace(s[hi - 1]) then TrimEnd(s, lo, hi - 1) else hi
  }

  /** Where `s.strip()` begins in `s`. */
  function StripStart(s: string): (n: nat)
    ensures n <= |s|
  {
    SkipSpaces(s, 0)
  }

  /** `s.strip()`: the piece of `s` left once whitespace is cut from both ends. */
  function Strip(s: string): (r: string)
    ensures IsStripped(r)
    ensures StripStart(s) + |r| <= |s| && r == s[StripStart(s)..StripStart(s) + |r|]
    // only whitespace is cut, at either end
    ensures forall j :: 0 <= j < StripStart(s) ==> IsSpace(s[j])
    ensures forall j :: StripStart(s) + |r| <= j < |s| ==> IsSpace(s[j])
    ensures r == [] <==> forall i :: 0 <= i < |s| ==> IsSpace(s[i])
    ensures IsStripped(s) ==> r == s
  {
    var a := StripStart(s);
    var b := TrimEnd(s, a, |s|);
    assert b > a ==> a < |s|;
    assert IsStripped(s) && s != [] ==> a == 0 && b == |s|;
    s[a..b]
  }

  /** Stripping introduces no character. */
  lemma StripKeepsOut(s: string, c: char)
    ensures c !in s ==> c !in Strip(s)
  {
    var r := Strip(s);
    var a := StripStart(s);
    forall i | 0 <= i < |r| ensures r[i] == s[a + i] {
    }
  }

  function LowerChar(c: char): char {
    if 'A' <= c <= 'Z' then (c as int + 32) as char else c
  }

  /** `s.lower()`, restricted to ASCII letters. */
  function Lower(s: string): (r: string)
    ensures |r| == |s|
    ensures forall i :: 0 <= i < |s| ==> r[i] == LowerChar(s[i])
  {
    seq(|s|, i requires 0 <= i < |s| => LowerChar(s[i]))
  }

  /** `s.replace(pat, "")`: occurrences are found left to right without
      overlapping, and the text that removal brings together is not
      searched again. */
  function RemoveAll(s: string, pat: string): (r: string)
    requires |pat| > 0
    ensures |r| <= |s|
    decreases |s|
  {
    if |s| < |pat| then s
    else if s[..|pat|] == pat then RemoveAll(s[|pat|..], pat)
    else [s[0]] + RemoveAll(s[1..], pat)
  }

  /** Index of the first `c` in `s` (`s.find(c)`, with `None` for -1). */
  function FirstIndex(s: string, c: char): (r: Option<nat>)
    ensures r.Some? ==> r.value < |s| && s[r.value] == c
    ensures r.Some? ==> forall k :: 0 <= k < r.value ==> s[k] != c
    ensures r.None? ==> forall k :: 0 <= k < |s| ==> s[k] != c
  {
    if |s| == 0 then None
    else if s[0] == c then Some(0)
    else match FirstIndex(s[1..], c)
      case None => None
      case Some(k) => Some(k + 1)
  }

  /** Index of the last `c` in `s` (`s.rfind(c)`, with `None` for -1). */
  function LastIndex(s: string, c: char): (r: Option<nat>)
    ensures r.Some? ==> r.value < |s| && s[r.value] == c
    ensures r.Some? ==> forall k :: r.value < k < |s| ==> s[k] != c
    ensures r.None? ==> forall k :: 0 <= k < |s| ==> s[k] != c
  {
    if |s| == 0 then None
    else if s[|s| - 1] == c then Some(|s| - 1)
    else LastIndex(s[..|s| - 1], c)
  }

  /** `s.split(sep)` for a one-character separator: there is always one more
      piece than there are separators, and the pieces hold no separator. */
  function Split(s: string, sep: char): (r: seq<string>)
    ensures |r| >= 1
    ensures forall i :: 0 <= i < |r| ==> sep !in r[i]
    decreases |s|
  {
    if |s| == 0 then [""]
    else
      var rest := Split(s[1..], sep);
      if s[0] == sep then [""] + rest else [[s[0]] + rest[0]] + rest[1..]
  }

  /** `sep.join(parts)` */
  function Join(parts: seq<string>, sep: char): string {
    if |parts| == 0 then ""
    else if |parts| == 1 then parts[0]
    else parts[0] + [sep] + Join(parts[1..], sep)
  }

  /** A piece holding no separator splits into itself. */
  lemma {:induction false} SplitWithoutSeparator(p: string, sep: char)
    requires sep !in p
    ensures Split(p, sep) == [p]
    decreases |p|
  {
    if |p| > 0 {
      SplitWithoutSeparator(p[1..], sep);
      assert [p[0]] + p[1..] == p;
    }
  }

  /** Splitting `p + sep + t` cuts off `p` and then splits `t`. */
  lemma {:induction false} SplitAfterPiece(p: string, sep: char, t: string)
    requires sep !in p
    ensures Split(p + [sep] + t, sep) == [p] + Split(t, sep)
    decreases |p|
  {
    var s := p + [sep] + t;
    if |p| == 0 {
      assert s[1..] == t;
    } else {
      assert s[1..] == p[1..] + [sep] + t;
      SplitAfterPiece(p[1..], sep, t);
      assert [p[0]] + p[1..] == p;
    }
  }

  /** Round trip: joining pieces that hold no separator and splitting the
      result gives the pieces back. */
  lemma {:induction false} SplitJoin(parts: seq<string>, sep: char)
    requires |parts| >= 1
    requires forall i :: 0 <= i < |parts| ==> sep !in parts[i]
    ensures Split(Join(parts, sep), sep) == parts
    decreases |parts|
  {
    if |parts| == 1 {
      SplitWithoutSeparator(parts[0], sep);
    } else {
      SplitJoin(parts[1..], sep);
      SplitAfterPiece(parts[0], sep, Join(parts[1..], sep));
      assert [parts[0]] + parts[1..] == parts;
    }
  }

  /** Round trip: joining the pieces of a split with the same separator
      rebuilds the text. */
  lemma {:induction false} JoinSplit(s: string, sep: char)
    ensures Join(Split(s, sep), sep) == s
    decreases |s|
  {
    if |s| > 0 {
      var rest := Split(s[1..], sep);
      JoinSplit(s[1..], sep);
      if s[0] == sep {
        assert ([""] + rest)[1..] == rest;
      } else {
        var parts := [[s[0]] + rest[0]] + rest[1..];
        assert parts[1..] == rest[1..];
      }
      assert [s[0]] + s[1..] == s;
    }
  }

  /** Deleting a character that does not occur changes nothing. */
  lemma {:induction false} RemoveAbsentChar(s: string, c: char)
    requires c !in s
    ensures RemoveAll(s, [c]) == s
    decreases |s|
  {
    if |s| > 0 {
      assert s[..1] == [s[0]];
      RemoveAbsentChar(s[1..], c);
      assert [s[0]] + s[1..] == s;
    }
  }

  /** Deleting a single character works piece by piece. */
  lemma {:induction false} RemoveCharConcat(a: string, b: string, c: char)
    ensures RemoveAll(a + b, [c]) == RemoveAll(a, [c]) + RemoveAll(b, [c])
    decreases |a|
  {
    if |a| > 0 {
      var s := a + b;
      assert s[..1] == [a[0]] && s[1..] == a[1..] + b;
      assert a[..1] == [a[0]];
      RemoveCharConcat(a[1..], b, c);
    } else {
      assert a + b == b;
    }
  }

  /** Deleting character `c` from a piece without `c`, then `c`, then more. */
  lemma RemovePlainThenChar(a: string, c: char, b: string)
    requires c !in a
    ensures RemoveAll(a + [c] + b, [c]) == a + RemoveAll(b, [c])
  {
    assert a + [c] + b == a + ([c] + b);
    calc {
      RemoveAll(a + ([c] + b), [c]);
    == { RemoveCharConcat(a, [c] + b, c); }
      RemoveAll(a, [c]) + RemoveAll([c] + b, [c]);
    == { RemoveAbsentChar(a, c); }
      a + RemoveAll([c] + b, [c]);
    == { assert ([c] + b)[..1] == [c] && ([c] + b)[1..] == b; }
      a + RemoveAll(b, [c]);
    }
  }

  /** Deleting `c` from text with exactly two occurrences of it. */
  lemma RemoveTwoSeparators(a: string, b: string, d: string, c: char)
    requires c !in a && c !in b && c !in d
    ensures RemoveAll(a + [c] + b + [c] + d, [c]) == a + b + d
  {
    assert a + [c] + b + [c] + d == a + [c] + (b + [c] + d);
    RemovePlainThenChar(a, c, b + [c] + d);
    RemovePlainThenChar(b, c, d);
    RemoveAbsentChar(d, c);
  }
}
