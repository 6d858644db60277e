/**
 * Recovery of a JSON fragment from the model's noisy reply
 * (`extract_json_from_text` in main.py).
 *
 * The two searches `re.search(r"(\[.*\])", t, re.DOTALL)` and
 * `re.search(r"(\{.*\})", t, re.DOTALL)` are computed with index arithmetic
 * (first opening bracket, last closing bracket); `LeftmostLongest` states the
 * regular-expression meaning, and `FindSpan` is proved to agree with it.
 */
module Extraction {
  import opened PyText

  const Fence := "```"
  const JsonFence := "```json"

  /** The text the searches run on: the reply trimmed, every "```json" and
      then every "```" deleted, and trimmed again. */
  function FenceStripped(text: string): string {
    Strip(RemoveAll(RemoveAll(Strip(text), JsonFence), Fence))
  }

  /** `t[i..j]` matches `open .* close` with `.` matching every character. */
  ghost predicate SpanMatch(t: string, open: char, close: char, i: int, j: int) {
    0 <= i && i + 2 <= j <= |t| && t[i] == open && t[j - 1] == close
  }

  ghost predicate HasSpan(t: string, open: char, close: char) {
    exists i, j :: SpanMatch(t, open, close, i, j)
  }

  /** The match `re.search` reports: the leftmost starting position, and at
      that position the longest match, since `.*` is greedy. */
  ghost predicate LeftmostLongest(t: string, open: char, close: char, i: int, j: int) {
    && SpanMatch(t, open, close, i, j)
    && forall i', j' :: SpanMatch(t, open, close, i', j') ==> i <= i' && (i' == i ==> j' <= j)
  }

  /** The bounds of the span from the first `open` to the last `close`, when
      the first comes before the last. */
  function FindSpan(t: string, open: char, close: char): (r: Option<(nat, nat)>)
    ensures r.Some? ==> LeftmostLongest(t, open, close, r.value.0, r.value.1)
    ensures r.None? <==> !HasSpan(t, open, close)
    ensures forall i, j :: LeftmostLongest(t, open, close, i, j) ==> r == Some((i, j))
  {
    match (FirstIndex(t, open), LastIndex(t, close))
    case (Some(i), Some(j)) =>
      if i < j then
        assert SpanMatch(t, open, close, i, j + 1);
        Some((i, j + 1))
      else
        assert forall i', j' :: SpanMatch(t, open, close, i', j') ==> i <= i' && j' - 1 <= j;
        None
    case _ => None
  }

  /** `f` runs from a `[` to a `]`, or from a `{` to a `}`. */
  predicate IsBracketed(f: string) {
    && |f| >= 2
    && ((f[0] == '[' && f[|f| - 1] == ']') || (f[0] == '{' && f[|f| - 1] == '}'))
  }

  lemma SpanIsBracketed(t: string, open: char, close: char, i: nat, j: nat)
    requires SpanMatch(t, open, close, i, j)
    requires (open == '[' && close == ']') || (open == '{' && close == '}')
    ensures IsBracketed(t[i..j]) && OccursAt(t, t[i..j], i)
  {
    assert t[i..j][0] == t[i] && t[i..j][j - i - 1] == t[j - 1];
  }

  /** The two searches of `extract_json_from_text`, on the stripped text `t`:
      the array span if there is one, else the object span. */
  function SearchJson(t: string): (r: Option<string>)
    ensures r.None? <==> !HasSpan(t, '[', ']') && !HasSpan(t, '{', '}')
    ensures forall i, j :: LeftmostLongest(t, '[', ']', i, j) ==> r == Some(t[i..j])
    ensures forall i, j :: !HasSpan(t, '[', ']') && LeftmostLongest(t, '{', '}', i, j) ==> r == Some(t[i..j])
    ensures HasSpan(t, '[', ']') ==>
      exists i, j :: LeftmostLongest(t, '[', ']', i, j) && r == Some(t[i..j])
    ensures !HasSpan(t, '[', ']') && HasSpan(t, '{', '}') ==>
      exists i, j :: LeftmostLongest(t, '{', '}', i, j) && r == Some(t[i..j])
    ensures r.Some? ==>
      && IsSubstring(r.value, t)
      && IsBracketed(r.value)
  {
    match FindSpan(t, '[', ']')
    case Some((i, j)) =>
      SpanIsBracketed(t, '[', ']', i, j);
      Some(t[i..j])
    case None =>
      match FindSpan(t, '{', '}')
      case Some((i, j)) =>
        SpanIsBracketed(t, '{', '}', i, j);
        Some(t[i..j])
      case None => None
  }

  /** `extract_json_from_text(text)` for a `str` argument. */
  function ExtractJson(text: string): (r: Option<string>)
    // `None` exactly for empty input or when neither search matches
    ensures r.None? <==>
      text == "" || (!HasSpan(FenceStripped(text), '[', ']') && !HasSpan(FenceStripped(text), '{', '}'))
    // an array match wins, whatever objects occur before it
    ensures forall i, j :: text != "" && LeftmostLongest(FenceStripped(text), '[', ']', i, j) ==>
      r == Some(FenceStripped(text)[i..j])
    // otherwise the object match
    ensures forall i, j ::
      text != "" && !HasSpan(FenceStripped(text), '[', ']') && LeftmostLongest(FenceStripped(text), '{', '}', i, j) ==>
      r == Some(FenceStripped(text)[i..j])
    // such a match exists whenever the pattern occurs at all
    ensures text != "" && HasSpan(FenceStripped(text), '[', ']') ==>
      exists i, j :: LeftmostLongest(FenceStripped(text), '[', ']', i, j) && r == Some(FenceStripped(text)[i..j])
    ensures text != "" && !HasSpan(FenceStripped(text), '[', ']') && HasSpan(FenceStripped(text), '{', '}') ==>
      exists i, j :: LeftmostLongest(FenceStripped(text), '{', '}', i, j) && r == Some(FenceStripped(text)[i..j])
    // a fragment is a piece of the stripped text, bracketed by [ ] or { }
    ensures r.Some? ==>
      && IsSubstring(r.value, FenceStripped(text))
      && IsBracketed(r.value)
  {
    if text == "" then None else SearchJson(FenceStripped(text))
  }

  /** Three backticks start at `s[k]`. */
  predicate TicksAt(s: string, k: nat) {
    k + 3 <= |s| && s[k] == '`' && s[k + 1] == '`' && s[k + 2] == '`'
  }

  /** `s` contains a code fence "```". */
  ghost predicate HasFence(s: string) {
    exists k: nat :: TicksAt(s, k)
  }

  lemma FenceIsTicks(s: string)
    requires |s| >= 3
    ensures s[..3] == Fence <==> TicksAt(s, 0)
  {
    if TicksAt(s, 0) {
      assert s[..3] == [s[0], s[1], s[2]];
    }
  }

  /** Number of backticks `s` starts with. */
  function LeadingTicks(s: string): (n: nat)
    ensures n <= |s|
    ensures forall k :: 0 <= k < n ==> s[k] == '`'
    ensures n < |s| ==> s[n] != '`'
  {
    if |s| > 0 && s[0] == '`' then 1 + LeadingTicks(s[1..]) else 0
  }

  /** Deleting "```" leaves fewer than three leading backticks, and leaves
      their number alone when there were fewer than three to begin with. */
  lemma {:induction false} RemoveFenceLeadingTicks(s: string)
    ensures LeadingTicks(RemoveAll(s, Fence)) < 3
    ensures LeadingTicks(s) < 3 ==> LeadingTicks(RemoveAll(s, Fence)) == LeadingTicks(s)
    decreases |s|
  {
    var r := RemoveAll(s, Fence);
    if |s| < 3 {
    } else {
      FenceIsTicks(s);
      if s[..3] == Fence {
        RemoveFenceLeadingTicks(s[3..]);
      } else {
        var rest := RemoveAll(s[1..], Fence);
        assert r == [s[0]] + rest;
        assert r[1..] == rest;
        RemoveFenceLeadingTicks(s[1..]);
        if s[0] == '`' {
          assert LeadingTicks(s) == 1 + LeadingTicks(s[1..]);
        }
      }
    }
  }

  /** Python's `replace("```", "")` leaves no "```" behind: what remains of a
      run of backticks is shorter than three and stays between the same
      non-backtick characters. */
  lemma {:induction false} RemoveFenceNoFence(s: string)
    ensures !HasFence(RemoveAll(s, Fence))
    decreases |s|
  {
    var r := RemoveAll(s, Fence);
    if |s| < 3 {
      assert r == s;
    } else {
      FenceIsTicks(s);
      if s[..3] == Fence {
        RemoveFenceNoFence(s[3..]);
      } else {
        var rest := RemoveAll(s[1..], Fence);
        assert r == [s[0]] + rest;
        RemoveFenceNoFence(s[1..]);
        if k: nat :| TicksAt(r, k) {
          if k > 0 {
            assert TicksAt(rest, k - 1);
          } else {
            RemoveFenceLeadingTicks(s[1..]);
            assert false;
          }
        }
      }
    }
  }

  /** A piece of text without "```" has none in any piece of it. */
  lemma NoFenceInPiece(t: string, s: string)
    requires IsSubstring(t, s) && !HasFence(s)
    ensures !HasFence(t)
  {
    var a: nat :| OccursAt(s, t, a);
    if k: nat :| TicksAt(t, k) {
      assert t[k] == s[a + k] && t[k + 1] == s[a + k + 1] && t[k + 2] == s[a + k + 2];
      assert TicksAt(s, a + k);
    }
  }

  /** The searched text holds no code fence and no surrounding whitespace. */
  lemma FenceStrippedIsClean(text: string)
    ensures !HasFence(FenceStripped(text))
    ensures IsStripped(FenceStripped(text))
  {
    var u := RemoveAll(RemoveAll(Strip(text), JsonFence), Fence);
    RemoveFenceNoFence(RemoveAll(Strip(text), JsonFence));
    assert OccursAt(u, Strip(u), StripStart(u));
    NoFenceInPiece(Strip(u), u);
  }
}
