/**
 * `clean_string` (clean_string.py): split on '\n', strip every line, drop the
 * lines that are blank, and join the rest with '\n'.
 */
module CleanString {
  import opened PyText

  /** The list comprehension `[line.strip() for line in lines if line.strip()]`. */
  function CleanLines(lines: seq<string>): (r: seq<string>)
    ensures |r| <= |lines|
    ensures forall i :: 0 <= i < |r| ==> r[i] != "" && IsStripped(r[i])
  {
    if lines == [] then []
    else
      var line := Strip(lines[0]);
      var rest := CleanLines(lines[1..]);
      if line != "" then [line] + rest else rest
  }

  /** Stripped lines gain no newline. */
  lemma {:induction false} CleanLinesNoNewline(lines: seq<string>)
    requires forall i :: 0 <= i < |lines| ==> '\n' !in lines[i]
    ensures forall i :: 0 <= i < |CleanLines(lines)| ==> '\n' !in CleanLines(lines)[i]
    decreases |lines|
  {
    if lines != [] {
      StripKeepsOut(lines[0], '\n');
      CleanLinesNoNewline(lines[1..]);
    }
  }

  /** `clean_string(s)` */
  function Clean(s: string): string {
    Join(CleanLines(Split(s, '\n')), '\n')
  }

  /** A join of non-empty pieces is empty only when there are no pieces. */
  lemma {:induction false} JoinEmpty(parts: seq<string>, sep: char)
    requires forall i :: 0 <= i < |parts| ==> parts[i] != ""
    ensures Join(parts, sep) == "" <==> parts == []
  {
    if |parts| >= 2 {
      assert |Join(parts, sep)| >= |parts[0]|;
    }
  }

  /** The output, split again, gives back exactly the stripped non-blank
      input lines in their original order; so every output line is
      non-empty and has no whitespace at either end. */
  lemma OutputLines(s: string)
    requires Clean(s) != ""
    ensures Split(Clean(s), '\n') == CleanLines(Split(s, '\n'))
    ensures forall l :: l in Split(Clean(s), '\n') ==> l != "" && IsStripped(l)
  {
    var lines := CleanLines(Split(s, '\n'));
    assert lines != [];
    CleanLinesNoNewline(Split(s, '\n'));
    SplitJoin(lines, '\n');
  }

  /** A line is blank exactly when all its characters are whitespace. */
  lemma {:induction false} BlankLines(s: string)
    ensures CleanLines(Split(s, '\n')) == [] <==> forall i :: 0 <= i < |s| ==> IsSpace(s[i])
    decreases |s|
  {
    if |s| > 0 {
      BlankLines(s[1..]);
      if s[0] == '\n' {
        BlankLinesNewline(s);
      } else {
        BlankLinesOther(s);
      }
      assert (forall i :: 0 <= i < |s| ==> IsSpace(s[i])) <==>
             IsSpace(s[0]) && (forall i :: 0 <= i < |s| - 1 ==> IsSpace(s[1..][i]));
    }
  }

  /** A leading newline adds an empty line, which cleaning drops. */
  lemma BlankLinesNewline(s: string)
    requires |s| > 0 && s[0] == '\n'
    ensures CleanLines(Split(s, '\n')) == CleanLines(Split(s[1..], '\n'))
  {
    var rest := Split(s[1..], '\n');
    assert Split(s, '\n') == [""] + rest;
    assert ([""] + rest)[1..] == rest;
  }

  /** Another leading character joins the first line. */
  lemma BlankLinesOther(s: string)
    requires |s| > 0 && s[0] != '\n'
    ensures CleanLines(Split(s, '\n')) == [] <==>
      IsSpace(s[0]) && CleanLines(Split(s[1..], '\n')) == []
  {
    var rest := Split(s[1..], '\n');
    var first := [s[0]] + rest[0];
    var lines := [first] + rest[1..];
    assert Split(s, '\n') == lines;
    assert lines[0] == first && lines[1..] == rest[1..];
    assert CleanLines(lines) == [] <==> Strip(first) == [] && CleanLines(rest[1..]) == [];
    assert CleanLines(rest) == [] <==> Strip(rest[0]) == [] && CleanLines(rest[1..]) == [];
    AllSpaceCons(s[0], rest[0]);
  }

  lemma AllSpaceCons(c: char, w: string)
    ensures (forall i :: 0 <= i < |[c] + w| ==> IsSpace(([c] + w)[i])) <==>
      IsSpace(c) && forall i :: 0 <= i < |w| ==> IsSpace(w[i])
  {
    var x := [c] + w;
    assert x[0] == c;
    assert forall i :: 0 < i < |x| ==> x[i] == w[i - 1];
    assert forall i :: 0 <= i < |w| ==> w[i] == x[i + 1];
  }

  /** `CleanLines` keeps nothing exactly when every line strips to "". */
  lemma {:induction false} AllBlank(lines: seq<string>)
    ensures CleanLines(lines) == [] <==>
      forall i, k :: 0 <= i < |lines| && 0 <= k < |lines[i]| ==> IsSpace(lines[i][k])
    decreases |lines|
  {
    if lines != [] {
      AllBlank(lines[1..]);
      assert forall i :: 0 < i < |lines| ==> lines[1..][i - 1] == lines[i];
    }
  }

  /** Input that is empty or whitespace only (newlines included) cleans to
      "", and nothing else does. */
  lemma EmptyOutput(s: string)
    ensures Clean(s) == "" <==> forall i :: 0 <= i < |s| ==> IsSpace(s[i])
  {
    BlankLines(s);
    JoinEmpty(CleanLines(Split(s, '\n')), '\n');
  }

  /** Lines that are already non-empty and stripped pass through unchanged. */
  lemma {:induction false} CleanLinesFixed(lines: seq<string>)
    requires forall i :: 0 <= i < |lines| ==> lines[i] != "" && IsStripped(lines[i])
    ensures CleanLines(lines) == lines
    decreases |lines|
  {
    if lines != [] {
      var rest := lines[1..];
      assert forall i :: 0 <= i < |rest| ==> rest[i] == lines[i + 1];
      CleanLinesFixed(rest);
      assert Strip(lines[0]) == lines[0];
      assert CleanLines(lines) == [lines[0]] + CleanLines(rest);
      assert [lines[0]] + rest == lines;
    }
  }

  /** Text whose lines are already non-empty and stripped is returned as is. */
  lemma AlreadyClean(s: string)
    requires forall l :: l in Split(s, '\n') ==> l != "" && IsStripped(l)
    ensures Clean(s) == s
  {
    var lines := Split(s, '\n');
    assert forall i :: 0 <= i < |lines| ==> lines[i] in lines;
    CleanLinesFixed(lines);
    JoinSplit(s, '\n');
  }

  /** Cleaning twice is cleaning once. */
  lemma Idempotent(s: string)
    ensures Clean(Clean(s)) == Clean(s)
  {
    if Clean(s) == "" {
      EmptyOutput("");
    } else {
      OutputLines(s);
      AlreadyClean(Clean(s));
    }
  }
}
