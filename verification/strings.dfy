/** The string primitives the analyzer relies on: `str.find`, `str.rfind` and `"\n".join`. */
module Strings {

  /** `s.find(c)`: the lowest index holding `c`, or -1 when `c` does not occur. */
  function Find(s: string, c: char): (r: int)
    ensures -1 <= r < |s|
    ensures r == -1 <==> c !in s
    ensures r >= 0 ==> s[r] == c && c !in s[..r]
  {
    if |s| == 0 then -1
    else if s[0] == c then 0
    else
      var r := Find(s[1..], c);
      if r == -1 then -1
      else
        assert s[..r+1] == [s[0]] + s[1..][..r];
        r + 1
  }

  /** `s.rfind(c)`: the highest index holding `c`, or -1 when `c` does not occur. */
  function RFind(s: string, c: char): (r: int)
    ensures -1 <= r < |s|
    ensures r == -1 <==> c !in s
    ensures r >= 0 ==> s[r] == c && c !in s[r+1..]
  {
    if |s| == 0 then -1
    else if s[|s|-1] == c then |s| - 1
    else
      var r := RFind(s[..|s|-1], c);
      assert r >= 0 ==> s[r+1..] == s[..|s|-1][r+1..] + [s[|s|-1]];
      r
  }

  /** `"\n".join(lines)`: the lines in order, one newline between neighbours. */
  function JoinLines(lines: seq<string>): (r: string)
    ensures |lines| == 0 ==> r == ""
    ensures |lines| > 0 ==> |lines[0]| <= |r| && r[..|lines[0]|] == lines[0]
    ensures |lines| > 1 ==> |r| > |lines[0]| && r[|lines[0]|] == '\n'
  {
    if |lines| == 0 then ""
    else if |lines| == 1 then lines[0]
    else lines[0] + "\n" + JoinLines(lines[1..])
  }

  /** Joining one more line appends a newline and that line. */
  lemma {:induction false} JoinLinesAppend(lines: seq<string>, line: string)
    requires |lines| > 0
    ensures JoinLines(lines + [line]) == JoinLines(lines) + "\n" + line
    decreases |lines|
  {
    var all := lines + [line];
    assert all[0] == lines[0];
    if |lines| > 1 {
      assert all[1..] == lines[1..] + [line];
      JoinLinesAppend(lines[1..], line);
    } else {
      assert all[1..] == [line];
    }
  }

  /** `s.split("\n")`: the maximal newline-free pieces of `s`, in order; never empty. */
  function SplitLines(s: string): (r: seq<string>)
    ensures |r| > 0
    ensures forall i :: 0 <= i < |r| ==> '\n' !in r[i]
    decreases |s|
  {
    var k := Find(s, '\n');
    if k == -1 then [s]
    else [s[..k]] + SplitLines(s[k+1..])
  }

  /** Joining newline-free lines and splitting the result gives the lines back. */
  lemma {:induction false} SplitJoinLines(lines: seq<string>)
    requires |lines| > 0
    requires forall i :: 0 <= i < |lines| ==> '\n' !in lines[i]
    ensures SplitLines(JoinLines(lines)) == lines
    decreases |lines|
  {
    if |lines| == 1 {
      assert Find(lines[0], '\n') == -1;
    } else {
      var head, rest := lines[0], lines[1..];
      assert lines == [head] + rest;
      calc {
        SplitLines(JoinLines(lines));
        { JoinLinesCons(head, rest); }
        SplitLines(head + "\n" + JoinLines(rest));
        { SplitAfterLine(head, JoinLines(rest)); }
        [head] + SplitLines(JoinLines(rest));
        { SplitJoinLines(rest); }
        [head] + rest;
      }
    }
  }

  /** Splitting on newlines and joining again gives the string back. */
  lemma {:induction false} JoinSplitLines(s: string)
    ensures JoinLines(SplitLines(s)) == s
    decreases |s|
  {
    var k := Find(s, '\n');
    if k != -1 {
      var head, tail := s[..k], s[k+1..];
      var rest := SplitLines(tail);
      calc {
        JoinLines(SplitLines(s));
        { assert SplitLines(s) == [head] + rest; }
        JoinLines([head] + rest);
        { JoinLinesCons(head, rest); }
        head + "\n" + JoinLines(rest);
        { JoinSplitLines(tail); }
        head + "\n" + tail;
        { SplitAroundNewline(s, k); }
        s;
      }
    }
  }

  /** Joining a first line before at least one more puts a newline between them. */
  lemma JoinLinesCons(head: string, rest: seq<string>)
    requires |rest| > 0
    ensures JoinLines([head] + rest) == head + "\n" + JoinLines(rest)
  {
    assert ([head] + rest)[0] == head;
    assert ([head] + rest)[1..] == rest;
  }

  /** A string is its text before a newline, the newline, and its text after. */
  lemma SplitAroundNewline(s: string, k: nat)
    requires k < |s| && s[k] == '\n'
    ensures s == s[..k] + "\n" + s[k+1..]
  {
  }

  /** Splitting a newline-free line, a newline and more text yields that line first. */
  lemma SplitAfterLine(a: string, b: string)
    requires '\n' !in a
    ensures SplitLines(a + "\n" + b) == [a] + SplitLines(b)
  {
    var s := a + "\n" + b;
    FindAfterPrefix(a, b);
    assert s[..|a|] == a;
    assert s[|a| + 1..] == b;
  }

  /** The first newline of `a + "\n" + b` is the one after `a` when `a` has none. */
  lemma FindAfterPrefix(a: string, b: string)
    requires '\n' !in a
    ensures Find(a + "\n" + b, '\n') == |a|
  {
    var s := a + "\n" + b;
    assert s[|a|] == '\n';
    assert s[..|a|] == a;
  }
}
