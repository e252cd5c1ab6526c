/** Character search and the line split the indexer applies to a document. */
module Text {

  /** The first index k >= j with s[k] == c, or |s| when there is none. */
  function Find(s: string, c: char, j: nat): (k: nat)
    requires j <= |s|
    ensures j <= k <= |s|
    ensures k < |s| ==> s[k] == c
    ensures forall t :: j <= t < k ==> s[t] != c
    decreases |s| - j
  {
    if j == |s| || s[j] == c then j else Find(s, c, j + 1)
  }

  /** Find stops at the first occurrence of c from index 0. */
  lemma FindFirst(s: string, c: char, m: nat)
    requires m < |s| && s[m] == c
    requires forall t :: 0 <= t < m ==> s[t] != c
    ensures Find(s, c, 0) == m
  {
  }

  /** Splits on '\n' as Python's str.splitlines does for that separator:
      no line holds a '\n', a final '\n' does not start an empty line, and
      the empty text has no lines. */
  function SplitLines(text: string): (lines: seq<string>)
    ensures forall k :: 0 <= k < |lines| ==> '\n' !in lines[k]
    decreases |text|
  {
    if text == [] then []
    else
      var k := Find(text, '\n', 0);
      if k == |text| then [text] else [text[..k]] + SplitLines(text[k + 1..])
  }

  /** Every line followed by a '\n'. */
  function Join(lines: seq<string>): (text: string)
  {
    if lines == [] then [] else lines[0] + "\n" + Join(lines[1..])
  }

  /** Joining the lines gives back the text, with a '\n' added when the text
      did not already end with one. */
  lemma {:induction false} JoinSplitLines(text: string)
    ensures Join(SplitLines(text)) ==
      if text == [] || text[|text| - 1] == '\n' then text else text + "\n"
    decreases |text|
  {
    if text != [] {
      var k := Find(text, '\n', 0);
      if k == |text| {
        assert SplitLines(text) == [text];
        assert Join([text]) == text + "\n" + Join([]);
      } else {
        var head, rest := text[..k], text[k + 1..];
        var ls := SplitLines(rest);
        assert text == head + "\n" + rest;
        assert Join(SplitLines(text)) == head + "\n" + Join(ls) by {
          assert SplitLines(text) == [head] + ls;
          assert ([head] + ls)[1..] == ls;
        }
        JoinSplitLines(rest);
        if rest == [] {
          assert Join(ls) == [];
        } else {
          assert rest[|rest| - 1] == text[|text| - 1];
          if rest[|rest| - 1] != '\n' {
            assert head + "\n" + (rest + "\n") == (head + "\n" + rest) + "\n";
          }
        }
      }
    }
  }

  /** Splitting the joined lines gives back the lines, when none holds a '\n'. */
  lemma {:induction false} SplitLinesJoin(lines: seq<string>)
    requires forall k :: 0 <= k < |lines| ==> '\n' !in lines[k]
    ensures SplitLines(Join(lines)) == lines
    decreases |lines|
  {
    if lines != [] {
      var l, rest := lines[0], Join(lines[1..]);
      var text := l + ("\n" + rest);
      assert Join(lines) == text;
      assert '\n' !in l;
      forall t | 0 <= t < |l| ensures text[t] != '\n' {
        assert text[t] == l[t];
      }
      assert text[|l|] == '\n';
      FindFirst(text, '\n', |l|);
      assert text[..|l|] == l;
      assert text[|l| + 1..] == rest;
      assert SplitLines(text) == [l] + SplitLines(rest);
      SplitLinesJoin(lines[1..]);
    }
  }
}
