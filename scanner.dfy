/**
  The lexical pass's delimiter pattern `<([^>]+)>` and the way `finditer`
  walks one line with it: leftmost match first, non-overlapping, each search
  resuming where the previous match ended.
*/
module Scanner {
  import opened Text

  /** One match on a line: the half-open character range [start, end) of the
      whole delimited text and the IRI text between the delimiters. */
  datatype Occurrence = Occurrence(start: nat, end: nat, uri: string)

  /** The pattern matches line[s..e]: an opening '<', one or more characters
      other than '>', then '>'. Given s, at most one e qualifies. */
  predicate IsMatch(line: string, s: int, e: int)
  {
    && 0 <= s && s + 3 <= e <= |line|
    && line[s] == '<' && line[e - 1] == '>'
    && forall t :: s < t < e - 1 ==> line[t] != '>'
  }

  /** No match of the pattern starts at any index in [a, b). */
  ghost predicate NoMatchStartsIn(line: string, a: int, b: int)
  {
    forall s, e :: a <= s < b ==> !IsMatch(line, s, e)
  }

  /** Reference definition of `finditer` from position p: the first match
      found is the leftmost one starting at or after p, its group is the text
      between the delimiters, and the search resumes at its end. */
  ghost predicate IsFindIter(line: string, p: nat, occs: seq<Occurrence>)
    decreases |occs|
  {
    if occs == [] then NoMatchStartsIn(line, p, |line|)
    else
      var o := occs[0];
      && p <= o.start
      && IsMatch(line, o.start, o.end)
      && o.uri == line[o.start + 1..o.end - 1]
      && NoMatchStartsIn(line, p, o.start)
      && IsFindIter(line, o.end, occs[1..])
  }

  /** The scanner: a walk over the line that tries a match at each position. */
  function ScanFrom(line: string, p: nat): (r: seq<Occurrence>)
    decreases |line| - p
  {
    if p >= |line| then []
    else if line[p] == '<' then
      var q := Find(line, '>', p + 1);
      if q < |line| && q >= p + 2 then [Occurrence(p, q + 1, line[p + 1..q])] + ScanFrom(line, q + 1)
      else ScanFrom(line, p + 1)
    else ScanFrom(line, p + 1)
  }

  /** All matches of the pattern on one line, in scan order. */
  function Scan(line: string): (r: seq<Occurrence>)
  {
    ScanFrom(line, 0)
  }

  /** What each recorded match satisfies. */
  predicate WellFormed(line: string, o: Occurrence)
  {
    && o.start < o.end <= |line|
    && line[o.start] == '<' && line[o.end - 1] == '>'
    && o.uri == line[o.start + 1..o.end - 1]
    && |o.uri| >= 1 && '>' !in o.uri
    && o.end - o.start == |o.uri| + 2
  }

  /** A well-formed range covers the IRI text between its two delimiters. */
  lemma DelimitedText(line: string, o: Occurrence)
    requires WellFormed(line, o)
    ensures line[o.start..o.end] == "<" + o.uri + ">"
  {
    assert line[o.start..o.end] == [line[o.start]] + line[o.start + 1..o.end - 1] + [line[o.end - 1]];
  }

  /** Strictly increasing, pairwise non-overlapping ranges. */
  predicate Ordered(occs: seq<Occurrence>)
  {
    && (forall k :: 0 <= k < |occs| ==> occs[k].start < occs[k].end)
    && (forall i, j :: 0 <= i < j < |occs| ==> occs[i].end <= occs[j].start)
  }

  /** The scanner computes exactly what `finditer` yields. */
  lemma {:induction false} ScanFromIsFindIter(line: string, p: nat)
    ensures IsFindIter(line, p, ScanFrom(line, p))
    decreases |line| - p
  {
    if p < |line| {
      var q := Find(line, '>', p + 1);
      if line[p] == '<' && q < |line| && q >= p + 2 {
        ScanFromIsFindIter(line, q + 1);
        ScanStepMatch(line, p, q);
      } else {
        ScanFromIsFindIter(line, p + 1);
        ScanStepSkip(line, p);
      }
    }
  }

  /** The scanner's step at an opening '<' that starts a match. */
  lemma ScanStepMatch(line: string, p: nat, q: nat)
    requires p < |line| && line[p] == '<'
    requires q == Find(line, '>', p + 1) && q < |line| && q >= p + 2
    requires IsFindIter(line, q + 1, ScanFrom(line, q + 1))
    ensures IsFindIter(line, p, ScanFrom(line, p))
  {
    var o := Occurrence(p, q + 1, line[p + 1..q]);
    ScanFromAtMatch(line, p, q);
    assert IsMatch(line, p, q + 1) by {
      assert forall t :: p < t < q ==> line[t] != '>';
    }
    ConsFindIter(line, p, o, ScanFrom(line, q + 1));
  }

  /** At an opening '<' that starts a match, the scanner records it and resumes after it. */
  lemma ScanFromAtMatch(line: string, p: nat, q: nat)
    requires p < |line| && line[p] == '<'
    requires q == Find(line, '>', p + 1) && q < |line| && q >= p + 2
    ensures ScanFrom(line, p) == [Occurrence(p, q + 1, line[p + 1..q])] + ScanFrom(line, q + 1)
  {
  }

  /** The scanner's step at a position where no match starts. */
  lemma ScanStepSkip(line: string, p: nat)
    requires p < |line|
    requires var q := Find(line, '>', p + 1); !(line[p] == '<' && q < |line| && q >= p + 2)
    requires IsFindIter(line, p + 1, ScanFrom(line, p + 1))
    ensures IsFindIter(line, p, ScanFrom(line, p))
  {
    assert ScanFrom(line, p) == ScanFrom(line, p + 1);
    if line[p] == '<' {
      NoMatchAtFailedOpen(line, p);
    }
    LiftFindIter(line, p, ScanFrom(line, p + 1));
  }

  /** A match at p followed by a `finditer` run from its end is a run from p. */
  lemma ConsFindIter(line: string, p: nat, o: Occurrence, rest: seq<Occurrence>)
    requires o.start == p && IsMatch(line, o.start, o.end) && o.uri == line[o.start + 1..o.end - 1]
    requires IsFindIter(line, o.end, rest)
    ensures IsFindIter(line, p, [o] + rest)
  {
    assert ([o] + rest)[1..] == rest;
  }

  /** An opening '<' whose next '>' is missing or immediately follows it starts no match. */
  lemma NoMatchAtFailedOpen(line: string, p: nat)
    requires p < |line|
    requires var q := Find(line, '>', p + 1); !(q < |line| && q >= p + 2)
    ensures forall e :: !IsMatch(line, p, e)
  {
    var q := Find(line, '>', p + 1);
    forall e ensures !IsMatch(line, p, e) {
      if p + 3 <= e <= |line| {
        if q == |line| {
          assert line[e - 1] != '>';
        } else {
          assert q == p + 1 && line[p + 1] == '>';
        }
      }
    }
  }

  /** A `finditer` run from p + 1 is one from p when no match starts at p. */
  lemma LiftFindIter(line: string, p: nat, occs: seq<Occurrence>)
    requires IsFindIter(line, p + 1, occs)
    requires forall e :: !IsMatch(line, p, e)
    ensures IsFindIter(line, p, occs)
  {
  }

  /** `finditer`'s result is determined by the line and the start position. */
  lemma {:induction false} FindIterUnique(line: string, p: nat, a: seq<Occurrence>, b: seq<Occurrence>)
    requires IsFindIter(line, p, a) && IsFindIter(line, p, b)
    ensures a == b
    decreases |a|
  {
    if a != [] && b != [] {
      var x, y := a[0], b[0];
      if x.start < y.start {
      } else if y.start < x.start {
      } else {
        MatchEndUnique(line, x.start, x.end, y.end);
        FindIterUnique(line, x.end, a[1..], b[1..]);
        assert a == [x] + a[1..] && b == [y] + b[1..];
      }
    } else if a != [] {
    } else if b != [] {
    }
  }

  /** A match starting at s has one possible end: one past the first '>' after s. */
  lemma MatchEndUnique(line: string, s: int, e1: int, e2: int)
    requires IsMatch(line, s, e1) && IsMatch(line, s, e2)
    ensures e1 == e2
  {
    if e1 < e2 {
    } else if e2 < e1 {
    }
  }

  /** Every match `finditer` yields is well formed, and they are in strictly
      increasing, non-overlapping order starting at or after p. */
  lemma {:induction false} FindIterWellFormed(line: string, p: nat, occs: seq<Occurrence>)
    requires IsFindIter(line, p, occs)
    ensures forall k :: 0 <= k < |occs| ==> p <= occs[k].start && WellFormed(line, occs[k])
    ensures Ordered(occs)
    decreases |occs|
  {
    if occs != [] {
      var o := occs[0];
      FindIterWellFormed(line, o.end, occs[1..]);
      assert forall t :: 0 <= t < |o.uri| ==> o.uri[t] == line[o.start + 1 + t];
      assert '>' !in o.uri;
      forall k | 0 <= k < |occs| ensures p <= occs[k].start && WellFormed(line, occs[k]) {
        if k > 0 { assert occs[k] == occs[1..][k - 1]; }
      }
      forall i, j | 0 <= i < j < |occs| ensures occs[i].end <= occs[j].start {
        assert occs[j] == occs[1..][j - 1];
        if i > 0 { assert occs[i] == occs[1..][i - 1]; }
      }
    }
  }

  /** The recorded ranges of one line: well formed and in order. */
  lemma ScanWellFormed(line: string)
    ensures forall k :: 0 <= k < |Scan(line)| ==> WellFormed(line, Scan(line)[k])
    ensures Ordered(Scan(line))
  {
    ScanFromIsFindIter(line, 0);
    FindIterWellFormed(line, 0, Scan(line));
  }

  /** A line yields some range exactly when the pattern matches somewhere on it;
      "<>" or an unclosed '<' alone yields none. */
  lemma ScanEmptyIff(line: string)
    ensures Scan(line) != [] <==> exists s, e :: IsMatch(line, s, e)
  {
    ScanFromIsFindIter(line, 0);
    var occs := Scan(line);
    if occs != [] {
      assert IsMatch(line, occs[0].start, occs[0].end);
    }
  }
}
