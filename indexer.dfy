/**
  The document index built from one N-Triples buffer: preferred labels and
  known IRIs from the parsed triples, character ranges and first positions
  from a lexical scan of the text.
*/
module Indexer {
  import opened Wrappers
  import opened Rdf
  import opened Text
  import opened Scanner

  datatype DocumentIndex = DocumentIndex(
    labels: map<string, string>,                 // IRI -> skos:prefLabel
    uris: set<string>,                           // every IRI seen as subject or object
    ranges: map<nat, seq<Occurrence>>,           // line -> matches, in scan order
    firstPos: map<string, (nat, nat)>)           // IRI -> (line, start) of its first match

  datatype BuildError =
    | ParseError              // the text is not N-Triples
    | LabelObjectNotLiteral   // a label triple's object has no `datatype` attribute

  // ---------------------------------------------------------------------------
  // Semantic pass
  // ---------------------------------------------------------------------------

  /** The triple records a label: predicate skos:prefLabel, an IRI subject and
      a literal object without a datatype. */
  predicate IsLabelTriple(t: Triple)
  {
    t.p == PrefLabel && t.s.Iri? && t.o.Literal? && t.o.datatypeIri.None?
  }

  /** The triple makes the label test read `datatype` of an IRI or blank node. */
  predicate RaisesOnLabel(t: Triple)
  {
    t.p == PrefLabel && t.s.Iri? && !t.o.Literal?
  }

  predicate AnyRaisesOnLabel(ts: seq<Triple>)
  {
    exists i :: 0 <= i < |ts| && RaisesOnLabel(ts[i])
  }

  /** The labels after processing the triples in order: a later label triple
      for the same subject overwrites an earlier one. */
  function Labels(ts: seq<Triple>): (r: map<string, string>)
    decreases |ts|
  {
    if ts == [] then map[]
    else
      var t, m := ts[|ts| - 1], Labels(ts[..|ts| - 1]);
      if IsLabelTriple(t) then m[t.s.iri := t.o.lexical] else m
  }

  /** The IRIs seen in subject or object position. */
  function Uris(ts: seq<Triple>): (r: set<string>)
    decreases |ts|
  {
    if ts == [] then {}
    else
      var t := ts[|ts| - 1];
      Uris(ts[..|ts| - 1]) + IrisOf(t.s) + IrisOf(t.o)
  }

  // ---------------------------------------------------------------------------
  // Lexical pass
  // ---------------------------------------------------------------------------

  /** One entry per line with at least one match, holding its matches. */
  function Ranges(lines: seq<string>): (r: map<nat, seq<Occurrence>>)
  {
    map l: nat | l < |lines| && Scan(lines[l]) != [] :: Scan(lines[l])
  }

  /** setdefault(uri, (line, start)): only an IRI without a position gets one. */
  function SetDefault(fp: map<string, (nat, nat)>, line: nat, o: Occurrence): (r: map<string, (nat, nat)>)
  {
    if o.uri in fp then fp else fp[o.uri := (line, o.start)]
  }

  /** The first positions after the matches of one line, in order. */
  function RecordLine(fp: map<string, (nat, nat)>, line: nat, occs: seq<Occurrence>): (r: map<string, (nat, nat)>)
    decreases |occs|
  {
    if occs == [] then fp
    else SetDefault(RecordLine(fp, line, occs[..|occs| - 1]), line, occs[|occs| - 1])
  }

  /** The first positions after all lines, in order. */
  function FirstPos(lines: seq<string>): (r: map<string, (nat, nat)>)
    decreases |lines|
  {
    if lines == [] then map[]
    else
      var n := |lines| - 1;
      RecordLine(FirstPos(lines[..n]), n, Scan(lines[n]))
  }

  /** The index that `build` produces for a text whose parse yields ts. */
  function Index(text: string, ts: seq<Triple>): (r: DocumentIndex)
  {
    var lines := SplitLines(text);
    DocumentIndex(Labels(ts), Uris(ts), Ranges(lines), FirstPos(lines))
  }

  // ---------------------------------------------------------------------------
  // build
  // ---------------------------------------------------------------------------

  /** The first loop of `build`: labels and IRIs from the triples, failing at
      the first triple whose label test reads `datatype` of a non-literal. */
  method SemanticPass(graph: seq<Triple>) returns (r: Result<(map<string, string>, set<string>), BuildError>)
    ensures r.Failure? <==> AnyRaisesOnLabel(graph)
    ensures r.Failure? ==> r.error == LabelObjectNotLiteral
    ensures r.Success? ==> r.value == (Labels(graph), Uris(graph))
  {
    var labels: map<string, string> := map[];
    var uris: set<string> := {};
    var i := 0;
    while i < |graph|
      invariant 0 <= i <= |graph|
      invariant labels == Labels(graph[..i])
      invariant uris == Uris(graph[..i])
      invariant forall j :: 0 <= j < i ==> !RaisesOnLabel(graph[j])
    {
      var t := graph[i];
      assert graph[..i + 1][..i] == graph[..i];
      if t.p == PrefLabel && t.s.Iri? {
        if !t.o.Literal? {
          return Failure(LabelObjectNotLiteral);
        }
        if t.o.datatypeIri.None? {
          labels := labels[t.s.iri := t.o.lexical];
        }
      }
      if t.s.Iri? {
        uris := uris + {t.s.iri};
      }
      if t.o.Iri? {
        uris := uris + {t.o.iri};
      }
      i := i + 1;
    }
    assert graph[..i] == graph;
    return Success((labels, uris));
  }

  /** The second loop of `build`: the matches of every line appended to that
      line's entry, and each IRI's first position set once. */
  method LexicalPass(lines: seq<string>) returns (ranges: map<nat, seq<Occurrence>>, firstPos: map<string, (nat, nat)>)
    ensures ranges == Ranges(lines)
    ensures firstPos == FirstPos(lines)
  {
    ranges, firstPos := map[], map[];
    var lineno := 0;
    while lineno < |lines|
      invariant 0 <= lineno <= |lines|
      invariant ranges == Ranges(lines[..lineno])
      invariant firstPos == FirstPos(lines[..lineno])
    {
      RangesStep(lines, lineno);
      ranges, firstPos := RecordMatches(ranges, firstPos, lineno, Scan(lines[lineno]));
      assert lines[..lineno + 1][..lineno] == lines[..lineno];
      lineno := lineno + 1;
    }
    assert lines[..lineno] == lines;
  }

  /** The inner loop of the lexical pass over one line's matches: each is
      appended to the line's entry, created on the first match, and each IRI
      without a first position gets this one. */
  method RecordMatches(ranges: map<nat, seq<Occurrence>>, firstPos: map<string, (nat, nat)>, lineno: nat, ms: seq<Occurrence>)
    returns (ranges': map<nat, seq<Occurrence>>, firstPos': map<string, (nat, nat)>)
    requires lineno !in ranges
    ensures ranges' == if ms == [] then ranges else ranges[lineno := ms]
    ensures firstPos' == RecordLine(firstPos, lineno, ms)
  {
    ranges', firstPos' := ranges, firstPos;
    var j := 0;
    while j < |ms|
      invariant 0 <= j <= |ms|
      invariant ranges' == if j == 0 then ranges else ranges[lineno := ms[..j]]
      invariant firstPos' == RecordLine(firstPos, lineno, ms[..j])
    {
      var m := ms[j];
      assert ms[..j + 1][..j] == ms[..j];
      var existing := if lineno in ranges' then ranges'[lineno] else [];
      assert existing == ms[..j];
      assert ms[..j + 1] == existing + [m];
      ranges' := ranges'[lineno := existing + [m]];
      if m.uri !in firstPos' {
        firstPos' := firstPos'[m.uri := (lineno, m.start)];
      }
      j := j + 1;
    }
    assert ms[..j] == ms;
  }

  /** Builds the index of one document: fails when the text does not parse or
      when the label test reads `datatype` of a non-literal, and otherwise
      returns the index of the two passes. */
  method Build(text: string, parsed: Parse) returns (r: Result<DocumentIndex, BuildError>)
    ensures parsed.Malformed? ==> r == Failure(ParseError)
    ensures parsed.Graph? ==> (r.Failure? <==> AnyRaisesOnLabel(parsed.triples))
    ensures parsed.Graph? && r.Failure? ==> r.error == LabelObjectNotLiteral
    ensures r.Success? ==> parsed.Graph? && r.value == Index(text, parsed.triples)
  {
    if parsed.Malformed? {
      return Failure(ParseError);
    }
    var semantic := SemanticPass(parsed.triples);
    if semantic.Failure? {
      return Failure(semantic.error);
    }
    var (labels, uris) := semantic.value;
    var ranges, firstPos := LexicalPass(SplitLines(text));
    return Success(DocumentIndex(labels, uris, ranges, firstPos));
  }

  /** Adding one more line to the lexical pass adds its entry, if it has matches. */
  lemma RangesStep(lines: seq<string>, n: nat)
    requires n < |lines|
    ensures Ranges(lines[..n + 1]) ==
      if Scan(lines[n]) == [] then Ranges(lines[..n]) else Ranges(lines[..n])[n := Scan(lines[n])]
    ensures n !in Ranges(lines[..n])
  {
    var a, b := lines[..n + 1], lines[..n];
    assert forall l :: 0 <= l < n ==> a[l] == b[l];
  }

  // ---------------------------------------------------------------------------
  // uri_at
  // ---------------------------------------------------------------------------

  predicate Covers(o: Occurrence, c: int)
  {
    o.start <= c < o.end
  }

  /** The IRI of the first occurrence whose range holds c, if any. */
  function FirstCovering(occs: seq<Occurrence>, c: int): (r: Option<string>)
    ensures r.None? <==> forall k :: 0 <= k < |occs| ==> !Covers(occs[k], c)
    ensures r.Some? ==> exists k :: 0 <= k < |occs| && Covers(occs[k], c) && occs[k].uri == r.value
                                    && forall j :: 0 <= j < k ==> !Covers(occs[j], c)
    decreases |occs|
  {
    if occs == [] then None
    else if Covers(occs[0], c) then Some(occs[0].uri)
    else
      var r := FirstCovering(occs[1..], c);
      assert forall k :: 1 <= k < |occs| ==> occs[k] == occs[1..][k - 1];
      r
  }

  /** The IRI whose recorded range on the line holds the character, or None. */
  function UriAt(idx: DocumentIndex, line: nat, character: nat): (r: Option<string>)
    ensures line !in idx.ranges ==> r.None?
    ensures r.None? <==> line !in idx.ranges || forall k :: 0 <= k < |idx.ranges[line]| ==> !Covers(idx.ranges[line][k], character)
    ensures r.Some? ==> exists k :: 0 <= k < |idx.ranges[line]| && Covers(idx.ranges[line][k], character)
                                   && idx.ranges[line][k].uri == r.value
                                   && forall j :: 0 <= j < k ==> !Covers(idx.ranges[line][j], character)
  {
    if line in idx.ranges then FirstCovering(idx.ranges[line], character) else None
  }
}
