/**
  The language server's document map and its hover decision: the IRI under
  the cursor, its preferred label, and the markdown and range shown.
*/
module Server {
  import opened Wrappers
  import opened Rdf
  import opened Text
  import opened Scanner
  import opened Indexer
  import opened IndexProperties

  datatype Position = Position(line: nat, character: nat)
  datatype Range = Range(start: Position, end: Position)
  datatype Hover = Hover(contents: string, range: Range)

  /** The hover text: the label, then the IRI in its delimited form as code. */
  function Markdown(prefLabel: string, hit: string): (md: string)
  {
    "**prefLabel:** " + prefLabel + "\n\n`<" + hit + ">`"
  }

  /** The markdown regrouped around the delimited IRI `<hit>`. */
  lemma MarkdownQuotesDelimited(prefLabel: string, hit: string)
    ensures Markdown(prefLabel, hit) == "**prefLabel:** " + prefLabel + "\n\n`" + ("<" + hit + ">") + "`"
  {
    assert "\n\n`<" == "\n\n`" + "<";
    assert ">`" == ">" + "`";
  }

  /** The hover for a cursor position of document uri: none without an index
      for the document, without an IRI under the cursor, or without a
      non-empty label for it; otherwise the markdown and a range that starts
      at the cursor and spans the delimited IRI's length. */
  function OnHover(documents: map<string, DocumentIndex>, uri: string, pos: Position): (r: Option<Hover>)
    ensures uri !in documents ==> r.None?
    ensures uri in documents && UriAt(documents[uri], pos.line, pos.character).None? ==> r.None?
    ensures r.Some? <==>
      && uri in documents
      && UriAt(documents[uri], pos.line, pos.character).Some?
      && var hit := UriAt(documents[uri], pos.line, pos.character).value;
         hit in documents[uri].labels && documents[uri].labels[hit] != ""
    ensures r.Some? ==>
      var hit := UriAt(documents[uri], pos.line, pos.character).value;
      && r.value.contents == Markdown(documents[uri].labels[hit], hit)
      && r.value.range.start == pos
      && r.value.range.end == Position(pos.line, pos.character + |hit| + 2)
  {
    if uri !in documents then None
    else
      var idx := documents[uri];
      match UriAt(idx, pos.line, pos.character)
      case None => None
      case Some(hit) =>
        if hit !in idx.labels || idx.labels[hit] == "" then None
        else
          var md := Markdown(idx.labels[hit], hit);
          Some(Hover(md, Range(pos, Position(pos.line, pos.character + |hit| + 2))))
  }

  /** The k-th recorded range on line l holds character c, and its IRI has a
      non-empty label. */
  predicate LabelledRangeAt(idx: DocumentIndex, l: nat, k: nat, c: nat)
  {
    && l in idx.ranges && k < |idx.ranges[l]| && Covers(idx.ranges[l][k], c)
    && var u := idx.ranges[l][k].uri; u in idx.labels && idx.labels[u] != ""
  }

  /** Over a valid index, a hover appears exactly when the cursor lies in a
      recorded range whose IRI has a non-empty label. */
  lemma HoverExistsIff(documents: map<string, DocumentIndex>, uri: string, lines: seq<string>, pos: Position)
    requires uri in documents && Valid(documents[uri], lines)
    ensures OnHover(documents, uri, pos).Some? <==>
      exists k: nat :: LabelledRangeAt(documents[uri], pos.line, k, pos.character)
  {
    var idx := documents[uri];
    if OnHover(documents, uri, pos).Some? {
      var k :| 0 <= k < |idx.ranges[pos.line]| && Covers(idx.ranges[pos.line][k], pos.character)
               && idx.ranges[pos.line][k].uri == UriAt(idx, pos.line, pos.character).value;
      assert LabelledRangeAt(idx, pos.line, k, pos.character);
    }
    forall k: nat | LabelledRangeAt(idx, pos.line, k, pos.character)
      ensures OnHover(documents, uri, pos).Some?
    {
      HoverOnLabelledRange(documents, uri, lines, pos.line, k, pos.character);
    }
  }

  /** Over a valid index (one `build` returns, by IndexValid), let o be the
      recorded range under the cursor, with a non-empty label: a hover
      appears and shows o's IRI, a known IRI; the markdown quotes o's text verbatim; and the hover range
      ends on the cursor's line where o ends shifted by the cursor's distance
      from '<', so the two ends agree exactly when the cursor is on the
      opening '<'. */
  lemma HoverAnchoredAtRange(documents: map<string, DocumentIndex>, uri: string, lines: seq<string>, pos: Position, k: nat)
    requires uri in documents && Valid(documents[uri], lines)
    requires LabelledRangeAt(documents[uri], pos.line, k, pos.character)
    ensures OnHover(documents, uri, pos).Some?
    ensures var idx, o := documents[uri], documents[uri].ranges[pos.line][k];
      var h := OnHover(documents, uri, pos).value;
      && o.uri == UriAt(idx, pos.line, pos.character).value
      && o.uri in idx.uris && o.uri in idx.labels
      && pos.line < |lines| && o.end <= |lines[pos.line]|
      && h.contents == "**prefLabel:** " + idx.labels[o.uri] + "\n\n`" + lines[pos.line][o.start..o.end] + "`"
      && h.range.end.line == pos.line
      && h.range.end.character == o.end + (pos.character - o.start)
      && (h.range.end.character == o.end <==> pos.character == o.start)
  {
    var idx, o := documents[uri], documents[uri].ranges[pos.line][k];
    HoverOnLabelledRange(documents, uri, lines, pos.line, k, pos.character);
    FirstCoveringOrdered(idx.ranges[pos.line], k, pos.character);
    assert WellFormed(lines[pos.line], o);
    DelimitedText(lines[pos.line], o);
    MarkdownQuotesDelimited(idx.labels[o.uri], o.uri);
  }

  /** Over a valid index, every character of a recorded range whose IRI has
      a non-empty label shows that label's hover. */
  lemma HoverOnLabelledRange(documents: map<string, DocumentIndex>, uri: string, lines: seq<string>,
                             l: nat, k: nat, c: nat)
    requires uri in documents && Valid(documents[uri], lines)
    requires LabelledRangeAt(documents[uri], l, k, c)
    ensures var idx := documents[uri]; var u := idx.ranges[l][k].uri;
      OnHover(documents, uri, Position(l, c)) ==
        Some(Hover(Markdown(idx.labels[u], u), Range(Position(l, c), Position(l, c + |u| + 2))))
  {
    assert Ordered(documents[uri].ranges[l]);
    HoverOnCoveringRange(documents, uri, l, k, c);
  }

  /** Only the ranges of the cursor's line need to be ordered for that. */
  lemma HoverOnCoveringRange(documents: map<string, DocumentIndex>, uri: string, l: nat, k: nat, c: nat)
    requires uri in documents && l in documents[uri].ranges && k < |documents[uri].ranges[l]|
    requires Ordered(documents[uri].ranges[l]) && Covers(documents[uri].ranges[l][k], c)
    requires var u := documents[uri].ranges[l][k].uri; u in documents[uri].labels && documents[uri].labels[u] != ""
    ensures var idx := documents[uri]; var u := idx.ranges[l][k].uri;
      OnHover(documents, uri, Position(l, c)) ==
        Some(Hover(Markdown(idx.labels[u], u), Range(Position(l, c), Position(l, c + |u| + 2))))
  {
    var idx := documents[uri];
    FirstCoveringOrdered(idx.ranges[l], k, c);
    assert UriAt(idx, l, c) == Some(idx.ranges[l][k].uri);
  }

  /** The server's state: the index of every opened document, by URI. */
  class NtPrefServer {
    var documents: map<string, DocumentIndex>

    constructor ()
      ensures documents == map[]
    {
      documents := map[];
    }

    /** didOpen: builds the document's index and installs it under its URI,
        replacing any previous one; when the build raises, nothing is stored.
        An installed index is valid against the document's lines, as the
        hover lemmas require. */
    method DidOpen(uri: string, text: string, parsed: Parse)
      modifies this
      ensures parsed.Graph? && !AnyRaisesOnLabel(parsed.triples) ==>
        documents == old(documents)[uri := Index(text, parsed.triples)]
      ensures parsed.Malformed? || AnyRaisesOnLabel(parsed.triples) ==> documents == old(documents)
      ensures forall u :: u != uri ==> (u in documents <==> u in old(documents))
      ensures forall u :: u != uri && u in documents ==> documents[u] == old(documents)[u]
    ensures parsed.Graph? && !AnyRaisesOnLabel(parsed.triples) ==> Valid(documents[uri], SplitLines(text))
    {
      if parsed.Graph? {
        IndexValid(text, parsed.triples);
      }
      var r := Build(text, parsed);
      if r.Success? {
        documents := documents[uri := r.value];
      }
    }
  }
}
