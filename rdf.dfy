/**
  The RDF terms and triples that the N-Triples parser hands to the indexer.
  The parser itself is not modelled: a parsed document is given as the
  sequence of its triples, in the order the graph yields them.
*/
module Rdf {
  import opened Wrappers

  /** An RDF term: an IRI, a literal (lexical form, optional datatype IRI,
      optional language tag) or a blank node. */
  datatype Term =
    | Iri(iri: string)
    | Literal(lexical: string, datatypeIri: Option<string>, lang: Option<string>)
    | BNode(id: string)

  datatype Triple = Triple(s: Term, p: string, o: Term)

  /** The outcome of parsing a document's text as N-Triples. */
  datatype Parse = Graph(triples: seq<Triple>) | Malformed

  /** skos:prefLabel, the preferred lexical label of the SKOS Reference, section 5. */
  const PrefLabel: string := "http://www.w3.org/2004/02/skos/core#prefLabel"

  /** The IRIs a term contributes to the set of known IRIs: itself if it is one. */
  function IrisOf(t: Term): (r: set<string>)
    ensures forall u :: u in r <==> t == Iri(u)
  {
    if t.Iri? then {t.iri} else {}
  }
}
