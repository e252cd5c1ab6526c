# nt-pref-ls document index, modelled in Dafny

nt-pref-ls is a small language server for N-Triples documents. When a
document is opened, it builds a **document index** from the document's text.
It answers hover requests from that index by showing the `skos:prefLabel` of
the IRI under the cursor.

The model covers:

- the index builder `build`, with its two passes:
  - the semantic pass over the parsed triples, which collects labels and known IRIs;
  - the lexical pass over the text's lines with the pattern `<([^>]+)>`, which records character ranges and first positions;
- the point query `uri_at`;
- the hover decision;
- the per-document map that `didOpen` updates.

Modules, one per part of the program:

| file | module | models |
|---|---|---|
| `wrappers.dfy` | `Wrappers` | `Option` and `Result` |
| `rdf.dfy` | `Rdf` | RDF terms and triples as the parser yields them, `skos:prefLabel` |
| `text.dfy` | `Text` | character search; the line split `build` applies |
| `scanner.dfy` | `Scanner` | the pattern `<([^>]+)>` and `finditer`'s leftmost, non-overlapping walk |
| `indexer.dfy` | `Indexer` | `DocumentIndex`, `build` (two loops), `uri_at` |
| `index_properties.dfy` | `IndexProperties` | what `build` promises about the index; the resolve round trip |
| `server.dfy` | `Server` | the hover decision and the server's document map |

How the model is built:

- **`DocumentIndex` is a datatype.** `build` fills a fresh index and nothing
  changes it afterwards.
- **`Build` keeps the source's loops.** Its two loops are the methods
  `SemanticPass` and `LexicalPass`, and the inner loop over one line's matches
  is `RecordMatches`. The loops update local maps and sets as the source
  updates the index's fields.
- **Each method is proved against a function.** `Labels`, `Uris`, `Ranges` and
  `FirstPos` are those functions. `Index(text, triples)` combines them into the
  index `build` returns.
- **The regular expression is a scanner.** `ScanFrom` is a hand-written walk.
  `IsFindIter` is an independent reference definition of what `finditer`
  yields. The lemmas prove the scanner computes it (`ScanFromIsFindIter`) and
  that exactly one result satisfies it (`FindIterUnique`).
- **The server is a class.** `NtPrefServer` holds the `documents` map, and its
  method `DidOpen` installs the new index in place.
- **Hover is a pure function.** `OnHover` takes the documents map as a
  parameter, as the handler reads the server's field.

The parsed graph is an input: `Parse = Graph(triples) | Malformed`.

- The sequence order stands for rdflib's iteration order over the graph's set.
  So "last in sequence wins" decides which label survives for a subject with
  several.
- Accessing `.datatype` on a label triple's IRI or blank-node object raises in
  the source. The model makes that an error result, `LabelObjectNotLiteral`,
  and `didOpen` then stores nothing, as it does after a parse error.

Facts about the program that the model keeps:

- Character offsets are code-point indices into a line.
- A hover is suppressed when the label is the empty string.
- The hover range runs from the cursor over the delimited IRI's length. It is
  not snapped to the occurrence. `HoverAnchoredAtRange` states exactly how far
  it overshoots.
- Of the editor features, the server answers hover only.

## Model

| member | source | states |
|---|---|---|
| Text.JoinSplitLines | nt_pref_ls/indexer.py:38 | joining the lines of `text.splitlines()` (each followed by a newline) gives back the text, plus a final newline when the text did not end with one |
| Text.SplitLinesJoin | nt_pref_ls/indexer.py:38 | splitting newline-joined lines that contain no newline gives back exactly those lines |
| Scanner.ScanFromIsFindIter | nt_pref_ls/indexer.py:39-41 | the scanner yields what `finditer` of `<([^>]+)>` yields from the position: leftmost match first, group = text between the delimiters, next search at the match end, no match skipped |
| Scanner.FindIterUnique | nt_pref_ls/indexer.py:39 | the `finditer` result is determined by the line and start position, so the scanner is the only sequence meeting the reference definition |
| Scanner.MatchEndUnique | nt_pref_ls/indexer.py:20 | a match of the pattern from a given '<' can end in only one place |
| Scanner.NoMatchAtFailedOpen | nt_pref_ls/indexer.py:20 | a '<' followed directly by '>' (as in "<>"), or with no '>' after it, starts no match |
| Scanner.FindIterWellFormed | nt_pref_ls/indexer.py:39-41 | each yielded match starts at or after the search start, has '<' at start and '>' at end-1, its IRI is the text between them, non-empty and free of '>', so end - start == length + 2; matches strictly increase and do not overlap |
| Scanner.ScanWellFormed | nt_pref_ls/indexer.py:39-41 | the matches of one line are well formed and in strictly increasing, non-overlapping order |
| Scanner.ScanEmptyIff | nt_pref_ls/indexer.py:39-41 | a line yields some match exactly when the pattern matches somewhere on it |
| Scanner.DelimitedText | nt_pref_ls/indexer.py:40-41 | a recorded range covers exactly '<', the IRI, '>' |
| Indexer.SemanticPass | nt_pref_ls/indexer.py:29-35 | the triple loop fails exactly when some label triple with an IRI subject has an IRI or blank-node object (`.datatype` raises); otherwise it returns the labels (last qualifying triple per subject wins) and the IRIs in subject or object position |
| Indexer.RecordMatches | nt_pref_ls/indexer.py:39-42 | the loop over one line's matches creates the line's entry holding all of them in scan order, and gives each IRI without a first position this line and its match start, leaving existing positions as they are |
| Indexer.LexicalPass | nt_pref_ls/indexer.py:38-42 | the loop over the lines produces one entry per line with a match, holding its matches, and the first positions of all matches taken in order |
| Indexer.Build | nt_pref_ls/indexer.py:22-44 | a parse failure is an error; otherwise the build fails exactly when a label triple's object is not a literal, and else returns the index of the two passes |
| Indexer.FirstCovering | nt_pref_ls/indexer.py:53-56 | the linear search returns the IRI of the first range with start <= c < end, and None exactly when no range holds c |
| Indexer.UriAt | nt_pref_ls/indexer.py:51-56 | None when the line has no entry or no range on it holds the character; otherwise the IRI of the first range on that line holding it |
| IndexProperties.LabelsLastWins | nt_pref_ls/indexer.py:29-31 | an IRI has a label exactly when some triple has predicate skos:prefLabel, that IRI as subject and an untyped literal object; the label is the literal of the last such triple |
| IndexProperties.UrisExact | nt_pref_ls/indexer.py:32-35 | the known IRIs are exactly the IRI subjects and IRI objects; predicates, literals and blank nodes contribute none |
| IndexProperties.LabelledAreKnown | nt_pref_ls/indexer.py:29-35 | every labelled IRI is a known IRI |
| IndexProperties.IndexRangesWellFormed | nt_pref_ls/indexer.py:39-41 | every line entry belongs to a line of the text, holds that line's matches (non-empty), each well formed, in strictly increasing non-overlapping order |
| IndexProperties.IndexValid | nt_pref_ls/indexer.py:22-44 | the built index satisfies the invariant: labelled IRIs are known and every line entry is a non-empty, ordered list of well-formed ranges of that line |
| IndexProperties.RangesKeyIff | nt_pref_ls/indexer.py:39-41 | a line has an entry exactly when it is a line of the text on which the pattern matches; lines with none (e.g. only "<>" or an unclosed '<') get no entry |
| IndexProperties.RecordLineAt | nt_pref_ls/indexer.py:42 | over one line, setdefault keeps every existing position, adds exactly the new IRIs of the line, each at the start of its first match there |
| IndexProperties.FirstPosAt | nt_pref_ls/indexer.py:38-42 | an IRI has a first position exactly when it is matched somewhere, and that position is the line and start of its earliest match, by line then by match index |
| IndexProperties.FirstPosNeverOverwritten | nt_pref_ls/indexer.py:42 | a first position recorded after a prefix of the lines is the final one |
| IndexProperties.FirstPosKeys | nt_pref_ls/indexer.py:38-42 | the first-position map has exactly the IRIs of the recorded ranges as keys |
| IndexProperties.FirstPosIsEarliest | nt_pref_ls/indexer.py:38-42 | an IRI's first position is (line, start) of its earliest recorded range: lowest line, then lowest start |
| IndexProperties.FirstCoveringOrdered | nt_pref_ls/indexer.py:53-55 | in non-overlapping ranges, the search returns the IRI of the range holding the character |
| IndexProperties.ResolveRoundTrip | nt_pref_ls/indexer.py:51-56 | for every recorded range on a line and every character in [start, end), `uri_at` returns that range's IRI |
| Server.OnHover | nt_pref_ls/server.py:80-102 | no hover for a document without an index, without an IRI at the cursor, or without a non-empty label for it; otherwise the markdown "**prefLabel:** label" then the IRI in angle brackets as code, over a range from the cursor to the cursor plus the IRI's length plus 2 on the same line |
| Server.HoverAnchoredAtRange | nt_pref_ls/server.py:86-101 | over a valid index (every built one, by IndexValid), with the cursor in a recorded range whose IRI has a non-empty label: a hover appears, shows that range's IRI, which is known, and quotes the range's text verbatim; its end is the range end shifted by the cursor's distance from '<', so the two agree exactly when the cursor is on '<' |
| Server.HoverOnLabelledRange | nt_pref_ls/server.py:86-101 | over a valid index, every character of a recorded range whose IRI has a non-empty label gets exactly that label's hover |
| Server.HoverExistsIff | nt_pref_ls/server.py:86-101 | over a valid index, a hover appears exactly when the cursor lies in a recorded range whose IRI has a non-empty label |
| Server.HoverOnCoveringRange | nt_pref_ls/server.py:86-101 | the same as HoverOnLabelledRange, needing only that the line's ranges do not overlap |
| Server.NtPrefServer.constructor | nt_pref_ls/server.py:29-31 | a new server holds no document index |
| Server.NtPrefServer.DidOpen | nt_pref_ls/server.py:63-68 | after a successful build, the URI maps to the new index, replacing any previous one; after a parse or label failure the map is unchanged; entries of other URIs are unchanged either way; an installed index is valid against the document's lines, so the hover lemmas apply to it |

## Left out

- The N-Triples parser (rdflib `Graph.parse`, nt_pref_ls/indexer.py:25-26) is foreign code. Its result is an input to the model: the triples in iteration order, or `Malformed`. rdflib's set semantics and its actual iteration order are not modelled.
- Line splitting splits on '\n' only. Python's `str.splitlines` also splits on '\r', "\r\n", '\v', '\f', '\x1c'-'\x1e', '\x85', U+2028 and U+2029.
- Offsets are code-point indices, as the source computes them. The conversion to the protocol's UTF-16 positions is not modelled, and neither does the source do it.
- Language tags are carried on literals but play no part. rdflib gives a language-tagged literal no datatype, so such literals are accepted as labels.
- Protocol plumbing is out of scope because it carries no index logic:
  - the pygls server subclass and the feature registration;
  - `on_initialize` and its capabilities (nt_pref_ls/server.py:41-55);
  - `start_io` and stdio (nt_pref_ls/server.py:108-114);
  - the logging set-up and the log line after indexing (nt_pref_ls/server.py:19-24, 70-73);
  - building the lsprotocol `Hover` and `MarkupContent` objects beyond their text and two positions.
- Building twice from the same input gives the same index. This follows from `Build`'s contract, which equates the result with the function `Index` of the inputs; no separate lemma states it.
