/**
  What `build` promises about the index it returns, and the round trip
  between a recorded range and `uri_at`.
*/
module IndexProperties {
  import opened Wrappers
  import opened Rdf
  import opened Text
  import opened Scanner
  import opened Indexer

  // ---------------------------------------------------------------------------
  // labels and uris
  // ---------------------------------------------------------------------------

  /** The triple is a label triple whose subject is u. */
  predicate LabelsSubject(t: Triple, u: string)
  {
    IsLabelTriple(t) && t.s == Iri(u)
  }

  /** u has a label exactly when some label triple has subject u, and the
      label is the literal of the last such triple. */
  lemma {:induction false} LabelsLastWins(ts: seq<Triple>, u: string)
    ensures u in Labels(ts) <==> exists i :: 0 <= i < |ts| && LabelsSubject(ts[i], u)
    ensures u in Labels(ts) ==>
      exists i :: 0 <= i < |ts| && LabelsSubject(ts[i], u) && Labels(ts)[u] == ts[i].o.lexical
                  && forall j :: i < j < |ts| ==> !LabelsSubject(ts[j], u)
    decreases |ts|
  {
    if ts != [] {
      var n := |ts| - 1;
      var init := ts[..n];
      LabelsLastWins(init, u);
      assert forall i :: 0 <= i < n ==> init[i] == ts[i];
      if !LabelsSubject(ts[n], u) && u in Labels(ts) {
        var i :| 0 <= i < n && LabelsSubject(init[i], u) && Labels(init)[u] == init[i].o.lexical
                 && forall j :: i < j < n ==> !LabelsSubject(init[j], u);
        assert LabelsSubject(ts[i], u);
      }
    }
  }

  /** The known IRIs are exactly the IRI subjects and IRI objects: no
      predicate, literal or blank node contributes one. */
  lemma {:induction false} UrisExact(ts: seq<Triple>, u: string)
    ensures u in Uris(ts) <==> exists i :: 0 <= i < |ts| && (ts[i].s == Iri(u) || ts[i].o == Iri(u))
    decreases |ts|
  {
    if ts != [] {
      var n := |ts| - 1;
      UrisExact(ts[..n], u);
      assert forall i :: 0 <= i < n ==> ts[..n][i] == ts[i];
    }
  }

  /** Every labelled IRI is a known IRI. */
  lemma LabelledAreKnown(ts: seq<Triple>)
    ensures Labels(ts).Keys <= Uris(ts)
  {
    forall u | u in Labels(ts) ensures u in Uris(ts) {
      LabelsLastWins(ts, u);
      UrisExact(ts, u);
    }
  }

  // ---------------------------------------------------------------------------
  // ranges
  // ---------------------------------------------------------------------------

  /** Each line's entry holds exactly its scan, and every recorded range is
      the delimited IRI text, in strictly increasing, non-overlapping order. */
  lemma IndexRangesWellFormed(text: string, ts: seq<Triple>, l: nat)
    requires l in Index(text, ts).ranges
    ensures var lines, occs := SplitLines(text), Index(text, ts).ranges[l];
      && l < |lines| && occs == Scan(lines[l]) && occs != []
      && (forall k :: 0 <= k < |occs| ==> WellFormed(lines[l], occs[k]))
      && Ordered(occs)
  {
    ScanWellFormed(SplitLines(text)[l]);
  }

  /** The invariant of a built index against its document's lines: every
      labelled IRI is known, and every line's entry is a non-empty list of
      well-formed, ordered ranges of that line. */
  ghost predicate Valid(idx: DocumentIndex, lines: seq<string>)
  {
    && idx.labels.Keys <= idx.uris
    && forall l :: l in idx.ranges ==>
         && l < |lines| && idx.ranges[l] != [] && Ordered(idx.ranges[l])
         && forall k :: 0 <= k < |idx.ranges[l]| ==> WellFormed(lines[l], idx.ranges[l][k])
  }

  /** The index `build` returns satisfies the invariant. */
  lemma IndexValid(text: string, ts: seq<Triple>)
    ensures Valid(Index(text, ts), SplitLines(text))
  {
    LabelledAreKnown(ts);
    forall l | l in Index(text, ts).ranges {
      IndexRangesWellFormed(text, ts, l);
    }
  }

  /** A line has an entry exactly when the pattern matches somewhere on it. */
  lemma RangesKeyIff(text: string, ts: seq<Triple>, l: nat)
    ensures var lines := SplitLines(text);
      l in Index(text, ts).ranges <==> l < |lines| && exists s, e :: IsMatch(lines[l], s, e)
  {
    var lines := SplitLines(text);
    if l < |lines| {
      ScanEmptyIff(lines[l]);
    }
  }

  // ---------------------------------------------------------------------------
  // first_pos
  // ---------------------------------------------------------------------------

  /** u is the IRI of the k-th match on line l. */
  predicate OccursAt(lines: seq<string>, u: string, l: int, k: int)
  {
    0 <= l < |lines| && 0 <= k < |Scan(lines[l])| && Scan(lines[l])[k].uri == u
  }

  /** One line's setdefault loop: old positions stay, and an IRI new to the
      map gets the start of its first match on the line. */
  lemma {:induction false} RecordLineAt(fp: map<string, (nat, nat)>, line: nat, occs: seq<Occurrence>, u: string)
    ensures u in fp ==> u in RecordLine(fp, line, occs) && RecordLine(fp, line, occs)[u] == fp[u]
    ensures u in RecordLine(fp, line, occs) <==> u in fp || exists k :: 0 <= k < |occs| && occs[k].uri == u
    ensures u in RecordLine(fp, line, occs) && u !in fp ==>
      exists k :: 0 <= k < |occs| && occs[k].uri == u && RecordLine(fp, line, occs)[u] == (line, occs[k].start)
                  && forall j :: 0 <= j < k ==> occs[j].uri != u
    decreases |occs|
  {
    if occs != [] {
      var n := |occs| - 1;
      RecordLineAt(fp, line, occs[..n], u);
      assert forall k :: 0 <= k < n ==> occs[..n][k] == occs[k];
    }
  }

  /** first_pos holds exactly the IRIs that occur in the lexical scan, each
      at its earliest occurrence: lowest line first, then lowest match index. */
  lemma {:induction false} FirstPosAt(lines: seq<string>, u: string)
    ensures u in FirstPos(lines) <==> exists l, k :: OccursAt(lines, u, l, k)
    ensures u in FirstPos(lines) ==>
      exists l, k :: OccursAt(lines, u, l, k) && FirstPos(lines)[u] == (l, Scan(lines[l])[k].start)
                     && forall l', k' :: OccursAt(lines, u, l', k') ==> l < l' || (l == l' && k <= k')
    decreases |lines|
  {
    if lines != [] {
      var n := |lines| - 1;
      var init, ms := lines[..n], Scan(lines[n]);
      var fp0 := FirstPos(init);
      FirstPosAt(init, u);
      RecordLineAt(fp0, n, ms, u);
      assert forall l :: 0 <= l < n ==> init[l] == lines[l];
      assert forall l, k :: l < n ==> (OccursAt(init, u, l, k) <==> OccursAt(lines, u, l, k));
      if u in fp0 {
        var l, k :| OccursAt(init, u, l, k) && fp0[u] == (l, Scan(init[l])[k].start)
                    && forall l', k' :: OccursAt(init, u, l', k') ==> l < l' || (l == l' && k <= k');
        assert OccursAt(lines, u, l, k);
        forall l', k' | OccursAt(lines, u, l', k') ensures l < l' || (l == l' && k <= k') {
          if l' < n {
            assert OccursAt(init, u, l', k');
          }
        }
      } else {
        assert forall l, k :: !OccursAt(init, u, l, k);
        if exists k :: 0 <= k < |ms| && ms[k].uri == u {
          var k :| 0 <= k < |ms| && ms[k].uri == u && RecordLine(fp0, n, ms)[u] == (n, ms[k].start)
                   && forall j :: 0 <= j < k ==> ms[j].uri != u;
          assert OccursAt(lines, u, n, k);
          assert forall l', k' :: OccursAt(lines, u, l', k') ==> n < l' || (n == l' && k <= k');
        } else {
          forall l, k ensures !OccursAt(lines, u, l, k) {
            if l < n {
              assert !OccursAt(init, u, l, k);
            }
          }
        }
      }
    }
  }

  /** A position, once recorded for a prefix of the lines, is never overwritten. */
  lemma {:induction false} FirstPosNeverOverwritten(lines: seq<string>, i: nat, u: string)
    requires i <= |lines|
    requires u in FirstPos(lines[..i])
    ensures u in FirstPos(lines) && FirstPos(lines)[u] == FirstPos(lines[..i])[u]
    decreases |lines|
  {
    if i < |lines| {
      var n := |lines| - 1;
      assert lines[..n][..i] == lines[..i];
      FirstPosNeverOverwritten(lines[..n], i, u);
      RecordLineAt(FirstPos(lines[..n]), n, Scan(lines[n]), u);
    } else {
      assert lines[..i] == lines;
    }
  }

  /** u is the IRI of the k-th recorded range on line l. */
  predicate RecordedAt(ranges: map<nat, seq<Occurrence>>, u: string, l: nat, k: nat)
  {
    l in ranges && k < |ranges[l]| && ranges[l][k].uri == u
  }

  /** The recorded ranges are the matches of the scan. */
  lemma RecordedAtIff(lines: seq<string>, u: string, l: nat, k: nat)
    ensures RecordedAt(Ranges(lines), u, l, k) <==> OccursAt(lines, u, l, k)
    ensures RecordedAt(Ranges(lines), u, l, k) ==> Ranges(lines)[l][k] == Scan(lines[l])[k]
  {
  }

  /** (l, k) is u's earliest recorded range: on the lowest line, and there
      at the lowest start. */
  ghost predicate EarliestRecorded(ranges: map<nat, seq<Occurrence>>, u: string, l: nat, k: nat)
  {
    && RecordedAt(ranges, u, l, k)
    && forall l': nat, k': nat :: RecordedAt(ranges, u, l', k') ==>
         l < l' || (l == l' && ranges[l][k].start <= ranges[l'][k'].start)
  }

  /** first_pos has exactly the IRIs of the recorded ranges as keys. */
  lemma FirstPosKeys(lines: seq<string>, u: string)
    ensures u in FirstPos(lines) <==> exists l: nat, k: nat :: RecordedAt(Ranges(lines), u, l, k)
  {
    FirstPosAt(lines, u);
    forall l: nat, k: nat ensures RecordedAt(Ranges(lines), u, l, k) <==> OccursAt(lines, u, l, k) {
      RecordedAtIff(lines, u, l, k);
    }
  }

  /** first_pos[u] is the (line, start) of u's earliest recorded range. */
  lemma FirstPosIsEarliest(lines: seq<string>, u: string)
    requires u in FirstPos(lines)
    ensures exists l: nat, k: nat :: EarliestRecorded(Ranges(lines), u, l, k)
                                     && FirstPos(lines)[u] == (l, Ranges(lines)[l][k].start)
  {
    var ranges := Ranges(lines);
    FirstPosAt(lines, u);
    var l, k :| OccursAt(lines, u, l, k) && FirstPos(lines)[u] == (l, Scan(lines[l])[k].start)
                && forall l', k' :: OccursAt(lines, u, l', k') ==> l < l' || (l == l' && k <= k');
    ScanWellFormed(lines[l]);
    RecordedAtIff(lines, u, l, k);
    forall l': nat, k': nat | RecordedAt(ranges, u, l', k')
      ensures l < l' || (l == l' && ranges[l][k].start <= ranges[l'][k'].start)
    {
      RecordedAtIff(lines, u, l', k');
    }
    assert EarliestRecorded(ranges, u, l, k);
  }

  // ---------------------------------------------------------------------------
  // uri_at
  // ---------------------------------------------------------------------------

  /** In ordered ranges, the first one holding c is the only one holding c. */
  lemma FirstCoveringOrdered(occs: seq<Occurrence>, k: nat, c: int)
    requires Ordered(occs) && k < |occs| && Covers(occs[k], c)
    ensures FirstCovering(occs, c) == Some(occs[k].uri)
  {
    var r := FirstCovering(occs, c);
    var k' :| 0 <= k' < |occs| && Covers(occs[k'], c) && occs[k'].uri == r.value
              && forall j :: 0 <= j < k' ==> !Covers(occs[j], c);
  }

  /** Resolve round trip: every character of a recorded range resolves to
      that range's IRI. */
  lemma ResolveRoundTrip(text: string, ts: seq<Triple>, l: nat, k: nat, c: nat)
    requires l in Index(text, ts).ranges && k < |Index(text, ts).ranges[l]|
    requires Covers(Index(text, ts).ranges[l][k], c)
    ensures UriAt(Index(text, ts), l, c) == Some(Index(text, ts).ranges[l][k].uri)
  {
    IndexRangesWellFormed(text, ts, l);
    FirstCoveringOrdered(Index(text, ts).ranges[l], k, c);
  }
}
