/**
 * TfIdfTransformer.transform(File, File): one pass reads every record and gathers, per
 * term, the number of records (`termToDocOccurences`), per document the sum of its counts
 * (`docToTermCount`), per (term, document) pair the count last read (`docToTermFreq`) and
 * the largest document index (`numDocs`); a second loop writes one record per pair with
 * weight `(count / docTotal) * ln(numDocs / docFreq)`.
 */
module TfIdfTransformer {
  import opened Results
  import opened JavaText
  import opened SparseMatrixFile
  import opened Weights
  import opened JavaMaps

  // ---------------------------------------------------------------------------------
  // The key of docToTermFreq

  /** The private class `Pair`: a term index and a document index. */
  datatype Pair = Pair(term: int, doc: int)

  function PairOf(c: Cell): Pair {
    Pair(c.term, c.doc)
  }

  predicate PairFitsInt(p: Pair) {
    IsInt(p.term) && IsInt(p.doc)
  }

  /** Java `int` addition, which wraps around modulo 2^32. */
  function WrapSum(a: int, b: int): (r: int)
    requires IsInt(a) && IsInt(b)
    ensures IsInt(r)
    ensures r == a + b || r == a + b - 0x1_0000_0000 || r == a + b + 0x1_0000_0000
  {
    var n := a + b;
    if n > IntMax then n - 0x1_0000_0000 else if n < IntMin then n + 0x1_0000_0000 else n
  }

  /** `Pair.hashCode`: the sum of the two `Integer` hash codes, which are the values themselves. */
  function PairHashCode(p: Pair): int
    requires PairFitsInt(p)
  {
    WrapSum(p.term, p.doc)
  }

  /** `Pair.equals` as written: it compares the terms twice and never the documents. */
  predicate PairEqualsAsWritten(p: Pair, o: Pair) {
    o.term == p.term && o.term == p.term
  }

  /** The comparison the class evidently intends: both fields. */
  predicate PairEquals(p: Pair, o: Pair) {
    o.term == p.term && o.doc == p.doc
  }

  /** Two pairs with the same term and different documents are equal as written. */
  lemma PairEqualsIgnoresDoc()
    ensures PairEqualsAsWritten(Pair(1, 1), Pair(1, 2)) && Pair(1, 1) != Pair(1, 2)
  {
  }

  lemma PairEqualsIsIdentity(p: Pair, o: Pair)
    ensures PairEquals(p, o) <==> p == o
  {
  }

  /**
   * A HashMap treats two keys as one when their hash codes agree and `equals` holds. For
   * `Pair` that is exactly when term and document agree, so the faulty `equals` is masked
   * by the hash code, and the model keys `docToTermFreq` on the pair itself.
   */
  lemma PairKeyIdentity(p: Pair, o: Pair)
    requires PairFitsInt(p) && PairFitsInt(o)
    ensures (PairHashCode(p) == PairHashCode(o) && PairEqualsAsWritten(p, o)) <==> PairEquals(p, o)
  {
    if PairHashCode(p) == PairHashCode(o) && PairEqualsAsWritten(p, o) {
      assert p.term == o.term;
      assert -0x1_0000_0000 < p.doc - o.doc < 0x1_0000_0000;
    }
  }

  // ---------------------------------------------------------------------------------
  // The statistics pass

  /** The variables of the read loop. */
  datatype Statistics = Statistics(
    numDocs: int,                 // the largest document index read, starting from 0
    docFreq: map<int, int>,       // termToDocOccurences
    docTotal: map<int, int>,      // docToTermCount
    freq: map<Pair, int>,         // docToTermFreq
    order: seq<Pair>)             // the keys of docToTermFreq in the order they are visited

  const NoStatistics := Statistics(0, map[], map[], map[], [])

  /**
   * One turn of the read loop for record `c`. A HashMap promises no iteration order; the
   * model visits the pairs of docToTermFreq in the order of their first record.
   */
  function Step(s: Statistics, c: Cell): Statistics {
    Statistics(
      if c.doc > s.numDocs then c.doc else s.numDocs,
      Increment(s.docFreq, c.term),
      AddTo(s.docTotal, c.doc, c.count),
      s.freq[PairOf(c) := c.count],
      if PairOf(c) in s.freq then s.order else s.order + [PairOf(c)])
  }

  /** The statistics after reading `cells`. */
  function Gather(cells: seq<Cell>): Statistics {
    if cells == [] then NoStatistics else Step(Gather(cells[..|cells| - 1]), cells[|cells| - 1])
  }

  lemma GatherSnoc(cells: seq<Cell>, c: Cell)
    ensures Gather(cells + [c]) == Step(Gather(cells), c)
  {
    assert (cells + [c])[..|cells|] == cells;
  }

  /** Every pair has its document and term recorded, and is visited exactly once. */
  ghost predicate WellFormed(s: Statistics) {
    && (forall p :: p in s.freq ==> p.doc in s.docTotal && p.term in s.docFreq)
    && (forall p :: p in s.order <==> p in s.freq)
    && (forall k, l :: 0 <= k < l < |s.order| ==> s.order[k] != s.order[l])
  }

  lemma {:induction false} GatherWellFormed(cells: seq<Cell>)
    ensures WellFormed(Gather(cells))
  {
    if cells != [] {
      GatherWellFormed(cells[..|cells| - 1]);
    }
  }

  /** `numDocs` is the largest document index of the input (0 when there is none above 0). */
  lemma {:induction false} NumDocsIsMaxDoc(cells: seq<Cell>)
    ensures Gather(cells).numDocs == MaxDocIndex(cells)
  {
    if cells != [] {
      NumDocsIsMaxDoc(cells[..|cells| - 1]);
    }
  }

  /** `termToDocOccurences[t]` is the number of records of term `t`, and absent when there is none. */
  lemma {:induction false} DocFreqCountsRecords(cells: seq<Cell>, t: int)
    ensures t in Gather(cells).docFreq <==> WithTerm(cells, t) != []
    ensures t in Gather(cells).docFreq ==> Gather(cells).docFreq[t] == |WithTerm(cells, t)|
  {
    if cells != [] {
      DocFreqCountsRecords(cells[..|cells| - 1], t);
    }
  }

  /** `docToTermCount[d]` is the sum of the counts of document `d`, and absent when it has no record. */
  lemma {:induction false} DocTotalSumsCounts(cells: seq<Cell>, d: int)
    ensures d in Gather(cells).docTotal <==> WithDoc(cells, d) != []
    ensures d in Gather(cells).docTotal ==> Gather(cells).docTotal[d] == SumCounts(WithDoc(cells, d))
  {
    if cells != [] {
      var prefix := cells[..|cells| - 1];
      var c := cells[|cells| - 1];
      DocTotalSumsCounts(prefix, d);
      var w := WithDoc(prefix, d);
      if c.doc == d {
        assert WithDoc(cells, d) == w + [c];
        assert (w + [c])[..|w|] == w;
      } else {
        assert WithDoc(cells, d) == w;
      }
    }
  }

  /** Record `i` is the last one of pair `p`. */
  predicate LastRecordOf(cells: seq<Cell>, p: Pair, i: int) {
    && 0 <= i < |cells| && PairOf(cells[i]) == p
    && forall j :: i < j < |cells| ==> PairOf(cells[j]) != p
  }

  /** `docToTermFreq` holds exactly the pairs that occur. */
  lemma {:induction false} FreqKeys(cells: seq<Cell>, p: Pair)
    ensures p in Gather(cells).freq <==> exists i :: 0 <= i < |cells| && PairOf(cells[i]) == p
  {
    if cells != [] {
      var prefix := cells[..|cells| - 1];
      FreqKeys(prefix, p);
      assert forall i :: 0 <= i < |prefix| ==> prefix[i] == cells[i];
    }
  }

  /** `docToTermFreq[p]` is the count of the last record of `p` (`put` overwrites). */
  lemma {:induction false} FreqIsLastCount(cells: seq<Cell>, p: Pair)
    requires p in Gather(cells).freq
    ensures exists i :: LastRecordOf(cells, p, i) && Gather(cells).freq[p] == cells[i].count
  {
    var prefix := cells[..|cells| - 1];
    var last := |cells| - 1;
    if PairOf(cells[last]) == p {
      assert LastRecordOf(cells, p, last);
    } else {
      FreqIsLastCount(prefix, p);
      var i :| LastRecordOf(prefix, p, i) && Gather(prefix).freq[p] == prefix[i].count;
      assert prefix[i] == cells[i];
      assert LastRecordOf(cells, p, i);
    }
  }

  /** With no repeated pair, each record is visited once. */
  lemma {:induction false} UniquePairsVisitAll(cells: seq<Cell>)
    requires UniquePairs(cells)
    ensures |Gather(cells).order| == |cells|
  {
    if cells != [] {
      var prefix := cells[..|cells| - 1];
      var c := cells[|cells| - 1];
      assert forall i :: 0 <= i < |prefix| ==> prefix[i] == cells[i];
      UniquePairsVisitAll(prefix);
      FreqKeys(prefix, PairOf(c));
    }
  }

  // ---------------------------------------------------------------------------------
  // The emit pass

  /** `tf * idf` with `tf = count / docTotal` and `idf = Math.log((double) numDocs / docFreq)`. */
  function TfIdfWeight(count: int, docTotal: int, numDocs: int, docFreq: int, ln: real -> real): Weight {
    Mul(Ratio(count as real, docTotal as real), LogOf(ln, Ratio(numDocs as real, docFreq as real)))
  }

  /** The record written for pair `p`. */
  function Entry(s: Statistics, p: Pair, ln: real -> real): WeightedCell
    requires WellFormed(s) && p in s.freq
  {
    WeightedCell(p.term, p.doc, TfIdfWeight(s.freq[p], s.docTotal[p.doc], s.numDocs, s.docFreq[p.term], ln))
  }

  function Emit(s: Statistics, ps: seq<Pair>, ln: real -> real): (r: seq<WeightedCell>)
    requires WellFormed(s) && forall k :: 0 <= k < |ps| ==> ps[k] in s.freq
    ensures |r| == |ps|
    ensures forall k :: 0 <= k < |ps| ==> r[k] == Entry(s, ps[k], ln)
  {
    if ps == [] then [] else Emit(s, ps[..|ps| - 1], ln) + [Entry(s, ps[|ps| - 1], ln)]
  }

  /** The records the transform writes for the cells of a readable matrix. */
  function Transformed(cells: seq<Cell>, ln: real -> real): seq<WeightedCell> {
    GatherWellFormed(cells);
    Emit(Gather(cells), Gather(cells).order, ln)
  }

  /** The whole transform of a matrix file: its records, or the error of its first bad line. */
  function TransformSpec(lines: seq<string>, ln: real -> real): Result<seq<WeightedCell>, RecordError> {
    match ParseAll(lines)
    case Err(e) => Err(e)
    case Ok(cells) => Ok(Transformed(cells, ln))
  }

  /**
   * The read loop of `transform(File, File)`: the statistics of every record, or the error
   * of the first line that cannot be read.
   */
  method ReadStatistics(lines: seq<string>) returns (r: Result<Statistics, RecordError>, ghost cells: seq<Cell>)
    ensures r.Err? ==> ParseAll(lines) == Err(r.error)
    ensures r.Ok? ==> ParseAll(lines) == Ok(cells) && r.value == Gather(cells)
  {
    var docFreq: map<int, int> := map[];
    var docTotal: map<int, int> := map[];
    var freq: map<Pair, int> := map[];
    var order: seq<Pair> := [];
    var numDocs := 0;
    cells := [];
    var i := 0;
    while i < |lines|
      invariant 0 <= i <= |lines|
      invariant ParseAll(lines[..i]) == Ok(cells)
      invariant Statistics(numDocs, docFreq, docTotal, freq, order) == Gather(cells)
    {
      ParseAllSnoc(lines, i, cells);
      var record := ParseRecord(lines[i]);
      if record.Err? {
        return Err(record.error), cells;
      }
      var c := record.value;
      if c.doc > numDocs {
        numDocs := c.doc;
      }
      docFreq := Increment(docFreq, c.term);
      docTotal := AddTo(docTotal, c.doc, c.count);
      if PairOf(c) !in freq {
        order := order + [PairOf(c)];
      }
      freq := freq[PairOf(c) := c.count];
      GatherSnoc(cells, c);
      cells := cells + [c];
      i := i + 1;
    }
    assert lines[..i] == lines;
    return Ok(Statistics(numDocs, docFreq, docTotal, freq, order)), cells;
  }

  /** The write loop of `transform(File, File)`: one weighted record per visited pair. */
  method WriteRecords(s: Statistics, ln: real -> real) returns (out: seq<WeightedCell>)
    requires WellFormed(s)
    ensures out == Emit(s, s.order, ln)
  {
    out := [];
    var k := 0;
    while k < |s.order|
      invariant 0 <= k <= |s.order|
      invariant out == Emit(s, s.order[..k], ln)
    {
      var p := s.order[k];
      var tf := Ratio(s.freq[p] as real, s.docTotal[p.doc] as real);
      var idf := LogOf(ln, Ratio(s.numDocs as real, s.docFreq[p.term] as real));
      assert s.order[..k + 1][..k] == s.order[..k];
      out := out + [WeightedCell(p.term, p.doc, Mul(tf, idf))];
      k := k + 1;
    }
    assert s.order[..k] == s.order;
  }

  /** `transform(File, File)`: the read loop, then the write loop; the output file is the returned sequence. */
  method Transform(lines: seq<string>, ln: real -> real) returns (r: Result<seq<WeightedCell>, RecordError>)
    ensures r == TransformSpec(lines, ln)
  {
    var read, cells := ReadStatistics(lines);
    if read.Err? {
      return Err(read.error);
    }
    GatherWellFormed(cells);
    var out := WriteRecords(read.value, ln);
    return Ok(out);
  }

  // ---------------------------------------------------------------------------------
  // Properties of the transform

  /** One output record per distinct (term, doc) pair of the input, and no other. */
  lemma OnePerPair(cells: seq<Cell>, ln: real -> real, p: Pair)
    ensures (exists i :: 0 <= i < |cells| && PairOf(cells[i]) == p) <==>
      exists k :: 0 <= k < |Transformed(cells, ln)| && Transformed(cells, ln)[k].term == p.term
                                                  && Transformed(cells, ln)[k].doc == p.doc
    ensures forall k, l :: 0 <= k < l < |Transformed(cells, ln)| ==>
      Transformed(cells, ln)[k].term != Transformed(cells, ln)[l].term
      || Transformed(cells, ln)[k].doc != Transformed(cells, ln)[l].doc
  {
    var out := Transformed(cells, ln);
    var order := Gather(cells).order;
    GatherWellFormed(cells);
    FreqKeys(cells, p);
    assert forall k :: 0 <= k < |out| ==> out[k].term == order[k].term && out[k].doc == order[k].doc;
    if exists k :: 0 <= k < |out| && out[k].term == p.term && out[k].doc == p.doc {
      var k :| 0 <= k < |out| && out[k].term == p.term && out[k].doc == p.doc;
      assert order[k] == p;
    }
  }

  /** With no repeated pair, as ingestion writes the matrix, the output has as many records as the input. */
  lemma UniquePairsKeepCount(cells: seq<Cell>, ln: real -> real)
    requires UniquePairs(cells)
    ensures |Transformed(cells, ln)| == |cells|
  {
    UniquePairsVisitAll(cells);
  }

  /**
   * Each output record keeps the term and document of an input record, and its weight is
   * the formula applied to the count of that pair's last record, the sum of the document's
   * counts, the largest document index and the number of records of the term.
   */
  lemma EntryWeight(cells: seq<Cell>, ln: real -> real, k: nat)
    requires k < |Transformed(cells, ln)|
    ensures var out := Transformed(cells, ln)[k];
      exists i :: && LastRecordOf(cells, Pair(out.term, out.doc), i)
                  && out.weight == TfIdfWeight(cells[i].count, SumCounts(WithDoc(cells, out.doc)),
                                               MaxDocIndex(cells), |WithTerm(cells, out.term)|, ln)
  {
    var s := Gather(cells);
    GatherWellFormed(cells);
    var p := s.order[k];
    FreqIsLastCount(cells, p);
    DocTotalSumsCounts(cells, p.doc);
    DocFreqCountsRecords(cells, p.term);
    NumDocsIsMaxDoc(cells);
    var i :| LastRecordOf(cells, p, i) && s.freq[p] == cells[i].count;
    assert Transformed(cells, ln)[k] == Entry(s, p, ln);
  }

  /** With positive counts, a record's count over its document's total lies in (0, 1]. */
  lemma TermFrequencyInUnitInterval(cells: seq<Cell>, i: nat)
    requires PositiveCounts(cells) && i < |cells|
    ensures var tf := Ratio(cells[i].count as real, SumCounts(WithDoc(cells, cells[i].doc)) as real);
      tf.Finite? && 0.0 < tf.value <= 1.0
  {
    var docRecords := WithDoc(cells, cells[i].doc);
    assert cells[i] in docRecords;
    var k :| 0 <= k < |docRecords| && docRecords[k] == cells[i];
    assert PositiveCounts(docRecords) by {
      forall j | 0 <= j < |docRecords| ensures docRecords[j].count > 0 {
        assert docRecords[j] in cells;
      }
    }
    CountAtMostSum(docRecords, k);
    RatioInUnitInterval(cells[i].count, SumCounts(docRecords));
  }

  /** A term with as many records as `numDocs` gets weight 0, since ln 1 = 0. */
  lemma UbiquitousTermWeightsZero(cells: seq<Cell>, ln: real -> real, k: nat)
    requires LogLaws(ln) && PositiveCounts(cells) && k < |Transformed(cells, ln)|
    requires |WithTerm(cells, Transformed(cells, ln)[k].term)| == MaxDocIndex(cells)
    ensures Transformed(cells, ln)[k].weight == Finite(0.0)
  {
    EntryWeight(cells, ln, k);
    var out := Transformed(cells, ln)[k];
    var i :| LastRecordOf(cells, Pair(out.term, out.doc), i)
             && out.weight == TfIdfWeight(cells[i].count, SumCounts(WithDoc(cells, out.doc)),
                                          MaxDocIndex(cells), |WithTerm(cells, out.term)|, ln);
    TermFrequencyInUnitInterval(cells, i);
    assert cells[i] in WithTerm(cells, out.term);
    WeightOfUbiquitousTerm(cells[i].count, SumCounts(WithDoc(cells, out.doc)), MaxDocIndex(cells), ln);
  }

  lemma WeightOfUbiquitousTerm(count: int, docTotal: int, n: int, ln: real -> real)
    requires LogLaws(ln) && Ratio(count as real, docTotal as real).Finite? && n > 0
    ensures TfIdfWeight(count, docTotal, n, n, ln) == Finite(0.0)
  {
    assert (n as real) / (n as real) == 1.0;
  }

  /** A term with fewer records than `numDocs` gets a positive weight. */
  lemma RareTermWeightsPositive(cells: seq<Cell>, ln: real -> real, k: nat)
    requires LogLaws(ln) && PositiveCounts(cells) && k < |Transformed(cells, ln)|
    requires |WithTerm(cells, Transformed(cells, ln)[k].term)| < MaxDocIndex(cells)
    ensures Transformed(cells, ln)[k].weight.Finite? && Transformed(cells, ln)[k].weight.value > 0.0
  {
    EntryWeight(cells, ln, k);
    var out := Transformed(cells, ln)[k];
    var i :| LastRecordOf(cells, Pair(out.term, out.doc), i)
             && out.weight == TfIdfWeight(cells[i].count, SumCounts(WithDoc(cells, out.doc)),
                                          MaxDocIndex(cells), |WithTerm(cells, out.term)|, ln);
    TermFrequencyInUnitInterval(cells, i);
    assert cells[i] in WithTerm(cells, out.term);
    WeightOfRareTerm(cells[i].count, SumCounts(WithDoc(cells, out.doc)), MaxDocIndex(cells),
                     |WithTerm(cells, out.term)|, ln);
  }

  lemma WeightOfRareTerm(count: int, docTotal: int, n: int, f: int, ln: real -> real)
    requires LogLaws(ln) && 0 < f < n
    requires var tf := Ratio(count as real, docTotal as real); tf.Finite? && tf.value > 0.0
    ensures var w := TfIdfWeight(count, docTotal, n, f, ln); w.Finite? && w.value > 0.0
  {
    var q := (n as real) / (f as real);
    assert q > 1.0 by {
      assert q * (f as real) == n as real;
    }
    assert ln(q) > 0.0;
    var tf := (count as real) / (docTotal as real);
    assert tf * ln(q) > 0.0;
  }
}
