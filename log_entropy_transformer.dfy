/**
 * LogEntropyTransformer.transform(File, File): three passes over the matrix file. The
 * first finds the largest document index (`numDocs`) and each term's total count
 * (`termToGlobalCount`); the second sums `p * log2(p)` with `p = count / globalCount` per
 * term (`termToEntropySum`); the third writes every record again with weight
 * `log2(1 + count) * (1 + entropySum / log2(numDocs))`.
 */
module LogEntropyTransformer {
  import opened Results
  import opened SparseMatrixFile
  import opened Weights
  import opened JavaMaps

  // ---------------------------------------------------------------------------------
  // Pass 1: global counts

  /** `termToGlobalCount` after reading `cells`. */
  function GlobalCounts(cells: seq<Cell>): map<int, int> {
    if cells == [] then map[]
    else
      var c := cells[|cells| - 1];
      AddTo(GlobalCounts(cells[..|cells| - 1]), c.term, c.count)
  }

  lemma GlobalCountsSnoc(cells: seq<Cell>, c: Cell)
    ensures GlobalCounts(cells + [c]) == AddTo(GlobalCounts(cells), c.term, c.count)
    ensures MaxDocIndex(cells + [c]) == if c.doc > MaxDocIndex(cells) then c.doc else MaxDocIndex(cells)
  {
    assert (cells + [c])[..|cells|] == cells;
  }

  /** A term's global count is the sum of the counts of its records; only terms with records have one. */
  lemma {:induction false} GlobalCountSumsCounts(cells: seq<Cell>, t: int)
    ensures t in GlobalCounts(cells) <==> WithTerm(cells, t) != []
    ensures t in GlobalCounts(cells) ==> GlobalCounts(cells)[t] == SumCounts(WithTerm(cells, t))
  {
    if cells != [] {
      var prefix := cells[..|cells| - 1];
      var c := cells[|cells| - 1];
      GlobalCountSumsCounts(prefix, t);
      var w := WithTerm(prefix, t);
      var before := GlobalCounts(prefix);
      assert GlobalCounts(cells) == AddTo(before, c.term, c.count);
      if c.term == t {
        assert WithTerm(cells, t) == w + [c];
        SumCountsSnoc(w, c);
      } else {
        assert WithTerm(cells, t) == w;
      }
    }
  }

  lemma SumCountsSnoc(w: seq<Cell>, c: Cell)
    ensures SumCounts(w + [c]) == SumCounts(w) + c.count
  {
    assert (w + [c])[..|w|] == w;
  }

  /**
   * Pass 1: the largest document index and the global counts, or the error of the first
   * line that cannot be read.
   */
  method CountTerms(lines: seq<string>) returns (r: Result<(int, map<int, int>), RecordError>, ghost cells: seq<Cell>)
    ensures r.Err? ==> ParseAll(lines) == Err(r.error)
    ensures r.Ok? ==> ParseAll(lines) == Ok(cells) && r.value == (MaxDocIndex(cells), GlobalCounts(cells))
  {
    var numDocs := 0;
    var termToGlobalCount: map<int, int> := map[];
    cells := [];
    var i := 0;
    while i < |lines|
      invariant 0 <= i <= |lines|
      invariant ParseAll(lines[..i]) == Ok(cells)
      invariant numDocs == MaxDocIndex(cells) && termToGlobalCount == GlobalCounts(cells)
    {
      ParseAllSnoc(lines, i, cells);
      var record := ParseRecord(lines[i]);
      if record.Err? {
        return Err(record.error), cells;
      }
      var c := record.value;
      if c.doc > numDocs {
        numDocs := c.doc;
      }
      termToGlobalCount := AddTo(termToGlobalCount, c.term, c.count);
      GlobalCountsSnoc(cells, c);
      cells := cells + [c];
      i := i + 1;
    }
    assert lines[..i] == lines;
    return Ok((numDocs, termToGlobalCount)), cells;
  }

  // ---------------------------------------------------------------------------------
  // Pass 2: entropy sums

  /** `probability * log2(probability)` with `probability = count / globalCount`. */
  function EntropyTerm(count: int, global: int, log2: real -> real): Weight {
    var p := Ratio(count as real, global as real);
    Mul(p, LogOf(log2, p))
  }

  /** `m.put(k, m.get(k) == null ? d : m.get(k) + d)` on `termToEntropySum`. */
  function AddWeight(m: map<int, Weight>, k: int, d: Weight): (r: map<int, Weight>)
    ensures r.Keys == m.Keys + {k}
    ensures r[k] == (if k in m then Add(m[k], d) else d)
    ensures forall j :: j in m && j != k ==> r[j] == m[j]
  {
    m[k := if k in m then Add(m[k], d) else d]
  }

  /** Every record's term has a global count. */
  ghost predicate Counted(cells: seq<Cell>, global: map<int, int>) {
    forall i :: 0 <= i < |cells| ==> cells[i].term in global
  }

  /** `termToEntropySum` after the second pass has read `cells`. */
  function EntropySums(cells: seq<Cell>, global: map<int, int>, log2: real -> real): map<int, Weight>
    requires Counted(cells, global)
  {
    if cells == [] then map[]
    else
      var c := cells[|cells| - 1];
      AddWeight(EntropySums(cells[..|cells| - 1], global, log2), c.term, EntropyTerm(c.count, global[c.term], log2))
  }

  lemma EntropySumsSnoc(cells: seq<Cell>, c: Cell, global: map<int, int>, log2: real -> real)
    requires Counted(cells + [c], global) && c.term in global
    ensures Counted(cells, global)
    ensures EntropySums(cells + [c], global, log2)
         == AddWeight(EntropySums(cells, global, log2), c.term, EntropyTerm(c.count, global[c.term], log2))
  {
    assert (cells + [c])[..|cells|] == cells;
    assert forall i :: 0 <= i < |cells| ==> cells[i] == (cells + [c])[i];
  }

  /** The entropy sum over some records of one term, in file order, starting from 0. */
  function SumEntropy(rs: seq<Cell>, global: int, log2: real -> real): Weight {
    if rs == [] then Finite(0.0)
    else Add(SumEntropy(rs[..|rs| - 1], global, log2), EntropyTerm(rs[|rs| - 1].count, global, log2))
  }

  /** The sums after the first `i + 1` records add record `i` to the sums after the first `i`. */
  lemma EntropySumsStep(cells: seq<Cell>, i: nat, global: map<int, int>, log2: real -> real)
    requires i < |cells| && Counted(cells, global)
    ensures Counted(cells[..i], global) && Counted(cells[..i + 1], global) && cells[i].term in global
    ensures EntropySums(cells[..i + 1], global, log2)
         == AddWeight(EntropySums(cells[..i], global, log2), cells[i].term, EntropyTerm(cells[i].count, global[cells[i].term], log2))
  {
    PrefixSnoc(cells, i);
    assert forall k :: 0 <= k < i + 1 ==> cells[..i + 1][k] == cells[k];
    EntropySumsSnoc(cells[..i], cells[i], global, log2);
  }

  /** A term's entropy sum is the sum of `p * log2(p)` over its records. */
  lemma {:induction false} EntropySumOfRecords(cells: seq<Cell>, global: map<int, int>, log2: real -> real, t: int)
    requires Counted(cells, global) && t in global
    ensures t in EntropySums(cells, global, log2) <==> WithTerm(cells, t) != []
    ensures t in EntropySums(cells, global, log2) ==>
      EntropySums(cells, global, log2)[t] == SumEntropy(WithTerm(cells, t), global[t], log2)
  {
    if cells != [] {
      var prefix := cells[..|cells| - 1];
      var c := cells[|cells| - 1];
      assert Counted(prefix, global) by {
        assert forall i :: 0 <= i < |prefix| ==> prefix[i] == cells[i];
      }
      EntropySumOfRecords(prefix, global, log2, t);
      var w := WithTerm(prefix, t);
      if c.term == t {
        assert WithTerm(cells, t) == w + [c];
        assert (w + [c])[..|w|] == w;
        if w == [] {
          assert SumEntropy(w + [c], global[t], log2)
              == Add(Finite(0.0), EntropyTerm(c.count, global[t], log2));
        }
      } else {
        assert WithTerm(cells, t) == w;
      }
    }
  }

  /** A later pass parses line `i` again; the file has not changed, so it gets the same record. */
  method ReadAgain(lines: seq<string>, ghost cells: seq<Cell>, i: nat) returns (c: Cell)
    requires ReadAs(lines, cells) && i < |lines|
    ensures |cells| == |lines| && c == cells[i]
  {
    var record := ParseRecord(lines[i]);
    c := record.value;
  }

  /** Pass 2: reading the file again, every line parses as it did in pass 1. */
  method SumEntropies(lines: seq<string>, ghost cells: seq<Cell>, termToGlobalCount: map<int, int>, log2: real -> real)
    returns (termToEntropySum: map<int, Weight>)
    requires ReadAs(lines, cells) && Counted(cells, termToGlobalCount)
    ensures termToEntropySum == EntropySums(cells, termToGlobalCount, log2)
  {
    termToEntropySum := map[];
    var i := 0;
    while i < |lines|
      invariant 0 <= i <= |lines| && |cells| == |lines|
      invariant termToEntropySum == EntropySums(cells[..i], termToGlobalCount, log2)
    {
      var c := ReadAgain(lines, cells, i);
      EntropySumsStep(cells, i, termToGlobalCount, log2);
      var probability := Ratio(c.count as real, termToGlobalCount[c.term] as real);
      var d := Mul(probability, LogOf(log2, probability));
      termToEntropySum := AddWeight(termToEntropySum, c.term, d);
      i := i + 1;
    }
    assert cells[..i] == cells;
  }

  // ---------------------------------------------------------------------------------
  // Pass 3: the rewritten matrix

  /** `log2_1p(count)`, i.e. `log2(1 + count)`. */
  function LocalWeight(count: int, log2: real -> real): Weight {
    Log(log2, 1.0 + count as real)
  }

  /**
   * `1 + entropySum / log2(numDocs)` as written. `numDocs` starts at 0 and only grows, so it
   * is never negative; for 0, `log2(0)` is -Infinity and a finite sum divided by it is 0,
   * giving 1. For 1 there is no guard: `log2(1)` is 0 and the quotient is not finite.
   */
  function EntropyWeight(entropySum: Weight, numDocs: int, log2: real -> real): Weight {
    if !entropySum.Finite? then NonFinite
    else if numDocs <= 0 then Finite(1.0)
    else Add(Finite(1.0), Ratio(entropySum.value, log2(numDocs as real)))
  }

  /** The same global weight with the single-document case given weight 1, as for no document. */
  function EntropyWeightCorrected(entropySum: Weight, numDocs: int, log2: real -> real): Weight {
    if !entropySum.Finite? then NonFinite
    else if numDocs <= 1 then Finite(1.0)
    else Add(Finite(1.0), Ratio(entropySum.value, log2(numDocs as real)))
  }

  /** The statistics the third pass reads. */
  datatype Statistics = Statistics(numDocs: int, global: map<int, int>, entropySums: map<int, Weight>)

  /** Every record's term has both a global count and an entropy sum. */
  ghost predicate Covers(s: Statistics, cells: seq<Cell>) {
    forall i :: 0 <= i < |cells| ==> cells[i].term in s.global && cells[i].term in s.entropySums
  }

  /** The record written for `c`, as written (`corrected` false) or with the corrected global weight. */
  function Record(s: Statistics, c: Cell, log2: real -> real, corrected: bool): WeightedCell
    requires c.term in s.entropySums
  {
    var entropy := if corrected then EntropyWeightCorrected(s.entropySums[c.term], s.numDocs, log2)
                   else EntropyWeight(s.entropySums[c.term], s.numDocs, log2);
    WeightedCell(c.term, c.doc, Mul(LocalWeight(c.count, log2), entropy))
  }

  function Emit(s: Statistics, cells: seq<Cell>, log2: real -> real, corrected: bool): (r: seq<WeightedCell>)
    requires Covers(s, cells)
    ensures |r| == |cells|
    ensures forall i :: 0 <= i < |cells| ==> r[i] == Record(s, cells[i], log2, corrected)
  {
    if cells == [] then []
    else
      var prefix := cells[..|cells| - 1];
      assert Covers(s, prefix) by {
        assert forall i :: 0 <= i < |prefix| ==> prefix[i] == cells[i];
      }
      Emit(s, prefix, log2, corrected) + [Record(s, cells[|cells| - 1], log2, corrected)]
  }

  /** The statistics of the first two passes over `cells`. */
  function Gather(cells: seq<Cell>, log2: real -> real): (s: Statistics)
    ensures Covers(s, cells)
  {
    var global := GlobalCounts(cells);
    assert Counted(cells, global) by {
      forall i | 0 <= i < |cells| ensures cells[i].term in global {
        GlobalCountSumsCounts(cells, cells[i].term);
        assert cells[i] in WithTerm(cells, cells[i].term);
      }
    }
    var sums := EntropySums(cells, global, log2);
    forall i | 0 <= i < |cells| ensures cells[i].term in sums {
      EntropySumOfRecords(cells, global, log2, cells[i].term);
      assert cells[i] in WithTerm(cells, cells[i].term);
    }
    Statistics(MaxDocIndex(cells), global, sums)
  }

  /** The records the transform writes for the cells of a readable matrix. */
  function Transformed(cells: seq<Cell>, log2: real -> real): seq<WeightedCell> {
    Emit(Gather(cells, log2), cells, log2, false)
  }

  /** The transform with the single-document case corrected. */
  function TransformedCorrected(cells: seq<Cell>, log2: real -> real): seq<WeightedCell> {
    Emit(Gather(cells, log2), cells, log2, true)
  }

  /** The whole transform of a matrix file: its records, or the error of its first bad line. */
  function TransformSpec(lines: seq<string>, log2: real -> real): Result<seq<WeightedCell>, RecordError> {
    match ParseAll(lines)
    case Err(e) => Err(e)
    case Ok(cells) => Ok(Transformed(cells, log2))
  }

  /** Pass 3: reading the file a third time, one weighted record per line, in file order. */
  method WriteRecords(lines: seq<string>, ghost cells: seq<Cell>, s: Statistics, log2: real -> real)
    returns (out: seq<WeightedCell>)
    requires ReadAs(lines, cells) && Covers(s, cells)
    ensures out == Emit(s, cells, log2, false)
  {
    out := [];
    var i := 0;
    while i < |lines|
      invariant 0 <= i <= |lines| && |cells| == |lines|
      invariant out == Emit(s, cells[..i], log2, false)
    {
      var c := ReadAgain(lines, cells, i);
      PrefixSnoc(cells, i);
      var log := LocalWeight(c.count, log2);
      var entropy := EntropyWeight(s.entropySums[c.term], s.numDocs, log2);
      out := out + [WeightedCell(c.term, c.doc, Mul(log, entropy))];
      i := i + 1;
    }
    assert cells[..i] == cells;
  }

  /** `transform(File, File)`: the three passes; the output file is the returned sequence. */
  method Transform(lines: seq<string>, log2: real -> real) returns (r: Result<seq<WeightedCell>, RecordError>)
    ensures r == TransformSpec(lines, log2)
  {
    var counted, cells := CountTerms(lines);
    if counted.Err? {
      return Err(counted.error);
    }
    var (numDocs, termToGlobalCount) := counted.value;
    ghost var s := Gather(cells, log2);
    ParseAllReadAs(lines, cells);
    var termToEntropySum := SumEntropies(lines, cells, termToGlobalCount, log2);
    var out := WriteRecords(lines, cells, Statistics(numDocs, termToGlobalCount, termToEntropySum), log2);
    return Ok(out);
  }

  // ---------------------------------------------------------------------------------
  // Properties of the transform

  /** One output record per input record, in input order, with its term and document. */
  lemma OneRecordPerInput(cells: seq<Cell>, log2: real -> real)
    ensures |Transformed(cells, log2)| == |cells|
    ensures forall i :: 0 <= i < |cells| ==>
      Transformed(cells, log2)[i].term == cells[i].term && Transformed(cells, log2)[i].doc == cells[i].doc
  {
  }

  /**
   * Each weight is `log2(1 + count) * (1 + entropySum / log2(numDocs))`, where entropySum is
   * the sum of `p * log2(p)` over the term's records with `p` the count over the term's total.
   */
  lemma EntryWeight(cells: seq<Cell>, log2: real -> real, i: nat)
    requires i < |cells|
    ensures var t := cells[i].term;
      Transformed(cells, log2)[i].weight
        == Mul(LocalWeight(cells[i].count, log2),
               EntropyWeight(SumEntropy(WithTerm(cells, t), SumCounts(WithTerm(cells, t)), log2),
                             MaxDocIndex(cells), log2))
  {
    var t := cells[i].term;
    var s := Gather(cells, log2);
    assert cells[i] in WithTerm(cells, t);
    GlobalCountSumsCounts(cells, t);
    EntropySumOfRecords(cells, s.global, log2, t);
  }

  /** With positive counts, the probability `count / globalCount` of a record lies in (0, 1]. */
  lemma ProbabilityInUnitInterval(cells: seq<Cell>, i: nat)
    requires PositiveCounts(cells) && i < |cells|
    ensures var p := Ratio(cells[i].count as real, SumCounts(WithTerm(cells, cells[i].term)) as real);
      p.Finite? && 0.0 < p.value <= 1.0
  {
    var records := WithTerm(cells, cells[i].term);
    assert cells[i] in records;
    var k :| 0 <= k < |records| && records[k] == cells[i];
    TermRecordsPositive(cells, cells[i].term);
    CountAtMostSum(records, k);
    RatioInUnitInterval(cells[i].count, SumCounts(records));
  }

  lemma TermRecordsPositive(cells: seq<Cell>, t: int)
    requires PositiveCounts(cells)
    ensures PositiveCounts(WithTerm(cells, t))
  {
    var records := WithTerm(cells, t);
    forall j | 0 <= j < |records| ensures records[j].count > 0 {
      assert records[j] in cells;
    }
  }

  /** With positive counts, every record's count lies in (0, g]; the sum of `p * log2(p)` is then finite and at most 0. */
  lemma {:induction false} SumEntropyNonPositive(rs: seq<Cell>, g: int, log2: real -> real)
    requires LogLaws(log2) && forall k :: 0 <= k < |rs| ==> 0 < rs[k].count <= g
    ensures SumEntropy(rs, g, log2).Finite? && SumEntropy(rs, g, log2).value <= 0.0
  {
    if rs != [] {
      var prefix := rs[..|rs| - 1];
      assert forall k :: 0 <= k < |prefix| ==> prefix[k] == rs[k];
      SumEntropyNonPositive(prefix, g, log2);
      var c := rs[|rs| - 1];
      RatioInUnitInterval(c.count, g);
      EntropyTermNonPositive(log2, Ratio(c.count as real, g as real).value);
    }
  }

  /** A term's entropy sum is finite and at most 0 when counts are positive. */
  lemma EntropySumAtMostZero(cells: seq<Cell>, log2: real -> real, t: int)
    requires LogLaws(log2) && PositiveCounts(cells)
    ensures var rs := WithTerm(cells, t); var e := SumEntropy(rs, SumCounts(rs), log2);
      e.Finite? && e.value <= 0.0
  {
    var rs := WithTerm(cells, t);
    TermRecordsPositive(cells, t);
    forall k | 0 <= k < |rs| ensures 0 < rs[k].count <= SumCounts(rs) {
      CountAtMostSum(rs, k);
    }
    SumEntropyNonPositive(rs, SumCounts(rs), log2);
  }

  /**
   * With positive counts, the global weight `1 + entropySum / log2(numDocs)` of any term is
   * finite and at most 1 whenever `numDocs` is not 1: the sum is at most 0 and `log2(numDocs)`
   * is positive for more than one document (for none the weight is 1).
   */
  lemma EntropyWeightAtMostOne(cells: seq<Cell>, log2: real -> real, t: int, numDocs: int)
    requires LogLaws(log2) && PositiveCounts(cells) && numDocs != 1
    ensures var rs := WithTerm(cells, t);
      var w := EntropyWeight(SumEntropy(rs, SumCounts(rs), log2), numDocs, log2);
      w.Finite? && w.value <= 1.0
  {
    EntropySumAtMostZero(cells, log2, t);
    if numDocs > 1 {
      assert log2(numDocs as real) > 0.0;
    }
  }

  /**
   * Hence no record's weight exceeds its local weight `log2(1 + count)`, which is positive:
   * with positive counts and a largest document index other than 1, every weight is finite
   * and at most the local weight.
   */
  lemma WeightAtMostLocal(cells: seq<Cell>, log2: real -> real, i: nat)
    requires LogLaws(log2) && PositiveCounts(cells) && MaxDocIndex(cells) != 1 && i < |cells|
    ensures var l := LocalWeight(cells[i].count, log2);
      && l.Finite? && l.value > 0.0
      && Transformed(cells, log2)[i].weight.Finite?
      && Transformed(cells, log2)[i].weight.value <= l.value
  {
    var t := cells[i].term;
    var rs := WithTerm(cells, t);
    var e := EntropyWeight(SumEntropy(rs, SumCounts(rs), log2), MaxDocIndex(cells), log2);
    var l := LocalWeight(cells[i].count, log2);
    assert Transformed(cells, log2)[i].weight == Mul(l, e) by {
      EntryWeight(cells, log2, i);
    }
    assert e.Finite? && e.value <= 1.0 by {
      EntropyWeightAtMostOne(cells, log2, t, MaxDocIndex(cells));
    }
    assert l.Finite? && l.value > 0.0 by {
      assert cells[i].count > 0;
      assert 1.0 + cells[i].count as real > 1.0;
    }
    ScaledAtMost(l, e);
  }

  /** A term with a single record of non-zero count has probability 1 and entropy sum exactly 0. */
  lemma SingleRecordEntropyZero(cells: seq<Cell>, log2: real -> real, t: int)
    requires LogLaws(log2) && |WithTerm(cells, t)| == 1 && WithTerm(cells, t)[0].count != 0
    ensures var rs := WithTerm(cells, t); SumEntropy(rs, SumCounts(rs), log2) == Finite(0.0)
  {
    SingleCellEntropyZero(WithTerm(cells, t), log2);
  }

  lemma SingleCellEntropyZero(rs: seq<Cell>, log2: real -> real)
    requires log2(1.0) == 0.0 && |rs| == 1 && rs[0].count != 0
    ensures SumEntropy(rs, SumCounts(rs), log2) == Finite(0.0)
  {
    var c := rs[0];
    assert SumCounts(rs) == c.count by {
      assert rs[..|rs| - 1] == [];
    }
    assert SumEntropy(rs, c.count, log2) == EntropyTerm(c.count, c.count, log2) by {
      assert rs[..|rs| - 1] == [];
      assert Add(Finite(0.0), EntropyTerm(c.count, c.count, log2)) == EntropyTerm(c.count, c.count, log2) by {
        WholeCountEntropyZero(c.count, log2);
      }
    }
    WholeCountEntropyZero(c.count, log2);
  }

  /** A record holding all of its term's occurrences contributes 1 * log2(1) = 0. */
  lemma WholeCountEntropyZero(count: int, log2: real -> real)
    requires log2(1.0) == 0.0 && count != 0
    ensures EntropyTerm(count, count, log2) == Finite(0.0)
  {
    RatioSelf(count);
    assert LogOf(log2, Finite(1.0)) == Finite(0.0);
  }

  /** As written, a matrix whose largest document index is 1 gets no finite weight at all. */
  lemma OneDocumentWeightsNonFinite(cells: seq<Cell>, log2: real -> real, i: nat)
    requires LogLaws(log2) && MaxDocIndex(cells) == 1 && i < |cells|
    ensures Transformed(cells, log2)[i].weight == NonFinite
  {
    var s := Gather(cells, log2);
    var e := s.entropySums[cells[i].term];
    assert log2(1 as real) == 0.0;
    assert EntropyWeight(e, 1, log2) == NonFinite;
  }

  /** The single-record, single-document matrix `1 1 1` shows it. */
  lemma OneDocumentExample(log2: real -> real)
    requires LogLaws(log2)
    ensures Transformed([Cell(1, 1, 1)], log2)[0].weight == NonFinite
  {
    assert MaxDocIndex([Cell(1, 1, 1)]) == 1 by {
      assert [Cell(1, 1, 1)][..0] == [];
    }
    OneDocumentWeightsNonFinite([Cell(1, 1, 1)], log2, 0);
  }

  /** With the correction, positive counts give every record a finite weight. */
  lemma CorrectedWeightsFinite(cells: seq<Cell>, log2: real -> real, i: nat)
    requires LogLaws(log2) && PositiveCounts(cells) && i < |cells|
    ensures TransformedCorrected(cells, log2)[i].weight.Finite?
  {
    var t := cells[i].term;
    var s := Gather(cells, log2);
    assert cells[i] in WithTerm(cells, t);
    GlobalCountSumsCounts(cells, t);
    EntropySumOfRecords(cells, s.global, log2, t);
    EntropySumAtMostZero(cells, log2, t);
    assert s.entropySums[t].Finite?;
    assert LocalWeight(cells[i].count, log2).Finite?;
    CorrectedEntropyWeightFinite(s.entropySums[t], s.numDocs, log2);
  }

  lemma CorrectedEntropyWeightFinite(e: Weight, n: int, log2: real -> real)
    requires LogLaws(log2) && e.Finite?
    ensures EntropyWeightCorrected(e, n, log2).Finite?
  {
    if n > 1 {
      assert log2(n as real) > 0.0;
    }
  }

  /** The correction changes nothing unless the largest document index is 1. */
  lemma CorrectionOnlyForOneDocument(cells: seq<Cell>, log2: real -> real)
    requires MaxDocIndex(cells) != 1
    ensures TransformedCorrected(cells, log2) == Transformed(cells, log2)
  {
    var a, b := TransformedCorrected(cells, log2), Transformed(cells, log2);
    assert forall i :: 0 <= i < |cells| ==> a[i] == b[i];
  }
}
