/**
 * MatrixTransformer: a strategy that rewrites a term-document matrix file. The three
 * strategies of the package form a closed set; the one-argument `transform` of each returns
 * the file holding the processed matrix. NoTransform returns its input file itself; the
 * weighting transforms write a new temporary file and fail with the error of the first
 * record line they cannot read.
 */
module MatrixTransformer {
  import opened Results
  import opened SparseMatrixFile
  import opened Weights
  import TfIdfTransformer
  import LogEntropyTransformer

  datatype TransformKind = Identity | TfIdf | LogEntropy

  /** The file `transform(File)` returns: the input file itself, or a new file of weighted records. */
  datatype ProcessedMatrix = InputFile(lines: seq<string>) | Weighted(records: seq<WeightedCell>)

  /**
   * `transform(File)` of each strategy on the lines of a matrix file. `ln` is `Math.log`
   * (TF-IDF), `log2` is `Statistics.log2` (log-entropy).
   */
  function TransformFile(kind: TransformKind, lines: seq<string>, ln: real -> real, log2: real -> real)
    : Result<ProcessedMatrix, RecordError>
  {
    match kind
    case Identity => Ok(InputFile(lines))
    case TfIdf =>
      (match TfIdfTransformer.TransformSpec(lines, ln)
       case Err(e) => Err(e)
       case Ok(out) => Ok(Weighted(out)))
    case LogEntropy =>
      (match LogEntropyTransformer.TransformSpec(lines, log2)
       case Err(e) => Err(e)
       case Ok(out) => Ok(Weighted(out)))
  }

  /** Running the selected strategy. */
  method Transform(kind: TransformKind, lines: seq<string>, ln: real -> real, log2: real -> real)
    returns (r: Result<ProcessedMatrix, RecordError>)
    ensures r == TransformFile(kind, lines, ln, log2)
  {
    match kind {
      case Identity =>
        r := Ok(InputFile(lines));
      case TfIdf =>
        var out := TfIdfTransformer.Transform(lines, ln);
        r := if out.Err? then Err(out.error) else Ok(Weighted(out.value));
      case LogEntropy =>
        var out := LogEntropyTransformer.Transform(lines, log2);
        r := if out.Err? then Err(out.error) else Ok(Weighted(out.value));
    }
  }

  /**
   * The identity never fails and returns its input; a weighting transform fails exactly when
   * some record line cannot be read, with the error of the first such line.
   */
  lemma FailsExactlyOnUnreadableFile(kind: TransformKind, lines: seq<string>, ln: real -> real, log2: real -> real)
    ensures kind == Identity ==> TransformFile(kind, lines, ln, log2) == Ok(InputFile(lines))
    ensures kind != Identity ==>
      (TransformFile(kind, lines, ln, log2).Err? <==> ParseAll(lines).Err?)
    ensures kind != Identity && ParseAll(lines).Err? ==>
      TransformFile(kind, lines, ln, log2) == Err(ParseAll(lines).error)
  {
  }

  /**
   * On a readable file whose records name each (term, document) pair once, both weighting
   * transforms write one record per input record, and log-entropy keeps the input order,
   * terms and documents.
   */
  lemma WeightedKeepsRecords(kind: TransformKind, lines: seq<string>, ln: real -> real, log2: real -> real)
    requires kind != Identity && ParseAll(lines).Ok? && UniquePairs(ParseAll(lines).value)
    ensures var cells := ParseAll(lines).value;
      && TransformFile(kind, lines, ln, log2).Ok?
      && TransformFile(kind, lines, ln, log2).value.Weighted?
      && |TransformFile(kind, lines, ln, log2).value.records| == |cells|
    ensures var cells := ParseAll(lines).value; var out := TransformFile(kind, lines, ln, log2).value;
      kind == LogEntropy ==>
        forall i :: 0 <= i < |cells| ==> out.records[i].term == cells[i].term && out.records[i].doc == cells[i].doc
  {
    var cells := ParseAll(lines).value;
    if kind == TfIdf {
      TfIdfTransformer.UniquePairsKeepCount(cells, ln);
    } else {
      LogEntropyTransformer.OneRecordPerInput(cells, log2);
    }
  }
}
