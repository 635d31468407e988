/**
 * LatentSemanticAnalysis, the semantic space that ingests documents one at a time into a
 * sparse term-document matrix file and, in `processSpace`, weights that file with a
 * MatrixTransformer and reduces it with an SVD.
 *
 * Terms are numbered from 1 in the order they are first seen (`termToIndex`,
 * `termIndexCounter`); documents with at least one token are numbered from 1 in the order
 * they are processed (`docIndexCounter`). Each processed document appends one record
 * `termIndex docIndex count` per distinct term to the matrix file.
 */
module Lsa {
  import opened Results
  import opened JavaText
  import opened JavaMaps
  import opened SparseMatrixFile
  import MatrixTransformer

  // ---------------------------------------------------------------------------------
  // The term registry

  /** `addTerm`: a new term gets the counter's next value; a registered term changes nothing. */
  function Register(termToIndex: map<string, int>, counter: int, term: string): (map<string, int>, int) {
    if term in termToIndex then (termToIndex, counter)
    else (termToIndex[term := counter + 1], counter + 1)
  }

  /** `terms` lists each registered term at the position of its index: `terms[i]` has index `i + 1`. */
  ghost predicate Numbering(termToIndex: map<string, int>, terms: seq<string>) {
    && (forall i :: 0 <= i < |terms| ==> terms[i] in termToIndex && termToIndex[terms[i]] == i + 1)
    && (forall t :: t in termToIndex ==> t in terms)
  }

  predicate Distinct(xs: seq<string>) {
    forall i, j :: 0 <= i < j < |xs| ==> xs[i] != xs[j]
  }

  /** `seen` followed by each token that is not yet listed, in the order of its first occurrence. */
  function Extend(seen: seq<string>, tokens: seq<string>): seq<string> {
    if tokens == [] then seen
    else
      var listed := Extend(seen, tokens[..|tokens| - 1]);
      var t := tokens[|tokens| - 1];
      if t in listed then listed else listed + [t]
  }

  /** Registering keeps the numbering: the indices stay exactly 1..counter, one per term. */
  lemma RegisterKeepsNumbering(termToIndex: map<string, int>, terms: seq<string>, term: string)
    requires Numbering(termToIndex, terms)
    ensures var (index, counter) := Register(termToIndex, |terms|, term);
      && Numbering(index, if term in termToIndex then terms else terms + [term])
      && counter == |if term in termToIndex then terms else terms + [term]|
    ensures term in termToIndex ==> Register(termToIndex, |terms|, term) == (termToIndex, |terms|)
    ensures term !in termToIndex ==> Register(termToIndex, |terms|, term).0[term] == |terms| + 1
  {
    if term !in termToIndex {
      var index := termToIndex[term := |terms| + 1];
      var terms' := terms + [term];
      forall i | 0 <= i < |terms'| ensures terms'[i] in index && index[terms'[i]] == i + 1 {
        if i < |terms| {
          assert terms'[i] == terms[i];
        }
      }
    }
  }

  /** The numbering's indices are distinct and cover 1..|terms| without a gap. */
  lemma NumberingDenseAndInjective(termToIndex: map<string, int>, terms: seq<string>)
    requires Numbering(termToIndex, terms)
    ensures forall t, u :: t in termToIndex && u in termToIndex && t != u ==> termToIndex[t] != termToIndex[u]
    ensures forall v :: v in termToIndex.Values <==> 1 <= v <= |terms|
    ensures forall x :: x in termToIndex <==> x in terms
    ensures Distinct(terms)
  {
    forall k | 1 <= k <= |terms| ensures k in termToIndex.Values {
      assert terms[k - 1] in termToIndex;
    }
    forall v | v in termToIndex.Values ensures 1 <= v <= |terms| {
      var t :| t in termToIndex && termToIndex[t] == v;
      var i :| 0 <= i < |terms| && terms[i] == t;
    }
    forall t, u | t in termToIndex && u in termToIndex && t != u ensures termToIndex[t] != termToIndex[u] {
      var i :| 0 <= i < |terms| && terms[i] == t;
      var j :| 0 <= j < |terms| && terms[j] == u;
    }
  }

  /** What `Extend` lists: the seen items first, then the new tokens, each once. */
  lemma {:induction false} ExtendLists(seen: seq<string>, tokens: seq<string>)
    ensures |Extend(seen, tokens)| >= |seen| && Extend(seen, tokens)[..|seen|] == seen
    ensures forall x :: x in Extend(seen, tokens) <==> x in seen || x in tokens
    ensures Distinct(seen) ==> Distinct(Extend(seen, tokens))
  {
    if tokens != [] {
      var prefix := tokens[..|tokens| - 1];
      ExtendLists(seen, prefix);
      var listed := Extend(seen, prefix);
      var t := tokens[|tokens| - 1];
      assert tokens == prefix + [t];
      if t !in listed {
        assert (listed + [t])[..|seen|] == listed[..|seen|];
        if Distinct(seen) {
          assert forall i :: 0 <= i < |listed| ==> listed[i] != t;
        }
      }
    }
  }

  lemma ExtendSnoc(seen: seq<string>, tokens: seq<string>, t: string)
    ensures Extend(seen, tokens + [t]) == (if t in Extend(seen, tokens) then Extend(seen, tokens) else Extend(seen, tokens) + [t])
  {
    assert (tokens + [t])[..|tokens|] == tokens;
  }

  /** Listing two runs of tokens one after the other lists the first run, then the second. */
  lemma {:induction false} ExtendAppend(seen: seq<string>, first: seq<string>, second: seq<string>)
    ensures Extend(seen, first + second) == Extend(Extend(seen, first), second)
    decreases |second|
  {
    if second == [] {
      assert first + second == first;
    } else {
      var prefix := second[..|second| - 1];
      var t := second[|second| - 1];
      assert second == prefix + [t];
      assert first + second == (first + prefix) + [t];
      ExtendAppend(seen, first, prefix);
      ExtendSnoc(seen, first + prefix, t);
      ExtendSnoc(Extend(seen, first), prefix, t);
    }
  }

  /** Tokens that are already distinct are listed as they are. */
  lemma {:induction false} ExtendDistinct(tokens: seq<string>)
    requires Distinct(tokens)
    ensures Extend([], tokens) == tokens
  {
    if tokens != [] {
      var prefix := tokens[..|tokens| - 1];
      var t := tokens[|tokens| - 1];
      assert Distinct(prefix);
      ExtendDistinct(prefix);
      assert t !in prefix;
      assert tokens == prefix + [t];
    }
  }

  /** The terms seen in any prefix of a document come first, in the same order: first-occurrence order. */
  lemma {:induction false} FirstOccurrenceOrder(seen: seq<string>, tokens: seq<string>, i: nat)
    requires i <= |tokens|
    ensures |Extend(seen, tokens[..i])| <= |Extend(seen, tokens)|
    ensures Extend(seen, tokens[..i]) == Extend(seen, tokens)[..|Extend(seen, tokens[..i])|]
    decreases |tokens| - i
  {
    if i == |tokens| {
      assert tokens[..i] == tokens;
    } else {
      var shorter := tokens[..|tokens| - 1];
      assert shorter[..i] == tokens[..i];
      FirstOccurrenceOrder(seen, shorter, i);
      var listed := Extend(seen, shorter);
      assert tokens == shorter + [tokens[|tokens| - 1]];
      ExtendSnoc(seen, shorter, tokens[|tokens| - 1]);
      var a := Extend(seen, tokens[..i]);
      assert Extend(seen, tokens)[..|listed|] == listed;
      assert listed[..|a|] == a;
    }
  }

  /** Registering the next token of a document extends the registered terms as `Extend` does. */
  lemma RegisterStep(seen: seq<string>, tokens: seq<string>, i: nat, termToIndex: map<string, int>, terms: seq<string>)
    requires i < |tokens| && Numbering(termToIndex, terms) && terms == Extend(seen, tokens[..i])
    ensures (if tokens[i] in termToIndex then terms else terms + [tokens[i]]) == Extend(seen, tokens[..i + 1])
  {
    NumberingDenseAndInjective(termToIndex, terms);
    assert tokens[..i + 1] == tokens[..i] + [tokens[i]];
    ExtendSnoc(seen, tokens[..i], tokens[i]);
  }

  // ---------------------------------------------------------------------------------
  // Counting one document

  /** The number of times `w` occurs in `tokens`. */
  function Occurrences(tokens: seq<string>, w: string): nat {
    if tokens == [] then 0
    else Occurrences(tokens[..|tokens| - 1], w) + (if tokens[|tokens| - 1] == w then 1 else 0)
  }

  /** `termCounts` after the tokens were counted. */
  function TokenCounts(tokens: seq<string>): map<string, int> {
    if tokens == [] then map[] else Increment(TokenCounts(tokens[..|tokens| - 1]), tokens[|tokens| - 1])
  }

  /** Each distinct token is counted, with its number of occurrences, and nothing else is. */
  lemma {:induction false} TokenCountsOccurrences(tokens: seq<string>, w: string)
    ensures w in TokenCounts(tokens) <==> w in tokens
    ensures w in TokenCounts(tokens) ==> TokenCounts(tokens)[w] == Occurrences(tokens, w) >= 1
    ensures w !in tokens ==> Occurrences(tokens, w) == 0
    ensures TokenCounts(tokens) == map[] <==> tokens == []
  {
    if tokens != [] {
      var prefix := tokens[..|tokens| - 1];
      TokenCountsOccurrences(prefix, w);
      assert tokens == prefix + [tokens[|tokens| - 1]];
      assert tokens[|tokens| - 1] in TokenCounts(tokens);
    }
  }

  /** Counting the next token of a document: its count goes up by one, and a new term joins the order. */
  lemma CountStep(tokens: seq<string>, i: nat, counts: map<string, int>, order: seq<string>)
    requires i < |tokens| && counts == TokenCounts(tokens[..i]) && order == Extend([], tokens[..i])
    ensures Increment(counts, tokens[i]) == TokenCounts(tokens[..i + 1])
    ensures (if tokens[i] in counts then order else order + [tokens[i]]) == Extend([], tokens[..i + 1])
  {
    var prefix := tokens[..i];
    assert tokens[..i + 1] == prefix + [tokens[i]];
    assert (prefix + [tokens[i]])[..i] == prefix;
    TokenCountsOccurrences(prefix, tokens[i]);
    ExtendLists([], prefix);
    ExtendSnoc([], prefix, tokens[i]);
  }

  /**
   * The records `processDocument` prints for a document: one per term of `order`, at its
   * position, all under the document index. Distinct terms with distinct indices give
   * distinct (term, document) pairs, and positive counts give positive records.
   */
  function DocumentRecords(termToIndex: map<string, int>, doc: int, order: seq<string>, counts: map<string, int>): (r: seq<Cell>)
    requires forall k :: 0 <= k < |order| ==> order[k] in termToIndex && order[k] in counts
    ensures |r| == |order|
    ensures forall k :: 0 <= k < |order| ==> r[k] == Cell(termToIndex[order[k]], doc, counts[order[k]])
    ensures forall c :: c in r ==> c.doc == doc && c.term in termToIndex.Values
    ensures Distinct(order) && (forall a, b :: a in termToIndex && b in termToIndex && a != b ==> termToIndex[a] != termToIndex[b])
            ==> UniquePairs(r)
    ensures (forall k :: 0 <= k < |order| ==> counts[order[k]] > 0) ==> PositiveCounts(r)
  {
    seq(|order|, k requires 0 <= k < |order| => Cell(termToIndex[order[k]], doc, counts[order[k]]))
  }

  /** Every distinct token of a document is counted. */
  lemma OrderCounted(tokens: seq<string>)
    ensures forall k :: 0 <= k < |Extend([], tokens)| ==> Extend([], tokens)[k] in TokenCounts(tokens) && Extend([], tokens)[k] in tokens
  {
    ExtendLists([], tokens);
    forall k | 0 <= k < |Extend([], tokens)| ensures Extend([], tokens)[k] in TokenCounts(tokens) {
      TokenCountsOccurrences(tokens, Extend([], tokens)[k]);
    }
  }

  /** The records of a document's tokens once every token is registered. */
  function TokenRecords(termToIndex: map<string, int>, doc: int, tokens: seq<string>): seq<Cell>
    requires forall k :: 0 <= k < |tokens| ==> tokens[k] in termToIndex
  {
    OrderCounted(tokens);
    DocumentRecords(termToIndex, doc, Extend([], tokens), TokenCounts(tokens))
  }

  /**
   * What ingestion has written so far: each (term, document) pair once, positive counts,
   * term indices in 1..numTerms and document indices in 1..numDocs.
   */
  ghost predicate Ingested(cells: seq<Cell>, numTerms: int, numDocs: int) {
    && UniquePairs(cells)
    && PositiveCounts(cells)
    && forall i :: 0 <= i < |cells| ==> 1 <= cells[i].term <= numTerms && 1 <= cells[i].doc <= numDocs
  }

  /**
   * The records of a document's tokens: one per distinct token, each with the token's index
   * and its number of occurrences; appending them under the next document index keeps what
   * ingestion guarantees.
   */
  lemma DocumentRecordsOfTokens(termToIndex: map<string, int>, terms: seq<string>, cells: seq<Cell>,
                                numDocs: int, tokens: seq<string>)
    requires Numbering(termToIndex, terms) && forall k :: 0 <= k < |tokens| ==> tokens[k] in termToIndex
    requires Ingested(cells, |terms|, numDocs) && numDocs >= 0
    ensures forall k :: 0 <= k < |Extend([], tokens)| ==> Extend([], tokens)[k] in termToIndex
    ensures var records := TokenRecords(termToIndex, numDocs + 1, tokens);
      && |records| == |Extend([], tokens)|
      && (|records| == 0 <==> tokens == [])
      && (forall k :: 0 <= k < |records| ==>
            records[k] == Cell(termToIndex[Extend([], tokens)[k]], numDocs + 1, Occurrences(tokens, Extend([], tokens)[k])))
      && Ingested(cells + records, |terms|, numDocs + 1)
    ensures Ingested(cells, |terms|, numDocs + 1)
  {
    var order := Extend([], tokens);
    ExtendLists([], tokens);
    OrderCounted(tokens);
    var counts := TokenCounts(tokens);
    var records := TokenRecords(termToIndex, numDocs + 1, tokens);
    if tokens != [] {
      assert tokens[0] in order;
    }
    forall k | 0 <= k < |records| ensures records[k].count == Occurrences(tokens, order[k]) >= 1 && order[k] in termToIndex {
      TokenCountsOccurrences(tokens, order[k]);
    }
    NumberingDenseAndInjective(termToIndex, terms);
    var all := cells + records;
    forall i, j | 0 <= i < j < |all| ensures all[i].term != all[j].term || all[i].doc != all[j].doc {
      if j >= |cells| && i >= |cells| {
        assert order[i - |cells|] != order[j - |cells|];
      }
    }
  }

  /** Printing a document's records, or nothing once the writer is closed, keeps what ingestion guarantees. */
  lemma IngestedAfterWrite(termToIndex: map<string, int>, terms: seq<string>, cells: seq<Cell>,
                           numDocs: int, tokens: seq<string>, open: bool, after: seq<Cell>)
    requires Numbering(termToIndex, terms) && forall k :: 0 <= k < |tokens| ==> tokens[k] in termToIndex
    requires Ingested(cells, |terms|, numDocs) && numDocs >= 0
    requires after == cells + (if open then TokenRecords(termToIndex, numDocs + 1, tokens) else [])
    ensures Ingested(after, |terms|, numDocs + 1)
  {
    DocumentRecordsOfTokens(termToIndex, terms, cells, numDocs, tokens);
    if !open {
      assert cells + [] == cells;
    }
  }

  /** The invariant is a property of the records and the two counters alone. */
  lemma IngestedSame(cells: seq<Cell>, numTerms: int, numDocs: int, cells': seq<Cell>, numTerms': int, numDocs': int)
    requires Ingested(cells, numTerms, numDocs) && cells' == cells && numTerms' == numTerms && numDocs' == numDocs
    ensures Ingested(cells', numTerms', numDocs')
  {
  }

  lemma IngestedMoreTerms(cells: seq<Cell>, numTerms: int, numDocs: int)
    requires Ingested(cells, numTerms, numDocs)
    ensures Ingested(cells, numTerms + 1, numDocs)
  {
  }

  // ---------------------------------------------------------------------------------
  // Options read by processSpace

  const PropertyPrefix: string := "edu.ucla.sspace.lsa.LatentSemanticAnalysis"
  const MatrixTransformProperty: string := PropertyPrefix + ".transform"
  const DimensionsProperty: string := PropertyPrefix + ".dimensions"
  const SvdAlgorithmProperty: string := PropertyPrefix + ".svd.algorithm"
  const DefaultDimensions: int := 300

  type Properties = map<string, string>

  datatype LsaError =
    | TransformNotLoaded(className: string)  // Class.forName / newInstance / the cast fails: an Error
    | TransformFailed(cause: RecordError)    // the transform could not read the matrix file
    | DimensionsNotInteger(text: string)     // IllegalArgumentException
    | SvdFailed                              // the SVD library rejected the matrix or the algorithm name
    | NoSpace                                // the space is used before processSpace: NullPointerException
    | RowOutOfRange(row: int)                // the word space has no such row
    | DocumentOutOfBounds(documentNumber: int)  // IllegalArgumentException of getDocumentVector

  /** The fully qualified class name that loads each strategy. */
  function ClassName(kind: MatrixTransformer.TransformKind): string {
    match kind
    case Identity => "edu.ucla.sspace.lsa.NoTransform"
    case TfIdf => "edu.ucla.sspace.lsa.TfIdfTransformer"
    case LogEntropy => "edu.ucla.sspace.lsa.LogEntropyTransformer"
  }

  /** The transform: log-entropy unless the property names another strategy's class; any other name is an error. */
  function ResolveTransform(props: Properties): (r: Result<MatrixTransformer.TransformKind, LsaError>)
    ensures MatrixTransformProperty !in props ==> r == Ok(MatrixTransformer.LogEntropy)
    ensures MatrixTransformProperty in props && r.Ok? ==> ClassName(r.value) == props[MatrixTransformProperty]
    ensures r.Err? <==> MatrixTransformProperty in props
                        && forall k: MatrixTransformer.TransformKind :: ClassName(k) != props[MatrixTransformProperty]
    ensures r.Err? ==> r.error == TransformNotLoaded(props[MatrixTransformProperty])
  {
    if MatrixTransformProperty !in props then Ok(MatrixTransformer.LogEntropy)
    else
      var name := props[MatrixTransformProperty];
      if name == ClassName(MatrixTransformer.Identity) then Ok(MatrixTransformer.Identity)
      else if name == ClassName(MatrixTransformer.TfIdf) then Ok(MatrixTransformer.TfIdf)
      else if name == ClassName(MatrixTransformer.LogEntropy) then Ok(MatrixTransformer.LogEntropy)
      else Err(TransformNotLoaded(name))
  }

  /** The number of dimensions: 300 unless the property holds a Java `int`; other text is an error. */
  function ResolveDimensions(props: Properties): (r: Result<int, LsaError>)
    ensures DimensionsProperty !in props ==> r == Ok(DefaultDimensions)
    ensures DimensionsProperty in props ==>
      (r.Ok? <==> ParseInt(props[DimensionsProperty]).Some?)
    ensures DimensionsProperty in props && r.Ok? ==> r.value == ParseInt(props[DimensionsProperty]).value && IsInt(r.value)
    ensures r.Err? ==> r.error == DimensionsNotInteger(props[DimensionsProperty])
  {
    if DimensionsProperty !in props then Ok(DefaultDimensions)
    else
      match ParseInt(props[DimensionsProperty])
      case None => Err(DimensionsNotInteger(props[DimensionsProperty]))
      case Some(n) => Ok(n)
  }

  /** Any `int` written as `Integer.toString` writes it is taken as the dimensions, zero and negative values included. */
  lemma DimensionsAnyInt(props: Properties, n: int)
    requires IsInt(n) && DimensionsProperty in props && props[DimensionsProperty] == IntText(n)
    ensures ResolveDimensions(props) == Ok(n)
  {
    IntTextRoundTrip(n);
  }

  /** The word space and the (transposed) document space that the SVD produces. */
  datatype Spaces = Spaces(wordRows: seq<seq<real>>, documentRows: seq<seq<real>>)

  /**
   * The SVD library, a parameter: the processed matrix, the dimensions and the algorithm
   * property give both spaces, or nothing when it fails.
   */
  type Svd = (MatrixTransformer.ProcessedMatrix, int, Option<string>) -> Option<Spaces>

  function Lookup(props: Properties, key: string): Option<string> {
    if key in props then Some(props[key]) else None
  }

  /**
   * `processSpace` on the lines of the matrix file: resolve the transform, run it, resolve
   * the dimensions, run the SVD, in that order; the first failure is the outcome.
   */
  function ProcessSpaceSpec(props: Properties, lines: seq<string>, ln: real -> real, log2: real -> real, svd: Svd)
    : Result<Spaces, LsaError>
  {
    match ResolveTransform(props)
    case Err(e) => Err(e)
    case Ok(kind) =>
      match MatrixTransformer.TransformFile(kind, lines, ln, log2)
      case Err(e) => Err(TransformFailed(e))
      case Ok(processed) =>
        match ResolveDimensions(props)
        case Err(e) => Err(e)
        case Ok(dimensions) =>
          match svd(processed, dimensions, Lookup(props, SvdAlgorithmProperty))
          case None => Err(SvdFailed)
          case Some(spaces) => Ok(spaces)
  }

  /**
   * The order of the checks: a transform class that cannot be loaded is reported whatever the
   * dimensions say, and a bad dimensions value only once the transform has run; without any
   * property the SVD receives the log-entropy matrix and 300 dimensions.
   */
  lemma ProcessSpaceChecksInOrder(props: Properties, lines: seq<string>, ln: real -> real, log2: real -> real, svd: Svd)
    ensures ResolveTransform(props).Err? ==> ProcessSpaceSpec(props, lines, ln, log2, svd) == Err(ResolveTransform(props).error)
    ensures ResolveTransform(props).Ok? && ParseAll(lines).Ok? && ResolveDimensions(props).Err? ==>
      ProcessSpaceSpec(props, lines, ln, log2, svd) == Err(DimensionsNotInteger(props[DimensionsProperty]))
    ensures props == map[] && ParseAll(lines).Ok? ==>
      var processed := MatrixTransformer.TransformFile(MatrixTransformer.LogEntropy, lines, ln, log2);
      && processed.Ok?
      && ProcessSpaceSpec(props, lines, ln, log2, svd)
         == (match svd(processed.value, 300, None) case None => Err(SvdFailed) case Some(spaces) => Ok(spaces))
  {
    MatrixTransformer.FailsExactlyOnUnreadableFile(MatrixTransformer.LogEntropy, lines, ln, log2);
    if ResolveTransform(props).Ok? {
      MatrixTransformer.FailsExactlyOnUnreadableFile(ResolveTransform(props).value, lines, ln, log2);
    }
  }

  /** The steps of `processSpace` after the writer is closed. */
  method ReduceMatrix(props: Properties, lines: seq<string>, ln: real -> real, log2: real -> real, svd: Svd)
    returns (r: Result<Spaces, LsaError>)
    ensures r == ProcessSpaceSpec(props, lines, ln, log2, svd)
  {
    var transform := ResolveTransform(props);
    if transform.Err? {
      return Err(transform.error);
    }
    var processed := MatrixTransformer.Transform(transform.value, lines, ln, log2);
    if processed.Err? {
      return Err(TransformFailed(processed.error));
    }
    var dimensions := ResolveDimensions(props);
    if dimensions.Err? {
      return Err(dimensions.error);
    }
    var usv := svd(processed.value, dimensions.value, Lookup(props, SvdAlgorithmProperty));
    if usv.None? {
      return Err(SvdFailed);
    }
    return Ok(usv.value);
  }

  // ---------------------------------------------------------------------------------
  // The semantic space

  class LatentSemanticAnalysis {
    var termToIndex: map<string, int>
    var termIndexCounter: int
    var docIndexCounter: int
    /**
     * The records printed to the raw term-document matrix file, one line each (see
     * `MatrixFile`), and whether its writer is still open.
     */
    var matrixRecords: seq<Cell>
    var writerOpen: bool
    /** `wordSpace` and `documentSpace`; None is `null`, before processSpace. */
    var wordSpace: Option<seq<seq<real>>>
    var documentSpace: Option<seq<seq<real>>>

    /** The registered terms in index order. */
    ghost var terms: seq<string>

    ghost predicate Valid()
      reads this
    {
      && Numbering(termToIndex, terms)
      && termIndexCounter == |terms|
      && docIndexCounter >= 0
      && Ingested(matrixRecords, termIndexCounter, docIndexCounter)
    }

    /** The lines of the raw matrix file. */
    function MatrixFile(): seq<string>
      reads this
    {
      FormatAll(matrixRecords)
    }

    constructor ()
      ensures Valid() && fresh(this)
      ensures termToIndex == map[] && termIndexCounter == 0 && docIndexCounter == 0
      ensures matrixRecords == [] && writerOpen && wordSpace == None && documentSpace == None
    {
      termToIndex := map[];
      termIndexCounter := 0;
      docIndexCounter := 0;
      matrixRecords := [];
      writerOpen := true;
      wordSpace := None;
      documentSpace := None;
      terms := [];
    }

    /** `addTerm(term)`. */
    method AddTerm(term: string)
      requires Valid()
      modifies this
      ensures docIndexCounter == old(docIndexCounter) && matrixRecords == old(matrixRecords)
      ensures writerOpen == old(writerOpen) && wordSpace == old(wordSpace) && documentSpace == old(documentSpace)
      ensures (termToIndex, termIndexCounter) == Register(old(termToIndex), old(termIndexCounter), term)
      ensures terms == if term in old(termToIndex) then old(terms) else old(terms) + [term]
      ensures Valid()
    {
      if term !in termToIndex {
        RegisterKeepsNumbering(termToIndex, terms, term);
        IngestedMoreTerms(matrixRecords, termIndexCounter, docIndexCounter);
        termIndexCounter := termIndexCounter + 1;
        termToIndex := termToIndex[term := termIndexCounter];
        terms := terms + [term];
      }
    }

    /**
     * `processDocument` on the tokens of one document: every token is registered; a document
     * without tokens changes nothing else; otherwise the next document index is taken and one
     * record per distinct term, in first-occurrence order, is appended to the matrix file
     * (lost once the writer is closed).
     */
    method ProcessDocument(tokens: seq<string>)
      requires Valid()
      modifies this
      ensures Valid()
      ensures terms == Extend(old(terms), tokens)
      ensures forall k :: 0 <= k < |tokens| ==> tokens[k] in termToIndex
      ensures tokens == [] ==> docIndexCounter == old(docIndexCounter) && matrixRecords == old(matrixRecords)
      ensures tokens != [] ==> docIndexCounter == old(docIndexCounter) + 1
      ensures tokens != [] ==>
        matrixRecords == old(matrixRecords) + (if writerOpen then TokenRecords(termToIndex, docIndexCounter, tokens) else [])
      ensures writerOpen == old(writerOpen) && wordSpace == old(wordSpace) && documentSpace == old(documentSpace)
    {
      var order, termCounts := CountTokens(tokens);
      TokenCountsOccurrences(tokens, "");
      if termCounts == map[] {
        return;
      }
      WriteDocument(tokens, order, termCounts);
    }

    /**
     * The loop of `processDocument` over the tokens: each token is registered and counted, and
     * the distinct tokens are listed in the order the `LinkedHashMap` keeps them, first occurrence first.
     */
    method CountTokens(tokens: seq<string>) returns (order: seq<string>, termCounts: map<string, int>)
      requires Valid()
      modifies this
      ensures Valid()
      ensures terms == Extend(old(terms), tokens)
      ensures forall k :: 0 <= k < |tokens| ==> tokens[k] in termToIndex
      ensures order == Extend([], tokens) && termCounts == TokenCounts(tokens)
      ensures docIndexCounter == old(docIndexCounter) && matrixRecords == old(matrixRecords)
      ensures writerOpen == old(writerOpen) && wordSpace == old(wordSpace) && documentSpace == old(documentSpace)
    {
      termCounts := map[];
      order := [];
      var i := 0;
      while i < |tokens|
        invariant 0 <= i <= |tokens|
        invariant Valid()
        invariant terms == Extend(old(terms), tokens[..i])
        invariant termCounts == TokenCounts(tokens[..i]) && order == Extend([], tokens[..i])
        invariant docIndexCounter == old(docIndexCounter) && matrixRecords == old(matrixRecords)
        invariant writerOpen == old(writerOpen) && wordSpace == old(wordSpace) && documentSpace == old(documentSpace)
      {
        var word := tokens[i];
        RegisterStep(old(terms), tokens, i, termToIndex, terms);
        AddTerm(word);
        CountStep(tokens, i, termCounts, order);
        if word !in termCounts {
          order := order + [word];
        }
        termCounts := Increment(termCounts, word);
        i := i + 1;
      }
      assert tokens[..i] == tokens;
      ExtendLists(old(terms), tokens);
      NumberingDenseAndInjective(termToIndex, terms);
    }

    /** The rest of `processDocument` once a document with tokens is counted: its index and its records. */
    method WriteDocument(tokens: seq<string>, order: seq<string>, termCounts: map<string, int>)
      requires Valid() && tokens != []
      requires forall k :: 0 <= k < |tokens| ==> tokens[k] in termToIndex
      requires order == Extend([], tokens) && termCounts == TokenCounts(tokens)
      modifies this
      ensures Valid()
      ensures termToIndex == old(termToIndex) && termIndexCounter == old(termIndexCounter) && terms == old(terms)
      ensures docIndexCounter == old(docIndexCounter) + 1
      ensures matrixRecords == old(matrixRecords) + (if writerOpen then TokenRecords(termToIndex, docIndexCounter, tokens) else [])
      ensures writerOpen == old(writerOpen) && wordSpace == old(wordSpace) && documentSpace == old(documentSpace)
    {
      ghost var after := matrixRecords + (if writerOpen then TokenRecords(termToIndex, docIndexCounter + 1, tokens) else []);
      ghost var numTerms, numDocs := termIndexCounter, docIndexCounter + 1;
      IngestedAfterWrite(termToIndex, terms, matrixRecords, docIndexCounter, tokens, writerOpen, after);
      assert forall k :: 0 <= k < |order| ==> order[k] in termToIndex && order[k] in termCounts by {
        OrderCounted(tokens);
      }
      docIndexCounter := docIndexCounter + 1;
      PrintRecords(order, termCounts, docIndexCounter);
      assert matrixRecords == after;
      IngestedSame(after, numTerms, numDocs, matrixRecords, termIndexCounter, docIndexCounter);
    }

    /**
     * The synchronized loop of `processDocument`: one `term doc count` line per term of the
     * order, appended to the matrix file while its writer is open.
     */
    method PrintRecords(order: seq<string>, termCounts: map<string, int>, documentIndex: int)
      requires forall k :: 0 <= k < |order| ==> order[k] in termToIndex && order[k] in termCounts
      modifies this
      ensures termToIndex == old(termToIndex) && termIndexCounter == old(termIndexCounter) && terms == old(terms)
      ensures matrixRecords == old(matrixRecords)
        + (if writerOpen then DocumentRecords(termToIndex, documentIndex, order, termCounts) else [])
      ensures docIndexCounter == old(docIndexCounter)
      ensures writerOpen == old(writerOpen) && wordSpace == old(wordSpace) && documentSpace == old(documentSpace)
    {
      ghost var records := DocumentRecords(termToIndex, documentIndex, order, termCounts);
      var j := 0;
      while j < |order|
        invariant 0 <= j <= |order|
        invariant matrixRecords == old(matrixRecords) + (if writerOpen then records[..j] else [])
        invariant termToIndex == old(termToIndex) && termIndexCounter == old(termIndexCounter) && terms == old(terms)
        invariant docIndexCounter == old(docIndexCounter)
        invariant writerOpen == old(writerOpen) && wordSpace == old(wordSpace) && documentSpace == old(documentSpace)
      {
        var term := order[j];
        var count := termCounts[term];
        if writerOpen {
          PrefixSnoc(records, j);
          matrixRecords := matrixRecords + [Cell(termToIndex[term], documentIndex, count)];
        }
        j := j + 1;
      }
      assert records[..j] == records;
    }

    /** `getVectorFor(word)`: null for an unregistered word, otherwise row `index - 1` of the word space. */
    function VectorFor(word: string): (r: Result<Option<seq<real>>, LsaError>)
      reads this
      ensures r == Ok(None) <==> word !in termToIndex
      ensures r.Ok? && r.value.Some? ==>
        && wordSpace.Some? && word in termToIndex && 1 <= termToIndex[word] <= |wordSpace.value|
        && r.value.value == wordSpace.value[termToIndex[word] - 1]
      ensures r.Err? ==> word in termToIndex && (r.error == NoSpace <==> wordSpace.None?)
    {
      if word !in termToIndex then Ok(None)
      else if wordSpace.None? then Err(NoSpace)
      else
        var row := termToIndex[word] - 1;
        if 0 <= row < |wordSpace.value| then Ok(Some(wordSpace.value[row])) else Err(RowOutOfRange(row))
    }

    /** The `i`-th registered term's vector is row `i` of the word space. */
    lemma VectorOfRegisteredTerm(i: nat)
      requires Valid() && i < |terms| && wordSpace.Some? && |wordSpace.value| >= |terms|
      ensures VectorFor(terms[i]) == Ok(Some(wordSpace.value[i]))
    {
    }

    /** `getDocumentVector(n)`: the bounds check comes before the space is read. */
    function DocumentVector(documentNumber: int): (r: Result<seq<real>, LsaError>)
      reads this
      ensures r.Ok? <==> 0 <= documentNumber && documentSpace.Some? && documentNumber < |documentSpace.value|
      ensures r.Ok? ==> r.value == documentSpace.value[documentNumber]
      ensures documentNumber < 0 ==> r == Err(DocumentOutOfBounds(documentNumber))
      ensures 0 <= documentNumber && documentSpace.None? ==> r == Err(NoSpace)
    {
      if documentNumber < 0 then Err(DocumentOutOfBounds(documentNumber))
      else if documentSpace.None? then Err(NoSpace)
      else if documentNumber >= |documentSpace.value| then Err(DocumentOutOfBounds(documentNumber))
      else Ok(documentSpace.value[documentNumber])
    }

    /**
     * `processSpace(properties)`: close the writer, then transform and reduce the matrix file.
     * The spaces are set only when every step succeeds.
     */
    method ProcessSpace(props: Properties, ln: real -> real, log2: real -> real, svd: Svd) returns (r: Outcome<LsaError>)
      requires Valid()
      modifies this
      ensures Valid() && !writerOpen
      ensures termToIndex == old(termToIndex) && terms == old(terms) && matrixRecords == old(matrixRecords)
      ensures docIndexCounter == old(docIndexCounter)
      ensures var spec := ProcessSpaceSpec(props, old(MatrixFile()), ln, log2, svd);
        && (spec.Err? ==> r == Fail(spec.error) && wordSpace == old(wordSpace) && documentSpace == old(documentSpace))
        && (spec.Ok? ==> r == Pass && wordSpace == Some(spec.value.wordRows) && documentSpace == Some(spec.value.documentRows))
    {
      writerOpen := false;
      var spaces := ReduceMatrix(props, MatrixFile(), ln, log2, svd);
      if spaces.Err? {
        return Fail(spaces.error);
      }
      wordSpace := Some(spaces.value.wordRows);
      documentSpace := Some(spaces.value.documentRows);
      return Pass;
    }

    /**
     * The matrix file ingestion wrote reads back as its records, each (term, document) pair
     * once, as long as the indices and counts fit in an `int`.
     */
    lemma MatrixFileReadsBack()
      requires Valid() && forall i :: 0 <= i < |matrixRecords| ==> FitsInt(matrixRecords[i])
      ensures ParseAll(MatrixFile()) == Ok(matrixRecords) && UniquePairs(matrixRecords) && PositiveCounts(matrixRecords)
    {
      FileRoundTrip(matrixRecords);
    }
  }
}
