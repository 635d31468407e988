/**
 * The sparse term-document matrix file that ingestion writes and every transform reads:
 * one record per line, `termIndex docIndex count`, written with single spaces and read
 * back by splitting on runs of whitespace and parsing three Java `int`s.
 */
module SparseMatrixFile {
  import opened Results
  import opened JavaText

  /** One record: the term's row, the document's column and the number of occurrences. */
  datatype Cell = Cell(term: int, doc: int, count: int)

  predicate FitsInt(c: Cell) {
    IsInt(c.term) && IsInt(c.doc) && IsInt(c.count)
  }

  /** The line `processDocument` prints for one cell. */
  function FormatRecord(c: Cell): string {
    IntText(c.term) + " " + IntText(c.doc) + " " + IntText(c.count)
  }

  /** `f` applied to each element, in order. */
  function MapSeq<A, B>(f: A -> B, xs: seq<A>): seq<B> {
    if xs == [] then [] else MapSeq(f, xs[..|xs| - 1]) + [f(xs[|xs| - 1])]
  }

  lemma {:induction false} MapSeqPointwise<A, B>(f: A -> B, xs: seq<A>)
    ensures |MapSeq(f, xs)| == |xs|
    ensures forall i :: 0 <= i < |xs| ==> MapSeq(f, xs)[i] == f(xs[i])
  {
    if xs != [] {
      var prefix := xs[..|xs| - 1];
      MapSeqPointwise(f, prefix);
      forall i | 0 <= i < |prefix| ensures MapSeq(f, xs)[i] == f(xs[i]) {
        assert prefix[i] == xs[i];
      }
    }
  }

  /** The lines of a matrix file holding `cells`, in order. */
  function FormatAll(cells: seq<Cell>): seq<string> {
    MapSeq(FormatRecord, cells)
  }

  /** One line per cell, at the cell's position. */
  lemma FormatAllLines(cells: seq<Cell>)
    ensures |FormatAll(cells)| == |cells|
    ensures forall i :: 0 <= i < |cells| ==> FormatAll(cells)[i] == FormatRecord(cells[i])
  {
    MapSeqPointwise(FormatRecord, cells);
  }

  lemma FormatAllSnoc(cells: seq<Cell>, c: Cell)
    ensures FormatAll(cells + [c]) == FormatAll(cells) + [FormatRecord(c)]
  {
    assert (cells + [c])[..|cells|] == cells;
  }

  /**
   * Why a record line cannot be read: `termDocCount[index]` does not exist
   * (ArrayIndexOutOfBoundsException), or `Integer.valueOf` rejects a field
   * (NumberFormatException).
   */
  datatype RecordError = MissingField(index: nat) | NotAnInteger(text: string)

  /** `line.split("\\s+")` followed by `Integer.valueOf` of fields 0, 1 and 2, in that order. */
  function ParseRecord(line: string): (r: Result<Cell, RecordError>)
    ensures r.Ok? ==> FitsInt(r.value)
  {
    ParseFields(SplitRuns(line, IsWhitespace))
  }

  function ParseFields(f: seq<string>): (r: Result<Cell, RecordError>)
    ensures r.Ok? ==> FitsInt(r.value)
  {
    if |f| < 1 then Err(MissingField(0))
    else match ParseInt(f[0])
      case None => Err(NotAnInteger(f[0]))
      case Some(term) =>
        if |f| < 2 then Err(MissingField(1))
        else match ParseInt(f[1])
          case None => Err(NotAnInteger(f[1]))
          case Some(doc) =>
            if |f| < 3 then Err(MissingField(2))
            else match ParseInt(f[2])
              case None => Err(NotAnInteger(f[2]))
              case Some(count) => Ok(Cell(term, doc, count))
  }

  /**
   * Reading a whole matrix file: the cells in file order, or the error of the first line
   * that cannot be read (the exception ends the transform).
   */
  function ParseAll(lines: seq<string>): (r: Result<seq<Cell>, RecordError>)
    ensures r.Ok? <==> forall i {:trigger ParseRecord(lines[i])} :: 0 <= i < |lines| ==> ParseRecord(lines[i]).Ok?
    ensures r.Ok? ==> |r.value| == |lines|
    ensures r.Ok? ==> forall i {:trigger ParseRecord(lines[i])} :: 0 <= i < |lines| ==> ParseRecord(lines[i]) == Ok(r.value[i])
    ensures r.Err? ==> exists i {:trigger ParseRecord(lines[i])} :: 0 <= i < |lines| && ParseRecord(lines[i]) == Err(r.error)
                         && forall j {:trigger ParseRecord(lines[j])} :: 0 <= j < i ==> ParseRecord(lines[j]).Ok?
  {
    var rs := Records(lines);
    assert forall i :: 0 <= i < |lines| ==> rs[i] == ParseRecord(lines[i]);
    Collect(rs)
  }

  /** Every line reads as the cell at its position. */
  ghost predicate ReadAs(lines: seq<string>, cells: seq<Cell>) {
    |cells| == |lines| && forall i {:trigger ParseRecord(lines[i])} :: 0 <= i < |lines| ==> ParseRecord(lines[i]) == Ok(cells[i])
  }

  /** A readable file reads as its cells line by line, so a later pass that reads it again sees the same records. */
  lemma ParseAllReadAs(lines: seq<string>, cells: seq<Cell>)
    requires ParseAll(lines) == Ok(cells)
    ensures ReadAs(lines, cells)
  {
  }

  /** The outcome of reading each line on its own. */
  function Records(lines: seq<string>): (rs: seq<Result<Cell, RecordError>>)
    ensures |rs| == |lines| && forall i {:trigger rs[i]} :: 0 <= i < |lines| ==> rs[i] == ParseRecord(lines[i])
  {
    if lines == [] then [] else Records(lines[..|lines| - 1]) + [ParseRecord(lines[|lines| - 1])]
  }

  /** All values in order when every result is Ok, otherwise the first error. */
  function Collect<T, E>(rs: seq<Result<T, E>>): (r: Result<seq<T>, E>)
    ensures r.Ok? <==> forall i :: 0 <= i < |rs| ==> rs[i].Ok?
    ensures r.Ok? ==> |r.value| == |rs| && forall i :: 0 <= i < |rs| ==> rs[i] == Ok(r.value[i])
    ensures r.Err? ==> exists i :: 0 <= i < |rs| && rs[i] == Err(r.error)
                                   && forall j :: 0 <= j < i ==> rs[j].Ok?
  {
    if rs == [] then Ok([])
    else
      var prefix := rs[..|rs| - 1];
      assert forall j :: 0 <= j < |prefix| ==> prefix[j] == rs[j];
      match Collect(prefix)
      case Err(e) => Err(e)
      case Ok(vs) =>
        match rs[|rs| - 1]
        case Err(e) => Err(e)
        case Ok(v) => Ok(vs + [v])
  }

  /** Reading one more line after a readable prefix either appends its cell or stops with its error. */
  lemma ParseAllSnoc(lines: seq<string>, i: nat, cells: seq<Cell>)
    requires i < |lines| && ParseAll(lines[..i]) == Ok(cells)
    ensures ParseRecord(lines[i]).Ok? ==> ParseAll(lines[..i + 1]) == Ok(cells + [ParseRecord(lines[i]).value])
    ensures ParseRecord(lines[i]).Err? ==> ParseAll(lines) == Err(ParseRecord(lines[i]).error)
  {
    var rs := Records(lines[..i]);
    var next := Records(lines[..i + 1]);
    assert lines[..i + 1][..i] == lines[..i];
    assert next == rs + [ParseRecord(lines[i])];
    assert (rs + [ParseRecord(lines[i])])[..|rs|] == rs;
    if ParseRecord(lines[i]).Err? {
      RecordsPrefix(lines, i);
      CollectStops(Records(lines), i);
    }
  }

  lemma RecordsPrefix(lines: seq<string>, i: nat)
    requires i <= |lines|
    ensures Records(lines)[..i] == Records(lines[..i])
  {
  }

  /** The first error ends the collection, whatever the later results are. */
  lemma {:induction false} CollectStops<T, E>(rs: seq<Result<T, E>>, i: nat)
    requires i < |rs| && Collect(rs[..i]).Ok? && rs[i].Err?
    ensures Collect(rs) == Err(rs[i].error)
  {
    var last := |rs| - 1;
    assert rs[..|rs|] == rs;
    if i < last {
      assert rs[..last][..i] == rs[..i];
      CollectStops(rs[..last], i);
    } else {
      assert rs[..last] == rs[..i];
    }
  }

  /** A record written by ingestion reads back as the same three integers. */
  lemma RecordRoundTrip(c: Cell)
    requires FitsInt(c)
    ensures ParseRecord(FormatRecord(c)) == Ok(c)
  {
    var a, b, d := IntText(c.term), IntText(c.doc), IntText(c.count);
    IntTextIsOneField(c.term);
    IntTextIsOneField(c.doc);
    IntTextIsOneField(c.count);
    assert FormatRecord(c) == Join([a, b, d], ' ') by {
      assert Join([a, b, d], ' ') == a + [' '] + Join([b, d], ' ');
      assert [a, b, d][1..] == [b, d] && [b, d][1..] == [d];
    }
    SplitRunsOfJoin([a, b, d], ' ', IsWhitespace);
    IntTextRoundTrip(c.term);
    IntTextRoundTrip(c.doc);
    IntTextRoundTrip(c.count);
  }

  /** A file written by ingestion reads back as the cells that were written, in order. */
  lemma FileRoundTrip(cells: seq<Cell>)
    requires forall i :: 0 <= i < |cells| ==> FitsInt(cells[i])
    ensures ParseAll(FormatAll(cells)) == Ok(cells)
  {
    var lines := FormatAll(cells);
    FormatAllLines(cells);
    forall i | 0 <= i < |lines|
      ensures ParseRecord(lines[i]) == Ok(cells[i])
    {
      RecordRoundTrip(cells[i]);
    }
    var r := ParseAll(lines);
    assert r.Ok?;
    assert r.value == cells;
  }

  /** Extending a prefix of the cells by one takes the next cell. */
  lemma PrefixSnoc(cells: seq<Cell>, i: nat)
    requires i < |cells|
    ensures cells[..i + 1] == cells[..i] + [cells[i]]
  {
  }

  // ---------------------------------------------------------------------------------
  // Aggregates shared by the transforms, over the cells in file order.

  /** `numDocs`: the running maximum of the document column, starting from 0. */
  function MaxDocIndex(cells: seq<Cell>): (n: int)
    ensures n >= 0
    ensures forall i :: 0 <= i < |cells| ==> cells[i].doc <= n
    ensures n == 0 || exists i :: 0 <= i < |cells| && cells[i].doc == n
  {
    if cells == [] then 0
    else
      var m := MaxDocIndex(cells[..|cells| - 1]);
      var d := cells[|cells| - 1].doc;
      if d > m then d else m
  }

  /** The records of term `t`, in file order. */
  function WithTerm(cells: seq<Cell>, t: int): (r: seq<Cell>)
    ensures |r| <= |cells|
    ensures forall c :: c in r <==> c in cells && c.term == t
  {
    if cells == [] then []
    else
      var last := cells[|cells| - 1];
      WithTerm(cells[..|cells| - 1], t) + (if last.term == t then [last] else [])
  }

  /** The records of document `d`, in file order. */
  function WithDoc(cells: seq<Cell>, d: int): (r: seq<Cell>)
    ensures |r| <= |cells|
    ensures forall c :: c in r <==> c in cells && c.doc == d
  {
    if cells == [] then []
    else
      var last := cells[|cells| - 1];
      WithDoc(cells[..|cells| - 1], d) + (if last.doc == d then [last] else [])
  }

  function SumCounts(cells: seq<Cell>): int {
    if cells == [] then 0 else SumCounts(cells[..|cells| - 1]) + cells[|cells| - 1].count
  }

  predicate PositiveCounts(cells: seq<Cell>) {
    forall i :: 0 <= i < |cells| ==> cells[i].count > 0
  }

  /** With positive counts, every record's count is at most the sum of the counts. */
  lemma {:induction false} CountAtMostSum(cells: seq<Cell>, k: nat)
    requires PositiveCounts(cells) && k < |cells|
    ensures 0 < cells[k].count <= SumCounts(cells)
  {
    var prefix := cells[..|cells| - 1];
    if k < |cells| - 1 {
      CountAtMostSum(prefix, k);
    }
    if |cells| > 1 {
      PositiveSum(prefix);
    }
  }

  lemma {:induction false} PositiveSum(cells: seq<Cell>)
    requires PositiveCounts(cells)
    ensures SumCounts(cells) >= 0
    ensures |cells| > 0 ==> SumCounts(cells) > 0
  {
    if cells != [] {
      PositiveSum(cells[..|cells| - 1]);
    }
  }

  // ---------------------------------------------------------------------------------
  // What ingestion guarantees about the file it writes.

  /** No two records share a (term, document) pair. */
  predicate UniquePairs(cells: seq<Cell>) {
    forall i, j :: 0 <= i < j < |cells| ==> cells[i].term != cells[j].term || cells[i].doc != cells[j].doc
  }
}
