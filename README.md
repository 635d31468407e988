# Latent Semantic Analysis: the integer bookkeeping, modelled and proved

This project models the bookkeeping core of the `edu.ucla.sspace.lsa` Latent Semantic Analysis
package, and proves properties of that model:

- **Term registry and document ingester** (`LatentSemanticAnalysis`).
  - `addTerm` numbers each new term with the next counter value.
  - `processDocument` counts the tokens of a document in first-occurrence order, drops a blank
    document, and appends one `term doc count` record per distinct term to the raw matrix file.
  - `getVectorFor` and `getDocumentVector` read rows of the word space and the document space.
  - `processSpace` resolves the transform, the number of dimensions and the SVD algorithm
    from options, then runs the transform and the SVD.
- **The sparse triplet file.** Records are written with single spaces. `TfIdfTransformer` and
  `LogEntropyTransformer` read them back with `split("\\s+")` and `Integer.valueOf`; `NoTransform`
  copies the file unread.
- **The three matrix transforms.** Each is a `MatrixTransformer`:
  - `NoTransform`, the identity;
  - `TfIdfTransformer`, a statistics pass then a write pass;
  - `LogEntropyTransformer`, three passes: global counts, entropy sums, output.
- **The older in-memory `LSA` class.**
  - `parseDocument` reads a window of lines, cleans the words and counts them.
  - `processSpace` performs the TF-IDF aggregation.
  - `saveWordDocumentMatrix` and `loadWordDocumentMatrix` write and read the dense
    word-document text format.

The form of the model follows the source:

- **Classes.** `LatentSemanticAnalysis`, `LSA` and the file system of `NoTransform` are
  classes whose fields the methods update. Each mutating loop of the source is a `while` loop
  with invariants, proved against a specification function.
- **The transforms** are methods over the lines of the matrix file. Each is proved equal to
  a function of the parsed cells. Lemmas about those functions state what the transforms
  compute.
- **Numbers.**
  - `Weight` is `Finite(real)` or `NonFinite`. It stands for a `double` that may be NaN or
    infinite.
  - `Math.log`, `Statistics.log2` and the SVD are function parameters. The predicate
    `LogLaws` states what the proofs assume of a logarithm.
- **Errors the Java code throws** are results or outcomes. This covers
  `NumberFormatException`, `ArrayIndexOutOfBoundsException`, `IllegalStateException`,
  `IllegalArgumentException`, the `Error` of a failed class load, and the
  `NullPointerException` of a space read before `processSpace`.
- **Files** are sequences of lines: `None` is a missing file, `Some(lines)` a readable one.

Modules, one per file:

- `Results`: `Option`, `Result`, `Outcome`.
- `JavaText`: `String.split`, `Integer.toString`, `Integer.parseInt`.
- `JavaMaps`: the get-then-put idioms on a `HashMap`.
- `SparseMatrixFile`: the triplet record format.
- `Weights`: `double` arithmetic.
- `TfIdfTransformer`, `LogEntropyTransformer`, `NoTransform`, `MatrixTransformer`.
- `Lsa`: `LatentSemanticAnalysis`.
- `LegacyLsa`: the `LSA` class.

Where the code's own comments, documentation or paired methods promise more than the code does, the model follows the code:

- `saveWordDocumentMatrix` (LSA.java:232-260) writes the layout that `loadWordDocumentMatrix` (LSA.java:195-230) reads: a header naming the documents "in the order in which their data will be presented" (LSA.java:201-202), then one row per word. So a saved matrix should load back, zeros included. It does not; see Findings 1, 2 and 6.
- The global weight `1 + entropySum / log2(numDocs)` (LogEntropyTransformer.java:166) divides by `log2(1) = 0` for a single document, and nothing guards it; see Finding 4.
- The comments on `termToDocOccurences` say it counts "in how many documents" a term appears (TfIdfTransformer.java:59, 86-87). The code counts the term's records. For a file written by ingestion the two agree, because ingestion writes each (term, document) pair once.
- The log-entropy and identity transforms write one record per input record. TF-IDF writes one record per distinct (term, document) pair, because it keeps the counts in a map keyed by the pair (TfIdfTransformer.java:56-57). For a file written by ingestion this is the same number (`UniquePairsKeepCount`).
- The dimensions property is documented as "the number of dimensions to use for the semantic space" (LatentSemanticAnalysis.java:126-127). The code accepts any `int`, zero and negatives included (`DimensionsAnyInt`).
- `MatrixTransformer.transform` notes that the output may be the same file as the input (MatrixTransformer.java:35-36). `NoTransform` then empties the file; see Finding 5.

## Model

| member | source | states |
|---|---|---|
| JavaMaps.Increment | Cde-LSA-Java/TfIdfTransformer.java:88-91 | the key's count rises by one (to 1 when absent); every other key keeps its value |
| JavaMaps.AddTo | Cde-LSA-Java/LogEntropyTransformer.java:113-116 | the key's value grows by `n` (becomes `n` when absent); every other key keeps its value |
| JavaText.Split | Cde-LSA-Java/LSA.java:205 | definition of `String.split` on a one-character pattern: the whole string when nothing matches, otherwise the pieces between matches without the trailing empty ones |
| JavaText.SplitRuns | Cde-LSA-Java/TfIdfTransformer.java:74 | definition of `split("\\s+")`: each run of separators is one cut, and only a leading empty piece can remain |
| JavaText.Join | Cde-LSA-Java/LSA.java:238-242 | definition of the header loop's output: the strings with one separator between neighbours |
| JavaText.IntText | Cde-LSA-Java/LatentSemanticAnalysis.java:322-323 | definition of `Integer.toString`: a minus sign for a negative number, then its decimal digits |
| JavaText.FirstSeparator | Cde-LSA-Java/LSA.java:105 | the position found holds a separator and none comes before it |
| JavaText.Pieces | Cde-LSA-Java/LSA.java:105 | cutting at every separator gives at least one piece, and no piece holds a separator |
| JavaText.DropTrailingEmpty | Cde-LSA-Java/LSA.java:205 | Java's limit-0 rule keeps a prefix whose last piece is not empty, and drops only empty pieces |
| JavaText.NonEmpty | Cde-LSA-Java/TfIdfTransformer.java:74 | splitting on separator runs leaves no empty piece after the first |
| JavaText.NonEmptyMembers | Cde-LSA-Java/TfIdfTransformer.java:74 | dropping empty strings keeps exactly the nonempty members |
| JavaText.JoinAppend | Cde-LSA-Java/LSA.java:238-242 | joining one more string appends the separator and that string |
| JavaText.PiecesOfJoin | Cde-LSA-Java/LSA.java:205 | cutting a joined line at its separators gives back the strings that were joined |
| JavaText.SplitOfJoin | Cde-LSA-Java/LSA.java:205 | `split(" ")` of strings joined by spaces gives them back when none holds a space and the last is not empty |
| JavaText.NonEmptyOfNonEmpty | Cde-LSA-Java/TfIdfTransformer.java:74 | when no piece is empty, nothing is dropped |
| JavaText.SplitRunsOfJoin | Cde-LSA-Java/LogEntropyTransformer.java:104 | `split("\\s+")` of nonempty fields joined by one whitespace character gives back the fields |
| JavaText.DigitChar | Cde-LSA-Java/LatentSemanticAnalysis.java:322-323 | the digit written for `d` is a decimal digit whose value is `d` |
| JavaText.NaturalText | Cde-LSA-Java/LatentSemanticAnalysis.java:322-323 | a natural number is written as at least one decimal digit |
| JavaText.IntTextIsOneField | Cde-LSA-Java/LatentSemanticAnalysis.java:322-323 | what `Integer.toString` writes is never empty and holds no whitespace, so it is one field |
| JavaText.ParseInt | Cde-LSA-Java/TfIdfTransformer.java:76-78 | `Integer.valueOf` accepts only values inside the 32-bit `int` range |
| JavaText.NaturalTextValue | Cde-LSA-Java/LatentSemanticAnalysis.java:322-323 | the digits written for `n` have the value `n` |
| JavaText.IntTextRoundTrip | Cde-LSA-Java/LogEntropyTransformer.java:106-108 | reading back what `Integer.toString` wrote gives the same `int` |
| SparseMatrixFile.FormatRecord | Cde-LSA-Java/LatentSemanticAnalysis.java:321-324 | definition of one printed record: term index, document index and count, separated by single spaces |
| SparseMatrixFile.FormatAll | Cde-LSA-Java/LatentSemanticAnalysis.java:318-325 | definition of the matrix file: the record line of each cell, in order |
| SparseMatrixFile.FormatAllLines | Cde-LSA-Java/LatentSemanticAnalysis.java:318-325 | the matrix file has one line per cell, at the cell's position |
| SparseMatrixFile.FormatAllSnoc | Cde-LSA-Java/LatentSemanticAnalysis.java:324 | writing one more cell appends its line |
| SparseMatrixFile.ParseRecord | Cde-LSA-Java/TfIdfTransformer.java:74-78 | a record that reads has three fields in the `int` range |
| SparseMatrixFile.ParseFields | Cde-LSA-Java/LogEntropyTransformer.java:106-108 | three fields read by `Integer.valueOf` give a cell whose values fit in `int` |
| SparseMatrixFile.ParseAll | Cde-LSA-Java/TfIdfTransformer.java:73-100 | a file reads exactly when every line reads, then as its cells in order; otherwise it fails with the error of the first bad line |
| SparseMatrixFile.ParseAllReadAs | Cde-LSA-Java/LogEntropyTransformer.java:127-133 | a readable file reads as its cells line by line, so a later pass sees the same records |
| SparseMatrixFile.Records | Cde-LSA-Java/TfIdfTransformer.java:73-78 | the outcome of each line read on its own, at its position |
| SparseMatrixFile.Collect | Cde-LSA-Java/TfIdfTransformer.java:73-100 | all values in order when every result is Ok, otherwise the first error, with everything before it Ok |
| SparseMatrixFile.ParseAllSnoc | Cde-LSA-Java/TfIdfTransformer.java:73-78 | one more line after a readable prefix either appends its cell or ends the read with its error |
| SparseMatrixFile.RecordsPrefix | Cde-LSA-Java/TfIdfTransformer.java:73 | reading a prefix of the file gives a prefix of the outcomes |
| SparseMatrixFile.CollectStops | Cde-LSA-Java/TfIdfTransformer.java:76-78 | the first error ends the read, whatever the later lines hold |
| SparseMatrixFile.RecordRoundTrip | Cde-LSA-Java/LatentSemanticAnalysis.java:321-324 | a record written by ingestion reads back as the same three integers |
| SparseMatrixFile.FileRoundTrip | Cde-LSA-Java/LogEntropyTransformer.java:102-108 | a matrix file written by ingestion reads back as the cells written, in order |
| SparseMatrixFile.MaxDocIndex | Cde-LSA-Java/TfIdfTransformer.java:83-84 | `numDocs` is at least 0, at least every document index, and equal to one of them unless it is 0 |
| SparseMatrixFile.WithTerm | Cde-LSA-Java/LogEntropyTransformer.java:113-116 | the records of a term are exactly those cells with that term |
| SparseMatrixFile.WithDoc | Cde-LSA-Java/TfIdfTransformer.java:94-97 | the records of a document are exactly those cells with that document |
| SparseMatrixFile.CountAtMostSum | Cde-LSA-Java/TfIdfTransformer.java:109 | with positive counts, each count lies in (0, sum of the counts] |
| SparseMatrixFile.PositiveSum | Cde-LSA-Java/TfIdfTransformer.java:94-97 | with positive counts, the sum is not negative, and positive when there is a record |
| Weights.EntropyTermNonPositive | Cde-LSA-Java/LogEntropyTransformer.java:138 | `p * log2(p)` is finite and at most 0 for a probability in (0, 1] |
| Weights.RatioInUnitInterval | Cde-LSA-Java/TfIdfTransformer.java:109 | a positive count over a total at least as large is a fraction in (0, 1] |
| Weights.RatioSelf | Cde-LSA-Java/LogEntropyTransformer.java:135-136 | a non-zero count over itself is exactly 1 |
| Weights.RatioAtLeastOne | Cde-LSA-Java/TfIdfTransformer.java:110-111 | `numDocs / docFreq` is finite and at least 1 when `0 < docFreq <= numDocs` |
| TfIdfTransformer.PairOf | Cde-LSA-Java/TfIdfTransformer.java:99 | definition: the `Pair` key of a record, its term and its document |
| TfIdfTransformer.PairHashCode | Cde-LSA-Java/TfIdfTransformer.java:138-140 | definition of `Pair.hashCode`: term + doc with Java `int` wrap-around |
| TfIdfTransformer.PairEqualsAsWritten | Cde-LSA-Java/TfIdfTransformer.java:130-136 | definition of `Pair.equals` as written: the terms are compared twice and the documents never |
| TfIdfTransformer.PairEquals | Cde-LSA-Java/TfIdfTransformer.java:130-136 | definition of the comparison `equals` evidently intends: both fields |
| TfIdfTransformer.Step | Cde-LSA-Java/TfIdfTransformer.java:73-99 | definition of one turn of the read loop: the largest document index, the term's record count + 1, the document's total + count, the pair's count put |
| TfIdfTransformer.Gather | Cde-LSA-Java/TfIdfTransformer.java:72-100 | definition: the statistics after reading the cells in file order |
| TfIdfTransformer.TfIdfWeight | Cde-LSA-Java/TfIdfTransformer.java:108-114 | definition: `tf * idf` with `tf = count / docTotal` and `idf = Math.log(numDocs / docFreq)` |
| TfIdfTransformer.Entry | Cde-LSA-Java/TfIdfTransformer.java:106-114 | definition of the record written for a pair: its term, its document and its weight |
| TfIdfTransformer.Transformed | Cde-LSA-Java/TfIdfTransformer.java:103-116 | definition: the record of each stored pair, in visiting order |
| TfIdfTransformer.TransformSpec | Cde-LSA-Java/TfIdfTransformer.java:52-117 | definition of `transform(input, output)` on the file's lines: its records, or the error of the first bad line |
| TfIdfTransformer.WrapSum | Cde-LSA-Java/TfIdfTransformer.java:139 | `int` addition stays in range and differs from the true sum by 0 or 2^32 |
| TfIdfTransformer.PairEqualsIgnoresDoc | Cde-LSA-Java/TfIdfTransformer.java:133 | `equals` as written holds for two different pairs with the same term |
| TfIdfTransformer.PairEqualsIsIdentity | Cde-LSA-Java/TfIdfTransformer.java:130-136 | comparing both fields is identity of pairs |
| TfIdfTransformer.PairKeyIdentity | Cde-LSA-Java/TfIdfTransformer.java:130-140 | a HashMap key matches when the hash codes agree and `equals` as written holds, which is exactly when both fields agree |
| TfIdfTransformer.GatherSnoc | Cde-LSA-Java/TfIdfTransformer.java:73-100 | the statistics after one more record are one loop turn on those before it |
| TfIdfTransformer.GatherWellFormed | Cde-LSA-Java/TfIdfTransformer.java:88-99 | every stored pair has its term's frequency and its document's total, and each pair is visited once |
| TfIdfTransformer.NumDocsIsMaxDoc | Cde-LSA-Java/TfIdfTransformer.java:83-84 | `numDocs` is the largest document index of the input |
| TfIdfTransformer.DocFreqCountsRecords | Cde-LSA-Java/TfIdfTransformer.java:88-91 | `termToDocOccurences[t]` is present exactly when `t` has records, and equals their number |
| TfIdfTransformer.DocTotalSumsCounts | Cde-LSA-Java/TfIdfTransformer.java:94-97 | `docToTermCount[d]` is present exactly when `d` has records, and is the sum of their counts |
| TfIdfTransformer.FreqKeys | Cde-LSA-Java/TfIdfTransformer.java:99 | `docToTermFreq` holds exactly the pairs that occur in the input |
| TfIdfTransformer.FreqIsLastCount | Cde-LSA-Java/TfIdfTransformer.java:99 | the count stored for a pair is that of its last record, since `put` overwrites |
| TfIdfTransformer.UniquePairsVisitAll | Cde-LSA-Java/TfIdfTransformer.java:99 | with no repeated pair, every record is visited once |
| TfIdfTransformer.Emit | Cde-LSA-Java/TfIdfTransformer.java:106-115 | one output record per visited pair, at its position |
| TfIdfTransformer.ReadStatistics | Cde-LSA-Java/TfIdfTransformer.java:72-101 | the read loop fails with the error of the first bad line, or yields the statistics of the cells read |
| TfIdfTransformer.WriteRecords | Cde-LSA-Java/TfIdfTransformer.java:105-116 | the write loop writes the record of each visited pair, in visiting order |
| TfIdfTransformer.Transform | Cde-LSA-Java/TfIdfTransformer.java:52-117 | the two loops compute the specified transform of the file, or its first read error |
| TfIdfTransformer.OnePerPair | Cde-LSA-Java/TfIdfTransformer.java:99-115 | an output record exists for a (term, doc) pair exactly when the input has it, and no pair is written twice |
| TfIdfTransformer.UniquePairsKeepCount | Cde-LSA-Java/TfIdfTransformer.java:106-115 | with no repeated pair, the output has as many records as the input |
| TfIdfTransformer.EntryWeight | Cde-LSA-Java/TfIdfTransformer.java:107-114 | each output weight is `(count / docTotal[d]) * ln(numDocs / docFreq[t])`, using the count of the pair's last record |
| TfIdfTransformer.TermFrequencyInUnitInterval | Cde-LSA-Java/TfIdfTransformer.java:109 | with positive counts, `tf` lies in (0, 1] |
| TfIdfTransformer.UbiquitousTermWeightsZero | Cde-LSA-Java/TfIdfTransformer.java:110-114 | a term with as many records as `numDocs` gets weight exactly 0 |
| TfIdfTransformer.WeightOfUbiquitousTerm | Cde-LSA-Java/TfIdfTransformer.java:110-111 | `ln(n / n)` makes the weight 0 for any finite `tf` |
| TfIdfTransformer.RareTermWeightsPositive | Cde-LSA-Java/TfIdfTransformer.java:109-114 | with positive counts, a term with fewer records than `numDocs` gets a finite positive weight |
| TfIdfTransformer.WeightOfRareTerm | Cde-LSA-Java/TfIdfTransformer.java:109-111 | a positive `tf` times `ln(n / f)` with `0 < f < n` is positive |
| LogEntropyTransformer.GlobalCounts | Cde-LSA-Java/LogEntropyTransformer.java:102-117 | definition of `termToGlobalCount` after pass 1: each record adds its count to its term |
| LogEntropyTransformer.EntropyTerm | Cde-LSA-Java/LogEntropyTransformer.java:135-138 | definition: `p * log2(p)` with `p = count / globalCount` |
| LogEntropyTransformer.EntropySums | Cde-LSA-Java/LogEntropyTransformer.java:128-144 | definition of `termToEntropySum` after pass 2 |
| LogEntropyTransformer.SumEntropy | Cde-LSA-Java/LogEntropyTransformer.java:138-143 | definition: the sum of `p * log2(p)` over some records of one term, in file order, from 0 |
| LogEntropyTransformer.LocalWeight | Cde-LSA-Java/LogEntropyTransformer.java:163 | definition of `log2_1p(count)`: `log2(1 + count)` |
| LogEntropyTransformer.EntropyWeight | Cde-LSA-Java/LogEntropyTransformer.java:165-166 | definition of `1 + entropySum / log2(numDocs)` as written, with no guard for one document |
| LogEntropyTransformer.EntropyWeightCorrected | Cde-LSA-Java/LogEntropyTransformer.java:166 | definition of the global weight with one document weighted as no document |
| LogEntropyTransformer.Record | Cde-LSA-Java/LogEntropyTransformer.java:159-171 | definition of the record written for a cell: term, document and `log * entropy` |
| LogEntropyTransformer.Transformed | Cde-LSA-Java/LogEntropyTransformer.java:150-174 | definition: the record of each input cell, in file order, as written |
| LogEntropyTransformer.TransformedCorrected | Cde-LSA-Java/LogEntropyTransformer.java:163-171 | definition: the same records with the corrected global weight |
| LogEntropyTransformer.TransformSpec | Cde-LSA-Java/LogEntropyTransformer.java:89-175 | definition of `transform(input, output)` on the file's lines: its records, or the error of the first bad line |
| LogEntropyTransformer.GlobalCountsSnoc | Cde-LSA-Java/LogEntropyTransformer.java:110-116 | one more record adds its count to its term's global count and may raise `numDocs` to its document |
| LogEntropyTransformer.GlobalCountSumsCounts | Cde-LSA-Java/LogEntropyTransformer.java:113-116 | `termToGlobalCount[t]` is present exactly when `t` has records, and is the sum of their counts |
| LogEntropyTransformer.SumCountsSnoc | Cde-LSA-Java/LogEntropyTransformer.java:114-116 | one more record adds its count to the sum |
| LogEntropyTransformer.CountTerms | Cde-LSA-Java/LogEntropyTransformer.java:101-119 | pass 1 fails with the first read error, or yields the largest document index and the global counts |
| LogEntropyTransformer.AddWeight | Cde-LSA-Java/LogEntropyTransformer.java:141-143 | the term's entropy sum grows by `d` (becomes `d` when absent); every other term keeps its sum |
| LogEntropyTransformer.EntropySumsSnoc | Cde-LSA-Java/LogEntropyTransformer.java:135-143 | one more record adds its `p * log2(p)` to its term's sum |
| LogEntropyTransformer.EntropySumsStep | Cde-LSA-Java/LogEntropyTransformer.java:128-144 | reading record `i` adds its term of the entropy to the sums of the records before it |
| LogEntropyTransformer.EntropySumOfRecords | Cde-LSA-Java/LogEntropyTransformer.java:135-143 | `termToEntropySum[t]` is present exactly when `t` has records, and is the sum of `p * log2(p)` over them in file order |
| LogEntropyTransformer.ReadAgain | Cde-LSA-Java/LogEntropyTransformer.java:127-133 | a later pass reads line `i` as the same cell as the first pass did |
| LogEntropyTransformer.SumEntropies | Cde-LSA-Java/LogEntropyTransformer.java:123-145 | pass 2 computes the entropy sums of the cells read in pass 1 |
| LogEntropyTransformer.Emit | Cde-LSA-Java/LogEntropyTransformer.java:156-172 | one output record per input record, at its position |
| LogEntropyTransformer.Gather | Cde-LSA-Java/LogEntropyTransformer.java:102-144 | every record's term has a global count and an entropy sum after the first two passes |
| LogEntropyTransformer.WriteRecords | Cde-LSA-Java/LogEntropyTransformer.java:150-174 | pass 3 writes the record of each input line, in file order |
| LogEntropyTransformer.Transform | Cde-LSA-Java/LogEntropyTransformer.java:89-175 | the three passes compute the specified transform of the file, or its first read error |
| LogEntropyTransformer.OneRecordPerInput | Cde-LSA-Java/LogEntropyTransformer.java:156-172 | exactly one output record per input record, in input order, with its term and document copied |
| LogEntropyTransformer.EntryWeight | Cde-LSA-Java/LogEntropyTransformer.java:163-171 | each weight is `log2(1 + count) * (1 + entropySum[t] / log2(numDocs))` |
| LogEntropyTransformer.ProbabilityInUnitInterval | Cde-LSA-Java/LogEntropyTransformer.java:135-136 | with positive counts, `p = count / globalCount[t]` lies in (0, 1] |
| LogEntropyTransformer.TermRecordsPositive | Cde-LSA-Java/LogEntropyTransformer.java:113-116 | the records of one term keep positive counts |
| LogEntropyTransformer.SumEntropyNonPositive | Cde-LSA-Java/LogEntropyTransformer.java:138-143 | a sum of `p * log2(p)` over probabilities in (0, 1] is finite and at most 0 |
| LogEntropyTransformer.EntropySumAtMostZero | Cde-LSA-Java/LogEntropyTransformer.java:135-143 | with positive counts, every term's entropy sum is finite and at most 0 |
| LogEntropyTransformer.EntropyWeightAtMostOne | Cde-LSA-Java/LogEntropyTransformer.java:164-166 | with positive counts and `numDocs` other than 1, every term's global weight `1 + entropySum / log2(numDocs)` is finite and at most 1 |
| LogEntropyTransformer.WeightAtMostLocal | Cde-LSA-Java/LogEntropyTransformer.java:162-171 | with positive counts and `numDocs` other than 1, every written weight is finite and at most its local weight `log2(1 + count)`, which is positive |
| LogEntropyTransformer.SingleRecordEntropyZero | Cde-LSA-Java/LogEntropyTransformer.java:135-143 | a term with a single record of non-zero count has entropy sum exactly 0 |
| LogEntropyTransformer.SingleCellEntropyZero | Cde-LSA-Java/LogEntropyTransformer.java:135-143 | one record holding all its term's occurrences makes the entropy sum 0 |
| LogEntropyTransformer.WholeCountEntropyZero | Cde-LSA-Java/LogEntropyTransformer.java:135-138 | probability 1 contributes `1 * log2(1) = 0` |
| LogEntropyTransformer.OneDocumentWeightsNonFinite | Cde-LSA-Java/LogEntropyTransformer.java:166 | as written, when the largest document index is 1, every weight is NaN or infinite |
| LogEntropyTransformer.OneDocumentExample | Cde-LSA-Java/LogEntropyTransformer.java:166 | the one-record matrix `1 1 1` gets a non-finite weight |
| LogEntropyTransformer.CorrectedWeightsFinite | Cde-LSA-Java/LogEntropyTransformer.java:163-171 | with the single-document guard, positive counts give every record a finite weight |
| LogEntropyTransformer.CorrectedEntropyWeightFinite | Cde-LSA-Java/LogEntropyTransformer.java:166 | the guarded global weight of a finite entropy sum is finite |
| LogEntropyTransformer.CorrectionOnlyForOneDocument | Cde-LSA-Java/LogEntropyTransformer.java:166 | the guard changes no output unless the largest document index is 1 |
| NoTransform.CopyAsWritten | Cde-LSA-Java/NoTransform.java:40-51 | definition of the channel copy step by step: a missing input fails first, then the output is truncated, then the input's current content is copied |
| NoTransform.CopyCorrected | Cde-LSA-Java/NoTransform.java:40-51 | definition of the copy with the input read before the output is opened |
| NoTransform.CopyDuplicates | Cde-LSA-Java/NoTransform.java:42-47 | copying into another file makes the output equal to the input and changes no other file, the input included |
| NoTransform.CopyMissingInput | Cde-LSA-Java/NoTransform.java:42 | a missing input is reported before the output is opened, so no file changes |
| NoTransform.SameFileCopyTruncates | Cde-LSA-Java/NoTransform.java:42-47 | copying a file onto itself empties it |
| NoTransform.SameFileCopyLosesContent | Cde-LSA-Java/NoTransform.java:44-47 | a one-line matrix file copied onto itself loses its line |
| NoTransform.CorrectedCopyDuplicates | Cde-LSA-Java/NoTransform.java:42-47 | reading the input before opening the output makes the output equal to the input in every case, the same file included |
| NoTransform.FileStore.constructor | Cde-LSA-Java/NoTransform.java:34 | the store starts with the given files |
| NoTransform.FileStore.Transform | Cde-LSA-Java/NoTransform.java:40-51 | the channel copy leaves the files as the step-by-step copy specifies, or reports the missing input |
| MatrixTransformer.TransformFile | Cde-LSA-Java/MatrixTransformer.java:38 | definition of `transform(File)` for each strategy: the input itself for the identity, else the weighted records |
| MatrixTransformer.Transform | Cde-LSA-Java/MatrixTransformer.java:38 | the selected strategy's `transform(File)`: the input itself for the identity, else the weighted records or the first read error |
| MatrixTransformer.FailsExactlyOnUnreadableFile | Cde-LSA-Java/NoTransform.java:36-38 | the identity returns its input; a weighting transform fails exactly when some line cannot be read, with the first line's error |
| MatrixTransformer.WeightedKeepsRecords | Cde-LSA-Java/MatrixTransformer.java:38 | on a readable file with unique pairs, both weighting transforms write one record per input record; log-entropy keeps terms and documents in order |
| Lsa.Register | Cde-LSA-Java/LatentSemanticAnalysis.java:336-355 | definition of `addTerm` on the map and the counter: a new term is put with counter + 1, a registered term changes nothing |
| Lsa.Extend | Cde-LSA-Java/LatentSemanticAnalysis.java:280-301 | definition of the key order of the `LinkedHashMap`: each token not yet listed is appended at its first occurrence |
| Lsa.Occurrences | Cde-LSA-Java/LatentSemanticAnalysis.java:288-301 | definition: the number of times a token occurs in the document |
| Lsa.TokenCounts | Cde-LSA-Java/LatentSemanticAnalysis.java:288-301 | definition of `termCounts` after the token loop: for each token, 1 when absent, else its count + 1 |
| Lsa.TokenRecords | Cde-LSA-Java/LatentSemanticAnalysis.java:318-325 | definition: the records of a document's tokens, in first-occurrence order with their counts |
| Lsa.ClassName | Cde-LSA-Java/LatentSemanticAnalysis.java:443-450 | definition: the class name that `Class.forName` loads for each strategy |
| Lsa.Lookup | Cde-LSA-Java/LatentSemanticAnalysis.java:445-446 | definition of `properties.getProperty`: the value of the key, or none |
| Lsa.ProcessSpaceSpec | Cde-LSA-Java/LatentSemanticAnalysis.java:436-497 | definition of `processSpace`: resolve the transform, run it, resolve the dimensions, run the SVD, in that order; the first failure is the outcome |
| Lsa.LatentSemanticAnalysis.MatrixFile | Cde-LSA-Java/LatentSemanticAnalysis.java:318-325 | definition: the lines of the raw matrix file, one printed record per record written |
| Lsa.RegisterKeepsNumbering | Cde-LSA-Java/LatentSemanticAnalysis.java:336-355 | a registered term changes neither map nor counter; a new term gets counter + 1; the numbering stays dense |
| Lsa.NumberingDenseAndInjective | Cde-LSA-Java/LatentSemanticAnalysis.java:336-355 | distinct terms have distinct indices, the indices are exactly 1..counter, and the terms are distinct |
| Lsa.ExtendLists | Cde-LSA-Java/LatentSemanticAnalysis.java:280-281 | a LinkedHashSet add-all keeps what was listed first, lists every new token, and lists nothing twice |
| Lsa.ExtendSnoc | Cde-LSA-Java/LatentSemanticAnalysis.java:294 | one more token is appended only when it is not yet listed |
| Lsa.ExtendAppend | Cde-LSA-Java/LatentSemanticAnalysis.java:288-301 | listing two runs of tokens lists the first run, then the second |
| Lsa.ExtendDistinct | Cde-LSA-Java/LatentSemanticAnalysis.java:280-281 | distinct tokens are listed as they are |
| Lsa.FirstOccurrenceOrder | Cde-LSA-Java/LatentSemanticAnalysis.java:318 | the terms of any prefix of the document come first, in the same order |
| Lsa.RegisterStep | Cde-LSA-Java/LatentSemanticAnalysis.java:294 | registering the next token extends the registered terms by first occurrence |
| Lsa.TokenCountsOccurrences | Cde-LSA-Java/LatentSemanticAnalysis.java:288-301 | exactly the document's tokens are counted, each with its number of occurrences; the map is empty only for no tokens |
| Lsa.CountStep | Cde-LSA-Java/LatentSemanticAnalysis.java:295-300 | counting the next token raises its count by one, and a new term joins the order |
| Lsa.DocumentRecords | Cde-LSA-Java/LatentSemanticAnalysis.java:318-325 | one record per listed term, at its position, under the document index; distinct terms with distinct indices give distinct (term, document) pairs, and positive counts give positive records |
| Lsa.OrderCounted | Cde-LSA-Java/LatentSemanticAnalysis.java:318-320 | every term of the order is a token of the document and has a count |
| Lsa.DocumentRecordsOfTokens | Cde-LSA-Java/LatentSemanticAnalysis.java:309-325 | a document's records carry the term's index, the new document index and the number of occurrences; none for a blank document; the file keeps its invariant |
| Lsa.IngestedMoreTerms | Cde-LSA-Java/LatentSemanticAnalysis.java:350-351 | registering a term keeps the matrix file's invariant |
| Lsa.ResolveTransform | Cde-LSA-Java/LatentSemanticAnalysis.java:443-458 | log-entropy unless the option names a class; a known class name gives its strategy; any other name is an error naming it |
| Lsa.ResolveDimensions | Cde-LSA-Java/LatentSemanticAnalysis.java:466-477 | 300 unless the option is set; then it must be a Java `int`, otherwise an error naming the text |
| Lsa.DimensionsAnyInt | Cde-LSA-Java/LatentSemanticAnalysis.java:469-471 | any `int` is taken, zero and negative values included |
| Lsa.ProcessSpaceChecksInOrder | Cde-LSA-Java/LatentSemanticAnalysis.java:443-489 | a bad transform fails first, a bad dimension after the transform; with no options, log-entropy and 300 dimensions feed the SVD |
| Lsa.ReduceMatrix | Cde-LSA-Java/LatentSemanticAnalysis.java:443-497 | the steps after the writer is closed compute the specified outcome of `processSpace` |
| Lsa.LatentSemanticAnalysis.constructor | Cde-LSA-Java/LatentSemanticAnalysis.java:259-271 | no term, counters at 0, an empty open matrix file, no spaces |
| Lsa.LatentSemanticAnalysis.AddTerm | Cde-LSA-Java/LatentSemanticAnalysis.java:336-355 | the map and counter change as registration specifies, the numbering stays dense and injective, and nothing else changes |
| Lsa.LatentSemanticAnalysis.ProcessDocument | Cde-LSA-Java/LatentSemanticAnalysis.java:278-330 | every token is registered; a blank document changes no counter and no record; otherwise the document counter rises once and the document's records are appended |
| Lsa.LatentSemanticAnalysis.CountTokens | Cde-LSA-Java/LatentSemanticAnalysis.java:288-301 | the token loop registers every token and yields the first-occurrence order and the occurrence counts |
| Lsa.LatentSemanticAnalysis.WriteDocument | Cde-LSA-Java/LatentSemanticAnalysis.java:312-328 | the document takes the next index and its records are appended after the earlier ones, which are unchanged |
| Lsa.LatentSemanticAnalysis.PrintRecords | Cde-LSA-Java/LatentSemanticAnalysis.java:317-326 | while the writer is open, one record per counted term is appended, in the order of the counts, with the term's index, the document index and the count; nothing else changes |
| Lsa.LatentSemanticAnalysis.VectorFor | Cde-LSA-Java/LatentSemanticAnalysis.java:367-377 | null exactly for an unregistered word, otherwise row `index - 1` of the word space, or an error |
| Lsa.LatentSemanticAnalysis.VectorOfRegisteredTerm | Cde-LSA-Java/LatentSemanticAnalysis.java:370-376 | the `i`-th registered term's vector is row `i` of the word space |
| Lsa.LatentSemanticAnalysis.DocumentVector | Cde-LSA-Java/LatentSemanticAnalysis.java:401-408 | a row exactly for `0 <= n < rows`; a negative `n` is rejected before the space is read |
| Lsa.LatentSemanticAnalysis.ProcessSpace | Cde-LSA-Java/LatentSemanticAnalysis.java:436-503 | the writer is closed; on success the spaces are those of the SVD, on failure they are unchanged |
| Lsa.LatentSemanticAnalysis.MatrixFileReadsBack | Cde-LSA-Java/LatentSemanticAnalysis.java:318-325 | the matrix file reads back as its records, with unique pairs and positive counts |
| LegacyLsa.WordChars | Cde-LSA-Java/LSA.java:190 | definition of `replaceAll("\\W", "")`: the word characters, in order |
| LegacyLsa.LowerCase | Cde-LSA-Java/LSA.java:192 | definition of `toLowerCase` on word characters: `A`-`Z` to `a`-`z` |
| LegacyLsa.Cleanup | Cde-LSA-Java/LSA.java:188-193 | definition of `cleanup`: the word characters, lower-cased |
| LegacyLsa.Window | Cde-LSA-Java/LSA.java:96-103 | definition: the lines the loop reads, 41 to 500, counted from 1 |
| LegacyLsa.CleanAll | Cde-LSA-Java/LSA.java:106-108 | definition: `cleanup` of each piece, in order |
| LegacyLsa.LineWords | Cde-LSA-Java/LSA.java:105-110 | definition: the words of one line, `cleanup` of each piece of `split("\\s")` |
| LegacyLsa.DocumentWords | Cde-LSA-Java/LSA.java:97-117 | definition: the words of the lines, line after line |
| LegacyLsa.Get | Cde-LSA-Java/LSA.java:169-173 | definition of `getCount`: the stored count, or 0 for an absent pair |
| LegacyLsa.CountWords | Cde-LSA-Java/LSA.java:112-115 | definition of the counts after `put(index, 1 + getCount(...))` for each word in turn |
| LegacyLsa.TermTotal | Cde-LSA-Java/LSA.java:126-131 | definition of `documentToTermCount.get(d)`: the sum of the document's counts over the words |
| LegacyLsa.DocFreq | Cde-LSA-Java/LSA.java:140-144 | definition of `docFreq`: the number of documents where the word's count is positive |
| LegacyLsa.Entry | Cde-LSA-Java/LSA.java:146-158 | definition of the value put at (w, d): `freq / documentToTermCount.get(d) * Math.log(documents.size() / docFreq)` |
| LegacyLsa.WeighWord | Cde-LSA-Java/LSA.java:150-160 | definition of the inner loop for one word: an entry at each document with a positive count |
| LegacyLsa.WeighWords | Cde-LSA-Java/LSA.java:139-161 | definition of the outer loop: each word's entries in turn |
| LegacyLsa.CountText | Cde-LSA-Java/LSA.java:251-253 | definition: the count's decimal text, or `0` when none is stored |
| LegacyLsa.CountTexts | Cde-LSA-Java/LSA.java:249-256 | definition: a word's count texts in document order |
| LegacyLsa.Row | Cde-LSA-Java/LSA.java:247-256 | definition of a saved row: the word, a space, then the count texts separated by single spaces |
| LegacyLsa.SavedRows | Cde-LSA-Java/LSA.java:246-258 | definition: the saved row of each listed word, in order |
| LegacyLsa.SaveLines | Cde-LSA-Java/LSA.java:232-260 | definition of the saved file: the header line, then the rows |
| LegacyLsa.RowPuts | Cde-LSA-Java/LSA.java:220-228 | definition of the inner load loop: `Integer.valueOf` of each count; a positive count is put at the iterator's next document; a bad count fails naming it |
| LegacyLsa.SplitRows | Cde-LSA-Java/LSA.java:213 | definition: `line.split(" ")` of each line |
| LegacyLsa.LoadLine | Cde-LSA-Java/LSA.java:213-228 | definition of one row load: the field count check, then the puts |
| LegacyLsa.LoadRows | Cde-LSA-Java/LSA.java:209-229 | definition of the row loop: each row in turn, stopping at the first failure |
| LegacyLsa.HeaderDocuments | Cde-LSA-Java/LSA.java:204-207 | definition: the header's pieces, each once, in order |
| LegacyLsa.LoadFile | Cde-LSA-Java/LSA.java:195-230 | definition of the load: a missing file fails, an empty one has no header, otherwise the header's documents and the rows' counts |
| LegacyLsa.HeaderDocumentsCorrected | Cde-LSA-Java/LSA.java:204-207 | definition of the corrected header: an empty line names no document |
| LegacyLsa.RowPutsCorrected | Cde-LSA-Java/LSA.java:220-228 | definition of the corrected inner loop: each count goes to its own column's document |
| LegacyLsa.LoadLineCorrected | Cde-LSA-Java/LSA.java:213-228 | definition of the corrected row load: the word is listed again |
| LegacyLsa.LoadRowsCorrected | Cde-LSA-Java/LSA.java:209-229 | definition of the corrected row loop |
| LegacyLsa.LoadFileCorrected | Cde-LSA-Java/LSA.java:195-230 | definition of the corrected load: outcome, words, documents and counts |
| LegacyLsa.RowPutsFailsAt | Cde-LSA-Java/LSA.java:222-223 | the first count that `Integer.valueOf` rejects stops the row with `NumberFormatException` naming that text |
| LegacyLsa.LoadRowsFailsAtField | Cde-LSA-Java/LSA.java:211-229 | after rows that load, a row whose first bad count is field `i` stops the row loop with the error naming that field |
| LegacyLsa.NotAnIntegerNamesField | Cde-LSA-Java/LSA.java:195-229 | a file whose first bad count is field `i` of row `j` fails to load with the error naming that field |
| LegacyLsa.WordCharsAreWordChars | Cde-LSA-Java/LSA.java:190 | removing `\W` leaves only word characters, and never lengthens the word |
| LegacyLsa.WordCharsOfWord | Cde-LSA-Java/LSA.java:190 | a string of word characters loses nothing |
| LegacyLsa.WordCharsOfNonWord | Cde-LSA-Java/LSA.java:190 | a string with no word character becomes empty |
| LegacyLsa.WordCharsKeepsWordChar | Cde-LSA-Java/LSA.java:190 | a word character survives the removal |
| LegacyLsa.CleanupAlphabet | Cde-LSA-Java/LSA.java:188-193 | `cleanup` returns only characters of `[a-z0-9_]` |
| LegacyLsa.CleanupFixedPoints | Cde-LSA-Java/LSA.java:188-193 | a word is its own cleanup exactly when it is made of `[a-z0-9_]` |
| LegacyLsa.CleanupIdempotent | Cde-LSA-Java/LSA.java:188-193 | cleaning twice equals cleaning once |
| LegacyLsa.CleanupEmpty | Cde-LSA-Java/LSA.java:188-193 | a token cleans to `""` exactly when it holds no word character |
| LegacyLsa.WindowLines | Cde-LSA-Java/LSA.java:97-103 | the lines read are the 1-based lines 41 to 500, in order |
| LegacyLsa.WindowStep | Cde-LSA-Java/LSA.java:97-103 | a line among the first 40 is skipped; a later one up to line 500 joins the window |
| LegacyLsa.WindowComplete | Cde-LSA-Java/LSA.java:97-103 | stopping at the end of the file or after line 500 has read the whole window |
| LegacyLsa.CleanAllSnoc | Cde-LSA-Java/LSA.java:106-108 | cleaning one more piece appends its cleanup |
| LegacyLsa.DocumentWordsSnoc | Cde-LSA-Java/LSA.java:97-117 | the words of one more line follow those of the lines before it |
| LegacyLsa.WindowLineRead | Cde-LSA-Java/LSA.java:97-117 | reading a line inside the window lists and counts its words after those of the earlier window lines |
| LegacyLsa.CountWordsSnoc | Cde-LSA-Java/LSA.java:113-115 | one more word is stored with 1 plus its previous count |
| LegacyLsa.CountWordsAppend | Cde-LSA-Java/LSA.java:105-116 | counting two runs of words counts the first, then the second |
| LegacyLsa.CountWordsOccurrences | Cde-LSA-Java/LSA.java:106-115 | each occurrence raises the (word, document) count by one; other documents keep theirs; a pair is present exactly when stored before or counted now |
| LegacyLsa.ListPieceStep | Cde-LSA-Java/LSA.java:112 | `words.add` of the next cleaned piece extends the listed words |
| LegacyLsa.CountPieceStep | Cde-LSA-Java/LSA.java:113-115 | the put of the next cleaned piece extends the counts |
| LegacyLsa.WeighWordEntries | Cde-LSA-Java/LSA.java:150-160 | for one word, an entry is stored exactly at the documents where its count is positive, with its TF-IDF value; other entries are kept |
| LegacyLsa.WeighWordsEntries | Cde-LSA-Java/LSA.java:139-161 | over all words, an entry is stored exactly where a listed word's count is positive; other entries are kept |
| LegacyLsa.TermTotalAtLeastCount | Cde-LSA-Java/LSA.java:125-132 | with no negative count, a document's total is at least each listed word's count |
| LegacyLsa.DocFreqBounds | Cde-LSA-Java/LSA.java:139-144 | `docFreq` lies in [0, documents]; at least 1 when the word occurs; all documents when it occurs everywhere |
| LegacyLsa.TermFrequencyInUnitInterval | Cde-LSA-Java/LSA.java:151-155 | the normalised frequency of a word where it occurs lies in (0, 1] |
| LegacyLsa.InverseDocFreqNonNegative | Cde-LSA-Java/LSA.java:146 | the inverse document frequency of an occurring word is finite and not negative |
| LegacyLsa.EntryNonNegative | Cde-LSA-Java/LSA.java:155-158 | every stored TF-IDF entry is finite and not negative |
| LegacyLsa.UbiquitousWordWeightsZero | Cde-LSA-Java/LSA.java:146-158 | a word occurring in every document weighs exactly 0 everywhere |
| LegacyLsa.SumOccurrencesSnoc | Cde-LSA-Java/LSA.java:128-130 | one more token raises the sum by its occurrences among the words |
| LegacyLsa.OccurrencesOfDistinct | Cde-LSA-Java/LSA.java:128 | a member of a LinkedHashSet occurs in it once |
| LegacyLsa.SumOccurrencesCoversTokens | Cde-LSA-Java/LSA.java:126-131 | over distinct words covering the tokens, the occurrences add up to the number of tokens |
| LegacyLsa.ZeroOccurrences | Cde-LSA-Java/LSA.java:127 | with no token the total is 0 |
| LegacyLsa.TermTotalOfCounts | Cde-LSA-Java/LSA.java:126-131 | a document's total is the sum over the words of their occurrence counts |
| LegacyLsa.TermTotalCountsWords | Cde-LSA-Java/LSA.java:125-132 | after counting a document's words, its total is the number of words counted |
| LegacyLsa.SavedRowsCons | Cde-LSA-Java/LSA.java:246-258 | the rows of the words are the first word's row, then the others' |
| LegacyLsa.CountTextIsOneField | Cde-LSA-Java/LSA.java:253 | a count's text is one nonempty field without spaces and reads back as the count |
| LegacyLsa.SavedRowFields | Cde-LSA-Java/LSA.java:246-258 | a saved row splits into the word and exactly one count per document, `0` where the count is absent |
| LegacyLsa.SavedRowWithoutDocuments | Cde-LSA-Java/LSA.java:248 | with no document, the row splits into the word alone |
| LegacyLsa.SavedHeader | Cde-LSA-Java/LSA.java:236-243 | the header line names the documents, distinct, in order |
| LegacyLsa.RowMapStep | Cde-LSA-Java/LSA.java:226-227 | a positive count adds its pair to the positive counts of the rest of the row |
| LegacyLsa.RowPutsNothing | Cde-LSA-Java/LSA.java:222-228 | once the rest of a row is not positive, it stores nothing |
| LegacyLsa.RowPutsUnfold | Cde-LSA-Java/LSA.java:222-228 | a numeric count is put at the iterator's document when positive, and skipped without advancing the iterator otherwise |
| LegacyLsa.RowPutsAligned | Cde-LSA-Java/LSA.java:222-228 | while every count so far was positive, each count is put at its own column |
| LegacyLsa.LoadRowsStep | Cde-LSA-Java/LSA.java:211-229 | a row that loads hands its counts to the rows after it |
| LegacyLsa.PositiveCons | Cde-LSA-Java/LSA.java:246 | the positive counts of the words are those of the first word, then the others' |
| LegacyLsa.PositiveStep | Cde-LSA-Java/LSA.java:211-229 | adding the first row's counts, then the rest, adds all the counts |
| LegacyLsa.PositiveFirstSplit | Cde-LSA-Java/LSA.java:226-227 | "no zero before a positive count" holds for the first word and for the rest |
| LegacyLsa.SavedFieldsCons | Cde-LSA-Java/LSA.java:213 | the fields of the saved rows are the first row's, then the others' |
| LegacyLsa.SavedRowLoads | Cde-LSA-Java/LSA.java:211-228 | a saved row at the head of the rows loads as its word's positive counts |
| LegacyLsa.SavedLineLoads | Cde-LSA-Java/LSA.java:213-228 | a saved row with no zero before a positive count reads back as its positive counts |
| LegacyLsa.LoadSavedRows | Cde-LSA-Java/LSA.java:211-229 | saved rows with no zero before a positive count load as their positive counts |
| LegacyLsa.SaveLoadRoundTrip | Cde-LSA-Java/LSA.java:195-260 | saving then loading gives back the documents and the positive counts, for at least one document, distinct nonempty document names without a space, words without a space, `int` counts, and no row with a zero before a positive count |
| LegacyLsa.RowPutsStoresPositive | Cde-LSA-Java/LSA.java:222-228 | a row's puts store only positive counts, at the header's documents |
| LegacyLsa.LoadLineStoresPositive | Cde-LSA-Java/LSA.java:213-228 | a line's load stores only positive counts, at the header's documents |
| LegacyLsa.LoadRowsStoresPositive | Cde-LSA-Java/LSA.java:211-229 | the rows' load stores only positive counts, at the header's documents |
| LegacyLsa.LoadFileUnfold | Cde-LSA-Java/LSA.java:204-211 | the documents come from the header line and the counts from the lines after it |
| LegacyLsa.LoadStoresOnlyPositive | Cde-LSA-Java/LSA.java:196-228 | whatever the file, the loaded map holds only positive counts, at the header's documents |
| LegacyLsa.LoadRowsAppend | Cde-LSA-Java/LSA.java:211-229 | after rows that load, the rest loads from where they left the counts, with line numbers continuing |
| LegacyLsa.LoadRowsFailsAtLine | Cde-LSA-Java/LSA.java:212-218 | a row with the wrong number of fields after rows that load fails, naming its 1-based line |
| LegacyLsa.MissingCountsNamesLine | Cde-LSA-Java/LSA.java:209-218 | a line after the header with a token count other than `documents + 1` fails, numbered from 1 after the header |
| LegacyLsa.LoadRowsBadHead | Cde-LSA-Java/LSA.java:216-218 | a first row with the wrong number of fields fails at once, with no count stored |
| LegacyLsa.SaveLoadMisaligns | Cde-LSA-Java/LSA.java:226-227 | as written, the saved count of (w, b) loads as a count of (w, a) |
| LegacyLsa.MisalignedRow | Cde-LSA-Java/LSA.java:222-228 | the row `w 0 1` puts its one count at the first document |
| LegacyLsa.SaveAfterLoadLosesRows | Cde-LSA-Java/LSA.java:196-199 | after a load no word is listed, so saving again writes the header and no row |
| LegacyLsa.PunctuationCountsAsEmptyWord | Cde-LSA-Java/LSA.java:105-115 | a token of punctuation alone is counted as the word `""` |
| LegacyLsa.EmptyHeaderPhantomDocument | Cde-LSA-Java/LSA.java:204-207 | an empty header line loads as one document named `""`, and a row of a saved empty matrix then fails |
| LegacyLsa.SpacedHeader | Cde-LSA-Java/LSA.java:204-207 | the header written for the one name `my notes.txt` is read back as the two documents `my` and `notes.txt` |
| LegacyLsa.SpaceInDocumentNameBreaksLoad | Cde-LSA-Java/LSA.java:204-218 | the document `my notes.txt` is read back as the two documents `my` and `notes.txt`, and its saved row then fails with "Missing occurrence counts on line 1" |
| LegacyLsa.EmptyHeaderDocuments | Cde-LSA-Java/LSA.java:205-207 | the empty header line names the one document `""` |
| LegacyLsa.SavedRowOfW | Cde-LSA-Java/LSA.java:248 | the row of `w` with no document splits into `w` alone |
| LegacyLsa.LineWordsCorrected | Cde-LSA-Java/LSA.java:105-115 | the corrected word list of a line never holds `""` |
| LegacyLsa.LineWordsCorrectedMembers | Cde-LSA-Java/LSA.java:105-115 | the corrected words of a line are exactly its nonempty cleaned words |
| LegacyLsa.LoadFileCorrectedUnfold | Cde-LSA-Java/LSA.java:204-211 | the corrected load takes its documents from the corrected header and its words and counts from the rows |
| LegacyLsa.RowPutsCorrectedUnfold | Cde-LSA-Java/LSA.java:222-228 | with the correction, column `i`'s count is put at document `i` when positive |
| LegacyLsa.RowPutsCorrectedAligned | Cde-LSA-Java/LSA.java:222-228 | with the correction, every count of a saved row lands at its own column, zeros anywhere |
| LegacyLsa.SavedRowSplits | Cde-LSA-Java/LSA.java:246-258 | a saved row splits into its word and one count per document, with or without documents |
| LegacyLsa.SavedRowLoadsCorrected | Cde-LSA-Java/LSA.java:211-228 | with the correction, a saved row lists its word again and loads its positive counts |
| LegacyLsa.SavedLineLoadsCorrected | Cde-LSA-Java/LSA.java:213-228 | with the correction, a saved row lists its word and reads back as its positive counts |
| LegacyLsa.LoadSavedRowsCorrected | Cde-LSA-Java/LSA.java:211-229 | with the correction, saved rows list their words and load all their positive counts |
| LegacyLsa.JoinOfNonEmptyFirst | Cde-LSA-Java/LSA.java:238-242 | a header whose first document is named is not empty |
| LegacyLsa.CorrectedHeaderOfSaved | Cde-LSA-Java/LSA.java:204-207 | with the corrected header, the saved header line gives back exactly the saved documents, when the names are distinct, nonempty and without a space |
| LegacyLsa.SaveLoadRoundTripCorrected | Cde-LSA-Java/LSA.java:195-260 | with the corrections, saving then loading gives back the words, the documents and every positive count, for any number of documents, when the document names are distinct, nonempty and without a space, the words nonempty and without a space, and the counts `int`s |
| LegacyLsa.JoinStep | Cde-LSA-Java/LSA.java:238-242 | one more turn of the header loop extends the joined names |
| LegacyLsa.CountTextsPrefix | Cde-LSA-Java/LSA.java:250-256 | column `i`'s text is the count of document `i` |
| LegacyLsa.LSA.constructor | Cde-LSA-Java/LSA.java:58-65 | all maps and sets start empty |
| LegacyLsa.LSA.ParseDocument | Cde-LSA-Java/LSA.java:92-119 | the filename is listed; a missing file fails; otherwise the words of lines 41-500 are listed and counted, and the TF-IDF map is untouched |
| LegacyLsa.LSA.CountLine | Cde-LSA-Java/LSA.java:105-116 | one line's pieces are cleaned, listed and counted in order |
| LegacyLsa.LSA.AddWord | Cde-LSA-Java/LSA.java:112-115 | the word is listed once and its (word, file) count rises by one from `getCount` |
| LegacyLsa.LSA.TermCount | Cde-LSA-Java/LSA.java:127-130 | a document's total is the sum of its counts over the listed words |
| LegacyLsa.LSA.DocumentTotals | Cde-LSA-Java/LSA.java:125-132 | every document gets its total |
| LegacyLsa.LSA.DocumentFrequency | Cde-LSA-Java/LSA.java:140-144 | `docFreq` is the number of documents where the word's count is positive |
| LegacyLsa.LSA.WeighWordInPlace | Cde-LSA-Java/LSA.java:150-160 | the word's TF-IDF entries are put, and the counts, words and documents are untouched |
| LegacyLsa.LSA.ProcessSpace | Cde-LSA-Java/LSA.java:121-163 | the TF-IDF map gains the entry of every positive count, and the count map is empty afterwards |
| LegacyLsa.LSA.HeaderLine | Cde-LSA-Java/LSA.java:236-243 | the header is the document names joined by single spaces |
| LegacyLsa.LSA.RowLine | Cde-LSA-Java/LSA.java:247-257 | a row is the word, a space, then each document's count or `0`, separated by single spaces |
| LegacyLsa.LSA.SaveWordDocumentMatrix | Cde-LSA-Java/LSA.java:232-260 | the file written is the header line, then one row per listed word |
| LegacyLsa.LSA.PutRowCounts | Cde-LSA-Java/LSA.java:220-228 | one row's counts are put as the row load specifies |
| LegacyLsa.LSA.LoadWordDocumentMatrix | Cde-LSA-Java/LSA.java:195-230 | documents and counts are those the load specifies, words are empty, and the TF-IDF map is untouched |
| LegacyLsa.LSA.ListDocuments | Cde-LSA-Java/LSA.java:204-207 | the documents are the header's pieces, each once, in order |
| LegacyLsa.LSA.LoadCountRows | Cde-LSA-Java/LSA.java:209-229 | the row loop loads the rows after the header as specified, stopping at the first bad line |

## Left out

- File and stream I/O. Files are sequences of lines (`Option<seq<string>>` where a file can be missing), and the matrix file is a field holding its records. `PrintWriter`, `BufferedReader`, `FileChannel`, temporary files, flushing and closing are not modelled. An `IOException` is not modelled; `IOError` wrapping is not either.
- Concurrency. `ConcurrentHashMap`, `AtomicInteger`, the double-checked lock in `addTerm` and the `synchronized` blocks are modelled as one sequential class. Thread-safety is not verified.
- `IteratorFactory.tokenize` is not part of this model. `processDocument` takes the token stream as a sequence.
- SVD and linear algebra. `SVD.svd`, `SVD.Algorithm.valueOf` and `Matrices.transpose` are one function parameter, returning the word space and the transposed document space, or nothing on failure.
- LogEntropyTransformer.EntropyWeight: only the upper bound of the global weight's range [0, 1] is proved, by `EntropyWeightAtMostOne`. The lower bound `entropySum >= -log2(numDocs)` is Gibbs' inequality, which needs more of the logarithm than `LogLaws` states. It also holds only for a matrix file written by ingestion, which keeps one record per (term, document) pair with document indices in 1..`numDocs` (LatentSemanticAnalysis.java:263, 312). For any other file the Java as written can give a negative global weight when a term has more records than `numDocs`. Four equal records of one term with `numDocs` = 2 give `1 + log2(1/4) / log2(2) = -1`.
- Floating point. `Math.log`, `Statistics.log2` and `log2_1p` are function parameters on reals. `LogLaws` assumes `log(1) = 0`, a log at most 0 on (0, 1] and a positive log above 1. Rounding is not modelled, and neither is the exact IEEE value of a NaN or an infinity, nor the printed form of a `double`.
- Reflection. `Class.forName` and `newInstance` are replaced by the closed set of three strategies, keyed by their class names.
- Logging, `toString`, `TfIdfTransformer.main` and the unused locals (`numTerms`, `docToNumTerms`, `globalTermCount`).
- The trivial getters: `getWords`, `getSpaceName`, `getVectorSize`, `getWordCount`, `getDocCount`.
- In `LSA.java`, the commented-out spell checker and `convertMapToMatrix`, and `reduceDimensionality`, which is empty.
- In `LSA.java`, the similarity code and its helpers. `computeDistances` and `computeSimilarity`, which always returns 0, depend on classes that are not part of this model. `resize`, `reduce`, `saveSVDresults` and `loadSVDresults` are stubs.
- `LegacyLsa.SaveLoadRoundTrip` and `LegacyLsa.SaveLoadRoundTripCorrected`: hold only for document names without a space. `parseDocument` lists any filename (LSA.java:93), and the header is split on single spaces (LSA.java:204-207), so a name like `my notes.txt` comes back as two documents and each saved row then fails its field count (`LegacyLsa.SpaceInDocumentNameBreaksLoad`). Neither the save nor the load escapes names, so no correction is modelled. Words never hold a space, because `cleanup` keeps only word characters.
- `isValid` always returns true, so the model leaves its call out.
- `LogEntropyTransformer.Transform`: takes the input's lines as a value, so it cannot express `transform(f, f)` on one file. Java opens the output writer (LogEntropyTransformer.java:150) before pass 3 reopens the input (line 155), which truncates `f`: pass 3 then reads nothing and no record is written. This is the hazard of Finding 5. `processSpace` always writes to a fresh temporary file (lines 77-83), so it never meets it.
- HashMap iteration order is not specified by Java. The TF-IDF write loop visits the pairs in the order of their first record; contracts about that loop speak of that order.
- Integer overflow of counters and sums.
  - The document and term counters, the word counts, `docToTermCount` and `termToGlobalCount` are unbounded integers and never wrap at 2^31.
  - `Integer.valueOf` is modelled with its range check. `Pair.hashCode` uses wrap-around (`WrapSum`).
  - `LegacyLsa.LSA.ParseDocument`: does not model a count reaching 2^31 and wrapping.
  - `TfIdfTransformer.DocTotalSumsCounts`: states the true sum; the Java sum wraps beyond 2^31 - 1.
  - `LogEntropyTransformer.GlobalCountSumsCounts`: states the true sum; the Java sum wraps beyond 2^31 - 1.
- `toLowerCase` depends on the default locale and on Unicode. The model lowers `A`-`Z` only, which is all that can remain after `\W` is removed without flags. Java's `\w` and `\s` are taken as the ASCII classes, which is their meaning without flags. `Integer.parseInt` is modelled for ASCII digits only; Java also accepts other Unicode digits.
- `docFreq` in `LSA.processSpace` is a `double` counter. It is modelled as an integer, which is exact for any realistic number of documents.
- An empty matrix file makes `documentsLine.split` throw a `NullPointerException`. It is modelled as the error `MissingHeader`.
- `loadWordDocumentMatrix` splits every line as it reads it. The model splits the lines first and then loads the rows, which gives the same outcome because the loop stops at the first error.
- The `LatentSemanticAnalysis()` constructor reads the system properties and ignores them. Only the constructor taking properties is modelled, and it ignores them too.

## Findings

Each row has a member that models the code as written, and a corrected definition with its property proved. Nothing was executed.

| source | as written | input that shows it | evidently intended | confidence | as-written member | corrected member |
|---|---|---|---|---|---|---|
| Cde-LSA-Java/LSA.java:226-227 | `docIter.next()` advances only when a count is positive, so a count after a zero is put at the wrong document | documents `a b`, row `w 0 1`: the load stores (w, a) = 1 instead of (w, b) = 1 | advance the document iterator for every column | high (not executed) | LegacyLsa.SaveLoadMisaligns | LegacyLsa.SaveLoadRoundTripCorrected |
| Cde-LSA-Java/LSA.java:196-199 | `words` is cleared and never refilled, so saving after a load writes no row | save the words `[w]` with any count, load, save again: only the header line is written | `words.add(word)` for each row read | high (not executed) | LegacyLsa.SaveAfterLoadLosesRows | LegacyLsa.SaveLoadRoundTripCorrected |
| Cde-LSA-Java/LSA.java:105-115 | a token of punctuation cleans to `""`, and the empty string is counted as a word | a line `--` within lines 41-500 counts one occurrence of `""` | skip empty cleaned tokens | medium (not executed) | LegacyLsa.PunctuationCountsAsEmptyWord | LegacyLsa.LineWordsCorrectedMembers |
| Cde-LSA-Java/LogEntropyTransformer.java:166 | `entropySum / log2(numDocs)` has no guard for one document: `log2(1)` is 0 and every weight becomes NaN or infinite | the matrix file `1 1 1` | treat one document like no document: global weight 1 | high (not executed) | LogEntropyTransformer.OneDocumentWeightsNonFinite | LogEntropyTransformer.CorrectedWeightsFinite |
| Cde-LSA-Java/NoTransform.java:42-47 | opening the output truncates it before `original.size()` is read, so copying a file onto itself empties it | `transform(f, f)` with `f` holding `1 1 2` | read the input before the output is opened, or skip the copy when the files are the same | medium (not executed) | NoTransform.SameFileCopyTruncates | NoTransform.CorrectedCopyDuplicates |
| Cde-LSA-Java/LSA.java:204-207 | `"".split(" ")` is `[""]`, so an empty header line declares one document named `""` | save with no document, then load: one phantom document `""`; any saved row then fails with "Missing occurrence counts on line 1" | an empty header declares no document | medium (not executed) | LegacyLsa.EmptyHeaderPhantomDocument | LegacyLsa.SaveLoadRoundTripCorrected |

Another defect is masked rather than visible. `Pair.equals` compares the terms twice and never the documents (`TfIdfTransformer.PairEqualsIgnoresDoc`). A `HashMap` compares hash codes before calling `equals`, and `hashCode` is `term + doc`. So two pairs are the same key exactly when both fields agree (`TfIdfTransformer.PairKeyIdentity`). The model keys `docToTermFreq` on the (term, doc) pair.
