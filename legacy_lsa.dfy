/**
 * LSA, the older in-memory latent semantic analysis class. It counts words per named
 * document in a map keyed by (word, document), weights the counts with TF-IDF in
 * `processSpace`, and writes and reads the counts as a dense text matrix: a header line of
 * document names, then one line per word with a count for every document.
 */
module LegacyLsa {
  import opened Results
  import opened JavaText
  import opened Weights
  import Lsa

  /** `edu.ucla.sspace.common.Index`: a (word, document) key compared by value. */
  datatype Index = Index(word: string, document: string)

  type Counts = map<Index, int>

  /** The exceptions the methods throw. */
  datatype LsaException =
    | FileNotFound(path: string)      // FileNotFoundException of `new FileReader`
    | MissingHeader                   // the matrix file is empty: `documentsLine.split` on null
    | MissingCounts(lineNum: int)     // IllegalStateException "Missing occurrence counts on line n"
    | NotAnInteger(text: string)      // NumberFormatException of Integer.valueOf

  const LinesToSkip: int := 40
  const MaxLines: int := 500

  function Min(a: int, b: int): int {
    if a <= b then a else b
  }

  // ---------------------------------------------------------------------------------
  // cleanup

  /** The class `\w` without flags: an ASCII letter, digit or underscore. */
  predicate IsWordChar(c: char) {
    'a' <= c <= 'z' || 'A' <= c <= 'Z' || '0' <= c <= '9' || c == '_'
  }

  /** What `cleanup` can return: lower-case letters, digits and underscores. */
  predicate IsCleanChar(c: char) {
    'a' <= c <= 'z' || '0' <= c <= '9' || c == '_'
  }

  /** `word.replaceAll("\\W", "")`: the word characters, in order. */
  function WordChars(s: string): string {
    if s == [] then [] else (if IsWordChar(s[0]) then [s[0]] else []) + WordChars(s[1..])
  }

  function LowerChar(c: char): char {
    if 'A' <= c <= 'Z' then (c as int - 'A' as int + 'a' as int) as char else c
  }

  /** `toLowerCase()` on a string of word characters, where it maps `A`-`Z` to `a`-`z`. */
  function LowerCase(s: string): string {
    seq(|s|, i requires 0 <= i < |s| => LowerChar(s[i]))
  }

  /** `cleanup(word)`. */
  function Cleanup(word: string): string {
    LowerCase(WordChars(word))
  }

  lemma {:induction false} WordCharsAreWordChars(s: string)
    ensures forall i :: 0 <= i < |WordChars(s)| ==> IsWordChar(WordChars(s)[i])
    ensures |WordChars(s)| <= |s|
  {
    if s != [] {
      WordCharsAreWordChars(s[1..]);
    }
  }

  /** A string of word characters has nothing to remove. */
  lemma {:induction false} WordCharsOfWord(s: string)
    requires forall i :: 0 <= i < |s| ==> IsWordChar(s[i])
    ensures WordChars(s) == s
  {
    if s != [] {
      WordCharsOfWord(s[1..]);
      assert s == [s[0]] + s[1..];
    }
  }

  /** Characters none of which is a word character are all removed. */
  lemma {:induction false} WordCharsOfNonWord(s: string)
    requires forall i :: 0 <= i < |s| ==> !IsWordChar(s[i])
    ensures WordChars(s) == []
  {
    if s != [] {
      WordCharsOfNonWord(s[1..]);
    }
  }

  /** Some word character survives the removal. */
  lemma {:induction false} WordCharsKeepsWordChar(s: string, i: nat)
    requires i < |s| && IsWordChar(s[i])
    ensures WordChars(s) != []
  {
    if i > 0 {
      WordCharsKeepsWordChar(s[1..], i - 1);
    }
  }

  /** `cleanup` returns only characters of `[a-z0-9_]`. */
  lemma CleanupAlphabet(word: string)
    ensures forall i :: 0 <= i < |Cleanup(word)| ==> IsCleanChar(Cleanup(word)[i])
  {
    WordCharsAreWordChars(word);
  }

  /** A word is its own cleanup exactly when it is already made of `[a-z0-9_]`. */
  lemma CleanupFixedPoints(word: string)
    ensures Cleanup(word) == word <==> forall i :: 0 <= i < |word| ==> IsCleanChar(word[i])
  {
    CleanupAlphabet(word);
    if forall i :: 0 <= i < |word| ==> IsCleanChar(word[i]) {
      WordCharsOfWord(word);
      assert LowerCase(word) == word;
    }
  }

  /** Cleaning a cleaned word changes nothing. */
  lemma CleanupIdempotent(word: string)
    ensures Cleanup(Cleanup(word)) == Cleanup(word)
  {
    CleanupAlphabet(word);
    CleanupFixedPoints(Cleanup(word));
  }

  /** A token cleans to the empty string exactly when it holds no word character. */
  lemma CleanupEmpty(word: string)
    ensures Cleanup(word) == "" <==> forall i :: 0 <= i < |word| ==> !IsWordChar(word[i])
  {
    if forall i :: 0 <= i < |word| ==> !IsWordChar(word[i]) {
      WordCharsOfNonWord(word);
    } else {
      var i :| 0 <= i < |word| && IsWordChar(word[i]);
      WordCharsKeepsWordChar(word, i);
    }
  }

  // ---------------------------------------------------------------------------------
  // parseDocument: the line window and the words of each line

  /** The lines `parseDocument` reads: the 1-based lines 41 to 500 of the file. */
  function Window(lines: seq<string>): seq<string> {
    if |lines| <= LinesToSkip then [] else lines[LinesToSkip..Min(|lines|, MaxLines)]
  }

  /** The window holds line `LinesToSkip + i` at position `i`, and nothing past line 500. */
  lemma WindowLines(lines: seq<string>)
    ensures |Window(lines)| == if |lines| <= LinesToSkip then 0 else Min(|lines|, MaxLines) - LinesToSkip
    ensures forall i :: 0 <= i < |Window(lines)| ==> Window(lines)[i] == lines[LinesToSkip + i]
    ensures |Window(lines)| <= MaxLines - LinesToSkip
  {
  }

  /** Reading one more line below line 500: skipped among the first 40, otherwise it joins the window. */
  lemma WindowStep(lines: seq<string>, k: nat)
    requires k < |lines| && k < MaxLines
    ensures k < LinesToSkip ==> Window(lines[..k + 1]) == []
    ensures LinesToSkip <= k ==> Window(lines[..k + 1]) == Window(lines[..k]) + [lines[k]]
  {
    if LinesToSkip <= k {
      assert lines[..k + 1][LinesToSkip..k + 1] == lines[..k][LinesToSkip..k] + [lines[k]];
    }
  }

  /** The loop stops at the end of the file or after line 500; either way it has read the window. */
  lemma WindowComplete(lines: seq<string>, k: nat)
    requires k == |lines| || (k == MaxLines && k < |lines|)
    ensures Window(lines[..k]) == Window(lines)
  {
    if k == |lines| {
      assert lines[..k] == lines;
    } else {
      assert lines[..k][LinesToSkip..k] == lines[LinesToSkip..MaxLines];
    }
  }

  /** `cleanup` of each piece, in order. */
  function CleanAll(text: seq<string>): seq<string> {
    if text == [] then [] else CleanAll(text[..|text| - 1]) + [Cleanup(text[|text| - 1])]
  }

  /** The words `parseDocument` counts for one line: `cleanup` of each piece of `line.split("\\s")`. */
  function LineWords(line: string): seq<string> {
    CleanAll(Split(line, IsWhitespace))
  }

  /** The words of the lines, line after line. */
  function DocumentWords(lines: seq<string>): seq<string> {
    if lines == [] then [] else DocumentWords(lines[..|lines| - 1]) + LineWords(lines[|lines| - 1])
  }

  lemma CleanAllSnoc(text: seq<string>, j: nat)
    requires j < |text|
    ensures CleanAll(text[..j + 1]) == CleanAll(text[..j]) + [Cleanup(text[j])]
  {
    assert text[..j + 1][..j] == text[..j];
  }

  lemma DocumentWordsSnoc(lines: seq<string>, line: string)
    ensures DocumentWords(lines + [line]) == DocumentWords(lines) + LineWords(line)
  {
    assert (lines + [line])[..|lines|] == lines;
  }

  /** Reading the line at `k` inside the window lists and counts its words after those of the window before it. */
  lemma WindowLineRead(words0: seq<string>, counts0: Counts, filename: string, lines: seq<string>, k: nat)
    requires LinesToSkip <= k < |lines| && k < MaxLines
    ensures Lsa.Extend(words0, DocumentWords(Window(lines[..k + 1])))
         == Lsa.Extend(Lsa.Extend(words0, DocumentWords(Window(lines[..k]))), LineWords(lines[k]))
    ensures CountWords(counts0, filename, DocumentWords(Window(lines[..k + 1])))
         == CountWords(CountWords(counts0, filename, DocumentWords(Window(lines[..k]))), filename, LineWords(lines[k]))
  {
    var before := DocumentWords(Window(lines[..k]));
    WindowStep(lines, k);
    DocumentWordsSnoc(Window(lines[..k]), lines[k]);
    Lsa.ExtendAppend(words0, before, LineWords(lines[k]));
    CountWordsAppend(counts0, filename, before, LineWords(lines[k]));
  }

  // ---------------------------------------------------------------------------------
  // Counting: getCount and the put of parseDocument

  /** `getCount(word, document)`: the stored count, or 0 for an absent pair. */
  function Get(counts: Counts, word: string, document: string): int {
    if Index(word, document) in counts then counts[Index(word, document)] else 0
  }

  /** `wordToDocumentCount` after `put(new Index(w, doc), 1 + getCount(w, doc))` for each word in turn. */
  function CountWords(counts: Counts, doc: string, ws: seq<string>): Counts {
    if ws == [] then counts
    else
      var before := CountWords(counts, doc, ws[..|ws| - 1]);
      var w := ws[|ws| - 1];
      before[Index(w, doc) := 1 + Get(before, w, doc)]
  }

  lemma CountWordsSnoc(counts: Counts, doc: string, ws: seq<string>, w: string)
    ensures CountWords(counts, doc, ws + [w])
         == var before := CountWords(counts, doc, ws); before[Index(w, doc) := 1 + Get(before, w, doc)]
  {
    assert (ws + [w])[..|ws|] == ws;
  }

  /** Counting two runs of words one after the other. */
  lemma {:induction false} CountWordsAppend(counts: Counts, doc: string, first: seq<string>, second: seq<string>)
    ensures CountWords(counts, doc, first + second) == CountWords(CountWords(counts, doc, first), doc, second)
    decreases |second|
  {
    if second == [] {
      assert first + second == first;
    } else {
      var prefix := second[..|second| - 1];
      var w := second[|second| - 1];
      var mid := CountWords(counts, doc, first);
      var before := CountWords(mid, doc, prefix);
      calc {
        CountWords(counts, doc, first + second);
      == { assert first + second == (first + prefix) + [w];
           CountWordsSnoc(counts, doc, first + prefix, w);
           CountWordsAppend(counts, doc, first, prefix); }
        before[Index(w, doc) := 1 + Get(before, w, doc)];
      == { assert second == prefix + [w];
           CountWordsSnoc(mid, doc, prefix, w); }
        CountWords(mid, doc, second);
      }
    }
  }

  /**
   * Each occurrence of a word raises the count of (word, doc) by exactly one; the counts of
   * every other pair, those of other documents included, stay as they were.
   */
  lemma {:induction false} CountWordsOccurrences(counts: Counts, doc: string, ws: seq<string>, w: string, d: string)
    ensures Get(CountWords(counts, doc, ws), w, d) == Get(counts, w, d) + (if d == doc then Lsa.Occurrences(ws, w) else 0)
    ensures Index(w, d) in CountWords(counts, doc, ws) <==> Index(w, d) in counts || (d == doc && w in ws)
  {
    if ws != [] {
      var prefix := ws[..|ws| - 1];
      CountWordsOccurrences(counts, doc, prefix, w, d);
      assert ws == prefix + [ws[|ws| - 1]];
    }
  }

  /** Listing the cleaned next piece of a line extends the words listed for the pieces before it. */
  lemma ListPieceStep(words0: seq<string>, text: seq<string>, j: nat, words: seq<string>)
    requires j < |text| && words == Lsa.Extend(words0, CleanAll(text[..j]))
    ensures (if Cleanup(text[j]) in words then words else words + [Cleanup(text[j])])
         == Lsa.Extend(words0, CleanAll(text[..j + 1]))
  {
    CleanAllSnoc(text, j);
    Lsa.ExtendSnoc(words0, CleanAll(text[..j]), Cleanup(text[j]));
  }

  /** Counting the cleaned next piece of a line extends the counts of the pieces before it. */
  lemma CountPieceStep(counts0: Counts, doc: string, text: seq<string>, j: nat, counts: Counts)
    requires j < |text| && counts == CountWords(counts0, doc, CleanAll(text[..j]))
    ensures counts[Index(Cleanup(text[j]), doc) := 1 + Get(counts, Cleanup(text[j]), doc)]
         == CountWords(counts0, doc, CleanAll(text[..j + 1]))
  {
    CleanAllSnoc(text, j);
    CountWordsSnoc(counts0, doc, CleanAll(text[..j]), Cleanup(text[j]));
  }

  // ---------------------------------------------------------------------------------
  // processSpace: TF-IDF over the counts

  /** `documentToTermCount.get(d)`: the sum of the document's counts over the words. */
  function TermTotal(counts: Counts, ws: seq<string>, d: string): int {
    if ws == [] then 0 else TermTotal(counts, ws[..|ws| - 1], d) + Get(counts, ws[|ws| - 1], d)
  }

  /** `docFreq`: the number of documents in which the word has a positive count. */
  function DocFreq(counts: Counts, w: string, docs: seq<string>): int {
    if docs == [] then 0 else DocFreq(counts, w, docs[..|docs| - 1]) + (if Get(counts, w, docs[|docs| - 1]) > 0 then 1 else 0)
  }

  /** The value put at (w, d): `freq / documentToTermCount.get(d) * Math.log(documents.size() / docFreq)`. */
  function Entry(counts: Counts, ws: seq<string>, docs: seq<string>, w: string, d: string, ln: real -> real): Weight {
    var norm := Ratio(Get(counts, w, d) as real, TermTotal(counts, ws, d) as real);
    var invDocFreq := LogOf(ln, Ratio(|docs| as real, DocFreq(counts, w, docs) as real));
    Mul(norm, invDocFreq)
  }

  /** The inner loop of `processSpace` for one word, over the documents `ds`. */
  function WeighWord(m: map<Index, Weight>, counts: Counts, ws: seq<string>, docs: seq<string>, w: string,
                     ds: seq<string>, ln: real -> real): map<Index, Weight>
  {
    if ds == [] then m
    else
      var before := WeighWord(m, counts, ws, docs, w, ds[..|ds| - 1], ln);
      var d := ds[|ds| - 1];
      if Get(counts, w, d) > 0 then before[Index(w, d) := Entry(counts, ws, docs, w, d, ln)] else before
  }

  /** The outer loop of `processSpace`, over the words `vs`. */
  function WeighWords(m: map<Index, Weight>, counts: Counts, ws: seq<string>, docs: seq<string>,
                      vs: seq<string>, ln: real -> real): map<Index, Weight>
  {
    if vs == [] then m
    else WeighWord(WeighWords(m, counts, ws, docs, vs[..|vs| - 1], ln), counts, ws, docs, vs[|vs| - 1], docs, ln)
  }

  lemma {:induction false} WeighWordEntries(m: map<Index, Weight>, counts: Counts, ws: seq<string>, docs: seq<string>,
                                            w: string, ds: seq<string>, ln: real -> real, k: Index)
    ensures var r := WeighWord(m, counts, ws, docs, w, ds, ln);
      var listed := k.word == w && k.document in ds && Get(counts, k.word, k.document) > 0;
      && (k in r <==> k in m || listed)
      && (listed ==> r[k] == Entry(counts, ws, docs, k.word, k.document, ln))
      && (!listed && k in m ==> r[k] == m[k])
  {
    if ds != [] {
      var prefix := ds[..|ds| - 1];
      WeighWordEntries(m, counts, ws, docs, w, prefix, ln, k);
      assert ds == prefix + [ds[|ds| - 1]];
    }
  }

  /**
   * After `processSpace` over the words `vs`, the TF-IDF matrix holds an entry for (w, d)
   * exactly when it held one before or w is one of the words, d one of the documents, and
   * the count of (w, d) is positive; such an entry is the TF-IDF value, every other entry is kept.
   */
  lemma {:induction false} WeighWordsEntries(m: map<Index, Weight>, counts: Counts, ws: seq<string>, docs: seq<string>,
                                             vs: seq<string>, ln: real -> real, k: Index)
    ensures var r := WeighWords(m, counts, ws, docs, vs, ln);
      var listed := k.word in vs && k.document in docs && Get(counts, k.word, k.document) > 0;
      && (k in r <==> k in m || listed)
      && (listed ==> r[k] == Entry(counts, ws, docs, k.word, k.document, ln))
      && (!listed && k in m ==> r[k] == m[k])
  {
    if vs != [] {
      var prefix := vs[..|vs| - 1];
      WeighWordsEntries(m, counts, ws, docs, prefix, ln, k);
      WeighWordEntries(WeighWords(m, counts, ws, docs, prefix, ln), counts, ws, docs, vs[|vs| - 1], docs, ln, k);
      assert vs == prefix + [vs[|vs| - 1]];
    }
  }

  predicate NonNegative(counts: Counts) {
    forall k :: k in counts ==> counts[k] >= 0
  }

  /** With no negative count, a document's total is at least the count of each of its listed words. */
  lemma {:induction false} TermTotalAtLeastCount(counts: Counts, ws: seq<string>, d: string, w: string)
    requires NonNegative(counts)
    ensures TermTotal(counts, ws, d) >= 0
    ensures w in ws ==> TermTotal(counts, ws, d) >= Get(counts, w, d)
  {
    if ws != [] {
      var prefix := ws[..|ws| - 1];
      TermTotalAtLeastCount(counts, prefix, d, w);
      assert ws == prefix + [ws[|ws| - 1]];
    }
  }

  /** The document frequency lies between 1 and the number of documents once the word occurs. */
  lemma {:induction false} DocFreqBounds(counts: Counts, w: string, docs: seq<string>)
    ensures 0 <= DocFreq(counts, w, docs) <= |docs|
    ensures (exists i :: 0 <= i < |docs| && Get(counts, w, docs[i]) > 0) ==> DocFreq(counts, w, docs) >= 1
    ensures (forall i :: 0 <= i < |docs| ==> Get(counts, w, docs[i]) > 0) ==> DocFreq(counts, w, docs) == |docs|
  {
    if docs != [] {
      var prefix := docs[..|docs| - 1];
      DocFreqBounds(counts, w, prefix);
      if exists i :: 0 <= i < |docs| && Get(counts, w, docs[i]) > 0 {
        var i :| 0 <= i < |docs| && Get(counts, w, docs[i]) > 0;
        if i < |prefix| {
          assert prefix[i] == docs[i];
        }
      }
      if forall i :: 0 <= i < |docs| ==> Get(counts, w, docs[i]) > 0 {
        assert forall i :: 0 <= i < |prefix| ==> prefix[i] == docs[i];
      }
    }
  }

  /** A listed word's frequency in a document where it occurs is a fraction in (0, 1]. */
  lemma TermFrequencyInUnitInterval(counts: Counts, ws: seq<string>, w: string, d: string)
    requires NonNegative(counts) && w in ws && Get(counts, w, d) > 0
    ensures var norm := Ratio(Get(counts, w, d) as real, TermTotal(counts, ws, d) as real);
      norm.Finite? && 0.0 < norm.value <= 1.0
  {
    TermTotalAtLeastCount(counts, ws, d, w);
    RatioInUnitInterval(Get(counts, w, d), TermTotal(counts, ws, d));
  }

  /** The inverse document frequency of a word that occurs somewhere is finite and never negative. */
  lemma InverseDocFreqNonNegative(counts: Counts, w: string, docs: seq<string>, d: string, ln: real -> real)
    requires LogLaws(ln) && d in docs && Get(counts, w, d) > 0
    ensures var idf := LogOf(ln, Ratio(|docs| as real, DocFreq(counts, w, docs) as real));
      idf.Finite? && idf.value >= 0.0
  {
    var i :| 0 <= i < |docs| && docs[i] == d;
    DocFreqBounds(counts, w, docs);
    RatioAtLeastOne(|docs|, DocFreq(counts, w, docs));
  }

  /** Every TF-IDF entry is a finite, non-negative value. */
  lemma EntryNonNegative(counts: Counts, ws: seq<string>, docs: seq<string>, w: string, d: string, ln: real -> real)
    requires LogLaws(ln) && NonNegative(counts) && w in ws && d in docs && Get(counts, w, d) > 0
    ensures Entry(counts, ws, docs, w, d, ln).Finite? && Entry(counts, ws, docs, w, d, ln).value >= 0.0
  {
    TermFrequencyInUnitInterval(counts, ws, w, d);
    InverseDocFreqNonNegative(counts, w, docs, d, ln);
  }

  /** A word with a positive count in every document weighs 0 everywhere: `log(n / n)` is 0. */
  lemma UbiquitousWordWeightsZero(counts: Counts, ws: seq<string>, docs: seq<string>, w: string, d: string, ln: real -> real)
    requires LogLaws(ln) && NonNegative(counts) && w in ws && d in docs
    requires forall i :: 0 <= i < |docs| ==> Get(counts, w, docs[i]) > 0
    ensures Entry(counts, ws, docs, w, d, ln) == Finite(0.0)
  {
    var i :| 0 <= i < |docs| && docs[i] == d;
    TermFrequencyInUnitInterval(counts, ws, w, d);
    DocFreqBounds(counts, w, docs);
    assert |docs| as real / |docs| as real == 1.0;
  }

  /** The sum over the words `ws` of the number of times each occurs in `tokens`. */
  function SumOccurrences(ws: seq<string>, tokens: seq<string>): int {
    if ws == [] then 0 else SumOccurrences(ws[..|ws| - 1], tokens) + Lsa.Occurrences(tokens, ws[|ws| - 1])
  }

  lemma {:induction false} SumOccurrencesSnoc(ws: seq<string>, tokens: seq<string>, t: string)
    ensures SumOccurrences(ws, tokens + [t]) == SumOccurrences(ws, tokens) + Lsa.Occurrences(ws, t)
  {
    if ws != [] {
      var prefix := ws[..|ws| - 1];
      var w := ws[|ws| - 1];
      SumOccurrencesSnoc(prefix, tokens, t);
      assert (tokens + [t])[..|tokens|] == tokens;
      assert ws == prefix + [w];
    }
  }

  lemma {:induction false} OccurrencesOfDistinct(ws: seq<string>, t: string)
    requires Lsa.Distinct(ws) && t in ws
    ensures Lsa.Occurrences(ws, t) == 1
  {
    var prefix := ws[..|ws| - 1];
    assert ws == prefix + [ws[|ws| - 1]];
    Lsa.TokenCountsOccurrences(prefix, t);
    if ws[|ws| - 1] != t {
      assert Lsa.Distinct(prefix);
      OccurrencesOfDistinct(prefix, t);
    }
  }

  /** Summed over distinct words covering every token, the occurrences add up to the number of tokens. */
  lemma {:induction false} SumOccurrencesCoversTokens(ws: seq<string>, tokens: seq<string>)
    requires Lsa.Distinct(ws) && forall i :: 0 <= i < |tokens| ==> tokens[i] in ws
    ensures SumOccurrences(ws, tokens) == |tokens|
  {
    if tokens == [] {
      ZeroOccurrences(ws);
    } else {
      var prefix := tokens[..|tokens| - 1];
      var t := tokens[|tokens| - 1];
      SumOccurrencesCoversTokens(ws, prefix);
      assert tokens == prefix + [t];
      SumOccurrencesSnoc(ws, prefix, t);
      OccurrencesOfDistinct(ws, t);
    }
  }

  lemma {:induction false} ZeroOccurrences(ws: seq<string>)
    ensures SumOccurrences(ws, []) == 0
  {
    if ws != [] {
      ZeroOccurrences(ws[..|ws| - 1]);
    }
  }

  lemma {:induction false} TermTotalOfCounts(counts: Counts, ws: seq<string>, d: string, tokens: seq<string>)
    requires forall w :: Get(counts, w, d) == Lsa.Occurrences(tokens, w)
    ensures TermTotal(counts, ws, d) == SumOccurrences(ws, tokens)
  {
    if ws != [] {
      TermTotalOfCounts(counts, ws[..|ws| - 1], d, tokens);
    }
  }

  /**
   * The total that normalises a document's frequencies is its number of counted words: for
   * the counts of one document's words over distinct words covering them.
   */
  lemma TermTotalCountsWords(ws: seq<string>, d: string, tokens: seq<string>)
    requires Lsa.Distinct(ws) && forall i :: 0 <= i < |tokens| ==> tokens[i] in ws
    ensures TermTotal(CountWords(map[], d, tokens), ws, d) == |tokens|
  {
    var counts := CountWords(map[], d, tokens);
    forall w ensures Get(counts, w, d) == Lsa.Occurrences(tokens, w) {
      CountWordsOccurrences(map[], d, tokens, w, d);
    }
    TermTotalOfCounts(counts, ws, d, tokens);
    SumOccurrencesCoversTokens(ws, tokens);
  }
  // ---------------------------------------------------------------------------------
  // saveWordDocumentMatrix and loadWordDocumentMatrix

  /** What `sb.append((count == null) ? "0" : count)` writes for (w, d). */
  function CountText(counts: Counts, w: string, d: string): string {
    if Index(w, d) in counts then IntText(counts[Index(w, d)]) else "0"
  }

  /** The counts of a word in document order, as text. */
  function CountTexts(counts: Counts, w: string, docs: seq<string>): seq<string> {
    seq(|docs|, i requires 0 <= i < |docs| => CountText(counts, w, docs[i]))
  }

  /** The row of a word: the word and a space, then its counts separated by single spaces. */
  function Row(counts: Counts, w: string, docs: seq<string>): string {
    w + " " + Join(CountTexts(counts, w, docs), ' ')
  }

  /** The rows of the words, in order. */
  function SavedRows(counts: Counts, ws: seq<string>, docs: seq<string>): seq<string> {
    seq(|ws|, j requires 0 <= j < |ws| => Row(counts, ws[j], docs))
  }

  /** The file `saveWordDocumentMatrix` writes: the document names on line 1, then one row per word. */
  function SaveLines(counts: Counts, ws: seq<string>, docs: seq<string>): seq<string> {
    [Join(docs, ' ')] + SavedRows(counts, ws, docs)
  }

  lemma SavedRowsCons(counts: Counts, ws: seq<string>, docs: seq<string>)
    requires ws != []
    ensures SavedRows(counts, ws, docs) == [Row(counts, ws[0], docs)] + SavedRows(counts, ws[1..], docs)
  {
  }

  /**
   * The inner loop of `loadWordDocumentMatrix` over the counts of one row: `Integer.valueOf`
   * of each, and for a positive count a put at the document `docIter.next()` returns, the
   * iterator standing at position `next`. A failure keeps the puts made so far.
   */
  function RowPuts(counts: Counts, word: string, docs: seq<string>, fields: seq<string>, next: nat)
    : (Outcome<LsaException>, Counts)
    requires next + |fields| <= |docs|
    decreases |fields|
  {
    if fields == [] then (Pass, counts)
    else
      match ParseInt(fields[0])
      case None => (Fail(NotAnInteger(fields[0])), counts)
      case Some(v) =>
        if v > 0 then RowPuts(counts[Index(word, docs[next]) := v], word, docs, fields[1..], next + 1)
        else RowPuts(counts, word, docs, fields[1..], next)
  }

  /** `line.split(" ")` of each line. */
  function SplitRows(lines: seq<string>): seq<seq<string>> {
    seq(|lines|, i requires 0 <= i < |lines| => Split(lines[i], IsSpace))
  }

  /**
   * One line after the header, split into its fields, `lineNum` lines having been read before
   * it: the check that there is one count per document, then the puts of its counts.
   */
  function LoadLine(counts: Counts, docs: seq<string>, tokens: seq<string>, lineNum: int): (Outcome<LsaException>, Counts) {
    if |tokens| - 1 != |docs| then (Fail(MissingCounts(lineNum + 1)), counts)
    else RowPuts(counts, tokens[0], docs, tokens[1..], 0)
  }

  /** The outer loop over the split rows; `lineNum` rows were read before them. */
  function LoadRows(counts: Counts, docs: seq<string>, rows: seq<seq<string>>, lineNum: int): (Outcome<LsaException>, Counts)
    decreases |rows|
  {
    if rows == [] then (Pass, counts)
    else
      var line := LoadLine(counts, docs, rows[0], lineNum);
      if line.0.Fail? then line else LoadRows(line.1, docs, rows[1..], lineNum + 1)
  }

  /** The documents the header line names, each once, in order (`documents.add` of each piece). */
  function HeaderDocuments(header: string): seq<string> {
    Lsa.Extend([], Split(header, IsSpace))
  }

  /**
   * `loadWordDocumentMatrix(path)` on the file's lines (None: no such file): the outcome, the
   * documents and the counts it leaves. Everything is cleared first; `words` stays empty.
   */
  function LoadFile(path: string, file: Option<seq<string>>): (Outcome<LsaException>, seq<string>, Counts) {
    if file.None? then (Fail(FileNotFound(path)), [], map[])
    else if file.value == [] then (Fail(MissingHeader), [], map[])
    else
      var docs := HeaderDocuments(file.value[0]);
      var loaded := LoadRows(map[], docs, SplitRows(file.value[1..]), 0);
      (loaded.0, docs, loaded.1)
  }

  /** The positive counts of the words `ws` in the documents `docs`. */
  function Positive(counts: Counts, ws: seq<string>, docs: seq<string>): Counts {
    map k | k in counts && k.word in ws && k.document in docs && counts[k] > 0 :: counts[k]
  }

  /** The positive counts of one word in the documents from position `i` on. */
  function RowMap(counts: Counts, w: string, docs: seq<string>, i: nat): Counts
    requires i <= |docs|
  {
    map k | k in counts && k.word == w && k.document in docs[i..] && counts[k] > 0 :: counts[k]
  }

  predicate IntCounts(counts: Counts) {
    forall k :: k in counts ==> IsInt(counts[k])
  }

  /**
   * No row has a count that is not positive before a positive one: the only shape of row for
   * which the iterator of the load stays on the document a count belongs to.
   */
  predicate PositiveFirst(counts: Counts, ws: seq<string>, docs: seq<string>) {
    forall w, a, b :: w in ws && 0 <= a < b < |docs| && Get(counts, w, docs[a]) <= 0 ==> Get(counts, w, docs[b]) <= 0
  }

  /** A count's text is one field that reads back as the count. */
  lemma CountTextIsOneField(counts: Counts, w: string, d: string)
    ensures |CountText(counts, w, d)| >= 1 && Avoids(CountText(counts, w, d), IsSpace)
    ensures IsInt(Get(counts, w, d)) ==> ParseInt(CountText(counts, w, d)) == Some(Get(counts, w, d))
  {
    assert IntText(0) == "0";
    IntTextIsOneField(Get(counts, w, d));
    if IsInt(Get(counts, w, d)) {
      IntTextRoundTrip(Get(counts, w, d));
    }
  }

  /**
   * A saved row, read back with `split(" ")`, is the word followed by one count per
   * document, `0` where no count is stored.
   */
  lemma SavedRowFields(counts: Counts, w: string, docs: seq<string>)
    requires Avoids(w, IsSpace) && |docs| >= 1
    ensures Split(Row(counts, w, docs), IsSpace) == [w] + CountTexts(counts, w, docs)
    ensures |Split(Row(counts, w, docs), IsSpace)| == |docs| + 1
    ensures forall i :: 0 <= i < |docs| && Index(w, docs[i]) !in counts ==> CountTexts(counts, w, docs)[i] == "0"
  {
    var texts := CountTexts(counts, w, docs);
    var fields := [w] + texts;
    assert fields[0] == w && fields[1..] == texts;
    assert Join(fields, ' ') == Row(counts, w, docs);
    forall k | 0 <= k < |fields| ensures Avoids(fields[k], IsSpace) {
      if k > 0 {
        CountTextIsOneField(counts, w, docs[k - 1]);
      }
    }
    CountTextIsOneField(counts, w, docs[|docs| - 1]);
    SplitOfJoin(fields, ' ', IsSpace);
  }

  /** A row without documents is the word and a space; `split(" ")` drops the empty piece after it. */
  lemma SavedRowWithoutDocuments(counts: Counts, w: string)
    requires Avoids(w, IsSpace) && w != ""
    ensures Split(Row(counts, w, []), IsSpace) == [w]
  {
    var fields := [w, ""];
    assert fields[1..] == [""];
    assert Join(fields, ' ') == Row(counts, w, []);
    PiecesOfJoin(fields, ' ', IsSpace);
    assert Row(counts, w, [])[|w|] == ' ';
  }

  /** The header line names the documents. */
  lemma SavedHeader(docs: seq<string>)
    requires |docs| >= 1 && Lsa.Distinct(docs)
    requires forall i :: 0 <= i < |docs| ==> docs[i] != "" && Avoids(docs[i], IsSpace)
    ensures HeaderDocuments(Join(docs, ' ')) == docs
  {
    SplitOfJoin(docs, ' ', IsSpace);
    Lsa.ExtendDistinct(docs);
  }

  /** A positive count extends the positive counts from the next position. */
  lemma RowMapStep(counts: Counts, w: string, docs: seq<string>, i: nat)
    requires i < |docs|
    ensures Get(counts, w, docs[i]) > 0 ==>
      RowMap(counts, w, docs, i) == RowMap(counts, w, docs, i + 1)[Index(w, docs[i]) := Get(counts, w, docs[i])]
    ensures Get(counts, w, docs[i]) <= 0 ==> RowMap(counts, w, docs, i) == RowMap(counts, w, docs, i + 1)
  {
    assert docs[i..] == [docs[i]] + docs[i + 1..];
  }

  lemma UpdateBeforeUnion(a: Counts, b: Counts, k: Index, v: int)
    requires k in b ==> b[k] == v
    ensures a[k := v] + b == a + b[k := v]
  {
  }

  /** Once the counts of a row stop being positive, the rest of the row stores nothing. */
  lemma {:induction false} RowPutsNothing(counts: Counts, c: Counts, w: string, docs: seq<string>, i: nat, next: nat)
    requires i <= |docs| && next + (|docs| - i) <= |docs| && IntCounts(c)
    requires forall j :: i <= j < |docs| ==> Get(c, w, docs[j]) <= 0
    ensures RowPuts(counts, w, docs, CountTexts(c, w, docs)[i..], next) == (Pass, counts)
    ensures RowMap(c, w, docs, i) == map[]
    decreases |docs| - i
  {
    var fields := CountTexts(c, w, docs)[i..];
    if i < |docs| {
      CountTextIsOneField(c, w, docs[i]);
      assert fields[0] == CountText(c, w, docs[i]);
      assert fields[1..] == CountTexts(c, w, docs)[i + 1..];
      RowPutsNothing(counts, c, w, docs, i + 1, next);
      RowMapStep(c, w, docs, i);
    }
  }

  /** The puts of a row whose first field is a number: the first put, then the rest. */
  lemma RowPutsUnfold(counts: Counts, word: string, docs: seq<string>, fields: seq<string>, next: nat)
    requires next + |fields| <= |docs| && fields != [] && ParseInt(fields[0]).Some?
    ensures var v := ParseInt(fields[0]).value;
      RowPuts(counts, word, docs, fields, next)
      == if v > 0 then RowPuts(counts[Index(word, docs[next]) := v], word, docs, fields[1..], next + 1)
         else RowPuts(counts, word, docs, fields[1..], next)
  {
  }

  /** While every count so far was positive, the iterator stands at the current column. */
  lemma {:induction false} RowPutsAligned(counts: Counts, c: Counts, w: string, docs: seq<string>, i: nat)
    requires i <= |docs| && IntCounts(c) && PositiveFirst(c, [w], docs)
    ensures RowPuts(counts, w, docs, CountTexts(c, w, docs)[i..], i) == (Pass, counts + RowMap(c, w, docs, i))
    decreases |docs| - i
  {
    var fields := CountTexts(c, w, docs)[i..];
    if i == |docs| {
      assert counts + RowMap(c, w, docs, i) == counts;
    } else {
      var v := Get(c, w, docs[i]);
      var rest := CountTexts(c, w, docs)[i + 1..];
      assert fields != [] && ParseInt(fields[0]) == Some(v) && fields[1..] == rest by {
        CountTextIsOneField(c, w, docs[i]);
        assert fields[0] == CountText(c, w, docs[i]);
      }
      RowPutsUnfold(counts, w, docs, fields, i);
      RowMapStep(c, w, docs, i);
      if v > 0 {
        var k := Index(w, docs[i]);
        assert RowPuts(counts, w, docs, fields, i) == RowPuts(counts[k := v], w, docs, rest, i + 1);
        RowPutsAligned(counts[k := v], c, w, docs, i + 1);
        UpdateBeforeUnion(counts, RowMap(c, w, docs, i + 1), k, v);
      } else {
        assert RowPuts(counts, w, docs, fields, i) == RowPuts(counts, w, docs, rest, i);
        NothingAfterNonPositive(c, w, docs, i);
        RowPutsNothing(counts, c, w, docs, i + 1, i);
        assert counts + RowMap(c, w, docs, i) == counts;
      }
    }
  }

  /** A row without a zero before a positive count has none after its first non-positive one. */
  lemma NothingAfterNonPositive(c: Counts, w: string, docs: seq<string>, i: nat)
    requires i < |docs| && PositiveFirst(c, [w], docs) && Get(c, w, docs[i]) <= 0
    ensures forall j :: i + 1 <= j < |docs| ==> Get(c, w, docs[j]) <= 0
  {
    assert w in [w];
  }
  /** One row that loads without error hands its counts on to the rows after it. */
  lemma LoadRowsStep(counts: Counts, docs: seq<string>, rows: seq<seq<string>>, lineNum: int)
    requires rows != [] && LoadLine(counts, docs, rows[0], lineNum).0 == Pass
    ensures LoadRows(counts, docs, rows, lineNum)
         == LoadRows(LoadLine(counts, docs, rows[0], lineNum).1, docs, rows[1..], lineNum + 1)
  {
  }

  lemma UnionAssoc(a: Counts, b: Counts, d: Counts)
    ensures (a + b) + d == a + (b + d)
  {
  }

  /** The positive counts of a list of words: those of its first word, then those of the rest. */
  lemma PositiveCons(c: Counts, ws: seq<string>, docs: seq<string>)
    requires ws != []
    ensures Positive(c, ws, docs) == RowMap(c, ws[0], docs, 0) + Positive(c, ws[1..], docs)
  {
    assert docs[0..] == docs;
    assert forall w :: w in ws <==> w == ws[0] || w in ws[1..];
  }

  /** Adding the counts of the first word, then of the words after it, adds the counts of all. */
  lemma PositiveStep(counts: Counts, c: Counts, ws: seq<string>, docs: seq<string>)
    requires ws != []
    ensures (counts + RowMap(c, ws[0], docs, 0)) + Positive(c, ws[1..], docs) == counts + Positive(c, ws, docs)
  {
    PositiveCons(c, ws, docs);
    UnionAssoc(counts, RowMap(c, ws[0], docs, 0), Positive(c, ws[1..], docs));
  }

  /** The condition holds for the first word on its own and for the words after it. */
  lemma PositiveFirstSplit(c: Counts, ws: seq<string>, docs: seq<string>)
    requires ws != [] && PositiveFirst(c, ws, docs)
    ensures PositiveFirst(c, [ws[0]], docs) && PositiveFirst(c, ws[1..], docs)
  {
    forall w | w in ws[1..] ensures w in ws {
    }
    forall w | w in [ws[0]] ensures w in ws {
    }
  }

  lemma SplitRowsCons(lines: seq<string>)
    requires lines != []
    ensures SplitRows(lines) == [Split(lines[0], IsSpace)] + SplitRows(lines[1..])
  {
  }

  /** The fields of the saved rows of the words: those of the first word's row, then the others'. */
  lemma SavedFieldsCons(c: Counts, ws: seq<string>, docs: seq<string>)
    requires ws != []
    ensures SplitRows(SavedRows(c, ws, docs)) == [Split(Row(c, ws[0], docs), IsSpace)] + SplitRows(SavedRows(c, ws[1..], docs))
  {
    SavedRowsCons(c, ws, docs);
    SplitRowsCons(SavedRows(c, ws, docs));
    assert SavedRows(c, ws, docs)[1..] == SavedRows(c, ws[1..], docs);
  }

  /** A saved row at the head of the rows loads as its word's positive counts. */
  lemma SavedRowLoads(counts: Counts, c: Counts, w: string, docs: seq<string>, rows: seq<seq<string>>, lineNum: int)
    requires rows != [] && rows[0] == Split(Row(c, w, docs), IsSpace)
    requires |docs| >= 1 && IntCounts(c) && PositiveFirst(c, [w], docs) && Avoids(w, IsSpace)
    ensures LoadRows(counts, docs, rows, lineNum) == LoadRows(counts + RowMap(c, w, docs, 0), docs, rows[1..], lineNum + 1)
  {
    SavedLineLoads(counts, c, w, docs, lineNum);
    LoadRowsStep(counts, docs, rows, lineNum);
  }

  /** A saved row reads back as its word's positive counts. */
  lemma SavedLineLoads(counts: Counts, c: Counts, w: string, docs: seq<string>, lineNum: int)
    requires |docs| >= 1 && IntCounts(c) && PositiveFirst(c, [w], docs) && Avoids(w, IsSpace)
    ensures LoadLine(counts, docs, Split(Row(c, w, docs), IsSpace), lineNum) == (Pass, counts + RowMap(c, w, docs, 0))
  {
    SavedRowFields(c, w, docs);
    var tokens := Split(Row(c, w, docs), IsSpace);
    assert tokens[0] == w && tokens[1..] == CountTexts(c, w, docs)[0..];
    RowPutsAligned(counts, c, w, docs, 0);
  }

  /** The saved rows of the words `ws` load as their positive counts, added to what was loaded before. */
  lemma {:induction false} LoadSavedRows(counts: Counts, c: Counts, ws: seq<string>, docs: seq<string>, lineNum: int)
    requires |docs| >= 1 && IntCounts(c) && PositiveFirst(c, ws, docs)
    requires forall i :: 0 <= i < |ws| ==> Avoids(ws[i], IsSpace)
    ensures LoadRows(counts, docs, SplitRows(SavedRows(c, ws, docs)), lineNum) == (Pass, counts + Positive(c, ws, docs))
    decreases |ws|
  {
    if ws == [] {
      assert counts + Positive(c, ws, docs) == counts;
    } else {
      var rows := SplitRows(SavedRows(c, ws, docs));
      SavedFieldsCons(c, ws, docs);
      PositiveFirstSplit(c, ws, docs);
      SavedRowLoads(counts, c, ws[0], docs, rows, lineNum);
      LoadSavedRows(counts + RowMap(c, ws[0], docs, 0), c, ws[1..], docs, lineNum + 1);
      PositiveStep(counts, c, ws, docs);
    }
  }

  /**
   * Saving and loading gives back the documents and the positive counts of the saved words,
   * provided no row has a zero before a positive count (and the names split as written).
   */
  lemma SaveLoadRoundTrip(path: string, c: Counts, ws: seq<string>, docs: seq<string>)
    requires |docs| >= 1 && Lsa.Distinct(docs)
    requires forall i :: 0 <= i < |docs| ==> docs[i] != "" && Avoids(docs[i], IsSpace)
    requires forall i :: 0 <= i < |ws| ==> Avoids(ws[i], IsSpace)
    requires IntCounts(c) && PositiveFirst(c, ws, docs)
    ensures LoadFile(path, Some(SaveLines(c, ws, docs))) == (Pass, docs, Positive(c, ws, docs))
  {
    SavedHeader(docs);
    LoadFileUnfold(path, SaveLines(c, ws, docs));
    LoadSavedRows(map[], c, ws, docs, 0);
    assert SaveLines(c, ws, docs)[1..] == SavedRows(c, ws, docs);
    assert map[] + Positive(c, ws, docs) == Positive(c, ws, docs);
  }

  /** Loading stores only positive counts, each at one of the header's documents. */
  lemma {:induction false} RowPutsStoresPositive(counts: Counts, word: string, docs: seq<string>, fields: seq<string>, next: nat)
    requires next + |fields| <= |docs|
    requires forall k :: k in counts ==> counts[k] > 0 && k.document in docs
    ensures var r := RowPuts(counts, word, docs, fields, next).1;
      forall k :: k in r ==> r[k] > 0 && k.document in docs
    decreases |fields|
  {
    if fields != [] && ParseInt(fields[0]).Some? {
      var v := ParseInt(fields[0]).value;
      if v > 0 {
        RowPutsStoresPositive(counts[Index(word, docs[next]) := v], word, docs, fields[1..], next + 1);
      } else {
        RowPutsStoresPositive(counts, word, docs, fields[1..], next);
      }
    }
  }

  lemma LoadLineStoresPositive(counts: Counts, docs: seq<string>, tokens: seq<string>, lineNum: int)
    requires forall k :: k in counts ==> counts[k] > 0 && k.document in docs
    ensures var r := LoadLine(counts, docs, tokens, lineNum).1;
      forall k :: k in r ==> r[k] > 0 && k.document in docs
  {
    if |tokens| - 1 == |docs| {
      RowPutsStoresPositive(counts, tokens[0], docs, tokens[1..], 0);
    }
  }

  lemma {:induction false} LoadRowsStoresPositive(counts: Counts, docs: seq<string>, rows: seq<seq<string>>, lineNum: int)
    requires forall k :: k in counts ==> counts[k] > 0 && k.document in docs
    ensures var r := LoadRows(counts, docs, rows, lineNum).1;
      forall k :: k in r ==> r[k] > 0 && k.document in docs
    decreases |rows|
  {
    if rows != [] {
      LoadLineStoresPositive(counts, docs, rows[0], lineNum);
      var line := LoadLine(counts, docs, rows[0], lineNum);
      var after := line.1;
      if line.0 == Pass {
        LoadRowsStep(counts, docs, rows, lineNum);
        LoadRowsStoresPositive(after, docs, rows[1..], lineNum + 1);
      }
    }
  }

  /** A file with a header line: its documents are the header's, its counts come from the rows after it. */
  lemma LoadFileUnfold(path: string, lines: seq<string>)
    requires lines != []
    ensures var docs := HeaderDocuments(lines[0]); var loaded := LoadRows(map[], docs, SplitRows(lines[1..]), 0);
      LoadFile(path, Some(lines)) == (loaded.0, docs, loaded.1)
  {
  }

  /** Whatever the file, the loaded map holds positive counts of the header's documents only. */
  lemma LoadStoresOnlyPositive(path: string, file: Option<seq<string>>)
    ensures var loaded := LoadFile(path, file);
      forall k :: k in loaded.2 ==> loaded.2[k] > 0 && k.document in loaded.1
  {
    if file.Some? && file.value != [] {
      LoadFileUnfold(path, file.value);
      LoadRowsStoresPositive(map[], HeaderDocuments(file.value[0]), SplitRows(file.value[1..]), 0);
    }
  }

  /** Rows that load without error can be skipped: the rest loads from where they left the counts. */
  lemma {:induction false} LoadRowsAppend(counts: Counts, docs: seq<string>, prefix: seq<seq<string>>, rest: seq<seq<string>>,
                                          lineNum: int)
    requires LoadRows(counts, docs, prefix, lineNum).0 == Pass
    ensures LoadRows(counts, docs, prefix + rest, lineNum)
         == LoadRows(LoadRows(counts, docs, prefix, lineNum).1, docs, rest, lineNum + |prefix|)
    decreases |prefix|
  {
    if prefix == [] {
      assert prefix + rest == rest;
    } else {
      var rows := prefix + rest;
      assert rows[0] == prefix[0] && rows[1..] == prefix[1..] + rest;
      LoadRowsStep(counts, docs, prefix, lineNum);
      LoadRowsStep(counts, docs, rows, lineNum);
      var after := LoadLine(counts, docs, prefix[0], lineNum).1;
      LoadRowsAppend(after, docs, prefix[1..], rest, lineNum + 1);
    }
  }

  /** A row with the wrong number of fields after rows that load stops the load, naming its line. */
  lemma LoadRowsFailsAtLine(docs: seq<string>, rows: seq<seq<string>>, j: nat)
    requires j < |rows| && LoadRows(map[], docs, rows[..j], 0).0 == Pass
    requires |rows[j]| != |docs| + 1
    ensures LoadRows(map[], docs, rows, 0).0 == Fail(MissingCounts(j + 1))
  {
    assert rows == rows[..j] + rows[j..];
    LoadRowsAppend(map[], docs, rows[..j], rows[j..], 0);
    var counts := LoadRows(map[], docs, rows[..j], 0).1;
    assert rows[j..][0] == rows[j];
    LoadRowsBadHead(counts, docs, rows[j..], j);
  }

  /**
   * A row whose number of fields is not one more than the number of documents stops the load
   * with an error naming its line, counted from 1 at the first line after the header.
   */
  lemma MissingCountsNamesLine(path: string, header: string, rows: seq<string>, j: nat)
    requires j < |rows| && LoadRows(map[], HeaderDocuments(header), SplitRows(rows[..j]), 0).0 == Pass
    requires |Split(rows[j], IsSpace)| != |HeaderDocuments(header)| + 1
    ensures LoadFile(path, Some([header] + rows)).0 == Fail(MissingCounts(j + 1))
  {
    var file := [header] + rows;
    assert file[0] == header && file[1..] == rows;
    assert SplitRows(rows)[..j] == SplitRows(rows[..j]);
    LoadRowsFailsAtLine(HeaderDocuments(header), SplitRows(rows), j);
  }

  /** A row that splits into the wrong number of fields stops the load, naming its line. */
  lemma LoadRowsBadHead(counts: Counts, docs: seq<string>, rows: seq<seq<string>>, lineNum: int)
    requires rows != [] && |rows[0]| - 1 != |docs|
    ensures LoadRows(counts, docs, rows, lineNum) == (Fail(MissingCounts(lineNum + 1)), counts)
  {
  }

  /** The first count of a row that `Integer.valueOf` rejects stops the row, naming that count. */
  lemma {:induction false} RowPutsFailsAt(counts: Counts, word: string, docs: seq<string>, fields: seq<string>,
                                          next: nat, i: nat)
    requires next + |fields| <= |docs| && i < |fields|
    requires forall k :: 0 <= k < i ==> ParseInt(fields[k]).Some?
    requires ParseInt(fields[i]).None?
    ensures RowPuts(counts, word, docs, fields, next).0 == Fail(NotAnInteger(fields[i]))
    decreases i
  {
    if i > 0 {
      var v := ParseInt(fields[0]).value;
      var rest := fields[1..];
      assert rest[i - 1] == fields[i];
      assert forall k :: 0 <= k < i - 1 ==> rest[k] == fields[k + 1];
      if v > 0 {
        RowPutsFailsAt(counts[Index(word, docs[next]) := v], word, docs, rest, next + 1, i - 1);
      } else {
        RowPutsFailsAt(counts, word, docs, rest, next, i - 1);
      }
    }
  }

  /** A row after rows that load whose `i`-th field is the first that is not an integer stops the load there. */
  lemma LoadRowsFailsAtField(docs: seq<string>, rows: seq<seq<string>>, j: nat, i: nat)
    requires j < |rows| && LoadRows(map[], docs, rows[..j], 0).0 == Pass
    requires |rows[j]| == |docs| + 1 && 1 <= i < |rows[j]|
    requires forall k :: 1 <= k < i ==> ParseInt(rows[j][k]).Some?
    requires ParseInt(rows[j][i]).None?
    ensures LoadRows(map[], docs, rows, 0).0 == Fail(NotAnInteger(rows[j][i]))
  {
    assert rows == rows[..j] + rows[j..];
    LoadRowsAppend(map[], docs, rows[..j], rows[j..], 0);
    var counts := LoadRows(map[], docs, rows[..j], 0).1;
    var row := rows[j];
    assert rows[j..][0] == row;
    var fields := row[1..];
    assert fields[i - 1] == row[i];
    assert forall k :: 0 <= k < i - 1 ==> fields[k] == row[k + 1];
    RowPutsFailsAt(counts, row[0], docs, fields, 0, i - 1);
  }

  /**
   * A row with one field per document, after rows that load, whose `i`-th field is the first
   * that is not an integer, stops the load with the `NumberFormatException` for that field.
   */
  lemma NotAnIntegerNamesField(path: string, header: string, rows: seq<string>, j: nat, i: nat)
    requires j < |rows| && LoadRows(map[], HeaderDocuments(header), SplitRows(rows[..j]), 0).0 == Pass
    requires |Split(rows[j], IsSpace)| == |HeaderDocuments(header)| + 1
    requires 1 <= i < |Split(rows[j], IsSpace)|
    requires forall k :: 1 <= k < i ==> ParseInt(Split(rows[j], IsSpace)[k]).Some?
    requires ParseInt(Split(rows[j], IsSpace)[i]).None?
    ensures LoadFile(path, Some([header] + rows)).0 == Fail(NotAnInteger(Split(rows[j], IsSpace)[i]))
  {
    var file := [header] + rows;
    assert file[0] == header && file[1..] == rows;
    assert SplitRows(rows)[..j] == SplitRows(rows[..j]);
    LoadRowsFailsAtField(HeaderDocuments(header), SplitRows(rows), j, i);
  }

  // ---------------------------------------------------------------------------------
  // Findings: what the code does where it evidently meant otherwise, and the corrections

  /**
   * The load puts each positive count at the next document of the iterator, which only
   * advances on a put: a zero before a positive count shifts that count to an earlier document.
   */
  lemma SaveLoadMisaligns()
    ensures var c := map[Index("w", "b") := 1];
      LoadFile("matrix.txt", Some(SaveLines(c, ["w"], ["a", "b"]))) == (Pass, ["a", "b"], map[Index("w", "a") := 1])
  {
    var c := map[Index("w", "b") := 1];
    var docs := ["a", "b"];
    var lines := SaveLines(c, ["w"], docs);
    LoadFileUnfold("matrix.txt", lines);
    assert lines[1..] == [Row(c, "w", docs)];
    var fields := Split(Row(c, "w", docs), IsSpace);
    assert SplitRows(lines[1..]) == [fields];
    SavedHeader(docs);
    SavedRowFields(c, "w", docs);
    MisalignedRow();
    assert fields[0] == "w" && fields[1..] == CountTexts(c, "w", docs);
    assert LoadRows(map[], docs, [fields], 0) == LoadLine(map[], docs, fields, 0);
  }

  /** The saved row `w 0 1` puts its one count at the first document. */
  lemma MisalignedRow()
    ensures RowPuts(map[], "w", ["a", "b"], CountTexts(map[Index("w", "b") := 1], "w", ["a", "b"]), 0)
         == (Pass, map[Index("w", "a") := 1])
  {
    var c := map[Index("w", "b") := 1];
    var docs := ["a", "b"];
    CountTextIsOneField(c, "w", "a");
    CountTextIsOneField(c, "w", "b");
    var texts := CountTexts(c, "w", docs);
    assert ParseInt(texts[0]) == Some(0) && ParseInt(texts[1]) == Some(1);
    assert texts[1..][1..] == [];
    assert RowPuts(map[], "w", docs, texts[1..], 0) == (Pass, map[Index("w", "a") := 1]);
  }

  /** After a load no word is listed, so saving again writes the header line and no row. */
  lemma SaveAfterLoadLosesRows(path: string, c: Counts, ws: seq<string>, docs: seq<string>)
    requires ws != []
    ensures var (_, loaded, counts) := LoadFile(path, Some(SaveLines(c, ws, docs)));
      SaveLines(counts, [], loaded) == [Join(loaded, ' ')] && |SaveLines(c, ws, docs)| == |ws| + 1
  {
  }

  /** A line holding only punctuation counts one occurrence of the empty word. */
  lemma PunctuationCountsAsEmptyWord(counts: Counts, doc: string)
    ensures LineWords("--") == [""]
    ensures Get(CountWords(counts, doc, LineWords("--")), "", doc) == 1 + Get(counts, "", doc)
  {
    assert forall i :: 0 <= i < |"--"| ==> "--"[i] == '-';
    assert Split("--", IsWhitespace) == ["--"];
    CleanupEmpty("--");
    assert ["--"][..0] == [];
    assert CleanAll(["--"]) == [Cleanup("--")];
  }

  /** An empty header line splits into one empty document name. */
  lemma EmptyHeaderPhantomDocument(path: string, c: Counts)
    ensures LoadFile(path, Some(SaveLines(c, [], []))) == (Pass, [""], map[])
    ensures LoadFile(path, Some(SaveLines(c, ["w"], []))).0 == Fail(MissingCounts(1))
  {
    EmptyHeaderDocuments();
    var empty := SaveLines(c, [], []);
    assert empty == [""] && empty[1..] == [];
    LoadFileUnfold(path, empty);
    assert SplitRows(empty[1..]) == [];
    var lines := SaveLines(c, ["w"], []);
    SavedRowOfW(c);
    assert lines == [""] + [Row(c, "w", [])];
    assert lines[0] == "" && lines[1..] == [Row(c, "w", [])];
    LoadFileUnfold(path, lines);
    assert SplitRows(lines[1..]) == [["w"]];
    LoadRowsBadHead(map[], [""], [["w"]], 0);
  }

  /**
   * A document name with a space is written into the header unchanged, and the load splits
   * it into two documents: the saved row then has too few counts and the load fails.
   */
  lemma SpaceInDocumentNameBreaksLoad()
    ensures HeaderDocuments(Join(["my notes.txt"], ' ')) == ["my", "notes.txt"]
    ensures LoadFile("m", Some(SaveLines(map[Index("w", "my notes.txt") := 1], ["w"], ["my notes.txt"]))).0
         == Fail(MissingCounts(1))
  {
    var docs := ["my notes.txt"];
    var c := map[Index("w", "my notes.txt") := 1];
    assert Join(docs, ' ') == "my notes.txt" by {
      SpacedHeader();
    }
    assert Avoids("w", IsSpace) by {
      assert forall n :: 0 <= n < |"w"| ==> "w"[n] == 'w';
    }
    SavedRowFields(c, "w", docs);
    var lines := SaveLines(c, ["w"], docs);
    assert lines[0] == "my notes.txt" && lines[1..] == [Row(c, "w", docs)];
    LoadFileUnfold("m", lines);
    assert SplitRows(lines[1..]) == [Split(Row(c, "w", docs), IsSpace)];
    SpacedHeader();
    LoadRowsBadHead(map[], ["my", "notes.txt"], SplitRows(lines[1..]), 0);
  }

  /** The header line `my notes.txt` is the join of one name and loads as two documents. */
  lemma SpacedHeader()
    ensures Join(["my notes.txt"], ' ') == "my notes.txt"
    ensures HeaderDocuments("my notes.txt") == ["my", "notes.txt"]
  {
    var parts := ["my", "notes.txt"];
    assert Join(parts, ' ') == Join(["my notes.txt"], ' ') == "my notes.txt";
    forall k | 0 <= k < |parts| ensures Avoids(parts[k], IsSpace) {
      assert forall n :: 0 <= n < |parts[k]| ==> parts[k][n] != ' ';
    }
    SplitOfJoin(parts, ' ', IsSpace);
    assert Lsa.Extend([], parts) == parts by {
      assert parts[..1] == ["my"] && ["my"][..0] == [];
    }
  }

  /** The empty header line names one document, the empty one. */
  lemma EmptyHeaderDocuments()
    ensures HeaderDocuments("") == [""]
  {
    assert Split("", IsSpace) == [""];
    assert Lsa.Extend([], [""]) == [""] by {
      assert [""][..0] == [];
    }
  }

  /** The saved row of the word `w` without documents splits into the word alone. */
  lemma SavedRowOfW(c: Counts)
    ensures Split(Row(c, "w", []), IsSpace) == ["w"]
  {
    assert Avoids("w", IsSpace) by {
      assert forall i :: 0 <= i < |"w"| ==> "w"[i] == 'w';
    }
    SavedRowWithoutDocuments(c, "w");
  }

  /** The words of a line without the empty strings cleanup leaves of punctuation. */
  function LineWordsCorrected(line: string): (r: seq<string>)
    ensures "" !in r
  {
    NonEmpty(LineWords(line))
  }

  /** The corrected words of a line are exactly its nonempty cleaned words. */
  lemma LineWordsCorrectedMembers(line: string, w: string)
    ensures w in LineWordsCorrected(line) <==> w in LineWords(line) && w != ""
  {
    NonEmptyMembers(LineWords(line), w);
  }

  /** An empty header line names no document. */
  function HeaderDocumentsCorrected(header: string): seq<string> {
    if header == "" then [] else HeaderDocuments(header)
  }

  /** The counts of one row, each put at the document of its own column. */
  function RowPutsCorrected(counts: Counts, word: string, docs: seq<string>, fields: seq<string>, column: nat)
    : (Outcome<LsaException>, Counts)
    requires column + |fields| <= |docs|
    decreases |fields|
  {
    if fields == [] then (Pass, counts)
    else
      match ParseInt(fields[0])
      case None => (Fail(NotAnInteger(fields[0])), counts)
      case Some(v) =>
        var next := if v > 0 then counts[Index(word, docs[column]) := v] else counts;
        RowPutsCorrected(next, word, docs, fields[1..], column + 1)
  }

  /** One line after the header, its word listed again before its counts are read. */
  function LoadLineCorrected(words: seq<string>, counts: Counts, docs: seq<string>, tokens: seq<string>, lineNum: int)
    : (Outcome<LsaException>, seq<string>, Counts)
  {
    if |tokens| - 1 != |docs| then (Fail(MissingCounts(lineNum + 1)), words, counts)
    else
      var puts := RowPutsCorrected(counts, tokens[0], docs, tokens[1..], 0);
      (puts.0, Lsa.Extend(words, [tokens[0]]), puts.1)
  }

  /** The rows, each read by the corrected line load. */
  function LoadRowsCorrected(words: seq<string>, counts: Counts, docs: seq<string>, rows: seq<seq<string>>, lineNum: int)
    : (Outcome<LsaException>, seq<string>, Counts)
    decreases |rows|
  {
    if rows == [] then (Pass, words, counts)
    else
      var line := LoadLineCorrected(words, counts, docs, rows[0], lineNum);
      if line.0.Fail? then line else LoadRowsCorrected(line.1, line.2, docs, rows[1..], lineNum + 1)
  }

  /** The corrected load: the outcome, the words, the documents and the counts. */
  function LoadFileCorrected(path: string, file: Option<seq<string>>)
    : (Outcome<LsaException>, seq<string>, seq<string>, Counts)
  {
    if file.None? then (Fail(FileNotFound(path)), [], [], map[])
    else if file.value == [] then (Fail(MissingHeader), [], [], map[])
    else
      var docs := HeaderDocumentsCorrected(file.value[0]);
      var loaded := LoadRowsCorrected([], map[], docs, SplitRows(file.value[1..]), 0);
      (loaded.0, loaded.1, docs, loaded.2)
  }

  /** A file with a header line, loaded by the corrected load. */
  lemma LoadFileCorrectedUnfold(path: string, lines: seq<string>)
    requires lines != []
    ensures var docs := HeaderDocumentsCorrected(lines[0]);
      var loaded := LoadRowsCorrected([], map[], docs, SplitRows(lines[1..]), 0);
      LoadFileCorrected(path, Some(lines)) == (loaded.0, loaded.1, docs, loaded.2)
  {
  }

  /** The count of column `i` of a saved row is read back and, when positive, put at document `i`. */
  lemma RowPutsCorrectedUnfold(counts: Counts, c: Counts, w: string, docs: seq<string>, i: nat)
    requires i < |docs| && IntCounts(c)
    ensures var v := Get(c, w, docs[i]);
      RowPutsCorrected(counts, w, docs, CountTexts(c, w, docs)[i..], i)
      == RowPutsCorrected(if v > 0 then counts[Index(w, docs[i]) := v] else counts, w, docs, CountTexts(c, w, docs)[i + 1..], i + 1)
  {
    var fields := CountTexts(c, w, docs)[i..];
    CountTextIsOneField(c, w, docs[i]);
    assert fields[0] == CountText(c, w, docs[i]);
    assert fields[1..] == CountTexts(c, w, docs)[i + 1..];
  }

  /** Each count of a saved row is put at its own column, whatever the counts before it. */
  lemma {:induction false} RowPutsCorrectedAligned(counts: Counts, c: Counts, w: string, docs: seq<string>, i: nat)
    requires i <= |docs| && IntCounts(c)
    ensures RowPutsCorrected(counts, w, docs, CountTexts(c, w, docs)[i..], i) == (Pass, counts + RowMap(c, w, docs, i))
    decreases |docs| - i
  {
    if i == |docs| {
      assert counts + RowMap(c, w, docs, i) == counts;
    } else {
      var v := Get(c, w, docs[i]);
      RowPutsCorrectedUnfold(counts, c, w, docs, i);
      RowMapStep(c, w, docs, i);
      if v > 0 {
        RowPutsCorrectedAligned(counts[Index(w, docs[i]) := v], c, w, docs, i + 1);
        UpdateBeforeUnion(counts, RowMap(c, w, docs, i + 1), Index(w, docs[i]), v);
      } else {
        RowPutsCorrectedAligned(counts, c, w, docs, i + 1);
      }
    }
  }

  /** A saved row splits into its word and one count per document, with or without documents. */
  lemma SavedRowSplits(c: Counts, w: string, docs: seq<string>)
    requires w != "" && Avoids(w, IsSpace)
    ensures Split(Row(c, w, docs), IsSpace) == [w] + CountTexts(c, w, docs)
  {
    if docs == [] {
      SavedRowWithoutDocuments(c, w);
      assert CountTexts(c, w, docs) == [];
    } else {
      SavedRowFields(c, w, docs);
    }
  }

  /** A saved row at the head of the rows lists its word and loads its positive counts. */
  lemma SavedRowLoadsCorrected(words: seq<string>, counts: Counts, c: Counts, w: string, docs: seq<string>,
                               rows: seq<seq<string>>, lineNum: int)
    requires rows != [] && rows[0] == Split(Row(c, w, docs), IsSpace)
    requires IntCounts(c) && w != "" && Avoids(w, IsSpace)
    ensures LoadRowsCorrected(words, counts, docs, rows, lineNum)
         == LoadRowsCorrected(Lsa.Extend(words, [w]), counts + RowMap(c, w, docs, 0), docs, rows[1..], lineNum + 1)
  {
    SavedLineLoadsCorrected(words, counts, c, w, docs, lineNum);
  }

  lemma SavedLineLoadsCorrected(words: seq<string>, counts: Counts, c: Counts, w: string, docs: seq<string>, lineNum: int)
    requires IntCounts(c) && w != "" && Avoids(w, IsSpace)
    ensures LoadLineCorrected(words, counts, docs, Split(Row(c, w, docs), IsSpace), lineNum)
         == (Pass, Lsa.Extend(words, [w]), counts + RowMap(c, w, docs, 0))
  {
    SavedRowSplits(c, w, docs);
    var tokens := Split(Row(c, w, docs), IsSpace);
    assert tokens[0] == w && tokens[1..] == CountTexts(c, w, docs)[0..];
    RowPutsCorrectedAligned(counts, c, w, docs, 0);
  }

  lemma {:induction false} LoadSavedRowsCorrected(words: seq<string>, counts: Counts, c: Counts, ws: seq<string>,
                                                  docs: seq<string>, lineNum: int)
    requires IntCounts(c)
    requires forall i :: 0 <= i < |ws| ==> ws[i] != "" && Avoids(ws[i], IsSpace)
    ensures LoadRowsCorrected(words, counts, docs, SplitRows(SavedRows(c, ws, docs)), lineNum)
         == (Pass, Lsa.Extend(words, ws), counts + Positive(c, ws, docs))
    decreases |ws|
  {
    if ws == [] {
      assert counts + Positive(c, ws, docs) == counts;
    } else {
      var rows := SplitRows(SavedRows(c, ws, docs));
      SavedFieldsCons(c, ws, docs);
      SavedRowLoadsCorrected(words, counts, c, ws[0], docs, rows, lineNum);
      LoadSavedRowsCorrected(Lsa.Extend(words, [ws[0]]), counts + RowMap(c, ws[0], docs, 0), c, ws[1..], docs, lineNum + 1);
      assert ws == [ws[0]] + ws[1..];
      Lsa.ExtendAppend(words, [ws[0]], ws[1..]);
      PositiveStep(counts, c, ws, docs);
    }
  }

  lemma JoinOfNonEmptyFirst(xs: seq<string>, sep: char)
    requires xs != [] && xs[0] != ""
    ensures Join(xs, sep) != ""
  {
    if |xs| > 1 {
      assert Join(xs, sep) == xs[0] + [sep] + Join(xs[1..], sep);
    }
  }

  /**
   * With each count put at its own column, the words listed again and an empty header naming
   * no document, a saved file loads back as its words, its documents and its positive counts,
   * whatever the order of zeros and positive counts in a row.
   */
  lemma SaveLoadRoundTripCorrected(path: string, c: Counts, ws: seq<string>, docs: seq<string>)
    requires Lsa.Distinct(docs)
    requires forall i :: 0 <= i < |docs| ==> docs[i] != "" && Avoids(docs[i], IsSpace)
    requires forall i :: 0 <= i < |ws| ==> ws[i] != "" && Avoids(ws[i], IsSpace)
    requires IntCounts(c)
    ensures LoadFileCorrected(path, Some(SaveLines(c, ws, docs))) == (Pass, Lsa.Extend([], ws), docs, Positive(c, ws, docs))
  {
    var lines := SaveLines(c, ws, docs);
    assert lines != [] && lines[0] == Join(docs, ' ') && lines[1..] == SavedRows(c, ws, docs);
    CorrectedHeaderOfSaved(docs);
    LoadFileCorrectedUnfold(path, lines);
    var loaded := LoadRowsCorrected([], map[], docs, SplitRows(lines[1..]), 0);
    assert loaded == (Pass, Lsa.Extend([], ws), map[] + Positive(c, ws, docs)) by {
      LoadSavedRowsCorrected([], map[], c, ws, docs, 0);
    }
    assert map[] + Positive(c, ws, docs) == Positive(c, ws, docs);
  }

  /** With the correction, the header of distinct, nonempty, space-free names reads back as them. */
  lemma CorrectedHeaderOfSaved(docs: seq<string>)
    requires Lsa.Distinct(docs)
    requires forall i :: 0 <= i < |docs| ==> docs[i] != "" && Avoids(docs[i], IsSpace)
    ensures HeaderDocumentsCorrected(Join(docs, ' ')) == docs
  {
    if docs == [] {
      assert Join(docs, ' ') == "";
    } else {
      JoinOfNonEmptyFirst(docs, ' ');
      SavedHeader(docs);
    }
  }
  // ---------------------------------------------------------------------------------
  // The string building of saveWordDocumentMatrix

  /**
   * One step of the StringBuilder loops of `saveWordDocumentMatrix`: append the next piece,
   * then a space if another piece follows. After `i` pieces the builder holds the prefix and
   * the first `i` pieces joined, with the space for the next one.
   */
  lemma JoinStep(prefix: string, xs: seq<string>, i: nat, sb: string)
    requires i < |xs|
    requires i == 0 ==> sb == prefix
    requires 0 < i ==> sb == prefix + Join(xs[..i], ' ') + " "
    ensures sb + xs[i] + (if i + 1 < |xs| then " " else "") == prefix + Join(xs[..i + 1], ' ') + (if i + 1 < |xs| then " " else "")
  {
    if i == 0 {
      assert xs[..1] == [xs[0]];
    } else {
      assert xs[..i + 1] == xs[..i] + [xs[i]];
      JoinAppend(xs[..i], xs[i], ' ');
    }
  }

  lemma CountTextsPrefix(counts: Counts, w: string, docs: seq<string>, i: nat)
    requires i < |docs|
    ensures CountTexts(counts, w, docs)[i] == CountText(counts, w, docs[i])
  {
  }

  /** The words, documents, counts and TF-IDF matrix of `LSA`. */
  class LSA {
    var wordToDocumentCount: Counts
    var termFreqInvDocFreqMatrix: map<Index, Weight>
    /** A LinkedHashSet: no word twice, in insertion order. */
    var words: seq<string>
    /** A LinkedHashSet of document names. */
    var documents: seq<string>

    predicate Valid()
      reads this
    {
      Lsa.Distinct(words) && Lsa.Distinct(documents)
    }

    constructor ()
      ensures Valid()
      ensures wordToDocumentCount == map[] && termFreqInvDocFreqMatrix == map[] && words == [] && documents == []
    {
      wordToDocumentCount := map[];
      termFreqInvDocFreqMatrix := map[];
      words := [];
      documents := [];
    }

    /**
     * `parseDocument(filename)` on the file's lines (None: it cannot be opened). The document
     * is listed first; then every cleaned word of the lines 41 to 500 is listed and counted.
     */
    method ParseDocument(filename: string, file: Option<seq<string>>) returns (r: Outcome<LsaException>)
      requires Valid()
      modifies this
      ensures Valid()
      ensures documents == Lsa.Extend(old(documents), [filename])
      ensures file.None? ==>
        (r == Fail(FileNotFound(filename)) && words == old(words) && wordToDocumentCount == old(wordToDocumentCount))
      ensures file.Some? ==>
        (&& r == Pass
         && words == Lsa.Extend(old(words), DocumentWords(Window(file.value)))
         && wordToDocumentCount == CountWords(old(wordToDocumentCount), filename, DocumentWords(Window(file.value))))
      ensures termFreqInvDocFreqMatrix == old(termFreqInvDocFreqMatrix)
    {
      assert [filename][..0] == [];
      Lsa.ExtendLists(documents, [filename]);
      documents := if filename in documents then documents else documents + [filename];
      if file.None? {
        return Fail(FileNotFound(filename));
      }
      var lines := file.value;
      ghost var words0, counts0 := words, wordToDocumentCount;
      var lineNum := 0;
      var k := 0;
      while k < |lines|
        invariant k <= |lines| && k <= MaxLines && lineNum == k && Valid()
        invariant words == Lsa.Extend(words0, DocumentWords(Window(lines[..k])))
        invariant wordToDocumentCount == CountWords(counts0, filename, DocumentWords(Window(lines[..k])))
        invariant documents == Lsa.Extend(old(documents), [filename])
        invariant termFreqInvDocFreqMatrix == old(termFreqInvDocFreqMatrix)
      {
        var line := lines[k];
        var skipped := lineNum < LinesToSkip;
        lineNum := lineNum + 1;
        if !skipped {
          if lineNum > MaxLines {
            break;
          }
          CountLine(filename, line);
          WindowLineRead(words0, counts0, filename, lines, k);
        } else {
          WindowStep(lines, k);
        }
        k := k + 1;
      }
      WindowComplete(lines, k);
      return Pass;
    }

    /** The inner loop of `parseDocument` over the pieces of one line. */
    method CountLine(filename: string, line: string)
      requires Valid()
      modifies this
      ensures Valid()
      ensures words == Lsa.Extend(old(words), LineWords(line))
      ensures wordToDocumentCount == CountWords(old(wordToDocumentCount), filename, LineWords(line))
      ensures documents == old(documents) && termFreqInvDocFreqMatrix == old(termFreqInvDocFreqMatrix)
    {
      var text := Split(line, IsWhitespace);
      var j := 0;
      while j < |text|
        invariant j <= |text| && Valid()
        invariant words == Lsa.Extend(old(words), CleanAll(text[..j]))
        invariant wordToDocumentCount == CountWords(old(wordToDocumentCount), filename, CleanAll(text[..j]))
        invariant documents == old(documents) && termFreqInvDocFreqMatrix == old(termFreqInvDocFreqMatrix)
      {
        var cleaned := Cleanup(text[j]);
        ListPieceStep(old(words), text, j, words);
        CountPieceStep(old(wordToDocumentCount), filename, text, j, wordToDocumentCount);
        AddWord(filename, cleaned);
        j := j + 1;
      }
      assert text[..|text|] == text;
    }

    /** `words.add(cleaned)` and the put of the count of (cleaned, filename) plus one. */
    method AddWord(filename: string, cleaned: string)
      requires Valid()
      modifies this
      ensures Valid()
      ensures words == (if cleaned in old(words) then old(words) else old(words) + [cleaned])
      ensures wordToDocumentCount
           == old(wordToDocumentCount)[Index(cleaned, filename) := 1 + Get(old(wordToDocumentCount), cleaned, filename)]
      ensures documents == old(documents) && termFreqInvDocFreqMatrix == old(termFreqInvDocFreqMatrix)
    {
      Lsa.ExtendLists(words, [cleaned]);
      assert [cleaned][..0] == [];
      words := if cleaned in words then words else words + [cleaned];
      wordToDocumentCount := wordToDocumentCount[Index(cleaned, filename) := 1 + Get(wordToDocumentCount, cleaned, filename)];
    }

    /** `documentToTermCount.get(document)`: the sum of the document's counts over the words. */
    method TermCount(document: string) returns (terms: int)
      ensures terms == TermTotal(wordToDocumentCount, words, document)
    {
      terms := 0;
      var i := 0;
      while i < |words|
        invariant i <= |words| && terms == TermTotal(wordToDocumentCount, words[..i], document)
      {
        assert words[..i + 1][..i] == words[..i];
        terms := terms + Get(wordToDocumentCount, words[i], document);
        i := i + 1;
      }
      assert words[..i] == words;
    }

    /** The first loop of `processSpace`: every document's total. */
    method DocumentTotals() returns (totals: map<string, int>)
      ensures forall d :: d in documents ==> d in totals && totals[d] == TermTotal(wordToDocumentCount, words, d)
    {
      totals := map[];
      var i := 0;
      while i < |documents|
        invariant i <= |documents|
        invariant forall d :: d in documents[..i] ==> d in totals && totals[d] == TermTotal(wordToDocumentCount, words, d)
      {
        var terms := TermCount(documents[i]);
        totals := totals[documents[i] := terms];
        assert forall d :: d in documents[..i + 1] ==> d in documents[..i] || d == documents[i];
        i := i + 1;
      }
      assert documents[..i] == documents;
    }

    /** `docFreq` of a word: in how many documents its count is positive. */
    method DocumentFrequency(word: string) returns (docFreq: int)
      ensures docFreq == DocFreq(wordToDocumentCount, word, documents)
    {
      docFreq := 0;
      var i := 0;
      while i < |documents|
        invariant i <= |documents| && docFreq == DocFreq(wordToDocumentCount, word, documents[..i])
      {
        assert documents[..i + 1][..i] == documents[..i];
        if Get(wordToDocumentCount, word, documents[i]) > 0 {
          docFreq := docFreq + 1;
        }
        i := i + 1;
      }
      assert documents[..i] == documents;
    }

    /** The inner loop of `processSpace` for one word: a TF-IDF entry for each document it occurs in. */
    method WeighWordInPlace(word: string, totals: map<string, int>, ln: real -> real)
      requires forall d :: d in documents ==> d in totals && totals[d] == TermTotal(wordToDocumentCount, words, d)
      modifies this
      ensures termFreqInvDocFreqMatrix
           == WeighWord(old(termFreqInvDocFreqMatrix), wordToDocumentCount, words, documents, word, documents, ln)
      ensures wordToDocumentCount == old(wordToDocumentCount) && words == old(words) && documents == old(documents)
    {
      var docFreq := DocumentFrequency(word);
      var invDocFreq := LogOf(ln, Ratio(|documents| as real, docFreq as real));
      var i := 0;
      while i < |documents|
        invariant i <= |documents|
        invariant termFreqInvDocFreqMatrix
               == WeighWord(old(termFreqInvDocFreqMatrix), wordToDocumentCount, words, documents, word, documents[..i], ln)
        invariant wordToDocumentCount == old(wordToDocumentCount) && words == old(words) && documents == old(documents)
      {
        var document := documents[i];
        assert documents[..i + 1][..i] == documents[..i];
        var freq := Get(wordToDocumentCount, word, document);
        if freq > 0 {
          var norm := Ratio(freq as real, totals[document] as real);
          termFreqInvDocFreqMatrix := termFreqInvDocFreqMatrix[Index(word, document) := Mul(norm, invDocFreq)];
        }
        i := i + 1;
      }
      assert documents[..i] == documents;
    }

    /**
     * `processSpace()` with `ln` for `Math.log`: the TF-IDF entries of every word and document
     * with a positive count, then the counts are cleared.
     */
    method ProcessSpace(ln: real -> real)
      requires Valid()
      modifies this
      ensures Valid()
      ensures termFreqInvDocFreqMatrix
           == WeighWords(old(termFreqInvDocFreqMatrix), old(wordToDocumentCount), words, documents, words, ln)
      ensures wordToDocumentCount == map[] && words == old(words) && documents == old(documents)
    {
      var totals := DocumentTotals();
      var i := 0;
      while i < |words|
        invariant i <= |words|
        invariant termFreqInvDocFreqMatrix
               == WeighWords(old(termFreqInvDocFreqMatrix), wordToDocumentCount, words, documents, words[..i], ln)
        invariant wordToDocumentCount == old(wordToDocumentCount) && words == old(words) && documents == old(documents)
      {
        assert words[..i + 1][..i] == words[..i];
        WeighWordInPlace(words[i], totals, ln);
        i := i + 1;
      }
      assert words[..i] == words;
      wordToDocumentCount := map[];
    }

    /** The first line of `saveWordDocumentMatrix`: the document names separated by spaces. */
    method HeaderLine() returns (sb: string)
      ensures sb == Join(documents, ' ')
    {
      sb := "";
      var i := 0;
      while i < |documents|
        invariant i <= |documents|
        invariant i == 0 ==> sb == ""
        invariant 0 < i ==> sb == Join(documents[..i], ' ') + (if i < |documents| then " " else "")
      {
        JoinStep("", documents, i, sb);
        ghost var next := sb + documents[i] + (if i + 1 < |documents| then " " else "");
        sb := sb + documents[i];
        if i + 1 < |documents| {
          sb := sb + " ";
        }
        assert sb == next;
        assert "" + Join(documents[..i + 1], ' ') == Join(documents[..i + 1], ' ');
        i := i + 1;
      }
      assert documents[..i] == documents;
    }

    /** The row of one word: the word, a space, then its count (or `0`) for each document. */
    method RowLine(word: string) returns (sb: string)
      ensures sb == Row(wordToDocumentCount, word, documents)
    {
      ghost var texts := CountTexts(wordToDocumentCount, word, documents);
      sb := word + " ";
      var i := 0;
      while i < |documents|
        invariant i <= |documents|
        invariant i == 0 ==> sb == word + " "
        invariant 0 < i ==> sb == word + " " + Join(texts[..i], ' ') + (if i < |documents| then " " else "")
      {
        var index := Index(word, documents[i]);
        var text := if index in wordToDocumentCount then IntText(wordToDocumentCount[index]) else "0";
        CountTextsPrefix(wordToDocumentCount, word, documents, i);
        JoinStep(word + " ", texts, i, sb);
        ghost var next := sb + text + (if i + 1 < |documents| then " " else "");
        sb := sb + text;
        if i + 1 < |documents| {
          sb := sb + " ";
        }
        assert sb == next;
        i := i + 1;
      }
      assert texts[..i] == texts;
    }

    /** `saveWordDocumentMatrix(outputFile)`: the lines it prints. */
    method SaveWordDocumentMatrix() returns (lines: seq<string>)
      ensures lines == SaveLines(wordToDocumentCount, words, documents)
    {
      var header := HeaderLine();
      lines := [header];
      var i := 0;
      while i < |words|
        invariant i <= |words| && |lines| == i + 1 && lines[0] == Join(documents, ' ')
        invariant forall j :: 0 <= j < i ==> lines[j + 1] == Row(wordToDocumentCount, words[j], documents)
      {
        var row := RowLine(words[i]);
        lines := lines + [row];
        i := i + 1;
      }
    }

    /** The inner loop of `loadWordDocumentMatrix` over the counts of one row. */
    method PutRowCounts(word: string, fields: seq<string>) returns (r: Outcome<LsaException>)
      requires |fields| == |documents|
      modifies this
      ensures words == old(words) && documents == old(documents) && termFreqInvDocFreqMatrix == old(termFreqInvDocFreqMatrix)
      ensures (r, wordToDocumentCount) == RowPuts(old(wordToDocumentCount), word, documents, fields, 0)
    {
      var next := 0;
      var i := 0;
      while i < |fields|
        invariant next <= i <= |fields|
        invariant words == old(words) && documents == old(documents) && termFreqInvDocFreqMatrix == old(termFreqInvDocFreqMatrix)
        invariant RowPuts(wordToDocumentCount, word, documents, fields[i..], next)
               == RowPuts(old(wordToDocumentCount), word, documents, fields, 0)
      {
        assert fields[i..][0] == fields[i] && fields[i..][1..] == fields[i + 1..];
        var occurrence := ParseInt(fields[i]);
        if occurrence.None? {
          return Fail(NotAnInteger(fields[i]));
        }
        if occurrence.value > 0 {
          wordToDocumentCount := wordToDocumentCount[Index(word, documents[next]) := occurrence.value];
          next := next + 1;
        }
        i := i + 1;
      }
      return Pass;
    }

    /**
     * `loadWordDocumentMatrix(inputFile)` on the file's lines (None: it cannot be opened). The
     * words, documents and counts are cleared first; the header lists the documents; each row
     * loads its counts. The words are not listed again.
     */
    method LoadWordDocumentMatrix(path: string, file: Option<seq<string>>) returns (r: Outcome<LsaException>)
      modifies this
      ensures Valid()
      ensures (r, documents, wordToDocumentCount) == LoadFile(path, file)
      ensures words == [] && termFreqInvDocFreqMatrix == old(termFreqInvDocFreqMatrix)
    {
      documents := [];
      words := [];
      wordToDocumentCount := map[];
      if file.None? {
        return Fail(FileNotFound(path));
      }
      if file.value == [] {
        return Fail(MissingHeader);
      }
      ListDocuments(file.value[0]);
      r := LoadCountRows(file.value[1..]);
    }

    /** `documents.add` of each name of the header line, the documents being empty before. */
    method ListDocuments(header: string)
      requires documents == []
      modifies this
      ensures documents == HeaderDocuments(header) && Lsa.Distinct(documents)
      ensures words == old(words) && wordToDocumentCount == old(wordToDocumentCount)
      ensures termFreqInvDocFreqMatrix == old(termFreqInvDocFreqMatrix)
    {
      var docs := Split(header, IsSpace);
      var i := 0;
      while i < |docs|
        invariant i <= |docs| && documents == Lsa.Extend([], docs[..i])
        invariant words == old(words) && wordToDocumentCount == old(wordToDocumentCount)
        invariant termFreqInvDocFreqMatrix == old(termFreqInvDocFreqMatrix)
      {
        Lsa.ExtendSnoc([], docs[..i], docs[i]);
        assert docs[..i + 1] == docs[..i] + [docs[i]];
        documents := if docs[i] in documents then documents else documents + [docs[i]];
        i := i + 1;
      }
      assert docs[..i] == docs;
      Lsa.ExtendLists([], docs);
    }

    /** The loop of `loadWordDocumentMatrix` over the rows after the header. */
    method LoadCountRows(rows: seq<string>) returns (r: Outcome<LsaException>)
      modifies this
      ensures words == old(words) && documents == old(documents) && termFreqInvDocFreqMatrix == old(termFreqInvDocFreqMatrix)
      ensures (r, wordToDocumentCount) == LoadRows(old(wordToDocumentCount), documents, SplitRows(rows), 0)
    {
      ghost var fields := SplitRows(rows);
      var lineNum := 0;
      while lineNum < |rows|
        invariant lineNum <= |rows|
        invariant words == old(words) && documents == old(documents) && termFreqInvDocFreqMatrix == old(termFreqInvDocFreqMatrix)
        invariant LoadRows(wordToDocumentCount, documents, fields[lineNum..], lineNum)
               == LoadRows(old(wordToDocumentCount), documents, fields, 0)
      {
        var line := rows[lineNum];
        var wordAndOccurrences := Split(line, IsSpace);
        assert fields[lineNum..][0] == wordAndOccurrences && fields[lineNum..][1..] == fields[lineNum + 1..];
        lineNum := lineNum + 1;
        if |wordAndOccurrences| - 1 != |documents| {
          return Fail(MissingCounts(lineNum));
        }
        var outcome := PutRowCounts(wordAndOccurrences[0], wordAndOccurrences[1..]);
        if outcome.Fail? {
          return outcome;
        }
      }
      return Pass;
    }
  }
}
