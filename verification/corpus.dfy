/**
 * The computational part of `build_data_cv`: turning the lines of the
 * positive and the negative example file into labelled records with a
 * cross-validation fold, and counting in how many lines each word occurs.
 * The files arrive as sequences of already-decoded lines; the fold numbers
 * come from a random-draw oracle.
 */
module Corpus {
  import Fields
  import Clean
  import opened Wrappers

  /** One entry of `revs`: label `y`, the normalised text, its word count and its fold. */
  datatype Datum = Datum(y: int, text: string, numWords: nat, split: int)

  /** `np.random.randint(0, cv)` raises when `cv <= 0`, at the first line processed. */
  datatype CvError = EmptyFoldRange

  /** `text.split()` */
  function Tokens(text: string): seq<string> {
    Fields.Split(text, Clean.IsWhitespace)
  }

  /** `set(text.split())` */
  function TokenSet(text: string): set<string> {
    set w | w in Tokens(text)
  }

  /** The text kept for one input line: stripped, then cleaned (or only lowercased). */
  function ProcessLine(line: string, cleanString: bool): (r: string)
    ensures cleanString ==> Fields.SingleSpaced(r, Clean.IsWhitespace) && Clean.AllClean(r)
    ensures forall i :: 0 <= i < |r| ==> !Clean.IsUpper(r[i])
  {
    var rev := Clean.Strip(line);
    if cleanString then Clean.CleanStr(rev, false) else Clean.Lower(rev)
  }

  /** Without cleaning, the words of a line are its own words, lowercased. */
  lemma ProcessLineTokens(line: string)
    ensures Tokens(ProcessLine(line, false)) == Clean.LowerFields(Tokens(line))
  {
    var rev := Clean.Strip(line);
    Clean.LowerFieldsAgree(rev);
    Clean.StripFields(line);
  }

  /**
   * `np.random.randint(0, cv)` given the generator's raw draw for this call;
   * the reduction into `[0, cv)` stands in for numpy's bounded generation.
   */
  function RandomFold(cv: int, raw: nat): (f: int)
    requires cv > 0
    ensures 0 <= f < cv
  {
    raw % cv
  }

  function MakeDatum(y: int, line: string, cleanString: bool, cv: int, raw: nat): (d: Datum)
    requires cv > 0
    ensures d.y == y && d.text == ProcessLine(line, cleanString)
    ensures d.numWords == |Tokens(d.text)| && 0 <= d.split < cv
  {
    var text := ProcessLine(line, cleanString);
    Datum(y, text, |Tokens(text)|, RandomFold(cv, raw))
  }

  /** The line at position `i` of the positive lines followed by the negative lines. */
  function LineAt(pos: seq<string>, neg: seq<string>, i: nat): string
    requires i < |pos| + |neg|
  {
    if i < |pos| then pos[i] else neg[i - |pos|]
  }

  function Texts(revs: seq<Datum>): (texts: seq<string>)
    ensures |texts| == |revs|
    ensures forall i :: 0 <= i < |revs| ==> texts[i] == revs[i].text
  {
    seq(|revs|, i requires 0 <= i < |revs| => revs[i].text)
  }

  /** Indices of the texts whose token set contains `w`. */
  function LinesWith(texts: seq<string>, w: string): set<nat> {
    set i: nat | i < |texts| && w in TokenSet(texts[i])
  }

  /** Document frequency: in how many texts `w` occurs at least once. */
  function DocFreq(texts: seq<string>, w: string): nat {
    |LinesWith(texts, w)|
  }

  /** `for word in set(line.split()): vocab[word] += 1` */
  function AddLine(vocab: map<string, nat>, words: set<string>): (r: map<string, nat>)
    ensures r.Keys == vocab.Keys + words
    ensures forall w :: w in words ==> r[w] == (if w in vocab then vocab[w] else 0) + 1
    ensures forall w :: w in vocab && w !in words ==> r[w] == vocab[w]
  {
    map w | w in vocab.Keys + words :: (if w in vocab then vocab[w] else 0) + (if w in words then 1 else 0)
  }

  /** The `vocab` counter after the texts have been processed in order. */
  function Vocabulary(texts: seq<string>): (r: map<string, nat>)
    ensures forall w :: w in r ==> 1 <= r[w] <= |texts|
    decreases |texts|
  {
    if |texts| == 0 then map[] else AddLine(Vocabulary(texts[..|texts| - 1]), TokenSet(texts[|texts| - 1]))
  }

  /** The counter holds exactly the words that occur in some text, each with its document frequency. */
  lemma {:induction false} VocabularyCounts(texts: seq<string>)
    ensures forall w :: w in Vocabulary(texts) <==> DocFreq(texts, w) > 0
    ensures forall w :: w in Vocabulary(texts) ==> Vocabulary(texts)[w] == DocFreq(texts, w)
    decreases |texts|
  {
    if |texts| > 0 {
      var n := |texts| - 1;
      var init := texts[..n];
      VocabularyCounts(init);
      forall w ensures w in Vocabulary(texts) <==> DocFreq(texts, w) > 0
        ensures w in Vocabulary(texts) ==> Vocabulary(texts)[w] == DocFreq(texts, w)
      {
        LinesWithSnoc(texts, w);
      }
    }
  }

  /** The lines containing `w` are those of all but the last text, plus the last one if it contains `w`. */
  lemma LinesWithSnoc(texts: seq<string>, w: string)
    requires |texts| > 0
    ensures var n := |texts| - 1;
      && n !in LinesWith(texts[..n], w)
      && LinesWith(texts, w) == LinesWith(texts[..n], w) + (if w in TokenSet(texts[n]) then {n} else {})
      && DocFreq(texts, w) == DocFreq(texts[..n], w) + (if w in TokenSet(texts[n]) then 1 else 0)
  {
    var n := |texts| - 1;
    var init := texts[..n];
    forall i: nat | i < n ensures (w in TokenSet(texts[i])) == (w in TokenSet(init[i])) {
      assert texts[i] == init[i];
    }
    assert LinesWith(texts, w) == LinesWith(init, w) + (if w in TokenSet(texts[n]) then {n} else {});
  }

  /**
   * `build_data_cv(data_folder, cv, clean_string)` on the positive lines
   * `pos` and negative lines `neg`; `draw(i)` is the random generator's raw
   * draw for the fold of the `i`-th line read (positives first).
   */
  function BuildDataCv(pos: seq<string>, neg: seq<string>, cv: int, cleanString: bool, draw: nat -> nat)
    : (r: Result<(seq<Datum>, map<string, nat>), CvError>)
    ensures r.Success? <==> cv > 0 || |pos| + |neg| == 0
    ensures r.Success? ==> |r.value.0| == |pos| + |neg|
    ensures r.Success? ==> forall i :: 0 <= i < |r.value.0| ==>
      && r.value.0[i].y == (if i < |pos| then 1 else 0)
      && r.value.0[i].text == ProcessLine(LineAt(pos, neg, i), cleanString)
      && r.value.0[i].numWords == |Tokens(r.value.0[i].text)|
      && 0 <= r.value.0[i].split < cv
    ensures r.Success? ==> forall w :: w in r.value.1 <==> DocFreq(Texts(r.value.0), w) > 0
    ensures r.Success? ==> forall w :: w in r.value.1 ==> r.value.1[w] == DocFreq(Texts(r.value.0), w)
  {
    if |pos| + |neg| > 0 && cv <= 0 then Failure(EmptyFoldRange)
    else
      var revs := Records(pos, neg, cv, cleanString, draw);
      VocabularyCounts(Texts(revs));
      Success((revs, Vocabulary(Texts(revs))))
  }

  /** The records of all lines, positives (label 1) first, then negatives (label 0). */
  function Records(pos: seq<string>, neg: seq<string>, cv: int, cleanString: bool, draw: nat -> nat): (revs: seq<Datum>)
    requires cv > 0 || |pos| + |neg| == 0
    ensures |revs| == |pos| + |neg|
    ensures forall i :: 0 <= i < |revs| ==>
      && revs[i].y == (if i < |pos| then 1 else 0)
      && revs[i].text == ProcessLine(LineAt(pos, neg, i), cleanString)
      && revs[i].numWords == |Tokens(revs[i].text)|
      && 0 <= revs[i].split < cv
  {
    var n := |pos| + |neg|;
    var revs := seq(n, i requires 0 <= i < n => MakeDatum(if i < |pos| then 1 else 0, LineAt(pos, neg, i), cleanString, cv, draw(i)));
    assert forall i :: 0 <= i < n ==> revs[i] == MakeDatum(if i < |pos| then 1 else 0, LineAt(pos, neg, i), cleanString, cv, draw(i));
    revs
  }

  /**
   * A cleaned record's text is single-spaced, so its word count is the
   * number of spaces plus one (zero for an empty text).
   */
  lemma CleanedWordCount(line: string)
    ensures |Tokens(ProcessLine(line, true))| ==
      if ProcessLine(line, true) == [] then 0 else Fields.CountWhitespace(ProcessLine(line, true), Clean.IsWhitespace) + 1
  {
    var text := ProcessLine(line, true);
    Fields.SplitCountSingleSpaced(text, Clean.IsWhitespace);
  }
}
