/**
 * The embedding matrix and the random vectors for words that have none
 * (`get_W` and `add_unknown_words` in preprocessing.py).
 *
 * Vector components are left abstract (`E`): the loader keeps them as raw
 * bytes, the matrix stores float32 values. Random draws come from an
 * oracle `draw(j, i)`, the `i`-th component of the `j`-th vector drawn.
 */
module Embedding {
  import opened Wrappers
  import Dicts

  /** Why building the matrix or a random vector raises. */
  datatype ShapeError<K> =
    | NegativeDimension          // numpy refuses a negative length
    | CannotBroadcast(word: K)   // this word's vector does not fit a row of length k

  /** numpy copies a vector of length k into a row, and repeats a vector of length 1 along it. */
  predicate Fits<E>(v: seq<E>, k: int) {
    |v| == k || |v| == 1
  }

  /** The row a fitting vector becomes. */
  function Broadcast<E>(v: seq<E>, k: nat): (row: seq<E>)
    requires Fits(v, k)
    ensures |row| == k
    ensures |v| == k ==> row == v
    ensures forall i :: 0 <= i < k ==> row[i] == (if |v| == k then v[i] else v[0])
  {
    if |v| == k then v else seq(k, _ => v[0])
  }

  /** The all-zero row. */
  function Zeros<E>(k: nat, zero: E): (row: seq<E>)
    ensures |row| == k
    ensures forall i :: 0 <= i < k ==> row[i] == zero
  {
    seq(k, _ => zero)
  }

  /** `W` and `word_idx_map`. */
  datatype Matrix<K, E> = Matrix(rows: seq<seq<E>>, index: Dicts.Dict<K, int>)

  /**
   * `get_W`: row 0 is zero, and the `i`-th word of the dictionary (from 1)
   * gets row `i` holding its vector.
   */
  method GetW<K, E>(vecs: Dicts.Dict<K, seq<E>>, k: int, zero: E) returns (r: Result<Matrix<K, E>, ShapeError<K>>)
    requires vecs.Valid()
    ensures k < 0 ==> r == Failure(NegativeDimension)
    ensures r.Success? <==> k >= 0 && AllFit(vecs, k)
    ensures r.Failure? && k >= 0 ==> r.error.CannotBroadcast? && FirstMisfit(vecs, k, r.error.word)
    ensures r.Success? ==> k >= 0 && Laid(vecs, k, zero, r.value)
  {
    if k < 0 {
      return Failure(NegativeDimension);
    }
    var rows, index, stop := FillRows(vecs, k, zero);
    if stop < |vecs.order| {
      Misfit(vecs, k, zero, rows, index, stop);
      return Failure(CannotBroadcast(vecs.order[stop]));
    }
    var m := Matrix(rows, index);
    FillDone(vecs, k, zero, m);
    r := Success(m);
  }

  /** Every vector can be broadcast into a row of length `k`. */
  ghost predicate AllFit<K, E>(vecs: Dicts.Dict<K, seq<E>>, k: int) {
    forall w :: w in vecs.entries ==> Fits(vecs.entries[w], k)
  }

  /** `w` is the first word, in dictionary order, whose vector does not fit. */
  ghost predicate FirstMisfit<K, E>(vecs: Dicts.Dict<K, seq<E>>, k: int, w: K) {
    exists i :: (0 <= i < |vecs.order| && vecs.order[i] == w && w in vecs.entries
      && !Fits(vecs.entries[w], k)
      && forall j :: 0 <= j < i ==> vecs.order[j] in vecs.entries && Fits(vecs.entries[vecs.order[j]], k))
  }

  /**
   * The matrix `m` lays out `vecs`: row 0 is zero, one row of length `k`
   * per word, the index keeps the dictionary's key order, and the `i`-th
   * word (from 1) is mapped to `i` and its vector is row `i`.
   */
  ghost predicate Laid<K, E>(vecs: Dicts.Dict<K, seq<E>>, k: nat, zero: E, m: Matrix<K, E>) {
    && |m.rows| == |vecs.order| + 1
    && (forall i :: 0 <= i < |m.rows| ==> |m.rows[i]| == k)
    && m.rows[0] == Zeros(k, zero)
    && m.index.Valid()
    && m.index.order == vecs.order
    && m.index.entries.Keys == vecs.entries.Keys
    && (forall w :: w in vecs.entries ==>
          && w in m.index.entries
          && 1 <= m.index.entries[w] <= |vecs.order|
          && vecs.order[m.index.entries[w] - 1] == w
          && Fits(vecs.entries[w], k)
          && m.rows[m.index.entries[w]] == Broadcast(vecs.entries[w], k))
  }

  /**
   * The loop of `get_W`: fills rows and indices word by word and stops at
   * the first word whose vector does not fit (`stop`), or after the last.
   */
  method FillRows<K, E>(vecs: Dicts.Dict<K, seq<E>>, k: nat, zero: E)
    returns (rows: seq<seq<E>>, index: Dicts.Dict<K, int>, stop: nat)
    requires vecs.Valid()
    ensures stop <= |vecs.order|
    ensures Filled(vecs, k, zero, rows, index, stop)
    ensures stop < |vecs.order| ==> !Fits(vecs.entries[vecs.order[stop]], k)
  {
    rows := [Zeros(k, zero)];
    index := Dicts.Empty();
    stop := 0;
    while stop < |vecs.order|
      invariant stop <= |vecs.order|
      invariant Filled(vecs, k, zero, rows, index, stop)
    {
      var w := vecs.order[stop];
      var v := vecs.entries[w];
      if !Fits(v, k) {
        return;
      }
      FillStep(vecs, k, zero, rows, index, stop);
      rows := rows + [Broadcast(v, k)];
      index := index.Put(w, stop + 1);
      stop := stop + 1;
    }
  }

  /** The first `i` words have been given rows `1..i` of `rows` and their indices. */
  ghost predicate Filled<K, E>(vecs: Dicts.Dict<K, seq<E>>, k: nat, zero: E, rows: seq<seq<E>>, index: Dicts.Dict<K, int>, i: nat)
    requires vecs.Valid() && i <= |vecs.order|
  {
    && |rows| == i + 1 && rows[0] == Zeros(k, zero)
    && (forall j :: 0 <= j < |rows| ==> |rows[j]| == k)
    && (forall j :: 0 <= j < i ==> Fits(vecs.entries[vecs.order[j]], k))
    && (forall j :: 0 <= j < i ==> rows[j + 1] == Broadcast(vecs.entries[vecs.order[j]], k))
    && index.Valid() && index.order == vecs.order[..i]
    && (forall j :: 0 <= j < i ==> vecs.order[j] in index.entries && index.entries[vecs.order[j]] == j + 1)
  }

  /** One turn of the loop of `get_W` keeps `Filled`. */
  lemma FillStep<K, E>(vecs: Dicts.Dict<K, seq<E>>, k: nat, zero: E, rows: seq<seq<E>>, index: Dicts.Dict<K, int>, i: nat)
    requires vecs.Valid() && i < |vecs.order|
    requires Filled(vecs, k, zero, rows, index, i)
    requires Fits(vecs.entries[vecs.order[i]], k)
    ensures vecs.order[i] !in index.entries
    ensures Filled(vecs, k, zero, rows + [Broadcast(vecs.entries[vecs.order[i]], k)],
                   index.Put(vecs.order[i], i + 1), i + 1)
  {
    assert vecs.order[..i + 1] == vecs.order[..i] + [vecs.order[i]];
  }

  /** After the loop every word has a row and an index pointing back at it. */
  lemma FillDone<K, E>(vecs: Dicts.Dict<K, seq<E>>, k: nat, zero: E, m: Matrix<K, E>)
    requires vecs.Valid()
    requires Filled(vecs, k, zero, m.rows, m.index, |vecs.order|)
    ensures AllFit(vecs, k)
    ensures Laid(vecs, k, zero, m)
  {
    assert vecs.order[..|vecs.order|] == vecs.order;
    forall w | w in vecs.entries
      ensures Fits(vecs.entries[w], k)
      ensures w in m.index.entries && 1 <= m.index.entries[w] <= |vecs.order| && vecs.order[m.index.entries[w] - 1] == w
      ensures m.rows[m.index.entries[w]] == Broadcast(vecs.entries[w], k)
    {
      assert w in vecs.order;
      var j :| 0 <= j < |vecs.order| && vecs.order[j] == w;
    }
  }

  /** The loop stops at the first word whose vector does not fit. */
  lemma Misfit<K, E>(vecs: Dicts.Dict<K, seq<E>>, k: nat, zero: E, rows: seq<seq<E>>, index: Dicts.Dict<K, int>, i: nat)
    requires vecs.Valid() && i < |vecs.order|
    requires Filled(vecs, k, zero, rows, index, i)
    requires !Fits(vecs.entries[vecs.order[i]], k)
    ensures !AllFit(vecs, k)
    ensures FirstMisfit(vecs, k, vecs.order[i])
  {
    assert vecs.order[i] in vecs.entries;
  }

  /** The `j`-th vector drawn from the oracle, `np.random.uniform(-0.25, 0.25, k)`. */
  function Uniform<E>(draw: (nat, nat) -> E, j: nat, k: nat): (v: seq<E>)
    ensures |v| == k
    ensures forall i :: 0 <= i < k ==> v[i] == draw(j, i)
  {
    seq(k, i requires 0 <= i < k => draw(j, i))
  }

  /** True iff `add_unknown_words` gives `w` a vector, judged against the keys `known`. */
  predicate Wanted<K>(known: set<K>, counts: map<K, nat>, minDf: int, w: K)
    requires w in counts
  {
    w !in known && counts[w] >= minDf
  }

  /** The words of `words`, in order, that get a new vector. */
  function Candidates<K>(known: set<K>, words: seq<K>, counts: map<K, nat>, minDf: int): (c: seq<K>)
    requires forall i :: 0 <= i < |words| ==> words[i] in counts
    ensures forall i :: 0 <= i < |c| ==> c[i] in words && Wanted(known, counts, minDf, c[i])
    ensures forall i :: 0 <= i < |words| && Wanted(known, counts, minDf, words[i]) ==> words[i] in c
    ensures Dicts.Subsequence(c, words)
    ensures Dicts.Distinct(words) ==> Dicts.Distinct(c)
    decreases |words|
  {
    if |words| == 0 then []
    else
      var rest := Candidates(known, words[1..], counts, minDf);
      if Wanted(known, counts, minDf, words[0]) then
        assert ([words[0]] + rest)[1..] == rest;
        [words[0]] + rest
      else rest
  }

  /**
   * The loop of `add_unknown_words` over the remaining `words`, of which
   * `drawn` vectors have been drawn so far. A negative length raises at the
   * first word that needs a vector.
   */
  function AddFrom<K, E>(vecs: Dicts.Dict<K, seq<E>>, words: seq<K>, counts: map<K, nat>, minDf: int, k: int,
                         draw: (nat, nat) -> E, drawn: nat): (r: Result<Dicts.Dict<K, seq<E>>, ShapeError<K>>)
    requires vecs.Valid()
    requires forall i :: 0 <= i < |words| ==> words[i] in counts
    ensures r.Success? ==> r.value.Valid()
    ensures r.Success? ==> forall w :: w in r.value.entries ==> w in vecs.entries || w in words
    decreases |words|
  {
    if |words| == 0 then Success(vecs)
    else
      var w := words[0];
      if Wanted(vecs.entries.Keys, counts, minDf, w) then
        if k < 0 then Failure(NegativeDimension)
        else AddFrom(vecs.Put(w, Uniform(draw, drawn, k)), words[1..], counts, minDf, k, draw, drawn + 1)
      else AddFrom(vecs, words[1..], counts, minDf, k, draw, drawn)
  }

  /**
   * `add_unknown_words(word_vecs, vocab, min_df, k)`: every word of the
   * vocabulary counted in at least `minDf` documents and not yet in
   * `vecs` gets a fresh random vector of length `k`, in vocabulary order.
   */
  function AddUnknownWords<K, E>(vecs: Dicts.Dict<K, seq<E>>, vocab: Dicts.Dict<K, nat>, minDf: int, k: int,
                                 draw: (nat, nat) -> E): (r: Result<Dicts.Dict<K, seq<E>>, ShapeError<K>>)
    requires vecs.Valid() && vocab.Valid()
    ensures var c := Candidates(vecs.entries.Keys, vocab.order, vocab.entries, minDf);
      && (r.Failure? <==> k < 0 && |c| > 0)
      && (r.Failure? ==> r.error == NegativeDimension)
      && (r.Success? ==>
            && r.value.Valid()
            && r.value.order == vecs.order + c
            && r.value.entries.Keys == vecs.entries.Keys + (set w | w in vocab.entries && vocab.entries[w] >= minDf)
            && (forall w :: w in vecs.entries ==> r.value.entries[w] == vecs.entries[w])
            && (forall j :: 0 <= j < |c| ==> k >= 0 && r.value.entries[c[j]] == Uniform(draw, j, k)))
  {
    var r := AddFrom(vecs, vocab.order, vocab.entries, minDf, k, draw, 0);
    AddFromFails(vecs, vocab.order, vocab.entries, minDf, k, draw, 0);
    AddFromOrder(vecs, vocab.order, vocab.entries, minDf, k, draw, 0);
    AddFromKeeps(vecs, vocab.order, vocab.entries, minDf, k, draw, 0);
    AddFromDraws(vecs, vocab.order, vocab.entries, minDf, k, draw, 0);
    if r.Success? then UnknownKeys(vecs, vocab, minDf, r.value); r else r
  }

  /** The loop raises exactly when a vector is needed and its length is negative. */
  lemma {:induction false} AddFromFails<K, E>(vecs: Dicts.Dict<K, seq<E>>, words: seq<K>, counts: map<K, nat>, minDf: int,
                                             k: int, draw: (nat, nat) -> E, drawn: nat)
    requires vecs.Valid()
    requires forall i :: 0 <= i < |words| ==> words[i] in counts
    ensures var r := AddFrom(vecs, words, counts, minDf, k, draw, drawn);
      && (r.Failure? <==> k < 0 && |Candidates(vecs.entries.Keys, words, counts, minDf)| > 0)
      && (r.Failure? ==> r.error == NegativeDimension)
    decreases |words|
  {
    if |words| > 0 {
      var w := words[0];
      if Wanted(vecs.entries.Keys, counts, minDf, w) {
        if k >= 0 {
          AddFromFails(vecs.Put(w, Uniform(draw, drawn, k)), words[1..], counts, minDf, k, draw, drawn + 1);
          NeverFails(vecs.Put(w, Uniform(draw, drawn, k)), words[1..], counts, minDf, k, draw, drawn + 1);
        }
      } else {
        AddFromFails(vecs, words[1..], counts, minDf, k, draw, drawn);
      }
    }
  }

  /** With a length of at least zero the loop does not raise. */
  lemma {:induction false} NeverFails<K, E>(vecs: Dicts.Dict<K, seq<E>>, words: seq<K>, counts: map<K, nat>, minDf: int,
                                           k: int, draw: (nat, nat) -> E, drawn: nat)
    requires vecs.Valid() && k >= 0
    requires forall i :: 0 <= i < |words| ==> words[i] in counts
    ensures AddFrom(vecs, words, counts, minDf, k, draw, drawn).Success?
    decreases |words|
  {
    if |words| > 0 {
      var w := words[0];
      if Wanted(vecs.entries.Keys, counts, minDf, w) {
        NeverFails(vecs.Put(w, Uniform(draw, drawn, k)), words[1..], counts, minDf, k, draw, drawn + 1);
      } else {
        NeverFails(vecs, words[1..], counts, minDf, k, draw, drawn);
      }
    }
  }

  /** The candidates are appended to the key order, in vocabulary order. */
  lemma {:induction false} AddFromOrder<K, E>(vecs: Dicts.Dict<K, seq<E>>, words: seq<K>, counts: map<K, nat>, minDf: int,
                                             k: int, draw: (nat, nat) -> E, drawn: nat)
    requires vecs.Valid()
    requires Dicts.Distinct(words)
    requires forall i :: 0 <= i < |words| ==> words[i] in counts
    ensures var r := AddFrom(vecs, words, counts, minDf, k, draw, drawn);
      r.Success? ==> r.value.order == vecs.order + Candidates(vecs.entries.Keys, words, counts, minDf)
    decreases |words|
  {
    if |words| > 0 {
      var w := words[0];
      if Wanted(vecs.entries.Keys, counts, minDf, w) {
        if k >= 0 {
          var vecs' := vecs.Put(w, Uniform(draw, drawn, k));
          WantedStep(vecs, words, counts, minDf, k, draw, drawn);
          AddFromOrder(vecs', words[1..], counts, minDf, k, draw, drawn + 1);
        }
      } else {
        SkipStep(vecs, words, counts, minDf, k, draw, drawn);
        AddFromOrder(vecs, words[1..], counts, minDf, k, draw, drawn);
      }
    }
  }

  /** A wanted first word is the first candidate, gets the next vector, and goes last in the key order. */
  lemma WantedStep<K, E>(vecs: Dicts.Dict<K, seq<E>>, words: seq<K>, counts: map<K, nat>, minDf: int,
                         k: nat, draw: (nat, nat) -> E, drawn: nat)
    requires vecs.Valid() && |words| > 0
    requires Dicts.Distinct(words)
    requires forall i :: 0 <= i < |words| ==> words[i] in counts
    requires Wanted(vecs.entries.Keys, counts, minDf, words[0])
    ensures Dicts.Distinct(words[1..])
    ensures vecs.Put(words[0], Uniform(draw, drawn, k)).order == vecs.order + [words[0]]
    ensures Candidates(vecs.entries.Keys, words, counts, minDf)
         == [words[0]] + Candidates(vecs.Put(words[0], Uniform(draw, drawn, k)).entries.Keys, words[1..], counts, minDf)
    ensures AddFrom(vecs, words, counts, minDf, k, draw, drawn)
         == AddFrom(vecs.Put(words[0], Uniform(draw, drawn, k)), words[1..], counts, minDf, k, draw, drawn + 1)
  {
    var w := words[0];
    var vecs' := vecs.Put(w, Uniform(draw, drawn, k));
    assert w !in words[1..];
    assert vecs'.entries.Keys == vecs.entries.Keys + {w};
    CandidatesIgnore(vecs.entries.Keys, w, words[1..], counts, minDf);
  }

  /** A first word that is not wanted changes nothing. */
  lemma SkipStep<K, E>(vecs: Dicts.Dict<K, seq<E>>, words: seq<K>, counts: map<K, nat>, minDf: int,
                       k: int, draw: (nat, nat) -> E, drawn: nat)
    requires vecs.Valid() && |words| > 0
    requires Dicts.Distinct(words)
    requires forall i :: 0 <= i < |words| ==> words[i] in counts
    requires !Wanted(vecs.entries.Keys, counts, minDf, words[0])
    ensures Dicts.Distinct(words[1..])
    ensures Candidates(vecs.entries.Keys, words, counts, minDf) == Candidates(vecs.entries.Keys, words[1..], counts, minDf)
    ensures AddFrom(vecs, words, counts, minDf, k, draw, drawn) == AddFrom(vecs, words[1..], counts, minDf, k, draw, drawn)
  {
  }

  /** Words that already had a vector keep it. */
  lemma {:induction false} AddFromKeeps<K, E>(vecs: Dicts.Dict<K, seq<E>>, words: seq<K>, counts: map<K, nat>, minDf: int,
                                             k: int, draw: (nat, nat) -> E, drawn: nat)
    requires vecs.Valid()
    requires forall i :: 0 <= i < |words| ==> words[i] in counts
    ensures var r := AddFrom(vecs, words, counts, minDf, k, draw, drawn);
      r.Success? ==> forall w :: w in vecs.entries ==> w in r.value.entries && r.value.entries[w] == vecs.entries[w]
    decreases |words|
  {
    if |words| > 0 {
      var w := words[0];
      if Wanted(vecs.entries.Keys, counts, minDf, w) {
        if k >= 0 {
          var vecs' := vecs.Put(w, Uniform(draw, drawn, k));
          AddFromKeeps(vecs', words[1..], counts, minDf, k, draw, drawn + 1);
          assert forall x :: x in vecs.entries ==> x in vecs'.entries && vecs'.entries[x] == vecs.entries[x];
        }
      } else {
        AddFromKeeps(vecs, words[1..], counts, minDf, k, draw, drawn);
      }
    }
  }

  /** On success the `j`-th of the words `c` holds the vector drawn `drawn + j`-th. */
  ghost predicate DrawsStored<K, E>(r: Result<Dicts.Dict<K, seq<E>>, ShapeError<K>>, c: seq<K>, k: int, draw: (nat, nat) -> E, drawn: nat) {
    r.Success? ==> forall j :: 0 <= j < |c| ==>
      k >= 0 && c[j] in r.value.entries && r.value.entries[c[j]] == Uniform(draw, drawn + j, k)
  }

  /** The `j`-th candidate gets the vector drawn `j`-th. */
  lemma {:induction false} AddFromDraws<K, E>(vecs: Dicts.Dict<K, seq<E>>, words: seq<K>, counts: map<K, nat>, minDf: int,
                                             k: int, draw: (nat, nat) -> E, drawn: nat)
    requires vecs.Valid()
    requires Dicts.Distinct(words)
    requires forall i :: 0 <= i < |words| ==> words[i] in counts
    ensures DrawsStored(AddFrom(vecs, words, counts, minDf, k, draw, drawn), Candidates(vecs.entries.Keys, words, counts, minDf),
                        k, draw, drawn)
    decreases |words|
  {
    if |words| > 0 {
      var w := words[0];
      if Wanted(vecs.entries.Keys, counts, minDf, w) {
        if k >= 0 {
          var vecs' := vecs.Put(w, Uniform(draw, drawn, k));
          var r := AddFrom(vecs', words[1..], counts, minDf, k, draw, drawn + 1);
          WantedStep(vecs, words, counts, minDf, k, draw, drawn);
          AddFromDraws(vecs', words[1..], counts, minDf, k, draw, drawn + 1);
          AddFromKeeps(vecs', words[1..], counts, minDf, k, draw, drawn + 1);
          DrawsCons(r, w, Candidates(vecs'.entries.Keys, words[1..], counts, minDf), k, draw, drawn);
        }
      } else {
        SkipStep(vecs, words, counts, minDf, k, draw, drawn);
        AddFromDraws(vecs, words[1..], counts, minDf, k, draw, drawn);
      }
    }
  }

  /** A first word that holds the `drawn`-th vector extends `DrawsStored` by one. */
  lemma DrawsCons<K, E>(r: Result<Dicts.Dict<K, seq<E>>, ShapeError<K>>, w: K, c: seq<K>, k: nat, draw: (nat, nat) -> E, drawn: nat)
    requires DrawsStored(r, c, k, draw, drawn + 1)
    requires r.Success? ==> w in r.value.entries && r.value.entries[w] == Uniform(draw, drawn, k)
    ensures DrawsStored(r, [w] + c, k, draw, drawn)
  {
    if r.Success? {
      forall j | 0 < j < |c| + 1
        ensures ([w] + c)[j] in r.value.entries && r.value.entries[([w] + c)[j]] == Uniform(draw, drawn + j, k)
      {
        assert ([w] + c)[j] == c[j - 1];
      }
    }
  }

  /** With the candidates appended, the keys are the old ones plus every word counted often enough. */
  lemma UnknownKeys<K, E>(vecs: Dicts.Dict<K, seq<E>>, vocab: Dicts.Dict<K, nat>, minDf: int, r: Dicts.Dict<K, seq<E>>)
    requires vecs.Valid() && vocab.Valid() && r.Valid()
    requires r.order == vecs.order + Candidates(vecs.entries.Keys, vocab.order, vocab.entries, minDf)
    ensures r.entries.Keys == vecs.entries.Keys + (set w | w in vocab.entries && vocab.entries[w] >= minDf)
  {
    var c := Candidates(vecs.entries.Keys, vocab.order, vocab.entries, minDf);
    forall w | w in vocab.entries && vocab.entries[w] >= minDf && w !in vecs.entries
      ensures w in r.entries
    {
      assert w in vocab.order;
      var i :| 0 <= i < |vocab.order| && vocab.order[i] == w;
      assert w in c;
    }
  }

  /** A key that the remaining words do not mention does not change which of them are candidates. */
  lemma {:induction false} CandidatesIgnore<K>(known: set<K>, x: K, words: seq<K>, counts: map<K, nat>, minDf: int)
    requires x !in words
    requires forall i :: 0 <= i < |words| ==> words[i] in counts
    ensures Candidates(known + {x}, words, counts, minDf) == Candidates(known, words, counts, minDf)
    decreases |words|
  {
    if |words| > 0 {
      CandidatesIgnore(known, x, words[1..], counts, minDf);
    }
  }

  /**
   * Running `add_unknown_words` again with the same vocabulary adds
   * nothing, whatever the second draws are.
   */
  lemma AddUnknownWordsIdempotent<K, E>(vecs: Dicts.Dict<K, seq<E>>, vocab: Dicts.Dict<K, nat>, minDf: int, k: int,
                                        draw: (nat, nat) -> E, draw2: (nat, nat) -> E)
    requires vecs.Valid() && vocab.Valid()
    requires AddUnknownWords(vecs, vocab, minDf, k, draw).Success?
    ensures var once := AddUnknownWords(vecs, vocab, minDf, k, draw).value;
      AddUnknownWords(once, vocab, minDf, k, draw2) == Success(once)
  {
    var once := AddUnknownWords(vecs, vocab, minDf, k, draw).value;
    forall i | 0 <= i < |vocab.order|
      ensures !Wanted(once.entries.Keys, vocab.entries, minDf, vocab.order[i])
    {
      assert vocab.order[i] in vocab.entries;
    }
    NoneWanted(once.entries.Keys, vocab.order, vocab.entries, minDf);
    NoCandidatesUnchanged(once, vocab.order, vocab.entries, minDf, k, draw2, 0);
  }

  /** Without candidates the loop leaves the dictionary as it is. */
  lemma {:induction false} NoCandidatesUnchanged<K, E>(vecs: Dicts.Dict<K, seq<E>>, words: seq<K>, counts: map<K, nat>, minDf: int,
                                                      k: int, draw: (nat, nat) -> E, drawn: nat)
    requires vecs.Valid()
    requires forall i :: 0 <= i < |words| ==> words[i] in counts
    requires Candidates(vecs.entries.Keys, words, counts, minDf) == []
    ensures AddFrom(vecs, words, counts, minDf, k, draw, drawn) == Success(vecs)
    decreases |words|
  {
    if |words| > 0 {
      NoCandidatesUnchanged(vecs, words[1..], counts, minDf, k, draw, drawn);
    }
  }

  /** Without a wanted word there are no candidates. */
  lemma {:induction false} NoneWanted<K>(known: set<K>, words: seq<K>, counts: map<K, nat>, minDf: int)
    requires forall i :: 0 <= i < |words| ==> words[i] in counts && !Wanted(known, counts, minDf, words[i])
    ensures Candidates(known, words, counts, minDf) == []
    decreases |words|
  {
    if |words| > 0 {
      NoneWanted(known, words[1..], counts, minDf);
    }
  }
}
