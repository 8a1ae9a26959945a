/**
 * The binary format that `load_bin_vec` reads, written out: a header line
 * `"<N> <k>\n"` in decimal, then for every record its word, a space byte,
 * the `4*k` payload bytes and a separator of line feeds, possibly none.
 * The loader reads back exactly the records whose word is in the
 * vocabulary, the last record winning when a word repeats.
 */
module Word2VecFormat {
  import opened Wrappers
  import Fields
  import Dicts
  import opened Word2Vec

  /** The ASCII digit for `d`. */
  function Digit(d: nat): (b: bv8)
    requires d < 10
    ensures IsDigit(b) && (b - 0x30) as nat == d
  {
    (d + 0x30) as bv8
  }

  /** `str(n).encode()` for a natural number: its decimal digits, most significant first. */
  function Decimal(n: nat): (r: seq<bv8>)
    ensures |r| > 0 && forall i :: 0 <= i < |r| ==> IsDigit(r[i])
    decreases n
  {
    if n < 10 then [Digit(n)] else Decimal(n / 10) + [Digit(n % 10)]
  }

  /** Reading the digits back gives the number. */
  lemma {:induction false} DecimalValue(n: nat)
    ensures DigitsValue(Decimal(n)) == n
    decreases n
  {
    var d := Decimal(n);
    if n >= 10 {
      DecimalValue(n / 10);
      assert d[..|d| - 1] == Decimal(n / 10);
    } else {
      assert d[..0] == [];
    }
  }

  /** `int(str(n))` is `n`. */
  lemma DecimalParses(n: nat)
    ensures ParseInt(Decimal(n)) == Some(n)
  {
    DecimalValue(n);
  }

  /** One stored embedding: a word and its packed float32 components. */
  datatype Record = Record(word: Word, payload: Payload)

  /** A record that the loader can read back: the word holds no space or line feed and the payload has the declared size. */
  predicate Readable(r: Record, width: nat) {
    Space !in r.word && Newline !in r.word && |r.payload| == width
  }

  /** `"<n> <k>"` */
  function HeaderText(n: nat, k: nat): seq<bv8> {
    Decimal(n) + [Space] + Decimal(k)
  }

  /** `"<n> <k>\n"` */
  function HeaderLine(n: nat, k: nat): seq<bv8> {
    HeaderText(n, k) + [Newline]
  }

  /** Numerals and a space hold no line feed. */
  lemma HeaderTextSingleLine(n: nat, k: nat)
    ensures Newline !in HeaderText(n, k)
  {
    var a, b, h := Decimal(n), Decimal(k), HeaderText(n, k);
    forall i | 0 <= i < |h| ensures h[i] != Newline {
      if i < |a| {
        assert h[i] == a[i];
      } else if i > |a| {
        assert h[i] == b[i - |a| - 1];
      }
    }
  }

  /** Only line feeds: what may separate one record from the next (often nothing, or one line feed). */
  predicate LineFeeds(sep: seq<bv8>) {
    forall i :: 0 <= i < |sep| ==> sep[i] == Newline
  }

  /** `word + b" " + payload + sep` */
  function Chunk(r: Record, sep: seq<bv8>): seq<bv8> {
    r.word + [Space] + r.payload + sep
  }

  function Body(recs: seq<Record>, sep: seq<bv8>): seq<bv8>
    decreases |recs|
  {
    if |recs| == 0 then [] else Chunk(recs[0], sep) + Body(recs[1..], sep)
  }

  /** A whole file with `k`-dimensional vectors for `recs`, each record followed by `sep`. */
  function Encode(k: nat, recs: seq<Record>, sep: seq<bv8>): seq<bv8> {
    HeaderLine(|recs|, k) + Body(recs, sep)
  }

  /** The word/payload pairs the loader keeps, in file order. */
  function Kept(recs: seq<Record>, vocab: set<Word>): (pairs: seq<(Word, Payload)>)
    decreases |recs|
  {
    if |recs| == 0 then []
    else (if recs[0].word in vocab then [(recs[0].word, recs[0].payload)] else []) + Kept(recs[1..], vocab)
  }

  /** The header line parses back to the numbers written. */
  lemma HeaderParses(n: nat, k: nat)
    ensures ParseHeader(HeaderLine(n, k)) == Some((n, k))
  {
    HeaderSplits(n, k);
    DecimalParses(n);
    DecimalParses(k);
  }

  /** `header.split()` yields the two numerals. */
  lemma HeaderSplits(n: nat, k: nat)
    ensures Fields.Split(HeaderLine(n, k), IsAsciiWhitespace) == [Decimal(n), Decimal(k)]
  {
    var a, b := Decimal(n), Decimal(k);
    var ws := IsAsciiWhitespace;
    calc {
      Fields.Split(HeaderLine(n, k), ws);
      { assert HeaderLine(n, k) == a + ([Space] + (b + [Newline])); }
      Fields.Split(a + ([Space] + (b + [Newline])), ws);
      { DecimalField(n, [Space] + (b + [Newline])); }
      [a] + Fields.Split([Space] + (b + [Newline]), ws);
      { Fields.SplitSkip(Space, b + [Newline], ws); }
      [a] + Fields.Split(b + [Newline], ws);
      { DecimalField(k, [Newline]); }
      [a] + ([b] + Fields.Split([Newline], ws));
      { Fields.SplitSkip(Newline, [], ws); assert [Newline] + [] == [Newline]; }
      [a, b];
    }
  }

  /** A numeral followed by whitespace, or by nothing, is a field of its own. */
  lemma DecimalField(n: nat, rest: seq<bv8>)
    requires |rest| == 0 || IsAsciiWhitespace(rest[0])
    ensures Fields.Split(Decimal(n) + rest, IsAsciiWhitespace) == [Decimal(n)] + Fields.Split(rest, IsAsciiWhitespace)
  {
    var d := Decimal(n);
    forall i | 0 <= i < |d| ensures !IsAsciiWhitespace(d[i]) {
      assert IsDigit(d[i]);
    }
    Fields.SplitField(d, rest, IsAsciiWhitespace);
  }

  /** The word loop skips leading line feeds, then reads the word up to its space. */
  lemma {:induction false} ReadTokenWord(pre: seq<bv8>, word: Word, tail: seq<bv8>)
    requires forall i :: 0 <= i < |pre| ==> pre[i] == Newline
    requires Space !in word && Newline !in word
    ensures ReadToken(pre + word + [Space] + tail) == Some((word, |pre| + |word| + 1))
    decreases |pre| + |word|
  {
    var s := pre + word + [Space] + tail;
    if |pre| > 0 {
      DropFirst(pre, word, tail);
      ReadTokenWord(pre[1..], word, tail);
      ReadTokenCons(s, word, |pre[1..]| + |word| + 1);
      assert [] + word == word;
    } else if |word| > 0 {
      DropFirst(word, [], tail);
      assert word + [] == [] + word && word[1..] + [] == [] + word[1..];
      ReadTokenWord([], word[1..], tail);
      ReadTokenCons(s, word[1..], |word[1..]| + 1);
      assert [word[0]] + word[1..] == word;
    } else {
      assert s == [Space] + tail;
    }
  }

  lemma DropFirst(x: seq<bv8>, y: seq<bv8>, tail: seq<bv8>)
    requires |x| > 0
    ensures (x + y + [Space] + tail)[0] == x[0]
    ensures (x + y + [Space] + tail)[1..] == x[1..] + y + [Space] + tail
  {
  }

  /** After some line feeds, the first record's word comes off first, then its payload, then the separator that ends it. */
  lemma ChunkRead(pre: seq<bv8>, recs: seq<Record>, width: nat, sep: seq<bv8>)
    requires LineFeeds(pre)
    requires |recs| > 0 && Readable(recs[0], width)
    ensures ReadToken(pre + Body(recs, sep)) == Some((recs[0].word, |pre| + |recs[0].word| + 1))
    ensures |pre| + |recs[0].word| + 1 + width <= |pre + Body(recs, sep)|
    ensures (pre + Body(recs, sep))[|pre| + |recs[0].word| + 1..|pre| + |recs[0].word| + 1 + width] == recs[0].payload
    ensures (pre + Body(recs, sep))[|pre| + |recs[0].word| + 1 + width..] == sep + Body(recs[1..], sep)
  {
    var r := recs[0];
    var tail := Body(recs[1..], sep);
    assert Body(recs, sep) == Chunk(r, sep) + tail;
    ChunkLayout(pre, r, sep, tail);
    SliceAfter(pre + r.word + [Space], r.payload, sep + tail);
    ReadTokenWord(pre, r.word, r.payload + (sep + tail));
  }

  /** Where the parts of a chunk sit in the file. */
  lemma ChunkLayout(pre: seq<bv8>, r: Record, sep: seq<bv8>, tail: seq<bv8>)
    ensures pre + (Chunk(r, sep) + tail) == (pre + r.word + [Space]) + (r.payload + (sep + tail))
  {
  }

  lemma SliceAfter(x: seq<bv8>, p: seq<bv8>, rest: seq<bv8>)
    ensures (x + (p + rest))[|x|..|x| + |p|] == p
    ensures (x + (p + rest))[|x| + |p|..] == rest
  {
  }

  /**
   * Reading `|recs|` records after some line feeds stores exactly the kept
   * pairs, one after another.
   */
  lemma {:induction false} ReadBody(pre: seq<bv8>, recs: seq<Record>, width: nat, sep: seq<bv8>, vocab: set<Word>,
                                    acc: Dicts.Dict<Word, Payload>)
    requires acc.Valid()
    requires LineFeeds(pre) && LineFeeds(sep)
    requires forall i :: 0 <= i < |recs| ==> Readable(recs[i], width)
    ensures ReadRecords(pre + Body(recs, sep), |recs|, width, vocab, acc).Success?
    ensures ReadRecords(pre + Body(recs, sep), |recs|, width, vocab, acc).value.0 == Dicts.PutAll(acc, Kept(recs, vocab))
    decreases |recs|
  {
    if |recs| > 0 {
      var rest := recs[1..];
      var acc' := Keep(acc, vocab, recs[0].word, recs[0].payload);
      assert forall i :: 0 <= i < |rest| ==> Readable(rest[i], width);
      ReadBody(sep, rest, width, sep, vocab, acc');
      FirstRecord(pre, recs, width, sep, vocab, acc);
      BodyAfter(acc, recs, vocab, |pre| + |recs[0].word| + 1 + width, ReadRecords(sep + Body(rest, sep), |recs| - 1, width, vocab, acc'));
    }
  }

  /** Storing the first record, then the rest as the loop did, is storing all kept records. */
  lemma BodyAfter(acc: Dicts.Dict<Word, Payload>, recs: seq<Record>, vocab: set<Word>, used: nat,
                  tail: Result<(Dicts.Dict<Word, Payload>, nat), LoadError>)
    requires acc.Valid() && |recs| > 0
    requires tail.Success? && tail.value.0 == Dicts.PutAll(Keep(acc, vocab, recs[0].word, recs[0].payload), Kept(recs[1..], vocab))
    ensures After(used, tail).Success? && After(used, tail).value.0 == Dicts.PutAll(acc, Kept(recs, vocab))
  {
    KeptCons(acc, recs, vocab);
  }

  /** The record loop over an encoded body reads the first record and goes on after its separator. */
  lemma FirstRecord(pre: seq<bv8>, recs: seq<Record>, width: nat, sep: seq<bv8>, vocab: set<Word>, acc: Dicts.Dict<Word, Payload>)
    requires acc.Valid() && |recs| > 0
    requires LineFeeds(pre)
    requires Readable(recs[0], width)
    ensures ReadRecords(pre + Body(recs, sep), |recs|, width, vocab, acc)
         == After(|pre| + |recs[0].word| + 1 + width,
                  ReadRecords(sep + Body(recs[1..], sep), |recs| - 1, width, vocab, Keep(acc, vocab, recs[0].word, recs[0].payload)))
  {
    ChunkRead(pre, recs, width, sep);
    ReadRecordsCons(pre + Body(recs, sep), |recs|, width, vocab, acc, recs[0].word, |pre| + |recs[0].word| + 1);
  }

  /** Storing the first kept record and then the rest is storing all kept records. */
  lemma KeptCons(acc: Dicts.Dict<Word, Payload>, recs: seq<Record>, vocab: set<Word>)
    requires acc.Valid() && |recs| > 0
    ensures Dicts.PutAll(Keep(acc, vocab, recs[0].word, recs[0].payload), Kept(recs[1..], vocab))
         == Dicts.PutAll(acc, Kept(recs, vocab))
  {
    var r := recs[0];
    if r.word in vocab {
      assert Kept(recs, vocab) == [(r.word, r.payload)] + Kept(recs[1..], vocab);
      assert Kept(recs, vocab)[1..] == Kept(recs[1..], vocab);
    } else {
      assert Kept(recs, vocab) == Kept(recs[1..], vocab);
    }
  }

  /**
   * The round trip: loading an encoded file gives the dictionary that
   * stores the records whose word is in the vocabulary, in file order,
   * whether the records are separated by line feeds or follow each other
   * directly.
   */
  lemma LoadEncode(k: nat, recs: seq<Record>, sep: seq<bv8>, vocab: set<Word>)
    requires forall i :: 0 <= i < |recs| ==> Readable(recs[i], FloatSize * k)
    requires LineFeeds(sep)
    ensures Load(Encode(k, recs, sep), vocab) == Success(Dicts.PutAll(Dicts.Empty(), Kept(recs, vocab)))
  {
    var data := Encode(k, recs, sep);
    HeaderTextSingleLine(|recs|, k);
    ReadLineOf(HeaderText(|recs|, k), Body(recs, sep));
    HeaderParses(|recs|, k);
    assert [] + Body(recs, sep) == Body(recs, sep);
    ReadBody([], recs, FloatSize * k, sep, vocab, Dicts.Empty());
  }

  /** The words kept from `recs`: those in the vocabulary. */
  lemma {:induction false} KeptKeys(recs: seq<Record>, vocab: set<Word>)
    ensures Dicts.KeysOf(Kept(recs, vocab)) == set r | r in recs && r.word in vocab :: r.word
    decreases |recs|
  {
    if |recs| > 0 {
      KeptKeys(recs[1..], vocab);
      var r := recs[0];
      assert recs == [r] + recs[1..];
      var kept := Kept(recs, vocab);
      if r.word in vocab {
        assert kept[0] == (r.word, r.payload) && kept[1..] == Kept(recs[1..], vocab);
      } else {
        assert kept == Kept(recs[1..], vocab);
      }
    }
  }

  /** A kept record that no later record overrides decides the stored value of its word. */
  lemma {:induction false} KeptLastWins(acc: Dicts.Dict<Word, Payload>, recs: seq<Record>, vocab: set<Word>, i: nat)
    requires acc.Valid()
    requires i < |recs| && recs[i].word in vocab
    requires forall j :: i < j < |recs| ==> recs[j].word != recs[i].word
    ensures recs[i].word in Dicts.PutAll(acc, Kept(recs, vocab)).entries
    ensures Dicts.PutAll(acc, Kept(recs, vocab)).entries[recs[i].word] == recs[i].payload
    decreases |recs|
  {
    var r := recs[0];
    KeptCons(acc, recs, vocab);
    var acc' := Keep(acc, vocab, r.word, r.payload);
    if i == 0 {
      var rest := Kept(recs[1..], vocab);
      KeptKeys(recs[1..], vocab);
      assert r.word !in Dicts.KeysOf(rest);
      Dicts.PutAllLastWins(acc', rest);
    } else {
      KeptLastWins(acc', recs[1..], vocab, i - 1);
    }
  }

  /** Loading an encoded file keeps exactly the vocabulary words among the records. */
  lemma LoadEncodeKeys(k: nat, recs: seq<Record>, sep: seq<bv8>, vocab: set<Word>)
    requires forall i :: 0 <= i < |recs| ==> Readable(recs[i], FloatSize * k)
    requires LineFeeds(sep)
    ensures Load(Encode(k, recs, sep), vocab).Success?
    ensures Load(Encode(k, recs, sep), vocab).value.entries.Keys == set r | r in recs && r.word in vocab :: r.word
  {
    LoadEncode(k, recs, sep, vocab);
    Dicts.PutAllKeys(Dicts.Empty(), Kept(recs, vocab));
    KeptKeys(recs, vocab);
  }

  /** When a word occurs in several records, loading keeps the payload of the last one. */
  lemma LoadEncodeLastWins(k: nat, recs: seq<Record>, sep: seq<bv8>, vocab: set<Word>, i: nat)
    requires forall i :: 0 <= i < |recs| ==> Readable(recs[i], FloatSize * k)
    requires LineFeeds(sep)
    requires i < |recs| && recs[i].word in vocab
    requires forall j :: i < j < |recs| ==> recs[j].word != recs[i].word
    ensures Load(Encode(k, recs, sep), vocab).Success?
    ensures recs[i].word in Load(Encode(k, recs, sep), vocab).value.entries
    ensures Load(Encode(k, recs, sep), vocab).value.entries[recs[i].word] == recs[i].payload
  {
    LoadEncode(k, recs, sep, vocab);
    KeptLastWins(Dicts.Empty(), recs, vocab, i);
  }
}
