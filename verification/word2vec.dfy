/**
 * `load_bin_vec`: a reader for the binary embedding format written by the
 * word2vec C tool. The file is a header line `"<N> <k>\n"` followed by N
 * records, each a word terminated by a space byte and then `4*k` bytes of
 * packed 32-bit floats. Only the records whose word is in the vocabulary
 * are kept; the payloads stay opaque byte blocks.
 */
module Word2Vec {
  import opened Wrappers
  import Fields
  import Dicts

  type Word = seq<bv8>
  type Payload = seq<bv8>

  const Space: bv8 := 0x20
  const Newline: bv8 := 0x0A
  /** `np.dtype('float32').itemsize` */
  const FloatSize: nat := 4

  datatype LoadError =
    | MalformedHeader     // the first line is not two integers (`map(int, …)` or the unpacking raises)
    | NegativeDimension   // the header declares a negative vector size
    | UnterminatedToken   // the input ends before the space that ends a word
    | TruncatedPayload    // fewer than `4*k` bytes follow a word

  predicate IsNewline(b: bv8) {
    b == Newline
  }

  /** The whitespace bytes of `bytes.split()`: space, tab, line feed, vertical tab, form feed, carriage return. */
  predicate IsAsciiWhitespace(b: bv8) {
    b == 0x20 || 0x09 <= b <= 0x0D
  }

  predicate IsDigit(b: bv8) {
    0x30 <= b <= 0x39
  }

  /** `f.readline()`: the bytes up to and including the first line feed (all of them if there is none), and the rest. */
  function ReadLine(data: seq<bv8>): (r: (seq<bv8>, seq<bv8>))
    ensures r.0 + r.1 == data
    ensures forall i :: 0 <= i < |r.0| - 1 ==> r.0[i] != Newline
    ensures Newline in data ==> |r.0| > 0 && r.0[|r.0| - 1] == Newline
    ensures Newline !in data ==> r.1 == []
    decreases |data|
  {
    if |data| == 0 then ([], [])
    else if data[0] == Newline then ([Newline], data[1..])
    else
      var (line, rest) := ReadLine(data[1..]);
      assert data == [data[0]] + data[1..];
      ([data[0]] + line, rest)
  }

  /** The value of a non-empty run of decimal digits, most significant first. */
  function DigitsValue(d: seq<bv8>): nat
    requires forall i :: 0 <= i < |d| ==> IsDigit(d[i])
    decreases |d|
  {
    if |d| == 0 then 0 else DigitsValue(d[..|d| - 1]) * 10 + (d[|d| - 1] - 0x30) as nat
  }

  /** `int(field)` for a field without whitespace: an optional sign and at least one decimal digit. */
  function ParseInt(f: seq<bv8>): (r: Option<int>)
    ensures r.Some? <==>
      var digits := if |f| > 0 && (f[0] == 0x2B || f[0] == 0x2D) then f[1..] else f;
      |digits| > 0 && forall i :: 0 <= i < |digits| ==> IsDigit(digits[i])
  {
    var signed := |f| > 0 && (f[0] == 0x2B || f[0] == 0x2D);
    var digits := if signed then f[1..] else f;
    if |digits| == 0 || exists i :: 0 <= i < |digits| && !IsDigit(digits[i]) then None
    else
      var v: int := DigitsValue(digits);
      Some(if signed && f[0] == 0x2D then -v else v)
  }

  /** `vocab_size, layer1_size = map(int, header.split())` */
  function ParseHeader(line: seq<bv8>): (r: Option<(int, int)>)
    ensures r.Some? <==>
      && |Fields.Split(line, IsAsciiWhitespace)| == 2
      && ParseInt(Fields.Split(line, IsAsciiWhitespace)[0]).Some?
      && ParseInt(Fields.Split(line, IsAsciiWhitespace)[1]).Some?
    ensures r.Some? ==>
      r.value == (ParseInt(Fields.Split(line, IsAsciiWhitespace)[0]).value, ParseInt(Fields.Split(line, IsAsciiWhitespace)[1]).value)
  {
    var fields := Fields.Split(line, IsAsciiWhitespace);
    if |fields| != 2 then None
    else match (ParseInt(fields[0]), ParseInt(fields[1]))
      case (Some(n), Some(k)) => Some((n, k))
      case _ => None
  }

  /** The declared record count and dimension, if the first line holds them. */
  function Header(data: seq<bv8>): Option<(int, int)> {
    ParseHeader(ReadLine(data).0)
  }

  /** The header is the first line, up to its line feed, whatever the records behind it hold. */
  lemma HeaderFirstLine(line: seq<bv8>, body: seq<bv8>)
    requires Newline !in line
    ensures Header(line + [Newline] + body) == ParseHeader(line + [Newline])
  {
    ReadLineOf(line, body);
  }

  /** `readline()` stops at the first line feed. */
  lemma {:induction false} ReadLineOf(line: seq<bv8>, rest: seq<bv8>)
    requires Newline !in line
    ensures ReadLine(line + [Newline] + rest) == (line + [Newline], rest)
    decreases |line|
  {
    var data := line + [Newline] + rest;
    if |line| == 0 {
      assert data == [Newline] + rest;
    } else {
      assert data[1..] == line[1..] + [Newline] + rest;
      ReadLineOf(line[1..], rest);
      assert [line[0]] + (line[1..] + [Newline]) == line + [Newline];
    }
  }

  /**
   * The word loop: bytes are read until a space; line feeds are dropped,
   * every other byte joins the word. Returns the word and the number of
   * bytes consumed (the space included), or `None` when the input runs
   * out first.
   */
  function ReadToken(s: seq<bv8>): (r: Option<(Word, nat)>)
    ensures r.Some? ==> 0 < r.value.1 <= |s|
    ensures r.Some? ==> Space !in r.value.0 && Newline !in r.value.0
    decreases |s|
  {
    if |s| == 0 then None
    else if s[0] == Space then Some(([], 1))
    else match ReadToken(s[1..])
      case None => None
      case Some((w, n)) => Some(((if s[0] == Newline then [] else [s[0]]) + w, n + 1))
  }

  /**
   * `word` and `used` are what the word loop yields on `s`: it consumes the
   * bytes up to and including the first space, and the word is everything
   * before that space with the line feeds taken out.
   */
  ghost predicate TokenAt(s: seq<bv8>, word: Word, used: nat) {
    && 0 < used <= |s|
    && s[used - 1] == Space
    && (forall i :: 0 <= i < used - 1 ==> s[i] != Space)
    && word == Fields.Unspaced(s[..used - 1], IsNewline)
  }

  /**
   * The word loop stops at the first space byte, which it consumes; the word
   * is everything before that space with the line feeds taken out. It fails
   * exactly when there is no space left.
   */
  lemma {:induction false} ReadTokenStopsAtFirstSpace(s: seq<bv8>)
    ensures ReadToken(s).None? <==> Space !in s
    ensures ReadToken(s).Some? ==> TokenAt(s, ReadToken(s).value.0, ReadToken(s).value.1)
    decreases |s|
  {
    if |s| > 0 && s[0] != Space {
      ReadTokenStopsAtFirstSpace(s[1..]);
      SpaceInTail(s);
      if ReadToken(s[1..]).Some? {
        var (w, n) := ReadToken(s[1..]).value;
        ReadTokenCons(s, w, n);
        TokenAtCons(s, w, n);
      } else {
        ReadTokenConsNone(s);
      }
    } else if |s| > 0 {
      assert s[..0] == [];
    }
  }

  /** A space in `s` past a first byte that is not one is a space in its tail. */
  lemma SpaceInTail(s: seq<bv8>)
    requires |s| > 0 && s[0] != Space
    ensures Space in s <==> Space in s[1..]
  {
    assert s == [s[0]] + s[1..];
  }

  /** One byte of the word loop that is not the space, when the loop then stops. */
  lemma ReadTokenCons(s: seq<bv8>, word: Word, n: nat)
    requires |s| > 0 && s[0] != Space && ReadToken(s[1..]) == Some((word, n))
    ensures ReadToken(s) == Some(((if s[0] == Newline then [] else [s[0]]) + word, n + 1))
  {
  }

  /** One byte of the word loop that is not the space, when the loop then finds none. */
  lemma ReadTokenConsNone(s: seq<bv8>)
    requires |s| > 0 && s[0] != Space && ReadToken(s[1..]).None?
    ensures ReadToken(s).None?
  {
  }

  lemma TokenAtCons(s: seq<bv8>, word: Word, n: nat)
    requires |s| > 0 && s[0] != Space && TokenAt(s[1..], word, n)
    ensures TokenAt(s, (if s[0] == Newline then [] else [s[0]]) + word, n + 1)
  {
    assert s[1..][..n - 1] == s[1..n];
    assert s[..n][1..] == s[1..n];
    forall i | 0 <= i < n ensures s[i] != Space {
      if i > 0 { assert s[i] == s[1..][i - 1]; }
    }
    assert s[n] == s[1..][n - 1];
  }

  /**
   * The record loop, `n` records to go, each payload `width` bytes long:
   * the dictionary built and the number of bytes consumed.
   */
  function ReadRecords(s: seq<bv8>, n: nat, width: nat, vocab: set<Word>, acc: Dicts.Dict<Word, Payload>)
    : (r: Result<(Dicts.Dict<Word, Payload>, nat), LoadError>)
    requires acc.Valid()
    ensures n == 0 ==> r == Success((acc, 0))
    ensures r.Success? ==> r.value.1 <= |s|
    decreases n
  {
    if n == 0 then Success((acc, 0))
    else
      var token := ReadToken(s);
      if token.None? then Failure(UnterminatedToken)
      else
        var word, t := token.value.0, token.value.1;
        if |s| - t < width then Failure(TruncatedPayload)
        else
          After(t + width, ReadRecords(s[t + width..], n - 1, width, vocab, Keep(acc, vocab, word, s[t..t + width])))
  }

  /** The outcome of the remaining records, behind `used` bytes already consumed. */
  function After(used: nat, tail: Result<(Dicts.Dict<Word, Payload>, nat), LoadError>): Result<(Dicts.Dict<Word, Payload>, nat), LoadError> {
    if tail.Failure? then Failure(tail.error) else Success((tail.value.0, used + tail.value.1))
  }

  /** One turn of the record loop, when a word and a whole payload are there to read. */
  lemma ReadRecordsCons(s: seq<bv8>, n: nat, width: nat, vocab: set<Word>, acc: Dicts.Dict<Word, Payload>, word: Word, t: nat)
    requires acc.Valid() && n > 0
    requires ReadToken(s) == Some((word, t)) && t + width <= |s|
    ensures ReadRecords(s, n, width, vocab, acc)
         == After(t + width, ReadRecords(s[t + width..], n - 1, width, vocab, Keep(acc, vocab, word, s[t..t + width])))
  {
  }

  /**
   * What the record loop does to the dictionary: it stays valid, keeps every
   * key, adds only vocabulary words free of space and line-feed bytes, at
   * most one per record, each with a `width`-byte value.
   */
  lemma {:induction false} ReadRecordsShape(s: seq<bv8>, n: nat, width: nat, vocab: set<Word>, acc: Dicts.Dict<Word, Payload>)
    requires acc.Valid()
    ensures ReadRecords(s, n, width, vocab, acc).Success? ==>
      Grown(acc, ReadRecords(s, n, width, vocab, acc).value.0, n, width, vocab)
    decreases n, 1
  {
    var token := ReadToken(s);
    if n > 0 && token.Some? && |s| - token.value.1 >= width {
      ShapeCons(s, n, width, vocab, acc, token.value.0, token.value.1);
    } else {
      ReadRecordsStops(s, n, width, vocab, acc);
    }
  }

  /** The induction step of `ReadRecordsShape`: one whole record, then the rest. */
  lemma {:induction false} ShapeCons(s: seq<bv8>, n: nat, width: nat, vocab: set<Word>, acc: Dicts.Dict<Word, Payload>, word: Word, t: nat)
    requires acc.Valid() && n > 0
    requires ReadToken(s) == Some((word, t)) && t + width <= |s|
    ensures ReadRecords(s, n, width, vocab, acc).Success? ==>
      Grown(acc, ReadRecords(s, n, width, vocab, acc).value.0, n, width, vocab)
    decreases n, 0
  {
    ReadRecordsShape(s[t + width..], n - 1, width, vocab, Keep(acc, vocab, word, s[t..t + width]));
    ReadRecordsCons(s, n, width, vocab, acc, word, t);
    GrownAfter(acc, word, s[t..t + width], t + width,
               ReadRecords(s[t + width..], n - 1, width, vocab, Keep(acc, vocab, word, s[t..t + width])), n, width, vocab);
  }

  /** `GrownStep`, for the outcome of the rest of the loop. */
  lemma GrownAfter(acc: Dicts.Dict<Word, Payload>, word: Word, payload: Payload, used: nat,
                   tail: Result<(Dicts.Dict<Word, Payload>, nat), LoadError>, n: nat, width: nat, vocab: set<Word>)
    requires n > 0 && acc.Valid()
    requires |payload| == width && Space !in word && Newline !in word
    requires tail.Success? ==> Grown(Keep(acc, vocab, word, payload), tail.value.0, n - 1, width, vocab)
    ensures After(used, tail).Success? ==> Grown(acc, After(used, tail).value.0, n, width, vocab)
  {
    if tail.Success? {
      GrownStep(acc, word, payload, tail.value.0, n, width, vocab);
    }
  }

  /** `d` is what at most `n` records of the loop can make of `acc`. */
  ghost predicate Grown(acc: Dicts.Dict<Word, Payload>, d: Dicts.Dict<Word, Payload>, n: nat, width: nat, vocab: set<Word>) {
    && d.Valid()
    && acc.entries.Keys <= d.entries.Keys <= acc.entries.Keys + vocab
    && |d.order| <= |acc.order| + n
    && ((forall w :: w in acc.entries ==> |acc.entries[w]| == width) ==>
          forall w :: w in d.entries ==> |d.entries[w]| == width)
    && (forall w :: w in d.entries ==> w in acc.entries || (Space !in w && Newline !in w))
  }

  /** One stored record followed by `n - 1` more is at most `n` records. */
  lemma GrownStep(acc: Dicts.Dict<Word, Payload>, word: Word, payload: Payload, d: Dicts.Dict<Word, Payload>,
                  n: nat, width: nat, vocab: set<Word>)
    requires n > 0 && acc.Valid()
    requires |payload| == width && Space !in word && Newline !in word
    requires Grown(Keep(acc, vocab, word, payload), d, n - 1, width, vocab)
    ensures Grown(acc, d, n, width, vocab)
  {
    KeepStores(acc, vocab, word, payload);
  }

  /** `if word in vocab: word_vecs[word] = payload` */
  function Keep(acc: Dicts.Dict<Word, Payload>, vocab: set<Word>, word: Word, payload: Payload): (r: Dicts.Dict<Word, Payload>)
    requires acc.Valid()
    ensures r.Valid()
  {
    if word in vocab then acc.Put(word, payload) else acc
  }

  /**
   * A vocabulary word's payload is stored under the word, anything else
   * leaves the dictionary as it was; at most one key is added.
   */
  lemma KeepStores(acc: Dicts.Dict<Word, Payload>, vocab: set<Word>, word: Word, payload: Payload)
    requires acc.Valid()
    ensures word in vocab ==> Keep(acc, vocab, word, payload).entries == acc.entries[word := payload]
    ensures word !in vocab ==> Keep(acc, vocab, word, payload) == acc
    ensures acc.entries.Keys <= Keep(acc, vocab, word, payload).entries.Keys <= acc.entries.Keys + vocab
    ensures |Keep(acc, vocab, word, payload).order| <= |acc.order| + 1
  {
  }

  /** `range(vocab_size)` is empty for a negative count. */
  function RecordCount(n: int): nat {
    if n < 0 then 0 else n
  }

  /** `load_bin_vec(fname, vocab)` on the file's bytes. */
  function Load(data: seq<bv8>, vocab: set<Word>): (r: Result<Dicts.Dict<Word, Payload>, LoadError>)
    ensures Header(data).None? ==> r == Failure(MalformedHeader)
    ensures Header(data).Some? && Header(data).value.0 <= 0 ==> r == Success(Dicts.Empty())
    ensures Header(data).Some? && Header(data).value.0 > 0 && Header(data).value.1 < 0 ==> r == Failure(NegativeDimension)
    ensures r.Success? ==> Header(data).Some? && r.value.Valid() && r.value.entries.Keys <= vocab
    ensures r.Success? ==> |r.value.entries| <= RecordCount(Header(data).value.0) && |r.value.entries| <= |vocab|
    ensures r.Success? ==> forall w :: w in r.value.entries ==>
      Space !in w && Newline !in w && |r.value.entries[w]| == FloatSize * Header(data).value.1
  {
    match Header(data)
    case None => Failure(MalformedHeader)
    case Some((n, k)) =>
      if n <= 0 then Success(Dicts.Empty())
      else if k < 0 then Failure(NegativeDimension)
      else match ReadRecords(ReadLine(data).1, RecordCount(n), FloatSize * k, vocab, Dicts.Empty())
        case Failure(e) => Failure(e)
        case Success((d, _)) =>
          ReadRecordsShape(ReadLine(data).1, RecordCount(n), FloatSize * k, vocab, Dicts.Empty());
          Dicts.SizeIsLength(d);
          SubsetSize(d.entries.Keys, vocab);
          Success(d)
  }

  lemma SubsetSize<T>(a: set<T>, b: set<T>)
    requires a <= b
    ensures |a| <= |b|
  {
    assert b == a + (b - a);
  }

  /** What a run of the record loop tells the caller about the input, the kept entries aside. */
  function Consumed(r: Result<(Dicts.Dict<Word, Payload>, nat), LoadError>): Result<nat, LoadError> {
    if r.Success? then Success(r.value.1) else Failure(r.error)
  }

  /**
   * How the next `n` records are laid out, ignoring their content: the
   * number of bytes they take, or the error that ends the loop.
   */
  function Span(s: seq<bv8>, n: nat, width: nat): Result<nat, LoadError>
    decreases n
  {
    if n == 0 then Success(0)
    else match ReadToken(s)
      case None => Failure(UnterminatedToken)
      case Some((_, t)) =>
        if |s| - t < width then Failure(TruncatedPayload)
        else Shift(t + width, Span(s[t + width..], n - 1, width))
  }

  /** A span behind `used` bytes already consumed. */
  function Shift(used: nat, r: Result<nat, LoadError>): Result<nat, LoadError> {
    if r.Failure? then r else Success(used + r.value)
  }

  /**
   * A skipped record consumes exactly as many bytes as a kept one: whether
   * parsing succeeds, which error it reports and how many bytes it consumes
   * depend only on the layout of the records, not on the vocabulary or on
   * what was stored before.
   */
  lemma {:induction false} ConsumptionIsSpan(s: seq<bv8>, n: nat, width: nat, vocab: set<Word>, acc: Dicts.Dict<Word, Payload>)
    requires acc.Valid()
    ensures Consumed(ReadRecords(s, n, width, vocab, acc)) == Span(s, n, width)
    decreases n, 1
  {
    var token := ReadToken(s);
    if n > 0 && token.Some? && |s| - token.value.1 >= width {
      ConsumptionCons(s, n, width, vocab, acc, token.value.0, token.value.1);
    } else {
      ReadRecordsStops(s, n, width, vocab, acc);
    }
  }

  /** The induction step of `ConsumptionIsSpan`: one whole record, then the rest. */
  lemma {:induction false} ConsumptionCons(s: seq<bv8>, n: nat, width: nat, vocab: set<Word>, acc: Dicts.Dict<Word, Payload>, word: Word, t: nat)
    requires acc.Valid() && n > 0
    requires ReadToken(s) == Some((word, t)) && t + width <= |s|
    ensures Consumed(ReadRecords(s, n, width, vocab, acc)) == Span(s, n, width)
    decreases n, 0
  {
    var rest := s[t + width..];
    ConsumptionIsSpan(rest, n - 1, width, vocab, Keep(acc, vocab, word, s[t..t + width]));
    ConsumedCons(s, n, width, vocab, acc, word, t);
    SpanCons(s, n, width, word, t);
    ShiftBoth(Consumed(ReadRecords(s, n, width, vocab, acc)), Span(s, n, width), t + width,
              Consumed(ReadRecords(rest, n - 1, width, vocab, Keep(acc, vocab, word, s[t..t + width]))),
              Span(rest, n - 1, width));
  }

  /** Equal tails behind the same number of bytes make equal spans. */
  lemma ShiftBoth(a: Result<nat, LoadError>, b: Result<nat, LoadError>, used: nat, ta: Result<nat, LoadError>, tb: Result<nat, LoadError>)
    requires a == Shift(used, ta) && b == Shift(used, tb) && ta == tb
    ensures a == b
  {
  }

  /** One turn of the record loop, as far as the bytes consumed go. */
  lemma ConsumedCons(s: seq<bv8>, n: nat, width: nat, vocab: set<Word>, acc: Dicts.Dict<Word, Payload>, word: Word, t: nat)
    requires acc.Valid() && n > 0
    requires ReadToken(s) == Some((word, t)) && t + width <= |s|
    ensures Consumed(ReadRecords(s, n, width, vocab, acc))
         == Shift(t + width, Consumed(ReadRecords(s[t + width..], n - 1, width, vocab, Keep(acc, vocab, word, s[t..t + width]))))
  {
    ReadRecordsCons(s, n, width, vocab, acc, word, t);
    ConsumedAfter(t + width, ReadRecords(s[t + width..], n - 1, width, vocab, Keep(acc, vocab, word, s[t..t + width])));
  }

  lemma ConsumedAfter(used: nat, tail: Result<(Dicts.Dict<Word, Payload>, nat), LoadError>)
    ensures Consumed(After(used, tail)) == Shift(used, Consumed(tail))
  {
  }

  /** One turn of `Span`, when a word and a whole payload are there. */
  lemma SpanCons(s: seq<bv8>, n: nat, width: nat, word: Word, t: nat)
    requires n > 0
    requires ReadToken(s) == Some((word, t)) && t + width <= |s|
    ensures Span(s, n, width) == Shift(t + width, Span(s[t + width..], n - 1, width))
  {
  }

  /** Two runs of the record loop over the same bytes consume alike, whatever their vocabularies and dictionaries. */
  lemma ConsumptionIgnoresVocabulary(s: seq<bv8>, n: nat, width: nat,
      vocab1: set<Word>, acc1: Dicts.Dict<Word, Payload>, vocab2: set<Word>, acc2: Dicts.Dict<Word, Payload>)
    requires acc1.Valid() && acc2.Valid()
    ensures Consumed(ReadRecords(s, n, width, vocab1, acc1)) == Consumed(ReadRecords(s, n, width, vocab2, acc2))
  {
    ConsumptionIsSpan(s, n, width, vocab1, acc1);
    ConsumptionIsSpan(s, n, width, vocab2, acc2);
  }

  /** When no whole record is left to read, the loop ends at once. */
  lemma ReadRecordsStops(s: seq<bv8>, n: nat, width: nat, vocab: set<Word>, acc: Dicts.Dict<Word, Payload>)
    requires acc.Valid()
    requires !(n > 0 && ReadToken(s).Some? && |s| - ReadToken(s).value.1 >= width)
    ensures ReadRecords(s, n, width, vocab, acc)
         == if n == 0 then Success((acc, 0)) else if ReadToken(s).None? then Failure(UnterminatedToken) else Failure(TruncatedPayload)
  {
  }

  /**
   * Record `i` of the loop over `s` (counting from 0) is there in full, its
   * word is `w` and its payload is `v`: the first `i` records take
   * `Span(s, i, width)` bytes, and the word loop and `f.read(width)` start
   * right behind them.
   */
  ghost predicate RecordAt(s: seq<bv8>, width: nat, i: nat, w: Word, v: Payload) {
    && Span(s, i, width).Success?
    && Span(s, i, width).value <= |s|
    && var rest := s[Span(s, i, width).value..];
       && ReadToken(rest).Some?
       && ReadToken(rest).value.0 == w
       && ReadToken(rest).value.1 + width <= |rest|
       && v == rest[ReadToken(rest).value.1..ReadToken(rest).value.1 + width]
  }

  /**
   * Every entry of `d` either is `acc`'s, unchanged, or is keyed by the word of
   * one of the first `n` records of `s` and holds that record's payload.
   */
  ghost predicate StoredFrom(d: Dicts.Dict<Word, Payload>, acc: Dicts.Dict<Word, Payload>, s: seq<bv8>, width: nat, n: nat) {
    forall w :: w in d.entries ==>
      (w in acc.entries && d.entries[w] == acc.entries[w]) || exists i :: 0 <= i < n && RecordAt(s, width, i, w, d.entries[w])
  }

  /**
   * Every entry in the result either was there before and was not replaced,
   * or is the word of one of the `n` records read, with that record's payload.
   */
  lemma {:induction false} StoredValuesAreRecords(s: seq<bv8>, n: nat, width: nat, vocab: set<Word>, acc: Dicts.Dict<Word, Payload>)
    requires acc.Valid()
    ensures ReadRecords(s, n, width, vocab, acc).Success? ==>
      StoredFrom(ReadRecords(s, n, width, vocab, acc).value.0, acc, s, width, n)
    decreases n, 1
  {
    var token := ReadToken(s);
    if n > 0 && token.Some? && |s| - token.value.1 >= width {
      StoredCons(s, n, width, vocab, acc, token.value.0, token.value.1);
    } else {
      ReadRecordsStops(s, n, width, vocab, acc);
    }
  }

  /** The induction step of `StoredValuesAreRecords`: one whole record, then the rest. */
  lemma {:induction false} StoredCons(s: seq<bv8>, n: nat, width: nat, vocab: set<Word>, acc: Dicts.Dict<Word, Payload>, word: Word, t: nat)
    requires acc.Valid() && n > 0
    requires ReadToken(s) == Some((word, t)) && t + width <= |s|
    ensures ReadRecords(s, n, width, vocab, acc).Success? ==>
      StoredFrom(ReadRecords(s, n, width, vocab, acc).value.0, acc, s, width, n)
    decreases n, 0
  {
    StoredValuesAreRecords(s[t + width..], n - 1, width, vocab, Keep(acc, vocab, word, s[t..t + width]));
    ReadRecordsCons(s, n, width, vocab, acc, word, t);
    StoredAfter(s, n, t, width, vocab, acc, word,
                ReadRecords(s[t + width..], n - 1, width, vocab, Keep(acc, vocab, word, s[t..t + width])));
  }

  /** `StoredStep`, for the outcome of the rest of the loop. */
  lemma StoredAfter(s: seq<bv8>, n: nat, t: nat, width: nat, vocab: set<Word>, acc: Dicts.Dict<Word, Payload>, word: Word,
                    tail: Result<(Dicts.Dict<Word, Payload>, nat), LoadError>)
    requires acc.Valid() && n > 0
    requires ReadToken(s) == Some((word, t)) && t + width <= |s|
    requires tail.Success? ==> StoredFrom(tail.value.0, Keep(acc, vocab, word, s[t..t + width]), s[t + width..], width, n - 1)
    ensures After(t + width, tail).Success? ==> StoredFrom(After(t + width, tail).value.0, acc, s, width, n)
  {
    if tail.Success? {
      StoredStep(s, n, t, width, vocab, acc, word, tail.value.0);
    }
  }

  /** Record 0 is the one read first; record `i` of the rest is record `i + 1` of the whole. */
  lemma StoredStep(s: seq<bv8>, n: nat, t: nat, width: nat, vocab: set<Word>, acc: Dicts.Dict<Word, Payload>, word: Word,
                   d: Dicts.Dict<Word, Payload>)
    requires acc.Valid() && n > 0
    requires ReadToken(s) == Some((word, t)) && t + width <= |s|
    requires StoredFrom(d, Keep(acc, vocab, word, s[t..t + width]), s[t + width..], width, n - 1)
    ensures StoredFrom(d, acc, s, width, n)
  {
    KeepStores(acc, vocab, word, s[t..t + width]);
    forall w | w in d.entries
      ensures (w in acc.entries && d.entries[w] == acc.entries[w]) || exists i :: 0 <= i < n && RecordAt(s, width, i, w, d.entries[w])
    {
      var v := d.entries[w];
      var rest := s[t + width..];
      if exists i :: 0 <= i < n - 1 && RecordAt(rest, width, i, w, v) {
        var i :| 0 <= i < n - 1 && RecordAt(rest, width, i, w, v);
        RecordAtShift(s, width, i, w, v, word, t);
      } else if word in vocab && w == word {
        RecordAtFirst(s, width, word, t);
      }
    }
  }

  /** The first record is the word read at the start and the `width` bytes behind it. */
  lemma RecordAtFirst(s: seq<bv8>, width: nat, word: Word, t: nat)
    requires ReadToken(s) == Some((word, t)) && t + width <= |s|
    ensures RecordAt(s, width, 0, word, s[t..t + width])
  {
    assert s[0..] == s;
  }

  /** A record of what follows the first record is a record of the whole input, one place later. */
  lemma RecordAtShift(s: seq<bv8>, width: nat, i: nat, w: Word, v: Payload, word: Word, t: nat)
    requires ReadToken(s) == Some((word, t)) && t + width <= |s|
    requires RecordAt(s[t + width..], width, i, w, v)
    ensures RecordAt(s, width, i + 1, w, v)
  {
    var o, here, u := RecordAtParts(s[t + width..], width, i, w, v);
    RecordAtBehind(s, width, i, w, v, word, t, o, here, u);
  }

  /** The offset, the bytes from there on and the word's length that make record `i`. */
  lemma RecordAtParts(s: seq<bv8>, width: nat, i: nat, w: Word, v: Payload) returns (o: nat, here: seq<bv8>, u: nat)
    requires RecordAt(s, width, i, w, v)
    ensures Span(s, i, width) == Success(o) && o <= |s| && here == s[o..]
    ensures ReadToken(here) == Some((w, u)) && u + width <= |here| && v == here[u..u + width]
  {
    o := Span(s, i, width).value;
    here := s[o..];
    u := ReadToken(here).value.1;
  }

  /** `RecordAtShift`, from the parts of the record in what follows the first one. */
  lemma RecordAtBehind(s: seq<bv8>, width: nat, i: nat, w: Word, v: Payload, word: Word, t: nat, o: nat, here: seq<bv8>, u: nat)
    requires ReadToken(s) == Some((word, t)) && t + width <= |s|
    requires Span(s[t + width..], i, width) == Success(o) && o <= |s| - (t + width) && here == s[t + width..][o..]
    requires ReadToken(here) == Some((w, u)) && u + width <= |here| && v == here[u..u + width]
    ensures RecordAt(s, width, i + 1, w, v)
  {
    SpanAfterFirst(s, i, width, word, t, o);
    SliceOfSuffix(s, t + width, o);
    RecordAtOffset(s, width, i + 1, t + width + o, here, w, u, v);
  }

  lemma SpanAfterFirst(s: seq<bv8>, i: nat, width: nat, word: Word, t: nat, o: nat)
    requires ReadToken(s) == Some((word, t)) && t + width <= |s|
    requires Span(s[t + width..], i, width) == Success(o)
    ensures Span(s, i + 1, width) == Success(t + width + o)
  {
    SpanCons(s, i + 1, width, word, t);
  }

  lemma SliceOfSuffix(s: seq<bv8>, k: nat, o: nat)
    requires k + o <= |s|
    ensures s[k + o..] == s[k..][o..]
  {
  }

  /** `RecordAt`, once the span of the records before it is known. */
  lemma RecordAtOffset(s: seq<bv8>, width: nat, i: nat, o: nat, here: seq<bv8>, w: Word, u: nat, v: Payload)
    requires Span(s, i, width) == Success(o) && o <= |s| && here == s[o..]
    requires ReadToken(here) == Some((w, u)) && u + width <= |here| && v == here[u..u + width]
    ensures RecordAt(s, width, i, w, v)
  {
  }
}
