/**
 * The token loop of `load_bin_vec` as it is written: Python 3 byte strings
 * compared with text strings. Each model runs for at most `fuel` turns and
 * answers `Some` only when the loop reaches its `break`.
 */
module AsWritten {
  import opened Wrappers
  import Word2Vec

  /** The two kinds of Python 3 value the loop compares. */
  datatype PyValue = PyBytes(bytes: seq<bv8>) | PyStr(chars: string)

  /** Python 3 `==`: a `bytes` value never equals a `str` value. */
  predicate PyEquals(a: PyValue, b: PyValue) {
    match (a, b)
    case (PyBytes(x), PyBytes(y)) => x == y
    case (PyStr(x), PyStr(y)) => x == y
    case _ => false
  }

  /** `f.read(1)` at byte offset `pos`: one byte, or `b''` once the file is exhausted. */
  function ReadOne(s: seq<bv8>, pos: nat): (ch: PyValue)
    ensures ch.PyBytes?
    ensures pos < |s| <==> |ch.bytes| == 1
  {
    if pos < |s| then PyBytes([s[pos]]) else PyBytes([])
  }

  /** The loop exactly as written: the read byte is compared with the text `' '` and `'\n'`. */
  function WordLoop(s: seq<bv8>, pos: nat, word: seq<PyValue>, fuel: nat): Option<(seq<PyValue>, int)>
    decreases fuel
  {
    if fuel == 0 then None
    else
      var ch := ReadOne(s, pos);
      if PyEquals(ch, PyStr(" ")) then Some((word, pos + 1))
      else
        WordLoop(s, pos + 1, if !PyEquals(ch, PyStr("\n")) then word + [ch] else word, fuel - 1)
  }

  /** However long it runs and whatever the file holds, the loop as written never breaks. */
  lemma {:induction false} WordLoopNeverBreaks(s: seq<bv8>, pos: nat, word: seq<PyValue>, fuel: nat)
    ensures WordLoop(s, pos, word, fuel) == None
    decreases fuel
  {
    if fuel > 0 {
      var ch := ReadOne(s, pos);
      WordLoopNeverBreaks(s, pos + 1, if !PyEquals(ch, PyStr("\n")) then word + [ch] else word, fuel - 1);
    }
  }

  /** On the record `a` followed by a space the corrected reader finds the word `a`; the loop as written never stops. */
  lemma WordLoopMissesSpace()
    ensures Word2Vec.ReadToken([0x61, Word2Vec.Space]) == Some(([0x61], 2))
    ensures forall fuel: nat :: WordLoop([0x61, Word2Vec.Space], 0, [], fuel) == None
  {
    var s: seq<bv8> := [0x61, Word2Vec.Space];
    assert s[1..] == [Word2Vec.Space];
    assert Word2Vec.ReadToken(s[1..]) == Some(([], 1));
    assert [s[0]] + [] == [0x61];
    forall fuel: nat ensures WordLoop(s, 0, [], fuel) == None {
      WordLoopNeverBreaks(s, 0, [], fuel);
    }
  }

  /**
   * The same loop with the comparisons repaired to the bytes `b' '` and
   * `b'\n'` but still without an end-of-file test.
   */
  function BytesLoop(s: seq<bv8>, pos: nat, word: seq<bv8>, fuel: nat): Option<(seq<bv8>, nat)>
    decreases fuel
  {
    if fuel == 0 then None
    else
      var ch := ReadOne(s, pos);
      if PyEquals(ch, PyBytes([Word2Vec.Space])) then Some((word, pos + 1))
      else
        BytesLoop(s, pos + 1, if !PyEquals(ch, PyBytes([Word2Vec.Newline])) then word + ch.bytes else word, fuel - 1)
  }

  /** When no space is left in the file, the loop reads `b''` for ever and never breaks. */
  lemma {:induction false} BytesLoopSpinsAtEnd(s: seq<bv8>, pos: nat, word: seq<bv8>, fuel: nat)
    requires forall i :: pos <= i < |s| ==> s[i] != Word2Vec.Space
    ensures BytesLoop(s, pos, word, fuel) == None
    decreases fuel
  {
    if fuel > 0 {
      var ch := ReadOne(s, pos);
      BytesLoopSpinsAtEnd(s, pos + 1, if !PyEquals(ch, PyBytes([Word2Vec.Newline])) then word + ch.bytes else word, fuel - 1);
    }
  }

  /** A word read from offset `pos` onwards, appended to the bytes `word` already collected. */
  function Extend(word: seq<bv8>, pos: nat, t: Option<(Word2Vec.Word, nat)>): Option<(seq<bv8>, nat)> {
    match t
    case None => None
    case Some((w, n)) => Some((word + w, pos + n))
  }

  /**
   * Given enough turns, the byte-comparing loop agrees with the corrected
   * reader: it breaks exactly when `ReadToken` finds a word, with the same
   * word and the same number of bytes consumed, and it keeps spinning exactly
   * when `ReadToken` reports the missing space.
   */
  lemma {:induction false} BytesLoopAgrees(s: seq<bv8>, pos: nat, word: seq<bv8>, fuel: nat)
    requires pos + fuel > |s|
    ensures BytesLoop(s, pos, word, fuel) == Extend(word, pos, Word2Vec.ReadToken(if pos <= |s| then s[pos..] else []))
    decreases fuel
  {
    if pos >= |s| {
      assert (if pos <= |s| then s[pos..] else []) == [];
      BytesLoopSpinsAtEnd(s, pos, word, fuel);
    } else if s[pos] == Word2Vec.Space {
      assert s[pos..][0] == s[pos];
      assert word + [] == word;
    } else {
      var head: seq<bv8> := if s[pos] == Word2Vec.Newline then [] else [s[pos]];
      BytesLoopAgrees(s, pos + 1, word + head, fuel - 1);
      ExtendStep(s, pos, word, head);
    }
  }

  /** One byte that is not a space moves from the file onto the collected word. */
  lemma ExtendStep(s: seq<bv8>, pos: nat, word: seq<bv8>, head: seq<bv8>)
    requires pos < |s| && s[pos] != Word2Vec.Space
    requires head == if s[pos] == Word2Vec.Newline then [] else [s[pos]]
    ensures Extend(word, pos, Word2Vec.ReadToken(s[pos..])) == Extend(word + head, pos + 1, Word2Vec.ReadToken(s[pos + 1..]))
  {
    assert s[pos..][0] == s[pos] && s[pos..][1..] == s[pos + 1..];
    match Word2Vec.ReadToken(s[pos + 1..])
    case None =>
    case Some((w, n)) =>
      assert word + head + w == word + (head + w);
  }
}
