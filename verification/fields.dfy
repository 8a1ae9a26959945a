/**
 * Python's argument-less `split()` on `str` and on `bytes`: the maximal runs
 * of non-whitespace elements, left to right. The two differ only in which
 * elements count as whitespace, so the whitespace test is a parameter.
 */
module Fields {

  /** Number of leading elements of `s` that are not whitespace. */
  function RunLength<T>(s: seq<T>, ws: T -> bool): (n: nat)
    ensures n <= |s|
    ensures forall i :: 0 <= i < n ==> !ws(s[i])
    ensures n < |s| ==> ws(s[n])
    decreases |s|
  {
    if |s| == 0 || ws(s[0]) then 0 else 1 + RunLength(s[1..], ws)
  }

  /** `s.split()`: the whitespace-separated fields of `s`. */
  function Split<T>(s: seq<T>, ws: T -> bool): (r: seq<seq<T>>)
    ensures forall i :: 0 <= i < |r| ==> |r[i]| > 0
    ensures forall i, j :: 0 <= i < |r| && 0 <= j < |r[i]| ==> !ws(r[i][j])
    decreases |s|
  {
    if |s| == 0 then []
    else if ws(s[0]) then Split(s[1..], ws)
    else
      var n := RunLength(s, ws);
      [s[..n]] + Split(s[n..], ws)
  }

  /** `s` with every whitespace element removed. */
  function Unspaced<T>(s: seq<T>, ws: T -> bool): (r: seq<T>)
    ensures |r| <= |s|
    decreases |s|
  {
    if |s| == 0 then [] else (if ws(s[0]) then [] else [s[0]]) + Unspaced(s[1..], ws)
  }

  function Concat<T>(parts: seq<seq<T>>): seq<T>
    decreases |parts|
  {
    if |parts| == 0 then [] else parts[0] + Concat(parts[1..])
  }

  lemma {:induction false} UnspacedAppend<T>(a: seq<T>, b: seq<T>, ws: T -> bool)
    ensures Unspaced(a + b, ws) == Unspaced(a, ws) + Unspaced(b, ws)
    decreases |a|
  {
    if |a| == 0 {
      assert a + b == b;
    } else {
      var head := if ws(a[0]) then [] else [a[0]];
      assert (a + b)[0] == a[0];
      assert (a + b)[1..] == a[1..] + b;
      UnspacedAppend(a[1..], b, ws);
      calc {
        Unspaced(a + b, ws);
        head + Unspaced(a[1..] + b, ws);
        head + (Unspaced(a[1..], ws) + Unspaced(b, ws));
        (head + Unspaced(a[1..], ws)) + Unspaced(b, ws);
      }
    }
  }

  /** Splitting loses exactly the whitespace: the fields glued back together are `s` without it. */
  lemma {:induction false} SplitKeepsContent<T>(s: seq<T>, ws: T -> bool)
    ensures Concat(Split(s, ws)) == Unspaced(s, ws)
    decreases |s|
  {
    if |s| > 0 {
      if ws(s[0]) {
        SplitKeepsContent(s[1..], ws);
      } else {
        var n := RunLength(s, ws);
        SplitKeepsContent(s[n..], ws);
        assert s == s[..n] + s[n..];
        UnspacedAppend(s[..n], s[n..], ws);
        NoWhitespaceUnspaced(s[..n], ws);
        assert Split(s, ws)[1..] == Split(s[n..], ws);
      }
    }
  }

  lemma {:induction false} NoWhitespaceUnspaced<T>(s: seq<T>, ws: T -> bool)
    requires forall i :: 0 <= i < |s| ==> !ws(s[i])
    ensures Unspaced(s, ws) == s
    decreases |s|
  {
    if |s| > 0 {
      NoWhitespaceUnspaced(s[1..], ws);
    }
  }

  /** Number of whitespace elements in `s`. */
  function CountWhitespace<T>(s: seq<T>, ws: T -> bool): nat
    decreases |s|
  {
    if |s| == 0 then 0 else (if ws(s[0]) then 1 else 0) + CountWhitespace(s[1..], ws)
  }

  /** Never two whitespace elements in a row. */
  ghost predicate NoAdjacent<T>(s: seq<T>, ws: T -> bool) {
    forall i :: 0 <= i < |s| - 1 ==> !(ws(s[i]) && ws(s[i + 1]))
  }

  /** No whitespace at either end and never two whitespace elements in a row. */
  ghost predicate SingleSpaced<T>(s: seq<T>, ws: T -> bool) {
    && (|s| > 0 ==> !ws(s[0]) && !ws(s[|s| - 1]))
    && NoAdjacent(s, ws)
  }

  /**
   * In a single-spaced text every whitespace element separates two fields,
   * so the field count is one more than the whitespace count.
   */
  lemma {:induction false} SplitCountSingleSpaced<T>(s: seq<T>, ws: T -> bool)
    requires SingleSpaced(s, ws)
    ensures |Split(s, ws)| == if |s| == 0 then 0 else CountWhitespace(s, ws) + 1
    decreases |s|
  {
    if |s| > 0 {
      var n := RunLength(s, ws);
      var field, rest := s[..n], s[n..];
      assert Split(s, ws) == [field] + Split(rest, ws);
      NoWhitespaceCount(field, ws);
      assert s == field + rest;
      CountAppend(field, rest, ws);
      if n < |s| {
        var t := s[n + 1..];
        assert t == rest[1..];
        SingleSpacedTail(s, n + 1, ws);
        SplitCountSingleSpaced(t, ws);
        assert Split(rest, ws) == Split(t, ws);
        assert CountWhitespace(rest, ws) == 1 + CountWhitespace(t, ws);
      }
    }
  }

  /** A suffix that starts right after a whitespace element of a single-spaced text is single-spaced. */
  lemma SingleSpacedTail<T>(s: seq<T>, m: nat, ws: T -> bool)
    requires SingleSpaced(s, ws)
    requires 0 < m <= |s| && ws(s[m - 1])
    ensures SingleSpaced(s[m..], ws)
  {
    var t := s[m..];
    if |t| > 0 {
      assert !ws(s[m]);
      assert t[0] == s[m];
    }
    forall i | 0 <= i < |t| - 1 ensures !(ws(t[i]) && ws(t[i + 1])) {
      assert t[i] == s[m + i] && t[i + 1] == s[m + i + 1];
    }
  }

  lemma {:induction false} NoWhitespaceCount<T>(s: seq<T>, ws: T -> bool)
    requires forall i :: 0 <= i < |s| ==> !ws(s[i])
    ensures CountWhitespace(s, ws) == 0
    decreases |s|
  {
    if |s| > 0 {
      NoWhitespaceCount(s[1..], ws);
    }
  }

  lemma {:induction false} CountAppend<T>(a: seq<T>, b: seq<T>, ws: T -> bool)
    ensures CountWhitespace(a + b, ws) == CountWhitespace(a, ws) + CountWhitespace(b, ws)
    decreases |a|
  {
    if |a| == 0 {
      assert a + b == b;
    } else {
      assert (a + b)[0] == a[0];
      assert (a + b)[1..] == a[1..] + b;
      CountAppend(a[1..], b, ws);
    }
  }

  /** Cutting whitespace off both ends of `s` does not change what is left without whitespace. */
  lemma UnspacedSlice<T>(s: seq<T>, a: nat, b: nat, ws: T -> bool)
    requires a <= b <= |s|
    requires forall i :: 0 <= i < a ==> ws(s[i])
    requires forall i :: b <= i < |s| ==> ws(s[i])
    ensures Unspaced(s[a..b], ws) == Unspaced(s, ws)
  {
    var pre, mid, post := s[..a], s[a..b], s[b..];
    forall i | 0 <= i < |pre| ensures ws(pre[i]) {
      assert pre[i] == s[i];
    }
    forall i | 0 <= i < |post| ensures ws(post[i]) {
      assert post[i] == s[b + i];
    }
    SliceParts(s, a, b);
    UnspacedSurround(pre, mid, post, ws);
  }

  lemma SliceParts<T>(s: seq<T>, a: nat, b: nat)
    requires a <= b <= |s|
    ensures s == s[..a] + s[a..b] + s[b..]
  {
    var front := s[..b];
    assert s == front + s[b..];
    assert front[..a] == s[..a] && front[a..] == s[a..b];
  }

  /** Whitespace around `mid` disappears. */
  lemma UnspacedSurround<T>(pre: seq<T>, mid: seq<T>, post: seq<T>, ws: T -> bool)
    requires forall i :: 0 <= i < |pre| ==> ws(pre[i])
    requires forall i :: 0 <= i < |post| ==> ws(post[i])
    ensures Unspaced(pre + mid + post, ws) == Unspaced(mid, ws)
  {
    AllWhitespaceUnspaced(pre, ws);
    AllWhitespaceUnspaced(post, ws);
    UnspacedAppend(pre + mid, post, ws);
    UnspacedAppend(pre, mid, ws);
  }

  lemma {:induction false} AllWhitespaceUnspaced<T>(s: seq<T>, ws: T -> bool)
    requires forall i :: 0 <= i < |s| ==> ws(s[i])
    ensures Unspaced(s, ws) == []
    decreases |s|
  {
    if |s| > 0 {
      AllWhitespaceUnspaced(s[1..], ws);
    }
  }

  /** A field followed by whitespace or by nothing comes off the front of the split whole. */
  lemma SplitField<T>(a: seq<T>, b: seq<T>, ws: T -> bool)
    requires |a| > 0 && forall i :: 0 <= i < |a| ==> !ws(a[i])
    requires |b| == 0 || ws(b[0])
    ensures Split(a + b, ws) == [a] + Split(b, ws)
  {
    var s := a + b;
    assert s[0] == a[0];
    RunLengthAppend(a, b, ws);
    assert s[..|a|] == a && s[|a|..] == b;
  }

  /** The run of non-whitespace at the front of `a + b` is all of `a` when `b` starts with whitespace or is empty. */
  lemma {:induction false} RunLengthAppend<T>(a: seq<T>, b: seq<T>, ws: T -> bool)
    requires forall i :: 0 <= i < |a| ==> !ws(a[i])
    requires |b| == 0 || ws(b[0])
    ensures RunLength(a + b, ws) == |a|
    decreases |a|
  {
    if |a| == 0 {
      assert a + b == b;
    } else {
      assert (a + b)[0] == a[0];
      assert (a + b)[1..] == a[1..] + b;
      RunLengthAppend(a[1..], b, ws);
    }
  }

  /** A leading whitespace element does not change the fields. */
  lemma SplitSkip<T>(x: T, b: seq<T>, ws: T -> bool)
    requires ws(x)
    ensures Split([x] + b, ws) == Split(b, ws)
  {
    assert ([x] + b)[1..] == b;
  }

  /** `s` starts with a field: it is not empty and its first element is not whitespace. */
  predicate StartsField<T>(s: seq<T>, ws: T -> bool) {
    |s| > 0 && !ws(s[0])
  }

  /**
   * The fields of `[x] + a`, from those of `a`: whitespace `x` adds nothing;
   * otherwise `x` is a field of its own, or joins the front of the first
   * field of `a` when `a` starts with one.
   */
  lemma SplitCons<T>(x: T, a: seq<T>, ws: T -> bool)
    ensures ws(x) ==> Split([x] + a, ws) == Split(a, ws)
    ensures !ws(x) && !StartsField(a, ws) ==> Split([x] + a, ws) == [[x]] + Split(a, ws)
    ensures !ws(x) && StartsField(a, ws) ==>
      |Split(a, ws)| > 0 && Split([x] + a, ws) == [[x] + Split(a, ws)[0]] + Split(a, ws)[1..]
  {
    var s := [x] + a;
    assert s[0] == x && s[1..] == a;
    if !ws(x) {
      if !StartsField(a, ws) {
        SplitField([x], a, ws);
      } else {
        var m := RunLength(a, ws);
        assert RunLength(s, ws) == 1 + m;
        assert s[..1 + m] == [x] + a[..m];
        assert s[1 + m..] == a[m..];
      }
    }
  }

  /** Putting the same element in front of two inputs with the same fields, both or neither starting with a field, gives the same fields. */
  lemma SplitCongruent<T>(x: T, a: seq<T>, b: seq<T>, ws: T -> bool)
    requires Split(a, ws) == Split(b, ws) && StartsField(a, ws) == StartsField(b, ws)
    ensures Split([x] + a, ws) == Split([x] + b, ws)
  {
    SplitCons(x, a, ws);
    SplitCons(x, b, ws);
  }

  ghost predicate AllWhitespace<T>(s: seq<T>, ws: T -> bool) {
    forall i :: 0 <= i < |s| ==> ws(s[i])
  }

  lemma {:induction false} SplitAllWhitespace<T>(s: seq<T>, ws: T -> bool)
    requires AllWhitespace(s, ws)
    ensures Split(s, ws) == []
    decreases |s|
  {
    if |s| > 0 {
      SplitAllWhitespace(s[1..], ws);
    }
  }

  /** Whitespace in front adds no field. */
  lemma {:induction false} SplitPrependWhitespace<T>(pre: seq<T>, x: seq<T>, ws: T -> bool)
    requires AllWhitespace(pre, ws)
    ensures Split(pre + x, ws) == Split(x, ws)
    decreases |pre|
  {
    if |pre| > 0 {
      assert pre + x == [pre[0]] + (pre[1..] + x);
      SplitSkip(pre[0], pre[1..] + x, ws);
      SplitPrependWhitespace(pre[1..], x, ws);
    } else {
      assert pre + x == x;
    }
  }

  /** Whitespace behind adds no field. */
  lemma {:induction false} SplitAppendWhitespace<T>(x: seq<T>, post: seq<T>, ws: T -> bool)
    requires AllWhitespace(post, ws)
    ensures Split(x + post, ws) == Split(x, ws)
    decreases |x|
  {
    if |x| == 0 {
      assert x + post == post;
      SplitAllWhitespace(post, ws);
    } else {
      var tail := x[1..] + post;
      assert x + post == [x[0]] + tail;
      assert x == [x[0]] + x[1..];
      SplitAppendWhitespace(x[1..], post, ws);
      if |x| == 1 {
        assert tail == post;
      } else {
        assert tail[0] == x[1];
      }
      SplitCongruent(x[0], tail, x[1..], ws);
    }
  }

  /** `split()` ignores whitespace at either end. */
  lemma SplitSurround<T>(pre: seq<T>, mid: seq<T>, post: seq<T>, ws: T -> bool)
    requires AllWhitespace(pre, ws) && AllWhitespace(post, ws)
    ensures Split(pre + mid + post, ws) == Split(mid, ws)
  {
    assert pre + mid + post == pre + (mid + post);
    SplitPrependWhitespace(pre, mid + post, ws);
    SplitAppendWhitespace(mid, post, ws);
  }

  /**
   * Two inputs of the same length whose separators sit at the same places
   * (by `ws1` in `s`, by `ws2` in `t`), and whose other elements agree,
   * have the same fields.
   */
  lemma {:induction false} SplitSeparators<T>(s: seq<T>, t: seq<T>, ws1: T -> bool, ws2: T -> bool)
    requires |s| == |t|
    requires forall i :: 0 <= i < |s| ==> ws2(t[i]) == ws1(s[i])
    requires forall i :: 0 <= i < |s| && !ws1(s[i]) ==> t[i] == s[i]
    ensures Split(t, ws2) == Split(s, ws1)
    decreases |s|
  {
    if |s| > 0 {
      assert s == [s[0]] + s[1..] && t == [t[0]] + t[1..];
      forall i | 0 <= i < |s| - 1 ensures ws2(t[1..][i]) == ws1(s[1..][i]) && (!ws1(s[1..][i]) ==> t[1..][i] == s[1..][i]) {
        assert s[1..][i] == s[i + 1] && t[1..][i] == t[i + 1];
      }
      SplitSeparators(s[1..], t[1..], ws1, ws2);
      SplitCons(s[0], s[1..], ws1);
      SplitCons(t[0], t[1..], ws2);
    }
  }
}
