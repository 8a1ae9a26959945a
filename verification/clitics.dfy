/**
 * The clitic substitutions of `clean_str` (preprocessing.py, lines 127-132).
 * Each rule puts a space in front of every occurrence of its pattern. The
 * reference `InsertAt` does that for a whole list of patterns at once, in
 * one scan. When no pattern holds a space, none can begin strictly inside
 * an occurrence of one of them, and no two can begin at the same place, the
 * rules applied one after the other give the reference.
 */
module Clitics {
  import Clean

  predicate StartsWith(t: string, p: string) {
    |p| <= |t| && t[..|p|] == p
  }

  /** Some pattern of `ps` begins at the front of `t`. */
  predicate AnyStarts(t: string, ps: seq<string>)
    decreases |ps|
  {
    |ps| > 0 && (StartsWith(t, ps[0]) || AnyStarts(t, ps[1..]))
  }

  /** The space put in front of `t`: one when some pattern begins there. */
  function Lead(t: string, ps: seq<string>): string {
    if AnyStarts(t, ps) then " " else ""
  }

  /** The reference: `t` with one space put in front of every place where a pattern of `ps` begins. */
  function InsertAt(t: string, ps: seq<string>): (r: string)
    ensures |r| >= |t|
    decreases |t|
  {
    if |t| == 0 then [] else Lead(t, ps) + ([t[0]] + InsertAt(t[1..], ps))
  }

  /** `p` and `q` differ at some place where both are defined, so they never begin at the same place. */
  predicate Clash(p: string, q: string)
    decreases |p|
  {
    |p| > 0 && |q| > 0 && (p[0] != q[0] || Clash(p[1..], q[1..]))
  }

  /** `p` cannot begin strictly inside an occurrence of `q`. */
  predicate NotInside(p: string, q: string)
    decreases |q|
  {
    |q| <= 1 || (Clash(p, q[1..]) && NotInside(p, q[1..]))
  }

  /** Patterns whose insertions do not disturb each other. */
  ghost predicate Separate(ps: seq<string>) {
    && (forall i :: 0 <= i < |ps| ==> |ps[i]| > 0 && ' ' !in ps[i])
    && (forall i, j :: 0 <= i < |ps| && 0 <= j < |ps| ==> NotInside(ps[i], ps[j]))
    && (forall i, j :: 0 <= i < |ps| && 0 <= j < |ps| && i != j ==> Clash(ps[i], ps[j]))
  }

  /** Rules whose replacement is a space followed by the pattern. */
  ghost predicate SpaceBefore(rules: seq<Clean.Rule>) {
    forall i :: 0 <= i < |rules| ==> rules[i].replacement == [' '] + rules[i].pattern
  }

  function Patterns(rules: seq<Clean.Rule>): (ps: seq<string>)
    ensures |ps| == |rules|
    ensures forall i :: 0 <= i < |rules| ==> ps[i] == rules[i].pattern
  {
    seq(|rules|, i requires 0 <= i < |rules| => rules[i].pattern)
  }

  /** The clitics of lines 127-132: `'s`, `'ve`, `n't`, `'re`, `'d`, `'ll`. */
  const CliticPatterns: seq<string> := Patterns(Clean.CleanRules[..6])

  /**
   * Lines 127-132 as one scan: whatever the text, the six clitic rules put
   * one space in front of every place where a clitic begins, and change
   * nothing else.
   */
  lemma CliticRules(t: string)
    ensures Clean.WellFormedRules(Clean.CleanRules[..6])
    ensures Clean.ApplyRules(t, Clean.CleanRules[..6]) == InsertAt(t, CliticPatterns)
  {
    CliticsSeparate();
    InsertNone(t, CliticPatterns[..0]);
    InsertChain(t, Clean.CleanRules[..6], 0);
  }

  lemma CliticsSeparate()
    ensures SpaceBefore(Clean.CleanRules[..6])
    ensures Separate(CliticPatterns)
  {
    CliticsSpaced();
    CliticsPlain();
    CliticsNotInside();
    CliticsClash();
  }

  lemma CliticsSpaced()
    ensures SpaceBefore(Clean.CleanRules[..6])
  {
  }

  lemma CliticsPlain()
    ensures forall i :: 0 <= i < |CliticPatterns| ==> |CliticPatterns[i]| > 0 && ' ' !in CliticPatterns[i]
  {
  }

  lemma CliticsNotInside()
    ensures forall i, j :: 0 <= i < |CliticPatterns| && 0 <= j < |CliticPatterns| ==> NotInside(CliticPatterns[i], CliticPatterns[j])
  {
  }

  lemma CliticsClash()
    ensures forall i, j :: 0 <= i < |CliticPatterns| && 0 <= j < |CliticPatterns| && i != j ==> Clash(CliticPatterns[i], CliticPatterns[j])
  {
  }

  /** With no patterns nothing is inserted. */
  lemma {:induction false} InsertNone(t: string, ps: seq<string>)
    requires |ps| == 0
    ensures InsertAt(t, ps) == t
    decreases |t|
  {
    if |t| > 0 {
      InsertNone(t[1..], ps);
    }
  }

  /**
   * Applying the rules from the `k`-th on to the text with the insertions
   * of the earlier rules gives the insertions of all of them.
   */
  lemma {:induction false} InsertChain(t: string, rules: seq<Clean.Rule>, k: nat)
    requires k <= |rules| && SpaceBefore(rules) && Separate(Patterns(rules))
    ensures Clean.WellFormedRules(rules[k..])
    ensures Clean.ApplyRules(InsertAt(t, Patterns(rules)[..k]), rules[k..]) == InsertAt(t, Patterns(rules))
    decreases |rules| - k
  {
    var ps := Patterns(rules);
    if k == |rules| {
      assert ps[..k] == ps;
      assert rules[k..] == [];
    } else {
      var q := ps[k];
      assert ps[..k + 1] == ps[..k] + [q];
      assert rules[k..][0] == rules[k] && rules[k..][1..] == rules[k + 1..];
      forall i | 0 <= i < |ps[..k]| ensures Clash(ps[..k][i], q) && NotInside(ps[..k][i], q) {
        assert ps[..k][i] == ps[i];
      }
      InsertStep(t, ps[..k], q);
      InsertChain(t, rules, k + 1);
    }
  }

  /**
   * One clitic rule applied to text that already holds the insertions of
   * `ps` adds the insertions of its own pattern.
   */
  lemma {:induction false} InsertStep(t: string, ps: seq<string>, q: string)
    requires |q| > 0 && ' ' !in q && NotInside(q, q)
    requires forall i :: 0 <= i < |ps| ==> Clash(ps[i], q) && NotInside(ps[i], q)
    ensures Clean.ReplaceAll(InsertAt(t, ps), q, [' '] + q) == InsertAt(t, ps + [q])
    decreases |t|
  {
    if |t| > 0 {
      AnyStartsSnoc(t, ps, q);
      if AnyStarts(t, ps) || !StartsWith(t, q) {
        InsertStep(t[1..], ps, q);
        InsertStepMiss(t, ps, q);
      } else {
        InsertStep(t[StartsLength(t, q)..], ps, q);
        InsertStepHit(t, ps, q);
      }
    }
  }

  function StartsLength(t: string, q: string): (n: nat)
    requires StartsWith(t, q) && |q| > 0
    ensures 0 < n <= |t| && n == |q|
  {
    |q|
  }

  /** No occurrence of `q` begins at the front: one character is passed over. */
  lemma InsertStepMiss(t: string, ps: seq<string>, q: string)
    requires |t| > 0 && |q| > 0 && ' ' !in q
    requires forall i :: 0 <= i < |ps| ==> Clash(ps[i], q)
    requires AnyStarts(t, ps) || !StartsWith(t, q)
    requires AnyStarts(t, ps + [q]) <==> AnyStarts(t, ps) || StartsWith(t, q)
    requires Clean.ReplaceAll(InsertAt(t[1..], ps), q, [' '] + q) == InsertAt(t[1..], ps + [q])
    ensures Clean.ReplaceAll(InsertAt(t, ps), q, [' '] + q) == InsertAt(t, ps + [q])
  {
    var rep := [' '] + q;
    ClashAny(t, ps, q);
    var x, y := InsertAt(t[1..], ps), InsertAt(t[1..], ps + [q]);
    InsertUnfold(t, ps);
    InsertUnfold(t, ps + [q]);
    assert Lead(t, ps + [q]) == Lead(t, ps);
    FrontMiss(t, ps, q);
    ReplaceCons(t[0], x, q, rep);
    assert Clean.ReplaceAll([t[0]] + x, q, rep) == [t[0]] + y;
    if AnyStarts(t, ps) {
      ReplaceCons(' ', [t[0]] + x, q, rep);
      assert InsertAt(t, ps) == [' '] + ([t[0]] + x);
      assert InsertAt(t, ps + [q]) == [' '] + ([t[0]] + y);
    } else {
      assert InsertAt(t, ps) == [t[0]] + x;
      assert InsertAt(t, ps + [q]) == [t[0]] + y;
    }
  }

  lemma InsertUnfold(t: string, ps: seq<string>)
    requires |t| > 0
    ensures InsertAt(t, ps) == Lead(t, ps) + ([t[0]] + InsertAt(t[1..], ps))
  {
  }

  /** The front character of the text with insertions does not start an occurrence the text lacks. */
  lemma FrontMiss(t: string, ps: seq<string>, q: string)
    requires |t| > 0 && |q| > 0 && ' ' !in q && !StartsWith(t, q)
    ensures !StartsWith([t[0]] + InsertAt(t[1..], ps), q)
  {
    StartsInsert(t[0], t[1..], ps, q);
    assert [t[0]] + t[1..] == t;
  }

  lemma ReplaceCons(c: char, x: string, q: string, rep: string)
    requires |q| > 0 && (c == ' ' ==> ' ' !in q) && (c != ' ' ==> !StartsWith([c] + x, q))
    ensures Clean.ReplaceAll([c] + x, q, rep) == [c] + Clean.ReplaceAll(x, q, rep)
  {
    assert q[0] in q && ([c] + x)[0] == c;
    ReplaceStep([c] + x, q, rep);
    assert ([c] + x)[1..] == x;
  }

  /** An occurrence of `q` begins at the front and gets its space. */
  lemma InsertStepHit(t: string, ps: seq<string>, q: string)
    requires |q| > 0 && NotInside(q, q)
    requires forall i :: 0 <= i < |ps| ==> NotInside(ps[i], q)
    requires !AnyStarts(t, ps) && StartsWith(t, q)
    requires AnyStarts(t, ps + [q]) <==> AnyStarts(t, ps) || StartsWith(t, q)
    requires Clean.ReplaceAll(InsertAt(t[|q|..], ps), q, [' '] + q) == InsertAt(t[|q|..], ps + [q])
    ensures Clean.ReplaceAll(InsertAt(t, ps), q, [' '] + q) == InsertAt(t, ps + [q])
  {
    var m := |q|;
    HitKeep(t, ps, q);
    HitSpace(t, ps, q);
    var x := InsertAt(t[m..], ps);
    Clean.ReplaceHead(q, x, [' '] + q);
  }

  /** With an occurrence of `q` at the front and no other pattern there, the occurrence is kept whole. */
  lemma HitKeep(t: string, ps: seq<string>, q: string)
    requires |q| > 0 && NotInside(q, q)
    requires forall i :: 0 <= i < |ps| ==> NotInside(ps[i], q)
    requires !AnyStarts(t, ps) && StartsWith(t, q)
    ensures InsertAt(t, ps) == q + InsertAt(t[|q|..], ps)
  {
    InsideNone(t, ps, q);
    HitSkip(t, ps, q, "");
    assert "" + q == q;
  }

  /** Once `q` counts as a pattern, its occurrence at the front gets a space. */
  lemma HitSpace(t: string, ps: seq<string>, q: string)
    requires |q| > 0 && NotInside(q, q)
    requires forall i :: 0 <= i < |ps| ==> NotInside(ps[i], q)
    requires StartsWith(t, q)
    ensures InsertAt(t, ps + [q]) == [' '] + q + InsertAt(t[|q|..], ps + [q])
  {
    InsideNone(t, ps, q);
    AnyStartsSnoc(t, ps, q);
    HitSkip(t, ps + [q], q, " ");
  }

  lemma HitSkip(t: string, ps: seq<string>, q: string, lead: string)
    requires 0 < |q| && StartsWith(t, q) && Lead(t, ps) == lead
    requires forall j :: 1 <= j < |q| ==> !AnyStarts(t[j..], ps)
    ensures InsertAt(t, ps) == lead + q + InsertAt(t[|q|..], ps)
  {
    var m := |q|;
    InsertSkip(t, ps, m);
    assert t[..m] == q;
  }

  /** Inside an occurrence of `q` neither `q` nor a pattern of `ps` begins. */
  lemma InsideNone(t: string, ps: seq<string>, q: string)
    requires |q| > 0 && NotInside(q, q) && StartsWith(t, q)
    requires forall i :: 0 <= i < |ps| ==> NotInside(ps[i], q)
    ensures forall j :: 1 <= j < |q| ==> !AnyStarts(t[j..], ps) && !AnyStarts(t[j..], ps + [q])
  {
    forall j | 1 <= j < |q| ensures !AnyStarts(t[j..], ps) && !AnyStarts(t[j..], ps + [q]) {
      NoneInside(t, ps, q, j);
      InsideFree(t, q, q, j);
      AnyStartsSnoc(t[j..], ps, q);
    }
  }

  lemma {:induction false} AnyStartsSnoc(t: string, ps: seq<string>, q: string)
    ensures AnyStarts(t, ps + [q]) <==> AnyStarts(t, ps) || StartsWith(t, q)
    decreases |ps|
  {
    if |ps| > 0 {
      assert (ps + [q])[0] == ps[0] && (ps + [q])[1..] == ps[1..] + [q];
      AnyStartsSnoc(t, ps[1..], q);
    } else {
      assert [q][1..] == [];
    }
  }

  /** `AnyStarts` holds exactly when some pattern of the list begins at the front. */
  lemma {:induction false} AnyStartsSome(t: string, ps: seq<string>)
    ensures AnyStarts(t, ps) <==> exists i :: 0 <= i < |ps| && StartsWith(t, ps[i])
    decreases |ps|
  {
    if |ps| > 0 {
      AnyStartsSome(t, ps[1..]);
      if exists i :: 0 <= i < |ps| && StartsWith(t, ps[i]) {
        var i :| 0 <= i < |ps| && StartsWith(t, ps[i]);
        if i > 0 {
          assert ps[1..][i - 1] == ps[i];
        }
      }
      if AnyStarts(t, ps[1..]) {
        var i :| 0 <= i < |ps[1..]| && StartsWith(t, ps[1..][i]);
        assert ps[i + 1] == ps[1..][i];
      }
    }
  }

  /** Where a pattern of `ps` begins, a pattern that clashes with all of them does not. */
  lemma ClashAny(t: string, ps: seq<string>, q: string)
    requires forall i :: 0 <= i < |ps| ==> Clash(ps[i], q)
    ensures AnyStarts(t, ps) ==> !StartsWith(t, q)
  {
    AnyStartsSome(t, ps);
    if AnyStarts(t, ps) {
      var i :| 0 <= i < |ps| && StartsWith(t, ps[i]);
      ClashStarts(t, ps[i], q);
    }
  }

  /** Two clashing patterns never both begin at the front. */
  lemma {:induction false} ClashStarts(t: string, p: string, q: string)
    requires Clash(p, q)
    ensures !(StartsWith(t, p) && StartsWith(t, q))
    decreases |p|
  {
    if StartsWith(t, p) && StartsWith(t, q) && p[0] == q[0] {
      assert t[1..][..|p| - 1] == t[..|p|][1..];
      assert t[1..][..|q| - 1] == t[..|q|][1..];
      ClashStarts(t[1..], p[1..], q[1..]);
    }
  }

  lemma {:induction false} NotInsideAt(p: string, q: string, k: nat)
    requires NotInside(p, q) && 0 < k < |q|
    ensures Clash(p, q[k..])
    decreases k
  {
    if k > 1 {
      NotInsideAt(p, q[1..], k - 1);
      assert q[1..][k - 1..] == q[k..];
    }
  }

  /** A pattern that cannot begin inside `q` does not begin inside an occurrence of `q`. */
  lemma InsideFree(t: string, p: string, q: string, j: nat)
    requires StartsWith(t, q) && NotInside(p, q) && 0 < j < |q|
    ensures !StartsWith(t[j..], p)
  {
    NotInsideAt(p, q, j);
    assert t[j..][..|q| - j] == q[j..];
    ClashStarts(t[j..], p, q[j..]);
  }

  lemma NoneInside(t: string, ps: seq<string>, q: string, j: nat)
    requires StartsWith(t, q) && 0 < j < |q|
    requires forall i :: 0 <= i < |ps| ==> NotInside(ps[i], q)
    ensures !AnyStarts(t[j..], ps)
  {
    forall i | 0 <= i < |ps| ensures !StartsWith(t[j..], ps[i]) {
      InsideFree(t, ps[i], q, j);
    }
    AnyStartsSome(t[j..], ps);
  }

  /** Where no pattern begins inside the first `m` characters, they come through as they are. */
  lemma {:induction false} InsertSkip(t: string, ps: seq<string>, m: nat)
    requires 1 <= m <= |t|
    requires forall j :: 1 <= j < m ==> !AnyStarts(t[j..], ps)
    ensures InsertAt(t, ps) == Lead(t, ps) + (t[..m] + InsertAt(t[m..], ps))
    decreases m
  {
    InsertUnfold(t, ps);
    if m == 1 {
      assert t[..1] == [t[0]];
    } else {
      var u := t[1..];
      forall j | 1 <= j < m - 1 ensures !AnyStarts(u[j..], ps) {
        assert u[j..] == t[1 + j..];
      }
      InsertSkip(u, ps, m - 1);
      InsertSkipStep(t, ps, m);
    }
  }

  lemma InsertSkipStep(t: string, ps: seq<string>, m: nat)
    requires 2 <= m <= |t| && !AnyStarts(t[1..], ps)
    requires InsertAt(t, ps) == Lead(t, ps) + ([t[0]] + InsertAt(t[1..], ps))
    requires InsertAt(t[1..], ps) == Lead(t[1..], ps) + (t[1..][..m - 1] + InsertAt(t[1..][m - 1..], ps))
    ensures InsertAt(t, ps) == Lead(t, ps) + (t[..m] + InsertAt(t[m..], ps))
  {
    var c := InsertAt(t[m..], ps);
    assert Lead(t[1..], ps) == "";
    assert t[1..][..m - 1] == t[1..m] && t[1..][m - 1..] == t[m..];
    assert InsertAt(t[1..], ps) == t[1..m] + c;
    assert t[..m] == [t[0]] + t[1..m];
    Regroup(Lead(t, ps), t[0], t[1..m], c);
  }

  lemma Regroup(lead: string, x: char, w: string, c: string)
    ensures lead + ([x] + (w + c)) == lead + (([x] + w) + c)
  {
  }

  /**
   * An occurrence of a pattern without spaces in the text with insertions
   * is one in the text itself.
   */
  lemma {:induction false} StartsInsert(c: char, t: string, ps: seq<string>, q: string)
    requires |q| > 0 && ' ' !in q
    ensures StartsWith([c] + InsertAt(t, ps), q) ==> StartsWith([c] + t, q)
    decreases |q|
  {
    var u := InsertAt(t, ps);
    if StartsWith([c] + u, q) && |q| > 1 {
      assert ([c] + u)[..|q|] == [c] + u[..|q| - 1];
      assert u[..|q| - 1] == q[1..];
      assert |t| > 0;
      assert Lead(t, ps) == "" by {
        assert u[0] == q[1];
      }
      assert u == [t[0]] + InsertAt(t[1..], ps);
      StartsInsert(t[0], t[1..], ps, q[1..]);
      assert [t[0]] + t[1..] == t;
      assert ([c] + t)[..|q|] == [c] + t[..|q| - 1];
    }
  }

  lemma ReplaceStep(s: string, pat: string, rep: string)
    requires |s| > 0 && |pat| > 0 && !StartsWith(s, pat)
    ensures Clean.ReplaceAll(s, pat, rep) == [s[0]] + Clean.ReplaceAll(s[1..], pat, rep)
  {
    if |s| < |pat| {
      assert s == [s[0]] + s[1..];
    }
  }
}
