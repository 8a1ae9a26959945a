/**
 * The one-character substitutions of `clean_str` (lines 133-137): every
 * `,`, `!`, `(`, `)` and `?` is padded with spaces, the last three keeping a
 * backslash in front. Each is a character-by-character map, so together they
 * are one map, and the words of the result can be read off the input.
 */
module Padding {
  import Fields
  import Clean
  import Clitics

  // A substitution whose pattern is one character.

  /** The pieces a one-character substitution makes of `s`: `rep` for each `c`, the character itself otherwise. */
  function CharPieces(s: string, c: char, rep: string): (ps: seq<string>)
    ensures |ps| == |s|
  {
    seq(|s|, i requires 0 <= i < |s| => if s[i] == c then rep else [s[i]])
  }

  /**
   * `re.sub` with a one-character pattern replaces every occurrence and
   * keeps every other character: it is the concatenation of the pieces.
   */
  lemma {:induction false} ReplaceCharPieces(s: string, pat: string, rep: string)
    requires |pat| == 1
    ensures Clean.ReplaceAll(s, pat, rep) == Fields.Concat(CharPieces(s, pat[0], rep))
    decreases |s|
  {
    if |s| > 0 {
      ReplaceCharPieces(s[1..], pat, rep);
      PiecesCons(s, pat[0], rep);
      ReplaceCharHead(s, pat, rep);
    }
  }

  lemma PiecesCons(s: string, c: char, rep: string)
    requires |s| > 0
    ensures Fields.Concat(CharPieces(s, c, rep)) == (if s[0] == c then rep else [s[0]]) + Fields.Concat(CharPieces(s[1..], c, rep))
  {
    var ps := CharPieces(s, c, rep);
    assert ps[1..] == CharPieces(s[1..], c, rep);
  }

  /** One scan step of a one-character pattern: the first character is replaced or kept. */
  lemma ReplaceCharHead(s: string, pat: string, rep: string)
    requires |pat| == 1 && |s| > 0
    ensures Clean.ReplaceAll(s, pat, rep) == (if s[0] == pat[0] then rep else [s[0]]) + Clean.ReplaceAll(s[1..], pat, rep)
  {
    assert s[..1] == [s[0]] && pat == [pat[0]];
  }

  /** A one-character substitution works on the two halves of a text separately. */
  lemma ReplaceCharAppend(a: string, b: string, pat: string, rep: string)
    requires |pat| == 1
    ensures Clean.ReplaceAll(a + b, pat, rep) == Clean.ReplaceAll(a, pat, rep) + Clean.ReplaceAll(b, pat, rep)
  {
    var c := pat[0];
    ReplaceCharPieces(a + b, pat, rep);
    ReplaceCharPieces(a, pat, rep);
    ReplaceCharPieces(b, pat, rep);
    assert CharPieces(a + b, c, rep) == CharPieces(a, c, rep) + CharPieces(b, c, rep);
    ConcatAppend(CharPieces(a, c, rep), CharPieces(b, c, rep));
  }

  lemma {:induction false} ConcatAppend<T>(ps: seq<seq<T>>, qs: seq<seq<T>>)
    ensures Fields.Concat(ps + qs) == Fields.Concat(ps) + Fields.Concat(qs)
    decreases |ps|
  {
    if |ps| == 0 {
      assert ps + qs == qs;
    } else {
      assert (ps + qs)[0] == ps[0] && (ps + qs)[1..] == ps[1..] + qs;
      ConcatAppend(ps[1..], qs);
    }
  }

  /** Every pattern is one character long. */
  ghost predicate CharRules(rules: seq<Clean.Rule>) {
    forall i :: 0 <= i < |rules| ==> |rules[i].pattern| == 1
  }

  /** A chain of one-character substitutions works on the two halves of a text separately. */
  lemma {:induction false} CharRulesAppend(a: string, b: string, rules: seq<Clean.Rule>)
    requires CharRules(rules)
    ensures Clean.WellFormedRules(rules)
    ensures Clean.ApplyRules(a + b, rules) == Clean.ApplyRules(a, rules) + Clean.ApplyRules(b, rules)
    decreases |rules|
  {
    if |rules| > 0 {
      var r := rules[0];
      ReplaceCharAppend(a, b, r.pattern, r.replacement);
      assert CharRules(rules[1..]) by {
        forall i | 0 <= i < |rules| - 1 ensures |rules[1..][i].pattern| == 1 {
          assert rules[1..][i] == rules[i + 1];
        }
      }
      CharRulesAppend(Clean.ReplaceAll(a, r.pattern, r.replacement), Clean.ReplaceAll(b, r.pattern, r.replacement), rules[1..]);
    }
  }

  /** Applying `a + b` is applying `a`, then `b`. */
  lemma {:induction false} ApplyRulesAppend(s: string, a: seq<Clean.Rule>, b: seq<Clean.Rule>)
    requires Clean.WellFormedRules(a) && Clean.WellFormedRules(b)
    ensures Clean.WellFormedRules(a + b)
    ensures Clean.ApplyRules(s, a + b) == Clean.ApplyRules(Clean.ApplyRules(s, a), b)
    decreases |a|
  {
    if |a| == 0 {
      assert a + b == b;
    } else {
      var t := Clean.ReplaceAll(s, a[0].pattern, a[0].replacement);
      assert (a + b)[0] == a[0] && (a + b)[1..] == a[1..] + b;
      ApplyRulesAppend(t, a[1..], b);
    }
  }

  // The padding of the marks.

  /** The characters that lines 133-137 pad with spaces. */
  predicate IsMark(c: char) {
    c == ',' || c == '!' || c == '(' || c == ')' || c == '?'
  }

  /** What a mark becomes between its spaces: itself, or itself behind a backslash. */
  function MarkToken(c: char): string {
    if c == ',' || c == '!' then [c] else ['\\', c]
  }

  /** What the substitutions of lines 133-137 make of one character. */
  function Pad(c: char): (r: string)
    ensures |r| > 0
  {
    if IsMark(c) then [' '] + MarkToken(c) + [' '] else [c]
  }

  /** The reference for lines 133-137: every character padded on its own. */
  function PadAll(s: string): string
    decreases |s|
  {
    if |s| == 0 then [] else Pad(s[0]) + PadAll(s[1..])
  }

  /** The substitutions of lines 133-137, in order. */
  const MarkRules: seq<Clean.Rule> := Clean.CleanRules[6..]

  /** `clean_str`'s substitutions are the clitic rules, then the mark rules. */
  lemma CleanRulesParts()
    ensures Clean.CleanRules == Clean.CleanRules[..6] + MarkRules
    ensures Clean.WellFormedRules(Clean.CleanRules[..6]) && Clean.WellFormedRules(MarkRules)
  {
  }

  lemma MarkRulesOneChar()
    ensures CharRules(MarkRules) && Clean.WellFormedRules(MarkRules)
  {
  }

  /** Every clitic pattern holds an apostrophe. */
  lemma CliticsMarked()
    ensures Clean.WellFormedRules(Clean.CleanRules[..6])
    ensures forall i :: 0 <= i < 6 ==> Clean.MarkedBy(Clean.CleanRules[..6][i].pattern, "'")
  {
    var q := Clean.CleanRules[..6];
    assert q[0].pattern[0] == '\'' && q[1].pattern[0] == '\'' && q[2].pattern[1] == '\'';
    assert q[3].pattern[0] == '\'' && q[4].pattern[0] == '\'' && q[5].pattern[0] == '\'';
  }

  /** One-character rules none of whose characters occurs in `t` leave `t` alone. */
  lemma {:induction false} CharRulesMiss(t: string, rules: seq<Clean.Rule>)
    requires CharRules(rules)
    requires forall i :: 0 <= i < |rules| ==> rules[i].pattern[0] !in t
    ensures Clean.WellFormedRules(rules)
    ensures Clean.ApplyRules(t, rules) == t
    decreases |rules|
  {
    if |rules| > 0 {
      Clean.ReplaceAbsent(t, rules[0].pattern, rules[0].replacement, rules[0].pattern[0]);
      assert forall i :: 0 <= i < |rules| - 1 ==> rules[1..][i] == rules[i + 1];
      CharRulesMiss(t, rules[1..]);
    }
  }

  /**
   * Rule `k` of a chain of one-character rules replaces `x`, no earlier rule
   * matches `x` and no later one matches its replacement: the chain makes
   * of `x` that replacement.
   */
  lemma CharRuleAt(x: char, rules: seq<Clean.Rule>, k: nat)
    requires CharRules(rules) && k < |rules| && rules[k].pattern == [x]
    requires forall i :: 0 <= i < k ==> rules[i].pattern[0] != x
    requires forall i :: k < i < |rules| ==> rules[i].pattern[0] !in rules[k].replacement
    ensures Clean.WellFormedRules(rules)
    ensures Clean.ApplyRules([x], rules) == rules[k].replacement
  {
    var before, rule, after := rules[..k], rules[k], rules[k + 1..];
    SplitAt(rules, k);
    CharRulesMiss([x], before);
    CharRulesMiss(rule.replacement, after);
    ApplyRulesAppend([x], before, [rule] + after);
    ApplyRulesAppend([x], [rule], after);
    SingleRule([x], rule);
    Clean.ReplaceHead(rule.pattern, [], rule.replacement);
    assert rule.pattern + [] == [x];
    assert Clean.ReplaceAll([], rule.pattern, rule.replacement) == [];
    assert Clean.ApplyRules([x], [rule]) == rule.replacement;
    assert Clean.ApplyRules([x], [rule] + after) == rule.replacement;
    assert Clean.ApplyRules([x], before + ([rule] + after)) == rule.replacement;
  }

  lemma SplitAt<T>(s: seq<T>, k: nat)
    requires k < |s|
    ensures s == s[..k] + ([s[k]] + s[k + 1..])
  {
  }

  lemma SingleRule(t: string, rule: Clean.Rule)
    requires |rule.pattern| > 0
    ensures Clean.WellFormedRules([rule])
    ensures Clean.ApplyRules(t, [rule]) == Clean.ReplaceAll(t, rule.pattern, rule.replacement)
  {
    assert [rule][1..] == [];
  }

  /** The mark rules make of one character what `Pad` says. */
  lemma MarkRulesChar(x: char)
    ensures CharRules(MarkRules)
    ensures Clean.ApplyRules([x], MarkRules) == Pad(x)
  {
    MarkRulesOneChar();
    if IsMark(x) {
      MarkRulesMark(x);
    } else {
      CharRulesMiss([x], MarkRules);
    }
  }

  lemma MarkRulesMark(x: char)
    requires IsMark(x)
    ensures Clean.ApplyRules([x], MarkRules) == Pad(x)
  {
    var k := if x == ',' then 0 else if x == '!' then 1 else if x == '(' then 2 else if x == ')' then 3 else 4;
    MarkRuleFacts(x, k);
    CharRuleAt(x, MarkRules, k);
  }

  lemma MarkRuleFacts(x: char, k: nat)
    requires IsMark(x)
    requires k == if x == ',' then 0 else if x == '!' then 1 else if x == '(' then 2 else if x == ')' then 3 else 4
    ensures CharRules(MarkRules) && k < |MarkRules|
    ensures MarkRules[k].pattern == [x] && MarkRules[k].replacement == Pad(x)
    ensures forall i :: 0 <= i < k ==> MarkRules[i].pattern[0] != x
    ensures forall i :: k < i < |MarkRules| ==> MarkRules[i].pattern[0] !in MarkRules[k].replacement
  {
  }

  /** Lines 133-137 together pad every mark of the text, each on its own. */
  lemma {:induction false} MarkRulesPad(t: string)
    ensures Clean.WellFormedRules(MarkRules)
    ensures Clean.ApplyRules(t, MarkRules) == PadAll(t)
    decreases |t|
  {
    MarkRulesOneChar();
    if |t| == 0 {
      CharRulesMiss(t, MarkRules);
    } else {
      assert t == [t[0]] + t[1..];
      CharRulesAppend([t[0]], t[1..], MarkRules);
      MarkRulesChar(t[0]);
      MarkRulesPad(t[1..]);
    }
  }

  lemma {:induction false} PadAllAppend(a: string, b: string)
    ensures PadAll(a + b) == PadAll(a) + PadAll(b)
    decreases |a|
  {
    if |a| == 0 {
      assert a + b == b;
    } else {
      assert (a + b)[0] == a[0] && (a + b)[1..] == a[1..] + b;
      PadAllAppend(a[1..], b);
    }
  }

  /** Text without marks is not changed by padding. */
  lemma {:induction false} PadAllPlain(a: string)
    requires forall i :: 0 <= i < |a| ==> !IsMark(a[i])
    ensures PadAll(a) == a
    decreases |a|
  {
    if |a| > 0 {
      PadAllPlain(a[1..]);
    }
  }

  // The words of a cleaned string, read off its input.

  /** A character of the runs that become words: ``[A-Za-z0-9'`]``. */
  predicate WordChar(c: char) {
    'a' <= c <= 'z' || 'A' <= c <= 'Z' || '0' <= c <= '9' || c == '\'' || c == '`'
  }

  /** A character that only separates words: neither a word character nor a mark. */
  predicate Separator(c: char) {
    !WordChar(c) && !IsMark(c)
  }

  /** Nonempty patterns made of word characters only, as the clitics of lines 127-132 are. */
  ghost predicate Wordy(ps: seq<string>) {
    forall i :: 0 <= i < |ps| ==> |ps[i]| > 0 && forall k :: 0 <= k < |ps[i]| ==> WordChar(ps[i][k])
  }

  /** How far a word goes on in `s`: over word characters, up to the first place where a clitic begins. */
  function WordRun(s: string, ps: seq<string>): (n: nat)
    ensures n <= |s|
    decreases |s|
  {
    if |s| == 0 || !WordChar(s[0]) || Clitics.AnyStarts(s, ps) then 0 else 1 + WordRun(s[1..], ps)
  }

  /** The word goes on over word characters where no clitic begins, and stops at the first other place. */
  lemma {:induction false} WordRunStops(s: string, ps: seq<string>)
    ensures forall j :: 0 <= j < WordRun(s, ps) ==> WordChar(s[j]) && !Clitics.AnyStarts(s[j..], ps)
    ensures WordRun(s, ps) < |s| ==> !WordChar(s[WordRun(s, ps)]) || Clitics.AnyStarts(s[WordRun(s, ps)..], ps)
    decreases |s|
  {
    if |s| > 0 && WordChar(s[0]) && !Clitics.AnyStarts(s, ps) {
      WordRunStops(s[1..], ps);
      forall j | 1 <= j <= WordRun(s[1..], ps) && j < |s| ensures s[1..][j - 1] == s[j] && s[1..][j - 1..] == s[j..] {
      }
    }
  }

  /**
   * The reference tokenizer: the runs of word characters, each cut in front
   * of every clitic of `ps` that begins inside it, and each mark as a token of its own (behind a backslash for
   * `(`, `)` and `?`); every other character only separates.
   */
  function Words(s: string, ps: seq<string>): (ws: seq<string>)
    ensures forall i :: 0 <= i < |ws| ==> |ws[i]| > 0
    decreases |s|
  {
    if |s| == 0 then []
    else if IsMark(s[0]) then [MarkToken(s[0])] + Words(s[1..], ps)
    else if !WordChar(s[0]) then Words(s[1..], ps)
    else
      var n := 1 + WordRun(s[1..], ps);
      [s[..n]] + Words(s[n..], ps)
  }

  /** Text whose every character is a space, a word character or a mark: what the first substitution leaves. */
  ghost predicate Blanked(t: string) {
    forall i :: 0 <= i < |t| ==> t[i] == ' ' || WordChar(t[i]) || IsMark(t[i])
  }

  lemma BlankedTail(t: string, n: nat)
    requires Blanked(t) && n <= |t|
    ensures Blanked(t[n..])
  {
    forall i | 0 <= i < |t| - n ensures t[n..][i] == ' ' || WordChar(t[n..][i]) || IsMark(t[n..][i]) {
      assert t[n..][i] == t[n + i];
    }
  }

  /** Word characters, marks and the backslash are not whitespace. */
  lemma Solid(c: char)
    requires WordChar(c) || IsMark(c) || c == '\\'
    ensures !Clean.IsWhitespace(c)
  {
  }

  lemma TokenSolid(c: char)
    requires IsMark(c)
    ensures forall i :: 0 <= i < |MarkToken(c)| ==> !Clean.IsWhitespace(MarkToken(c)[i])
  {
    Solid(c);
    Solid('\\');
  }

  /** Every character of every clitic of lines 127-132 is a word character. */
  lemma CliticsWordy()
    ensures Wordy(Clitics.CliticPatterns)
  {
  }

  /** A clitic begins only at a word character. */
  lemma CliticHead(s: string, ps: seq<string>)
    requires Wordy(ps)
    ensures Clitics.AnyStarts(s, ps) ==> |s| > 0 && WordChar(s[0])
  {
    Clitics.AnyStartsSome(s, ps);
    if Clitics.AnyStarts(s, ps) {
      var i :| 0 <= i < |ps| && Clitics.StartsWith(s, ps[i]);
      assert s[0] == ps[i][0];
    }
  }

  /** The padded text after the clitic spaces, which `clean_str` goes on to split. */
  function Spaced(t: string, ps: seq<string>): string {
    PadAll(Clitics.InsertAt(t, ps))
  }

  /** Splitting the spaced and padded text at whitespace yields the reference tokens. */
  lemma {:induction false} SplitSpaced(t: string, ps: seq<string>)
    requires Blanked(t) && Wordy(ps)
    ensures Fields.Split(Spaced(t, ps), Clean.IsWhitespace) == Words(t, ps)
    decreases |t|
  {
    if |t| > 0 {
      if WordChar(t[0]) {
        var n := 1 + WordRun(t[1..], ps);
        BlankedTail(t, n);
        SplitSpaced(t[n..], ps);
        SplitSpacedWord(t, n, ps);
      } else {
        BlankedTail(t, 1);
        SplitSpaced(t[1..], ps);
        SplitSpacedOther(t, ps);
      }
    }
  }

  /** Away from a word, a character is padded on its own. */
  lemma SpacedOther(t: string, ps: seq<string>)
    requires Wordy(ps) && |t| > 0 && !WordChar(t[0])
    ensures Spaced(t, ps) == Pad(t[0]) + Spaced(t[1..], ps)
  {
    CliticHead(t, ps);
    Clitics.InsertUnfold(t, ps);
    var y := Clitics.InsertAt(t[1..], ps);
    assert Clitics.InsertAt(t, ps) == [t[0]] + y;
    assert ([t[0]] + y)[1..] == y;
  }

  lemma SplitSpacedOther(t: string, ps: seq<string>)
    requires Blanked(t) && Wordy(ps) && |t| > 0 && !WordChar(t[0])
    requires Fields.Split(Spaced(t[1..], ps), Clean.IsWhitespace) == Words(t[1..], ps)
    ensures Fields.Split(Spaced(t, ps), Clean.IsWhitespace) == Words(t, ps)
  {
    SpacedOther(t, ps);
    var rest := Spaced(t[1..], ps);
    if IsMark(t[0]) {
      var tok := MarkToken(t[0]);
      TokenSolid(t[0]);
      PadMark(t[0], rest);
      Fields.SplitSkip(' ', tok + ([' '] + rest), Clean.IsWhitespace);
      Fields.SplitField(tok, [' '] + rest, Clean.IsWhitespace);
      Fields.SplitSkip(' ', rest, Clean.IsWhitespace);
    } else {
      Fields.SplitSkip(' ', rest, Clean.IsWhitespace);
    }
  }

  lemma PadMark(c: char, rest: string)
    requires IsMark(c)
    ensures Pad(c) + rest == [' '] + (MarkToken(c) + ([' '] + rest))
  {
  }

  lemma SplitSpacedWord(t: string, n: nat, ps: seq<string>)
    requires Blanked(t) && Wordy(ps) && |t| > 0 && WordChar(t[0]) && n == 1 + WordRun(t[1..], ps)
    requires Fields.Split(Spaced(t[n..], ps), Clean.IsWhitespace) == Words(t[n..], ps)
    ensures Fields.Split(Spaced(t, ps), Clean.IsWhitespace) == Words(t, ps)
  {
    var lead := SpacedWordShape(t, n, ps);
    SpacedHead(t, n, ps);
    RunWord(t, n, ps);
    WordSolid(t[..n]);
    SplitLead(lead, t[..n], Spaced(t[n..], ps));
    WordsWord(t, ps);
  }

  lemma WordsWord(t: string, ps: seq<string>)
    requires |t| > 0 && WordChar(t[0])
    ensures Words(t, ps) == [t[..1 + WordRun(t[1..], ps)]] + Words(t[1 + WordRun(t[1..], ps)..], ps)
  {
    assert !IsMark(t[0]);
  }

  /** A word between an optional space and whitespace or the end is one field. */
  lemma SplitLead(lead: string, w: string, r: string)
    requires lead == "" || lead == " "
    requires |w| > 0 && forall i :: 0 <= i < |w| ==> !Clean.IsWhitespace(w[i])
    requires |r| == 0 || r[0] == ' '
    ensures Fields.Split(lead + (w + r), Clean.IsWhitespace) == [w] + Fields.Split(r, Clean.IsWhitespace)
  {
    assert Clean.IsWhitespace(' ');
    Fields.SplitField(w, r, Clean.IsWhitespace);
    if lead == " " {
      Fields.SplitSkip(' ', w + r, Clean.IsWhitespace);
    } else {
      assert lead + (w + r) == w + r;
    }
  }

  /** A text that starts with a word: perhaps a clitic space, the word, then the rest. */
  lemma SpacedWordShape(t: string, n: nat, ps: seq<string>) returns (lead: string)
    requires |t| > 0 && WordChar(t[0]) && n == 1 + WordRun(t[1..], ps)
    ensures lead == "" || lead == " "
    ensures Spaced(t, ps) == lead + (t[..n] + Spaced(t[n..], ps))
  {
    WordRunStops(t[1..], ps);
    forall j | 1 <= j < n ensures !Clitics.AnyStarts(t[j..], ps) {
      assert t[1..][j - 1..] == t[j..];
    }
    Clitics.InsertSkip(t, ps, n);
    lead := Clitics.Lead(t, ps);
    var word, rest := t[..n], Clitics.InsertAt(t[n..], ps);
    PadAllAppend(lead, word + rest);
    PadAllAppend(word, rest);
    PadAllPlain(lead);
    RunWord(t, n, ps);
    PadAllPlain(word);
  }

  /** The word at the front is made of word characters. */
  lemma RunWord(t: string, n: nat, ps: seq<string>)
    requires |t| > 0 && WordChar(t[0]) && n == 1 + WordRun(t[1..], ps)
    ensures forall i :: 0 <= i < |t[..n]| ==> WordChar(t[..n][i]) && !IsMark(t[..n][i])
  {
    WordRunStops(t[1..], ps);
    forall i | 0 <= i < n ensures WordChar(t[..n][i]) {
      if i > 0 {
        assert t[..n][i] == t[1..][i - 1];
      }
    }
  }

  /** What follows a word starts with a space. */
  lemma SpacedHead(t: string, n: nat, ps: seq<string>)
    requires Blanked(t) && Wordy(ps) && |t| > 0 && WordChar(t[0]) && n == 1 + WordRun(t[1..], ps)
    ensures |t[n..]| == 0 || Spaced(t[n..], ps)[0] == ' '
  {
    if n < |t| {
      var rest := t[n..];
      WordRunStops(t[1..], ps);
      assert rest[0] == t[1..][n - 1];
      assert t[1..][n - 1..] == rest;
      Clitics.InsertUnfold(rest, ps);
      var y := Clitics.InsertAt(rest, ps);
      assert PadAll(y)[0] == Pad(y[0])[0];
    }
  }

  lemma WordSolid(w: string)
    requires forall i :: 0 <= i < |w| ==> WordChar(w[i])
    ensures forall i :: 0 <= i < |w| ==> !Clean.IsWhitespace(w[i])
    ensures Clean.IsWhitespace(' ')
  {
    forall i | 0 <= i < |w| ensures !Clean.IsWhitespace(w[i]) {
      Solid(w[i]);
    }
  }

  /** Two texts of the same length that agree everywhere except where both hold a separator. */
  ghost predicate SameBut(s: string, t: string) {
    |s| == |t| && forall i :: 0 <= i < |s| ==> t[i] == s[i] || (Separator(s[i]) && Separator(t[i]))
  }

  lemma SameButTail(s: string, t: string, n: nat)
    requires SameBut(s, t) && n <= |s|
    ensures SameBut(s[n..], t[n..])
  {
    forall i | 0 <= i < |s| - n ensures t[n..][i] == s[n..][i] || (Separator(s[n..][i]) && Separator(t[n..][i])) {
      assert s[n..][i] == s[n + i] && t[n..][i] == t[n + i];
    }
  }

  /** Two such texts have the same tokens. */
  lemma {:induction false} WordsSame(s: string, t: string, ps: seq<string>)
    requires SameBut(s, t) && Wordy(ps)
    ensures Words(t, ps) == Words(s, ps)
    decreases |s|
  {
    if |s| > 0 {
      var n := if WordChar(s[0]) then 1 + WordRun(s[1..], ps) else 1;
      if WordChar(s[0]) {
        SameButTail(s, t, 1);
        WordRunSame(s[1..], t[1..], ps);
        assert t[..n] == [t[0]] + t[1..][..n - 1];
        assert s[..n] == [s[0]] + s[1..][..n - 1];
      }
      SameButTail(s, t, n);
      WordsSame(s[n..], t[n..], ps);
    }
  }

  /** A clitic begins at the front of one such text exactly when it does in the other. */
  lemma CliticSame(s: string, t: string, ps: seq<string>)
    requires SameBut(s, t) && Wordy(ps)
    ensures Clitics.AnyStarts(t, ps) == Clitics.AnyStarts(s, ps)
  {
    forall i | 0 <= i < |ps| ensures Clitics.StartsWith(t, ps[i]) == Clitics.StartsWith(s, ps[i]) {
      var p := ps[i];
      if |p| <= |s| {
        if t[..|p|] == p {
          assert forall k :: 0 <= k < |p| ==> s[k] == t[k];
          assert s[..|p|] == p;
        }
        if s[..|p|] == p {
          assert forall k :: 0 <= k < |p| ==> s[k] == t[k];
          assert t[..|p|] == p;
        }
      }
    }
    Clitics.AnyStartsSome(s, ps);
    Clitics.AnyStartsSome(t, ps);
  }

  /** The word that goes on from the front is the same in two such texts. */
  lemma {:induction false} WordRunSame(s: string, t: string, ps: seq<string>)
    requires SameBut(s, t) && Wordy(ps)
    ensures WordRun(t, ps) == WordRun(s, ps)
    ensures t[..WordRun(s, ps)] == s[..WordRun(s, ps)]
    decreases |s|
  {
    if |s| > 0 {
      CliticSame(s, t, ps);
      if WordChar(s[0]) && !Clitics.AnyStarts(s, ps) {
        SameButTail(s, t, 1);
        WordRunSame(s[1..], t[1..], ps);
        var n := WordRun(s, ps);
        assert t[..n] == [t[0]] + t[1..][..n - 1];
        assert s[..n] == [s[0]] + s[1..][..n - 1];
      }
    }
  }

  /** Blanking the characters outside the allowed class changes no token. */
  lemma WordsAgree(s: string, ps: seq<string>)
    requires Wordy(ps)
    ensures Words(Clean.BlankDisallowed(s), ps) == Words(s, ps)
  {
    var b := Clean.BlankDisallowed(s);
    forall i | 0 <= i < |s| ensures b[i] == s[i] || (Separator(s[i]) && Separator(b[i])) {
      AllowedSplit(s[i]);
    }
    WordsSame(s, b, ps);
  }

  /**
   * The fields of `clean_str` are the reference tokens of its input: the
   * runs of ``[A-Za-z0-9'`]`` (lowercased unless `TREC`), each cut in front
   * of every clitic that begins inside it, each `,` and `!` a field of its
   * own, and `(`, `)`, `?` as the fields `\(`, `\)`, `\?`.
   */
  lemma CleanStrWords(s: string, trec: bool)
    ensures Fields.Split(Clean.CleanStr(s, trec), Clean.IsWhitespace) == if trec then Words(s, Clitics.CliticPatterns) else Clean.LowerFields(Words(s, Clitics.CliticPatterns))
  {
    var t := CleanStrShape(s, trec);
    PipelineWords(s);
    if !trec {
      Clean.LowerFieldsAgree(t);
    }
  }

  /** Before the lowering, the fields are the reference tokens. */
  lemma PipelineWords(s: string)
    ensures Clean.WellFormedRules(Clean.CleanRules)
    ensures Fields.Split(Clean.Strip(Clean.Collapse(Clean.ApplyRules(Clean.BlankDisallowed(s), Clean.CleanRules))), Clean.IsWhitespace) == Words(s, Clitics.CliticPatterns)
  {
    var b := Clean.BlankDisallowed(s);
    BlankedOf(s);
    var p := PaddedPipeline(b);
    Clean.CollapseFields(p);
    Clean.StripFields(Clean.Collapse(p));
    CliticsWordy();
    SplitSpaced(b, Clitics.CliticPatterns);
    WordsAgree(s, Clitics.CliticPatterns);
  }

  /** The substitutions of `clean_str` are the clitic spaces, then the padding. */
  lemma PaddedPipeline(b: string) returns (p: string)
    ensures Clean.WellFormedRules(Clean.CleanRules)
    ensures p == Clean.ApplyRules(b, Clean.CleanRules) == Spaced(b, Clitics.CliticPatterns)
  {
    CleanRulesParts();
    ApplyRulesAppend(b, Clean.CleanRules[..6], MarkRules);
    Clitics.CliticRules(b);
    MarkRulesPad(Clitics.InsertAt(b, Clitics.CliticPatterns));
    p := Spaced(b, Clitics.CliticPatterns);
  }

  /** `clean_str` is the substitutions, the collapsing, the stripping and, unless `TREC`, the lowering. */
  lemma CleanStrShape(s: string, trec: bool) returns (t: string)
    ensures Clean.WellFormedRules(Clean.CleanRules)
    ensures t == Clean.Strip(Clean.Collapse(Clean.ApplyRules(Clean.BlankDisallowed(s), Clean.CleanRules)))
    ensures Clean.CleanStr(s, trec) == if trec then t else Clean.Lower(t)
  {
    Clean.CleanRulesClean();
    t := Clean.Strip(Clean.Collapse(Clean.ApplyRules(Clean.BlankDisallowed(s), Clean.CleanRules)));
  }

  /** Blanking leaves only spaces, word characters and marks. */
  lemma BlankedOf(s: string)
    ensures Blanked(Clean.BlankDisallowed(s))
  {
    var b := Clean.BlankDisallowed(s);
    forall i | 0 <= i < |b| ensures b[i] == ' ' || WordChar(b[i]) || IsMark(b[i]) {
      AllowedSplit(s[i]);
    }
  }

  /** The allowed class is the word characters and the marks. */
  lemma AllowedSplit(c: char)
    ensures Clean.Allowed(c) <==> WordChar(c) || IsMark(c)
  {
  }

  // Where the backslashes of a cleaned string stand.

  /** The marks that lines 135-137 put behind a backslash. */
  predicate Escapable(c: char) {
    c == '(' || c == ')' || c == '?'
  }

  /** Every backslash of `s` is followed by `(`, `)` or `?`. */
  ghost predicate Escaped(s: string) {
    forall i :: 0 <= i < |s| && s[i] == '\\' ==> i + 1 < |s| && Escapable(s[i + 1])
  }

  ghost predicate NoBackslash(s: string) {
    forall i :: 0 <= i < |s| ==> s[i] != '\\'
  }

  /**
   * The only backslashes `clean_str` outputs are those of the templates of
   * lines 135-137, each directly in front of its `(`, `)` or `?`: the
   * backslashes of the input are blanked by the first substitution.
   */
  lemma CleanStrEscaped(s: string, trec: bool)
    ensures Escaped(Clean.CleanStr(s, trec))
  {
    var b := Clean.BlankDisallowed(s);
    var u := Clean.ApplyRules(b, Clean.CleanRules[..6]) by {
      CliticsMarked();
    }
    CliticsNoBackslash(s);
    var p := PadPipeline(b, u);
    PadEscaped(u);
    var c := Clean.Collapse(p);
    CollapseEscaped(p);
    var t := CleanStrShape(s, trec);
    StripEscaped(c);
    if !trec {
      LowerEscaped(t);
    }
  }

  /** The substitutions of `clean_str` are the clitic rules, then the padding. */
  lemma PadPipeline(b: string, u: string) returns (p: string)
    requires Clean.WellFormedRules(Clean.CleanRules[..6]) && u == Clean.ApplyRules(b, Clean.CleanRules[..6])
    ensures Clean.WellFormedRules(Clean.CleanRules)
    ensures p == Clean.ApplyRules(b, Clean.CleanRules) == PadAll(u)
  {
    CleanRulesParts();
    ApplyRulesAppend(b, Clean.CleanRules[..6], MarkRules);
    MarkRulesPad(u);
    p := PadAll(u);
  }

  /** Blanking removes every backslash, and the clitic rules add none. */
  lemma CliticsNoBackslash(s: string)
    ensures Clean.WellFormedRules(Clean.CleanRules[..6])
    ensures NoBackslash(Clean.ApplyRules(Clean.BlankDisallowed(s), Clean.CleanRules[..6]))
  {
    var b := Clean.BlankDisallowed(s);
    var q := Clean.CleanRules[..6];
    CliticsMarked();
    assert forall j :: 0 <= j < 6 ==> '\\' !in q[j].replacement;
    assert '\\' !in b;
  }

  lemma {:induction false} EscapedAppend(a: string, b: string)
    requires Escaped(a) && Escaped(b)
    ensures Escaped(a + b)
  {
    var r := a + b;
    forall i | 0 <= i < |r| && r[i] == '\\' ensures i + 1 < |r| && Escapable(r[i + 1]) {
      if i < |a| {
        assert a[i] == '\\';
      } else {
        assert b[i - |a|] == '\\';
      }
    }
  }

  /** Padding text without backslashes leaves each backslash in front of its mark. */
  lemma {:induction false} PadEscaped(u: string)
    requires NoBackslash(u)
    ensures Escaped(PadAll(u))
    decreases |u|
  {
    if |u| > 0 {
      PadEscaped(u[1..]);
      assert Escaped(Pad(u[0]));
      EscapedAppend(Pad(u[0]), PadAll(u[1..]));
    }
  }

  /** Collapsing whitespace keeps each backslash in front of its mark, as the mark is no whitespace. */
  lemma {:induction false} CollapseEscaped(s: string)
    requires Escaped(s)
    ensures Escaped(Clean.Collapse(s))
    decreases |s|
  {
    if |s| >= 2 && Clean.IsWhitespace(s[0]) && Clean.IsWhitespace(s[1]) {
      var s' := [' '] + s[2..];
      assert Escaped(s') by {
        forall i | 0 <= i < |s'| && s'[i] == '\\' ensures i + 1 < |s'| && Escapable(s'[i + 1]) {
          assert s[i + 1] == s'[i];
        }
      }
      CollapseEscaped(s');
    } else if |s| > 0 {
      assert Escaped(s[1..]) by {
        forall i | 0 <= i < |s| - 1 && s[1..][i] == '\\' ensures i + 1 < |s| - 1 && Escapable(s[1..][i + 1]) {
          assert s[i + 1] == '\\';
        }
      }
      CollapseEscaped(s[1..]);
      if s[0] == '\\' {
        Solid(s[1]);
        assert s[1..] == [s[1]] + s[2..];
        Clean.CollapseOther(s[1], s[2..]);
      }
      CollapseEscapedHead(s[0], Clean.Collapse(s[1..]));
    }
  }

  lemma CollapseEscapedHead(x: char, r: string)
    requires Escaped(r) && (x == '\\' ==> |r| > 0 && Escapable(r[0]))
    ensures Escaped([x] + r)
  {
    var r' := [x] + r;
    forall i | 0 <= i < |r'| && r'[i] == '\\' ensures i + 1 < |r'| && Escapable(r'[i + 1]) {
      if i > 0 {
        assert r[i - 1] == '\\';
      }
    }
  }

  /** Stripping keeps each backslash in front of its mark, as the mark is no whitespace. */
  lemma StripEscaped(s: string)
    requires Escaped(s)
    ensures Escaped(Clean.Strip(s))
  {
    var r := Clean.Strip(s);
    var a, b :| 0 <= a <= b <= |s| && r == s[a..b]
      && Fields.AllWhitespace(s[..a], Clean.IsWhitespace) && Fields.AllWhitespace(s[b..], Clean.IsWhitespace);
    forall i | 0 <= i < |r| && r[i] == '\\' ensures i + 1 < |r| && Escapable(r[i + 1]) {
      assert s[a + i] == '\\';
      var k := a + i + 1;
      Solid(s[k]);
    }
  }

  /** Lowering changes neither backslashes nor marks. */
  lemma LowerEscaped(s: string)
    requires Escaped(s)
    ensures Escaped(Clean.Lower(s))
  {
    var r := Clean.Lower(s);
    forall i | 0 <= i < |r| && r[i] == '\\' ensures i + 1 < |r| && Escapable(r[i + 1]) {
      assert s[i] == '\\';
    }
  }
}
