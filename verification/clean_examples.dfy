/**
 * What `clean_str` does to a sentence with a clitic and punctuation: the
 * clitic `'s` is split off its word, each `!` becomes a word of its own,
 * and case is folded. With the words `It`, `NOT` and `good` this is
 * `clean_str("It's NOT good!!")`, whose words are `it 's not good ! !`.
 */
module CleanExamples {
  import Fields
  import Clean

  predicate IsAlnum(c: char) {
    'A' <= c <= 'Z' || 'a' <= c <= 'z' || '0' <= c <= '9'
  }

  /** A non-empty run of ASCII letters and digits. */
  ghost predicate IsWord(w: string) {
    |w| > 0 && forall i :: 0 <= i < |w| ==> IsAlnum(w[i])
  }

  /** The part of the sentence behind the clitic: `" " + v + " " + u + "!!"`. */
  function Tail(v: string, u: string): string {
    " " + (v + (" " + (u + "!!")))
  }

  /** `w + "'s " + v + " " + u + "!!"` */
  function Sentence(w: string, v: string, u: string): string {
    w + ("'s" + Tail(v, u))
  }

  /** The sentence once the clitic has been split off: `w + " 's " + v + " " + u + "!!"`. */
  function Clitic(w: string, v: string, u: string): string {
    w + (" " + ("'s" + Tail(v, u)))
  }

  /** Each `!` padded with spaces. */
  const Bangs: string := " ! " + " ! "

  /** What the substitutions of `clean_str` make of the sentence: `w + " 's " + v + " " + u + " !  ! "`. */
  function Spaced(w: string, v: string, u: string): string {
    w + (" " + ("'s" + (" " + (v + (" " + (u + Bangs))))))
  }

  /**
   * The words of `clean_str(w + "'s " + v + " " + u + "!!")`: `w`, the clitic
   * `'s`, `v`, `u`, then `!` twice, lowercased.
   */
  lemma CleanStrClitic(w: string, v: string, u: string)
    requires IsWord(w) && IsWord(v) && IsWord(u)
    ensures Fields.Split(Clean.CleanStr(Sentence(w, v, u), false), Clean.IsWhitespace)
         == [Clean.Lower(w), "'s", Clean.Lower(v), Clean.Lower(u), "!", "!"]
  {
    var spaced := Spaced(w, v, u);
    SentenceBlank(w, v, u);
    SentenceRules(w, v, u);
    SpacedFields(w, v, u);
    var t := Clean.Strip(Clean.Collapse(spaced));
    Clean.CleanRulesClean();
    assert Clean.CleanStr(Sentence(w, v, u), false) == Clean.Lower(t);
    Clean.LowerFieldsAgree(t);
    Clean.StripFields(Clean.Collapse(spaced));
    Clean.CollapseFields(spaced);
    LowerWords(w, v, u);
  }

  lemma LowerWords(w: string, v: string, u: string)
    ensures Clean.LowerFields([w, "'s", v, u, "!", "!"]) == [Clean.Lower(w), "'s", Clean.Lower(v), Clean.Lower(u), "!", "!"]
  {
    assert Clean.Lower("'s") == "'s" && Clean.Lower("!") == "!";
  }

  lemma WordFacts(w: string)
    requires IsWord(w)
    ensures Clean.AllowedOrSpace(w)
    ensures '\'' !in w && ',' !in w && '!' !in w && '(' !in w && ')' !in w && '?' !in w
  {
  }

  lemma AllowedOrSpaceAppend(x: string, y: string)
    requires Clean.AllowedOrSpace(x) && Clean.AllowedOrSpace(y)
    ensures Clean.AllowedOrSpace(x + y)
  {
  }

  /** The sentence holds only allowed characters and spaces, so blanking keeps it. */
  lemma SentenceBlank(w: string, v: string, u: string)
    requires IsWord(w) && IsWord(v) && IsWord(u)
    ensures Clean.BlankDisallowed(Sentence(w, v, u)) == Sentence(w, v, u)
  {
    WordFacts(w);
    WordFacts(v);
    WordFacts(u);
    assert Clean.AllowedOrSpace("'s") && Clean.AllowedOrSpace(" ") && Clean.AllowedOrSpace("!!");
    AllowedOrSpaceAppend(u, "!!");
    AllowedOrSpaceAppend(" ", u + "!!");
    AllowedOrSpaceAppend(v, " " + (u + "!!"));
    AllowedOrSpaceAppend(" ", v + (" " + (u + "!!")));
    AllowedOrSpaceAppend("'s", Tail(v, u));
    AllowedOrSpaceAppend(w, "'s" + Tail(v, u));
    Clean.BlankKeeps(Sentence(w, v, u));
  }

  /** Rule `k` of `clean_str` takes `a` to `b`. */
  lemma RulesStep(a: string, b: string, k: nat)
    requires k < |Clean.CleanRules|
    requires Clean.ReplaceAll(a, Clean.CleanRules[k].pattern, Clean.CleanRules[k].replacement) == b
    ensures Clean.ApplyRules(a, Clean.CleanRules[k..]) == Clean.ApplyRules(b, Clean.CleanRules[k + 1..])
  {
    Clean.CleanRulesClean();
    assert Clean.CleanRules[k..][0] == Clean.CleanRules[k] && Clean.CleanRules[k..][1..] == Clean.CleanRules[k + 1..];
  }

  /** The substitutions put a space before the clitic and spaces around each `!`, and change nothing else. */
  lemma SentenceRules(w: string, v: string, u: string)
    requires IsWord(w) && IsWord(v) && IsWord(u)
    ensures Clean.ApplyRules(Sentence(w, v, u), Clean.CleanRules) == Spaced(w, v, u)
  {
    QuotePhase(w, v, u);
    MarkPhase(w, v, u);
    Clean.CleanRulesClean();
    assert Clean.CleanRules[0..] == Clean.CleanRules;
  }

  /** The clitic rules: only `'s` applies. */
  lemma QuotePhase(w: string, v: string, u: string)
    requires IsWord(w) && IsWord(v) && IsWord(u)
    ensures Clean.ApplyRules(Sentence(w, v, u), Clean.CleanRules[0..]) == Clean.ApplyRules(Clitic(w, v, u), Clean.CleanRules[6..])
  {
    var s, t := Sentence(w, v, u), Clitic(w, v, u);
    CliticRule(w, v, u);
    QuoteRules(w, v, u);
    RulesStep(s, t, 0);
    RulesStep(t, t, 1);
    RulesStep(t, t, 2);
    RulesStep(t, t, 3);
    RulesStep(t, t, 4);
    RulesStep(t, t, 5);
  }

  /** The punctuation rules: only `!` applies. */
  lemma MarkPhase(w: string, v: string, u: string)
    requires IsWord(w) && IsWord(v) && IsWord(u)
    ensures Clean.ApplyRules(Clitic(w, v, u), Clean.CleanRules[6..]) == Spaced(w, v, u)
  {
    BangPhase(w, v, u);
    BracketPhase(w, v, u);
  }

  /** The comma rule finds nothing, the `!` rule pads both marks. */
  lemma BangPhase(w: string, v: string, u: string)
    requires IsWord(w) && IsWord(v) && IsWord(u)
    ensures Clean.ApplyRules(Clitic(w, v, u), Clean.CleanRules[6..]) == Clean.ApplyRules(Spaced(w, v, u), Clean.CleanRules[8..])
  {
    CommaStep(w, v, u);
    BangRule(w, v, u);
    RulesStep(Clitic(w, v, u), Spaced(w, v, u), 7);
  }

  lemma CommaStep(w: string, v: string, u: string)
    requires IsWord(w) && IsWord(v) && IsWord(u)
    ensures Clean.ApplyRules(Clitic(w, v, u), Clean.CleanRules[6..]) == Clean.ApplyRules(Clitic(w, v, u), Clean.CleanRules[7..])
  {
    CommaRule(w, v, u);
    RulesStep(Clitic(w, v, u), Clitic(w, v, u), 6);
  }

  /** The bracket and question-mark rules find nothing. */
  lemma BracketPhase(w: string, v: string, u: string)
    requires IsWord(w) && IsWord(v) && IsWord(u)
    ensures Clean.ApplyRules(Spaced(w, v, u), Clean.CleanRules[8..]) == Spaced(w, v, u)
  {
    var spaced := Spaced(w, v, u);
    AbsentRules(w, v, u);
    RulesStep(spaced, spaced, 8);
    RulesStep(spaced, spaced, 9);
    RulesStep(spaced, spaced, 10);
    Clean.CleanRulesClean();
    assert Clean.CleanRules[11..] == [];
  }

  /** Commas occur nowhere, so their rule finds nothing. */
  lemma CommaRule(w: string, v: string, u: string)
    requires IsWord(w) && IsWord(v) && IsWord(u)
    ensures Clean.ReplaceAll(Clitic(w, v, u), Clean.CleanRules[6].pattern, Clean.CleanRules[6].replacement) == Clitic(w, v, u)
  {
    WordFacts(w);
    WordFacts(v);
    WordFacts(u);
    AbsentMarks();
    AbsentRule(w, v, u, Clean.CleanRules[6].pattern, Clean.CleanRules[6].replacement);
  }

  /** The comma, bracket and question-mark rules have one-character patterns that are none of `'`, `s`, `!` or a space. */
  lemma AbsentMarks()
    ensures forall k :: 6 <= k < 11 && k != 7 ==>
      var p := Clean.CleanRules[k].pattern;
      |p| == 1 && (p[0] == ',' || p[0] == '(' || p[0] == ')' || p[0] == '?')
  {
  }

  /** Brackets and question marks occur nowhere, so their rules find nothing. */
  lemma AbsentRules(w: string, v: string, u: string)
    requires IsWord(w) && IsWord(v) && IsWord(u)
    ensures forall k :: 8 <= k < 11 ==>
      Clean.ReplaceAll(Spaced(w, v, u), Clean.CleanRules[k].pattern, Clean.CleanRules[k].replacement) == Spaced(w, v, u)
  {
    WordFacts(w);
    WordFacts(v);
    WordFacts(u);
    AbsentMarks();
    forall k | 8 <= k < 11
      ensures Clean.ReplaceAll(Spaced(w, v, u), Clean.CleanRules[k].pattern, Clean.CleanRules[k].replacement) == Spaced(w, v, u)
    {
      AbsentRule(w, v, u, Clean.CleanRules[k].pattern, Clean.CleanRules[k].replacement);
    }
  }

  /** A one-character pattern found in none of the words, spaces, clitic or `!` finds nothing. */
  lemma AbsentRule(w: string, v: string, u: string, pat: string, rep: string)
    requires |pat| == 1 && pat[0] !in w && pat[0] !in v && pat[0] !in u
    requires pat[0] !in " 's!"
    ensures Clean.ReplaceAll(Clitic(w, v, u), pat, rep) == Clitic(w, v, u)
    ensures Clean.ReplaceAll(Spaced(w, v, u), pat, rep) == Spaced(w, v, u)
  {
    var c := pat[0];
    assert c != ' ' && c != '\'' && c != 's' && c != '!';
    assert c !in Clitic(w, v, u);
    assert c !in Spaced(w, v, u);
    Clean.ReplaceAbsent(Clitic(w, v, u), pat, rep, c);
    Clean.ReplaceAbsent(Spaced(w, v, u), pat, rep, c);
  }

  lemma CliticRule(w: string, v: string, u: string)
    requires IsWord(w) && IsWord(v) && IsWord(u)
    ensures Clean.ReplaceAll(Sentence(w, v, u), Clean.CleanRules[0].pattern, Clean.CleanRules[0].replacement) == Clitic(w, v, u)
  {
    WordFacts(w);
    WordFacts(v);
    WordFacts(u);
    TailQuoteFree(v, u);
    FirstClitic();
    CliticSplit(w, Tail(v, u), Clean.CleanRules[0].pattern);
  }

  /** The clitic of the sentence is the pattern of the first rule, which puts a space in front of it. */
  lemma FirstClitic()
    ensures Clean.CleanRules[0].pattern == "'s"
    ensures Clean.CleanRules[0].replacement == [' '] + Clean.CleanRules[0].pattern
  {
  }

  lemma TailQuoteFree(v: string, u: string)
    requires '\'' !in v && '\'' !in u
    ensures '\'' !in Tail(v, u)
  {
  }

  /** The one occurrence of the pattern is the clitic, and a space goes in before it. */
  lemma CliticSplit(w: string, rest: string, pat: string)
    requires |pat| > 0 && pat[0] !in w && pat[0] !in rest
    ensures Clean.ReplaceAll(w + (pat + rest), pat, [' '] + pat) == w + (" " + (pat + rest))
  {
    Clean.ReplacePrefix(w, pat + rest, pat, [' '] + pat);
    Clean.ReplaceHead(pat, rest, [' '] + pat);
    Clean.ReplaceAbsent(rest, pat, [' '] + pat, pat[0]);
    assert [' '] + pat + rest == " " + (pat + rest);
  }

  /** The other clitic rules find nothing once `'s` has been split off. */
  lemma QuoteRules(w: string, v: string, u: string)
    requires IsWord(w) && IsWord(v) && IsWord(u)
    ensures forall k :: 1 <= k < 6 ==>
      Clean.ReplaceAll(Clitic(w, v, u), Clean.CleanRules[k].pattern, Clean.CleanRules[k].replacement) == Clitic(w, v, u)
  {
    WordFacts(w);
    WordFacts(v);
    WordFacts(u);
    var rest := Tail(v, u);
    OtherClitics();
    forall k | 1 <= k < 6
      ensures Clean.ReplaceAll(Clitic(w, v, u), Clean.CleanRules[k].pattern, Clean.CleanRules[k].replacement) == Clitic(w, v, u)
    {
      var rule := Clean.CleanRules[k];
      if rule.pattern[0] == '\'' {
        QuoteMiss(w, rest, rule.pattern, rule.replacement);
      } else {
        NotMiss(w, rest, rule.pattern, rule.replacement);
      }
    }
  }

  /**
   * The clitics other than `'s` do not go on with an `s` after their
   * apostrophe: each is an apostrophe and a letter other than `s`, or a
   * letter and an apostrophe.
   */
  lemma OtherClitics()
    ensures forall k :: 1 <= k < 6 ==>
      var p := Clean.CleanRules[k].pattern;
      |p| >= 2 && p[1] != 's' && (p[0] == '\'' || (p[0] != ' ' && p[1] == '\''))
  {
  }

  /** A pattern `'x` with `x` other than `s` finds nothing when the only apostrophe is that of the clitic. */
  lemma QuoteMiss(w: string, rest: string, pat: string, rep: string)
    requires |pat| >= 2 && pat[0] == '\'' && pat[1] != 's'
    requires '\'' !in w && '\'' !in rest
    ensures Clean.ReplaceAll(w + (" " + ("'s" + rest)), pat, rep) == w + (" " + ("'s" + rest))
  {
    Clean.ReplacePrefix(w, " " + ("'s" + rest), pat, rep);
    Clean.ReplacePrefix(" ", "'s" + rest, pat, rep);
    CliticMiss(rest, pat, rep);
  }

  /** A pattern like `n't` needs a letter right before an apostrophe, and the clitic's apostrophe follows a space. */
  lemma NotMiss(w: string, rest: string, pat: string, rep: string)
    requires |pat| >= 2 && pat[0] != ' ' && pat[1] == '\''
    requires '\'' !in w && '\'' !in rest
    ensures Clean.ReplaceAll(w + (" " + ("'s" + rest)), pat, rep) == w + (" " + ("'s" + rest))
  {
    var x := "'s" + rest;
    assert w + (" " + x) == (w + " ") + x;
    Clean.ReplacePrefixPair(w + " ", x, pat, rep);
    CliticMiss(rest, pat, rep);
  }

  /** A pattern with an apostrophe that does not match at the clitic's apostrophe finds nothing from there on. */
  lemma CliticMiss(rest: string, pat: string, rep: string)
    requires |pat| >= 2 && '\'' in pat && pat[1] != 's'
    requires '\'' !in rest
    ensures Clean.ReplaceAll("'s" + rest, pat, rep) == "'s" + rest
  {
    var x := "'s" + rest;
    if |x| >= |pat| {
      assert x[..|pat|][1] == 's';
      Clean.ReplaceMiss(x, pat, rep);
      assert x[1..] == "s" + rest;
      Clean.ReplaceAbsent("s" + rest, pat, rep, '\'');
    } else {
      assert Clean.ReplaceAll(x, pat, rep) == x;
    }
  }

  /** Each `!` is replaced by `" ! "`. */
  lemma BangRule(w: string, v: string, u: string)
    requires IsWord(w) && IsWord(v) && IsWord(u)
    ensures Clean.ReplaceAll(Clitic(w, v, u), Clean.CleanRules[7].pattern, Clean.CleanRules[7].replacement) == Spaced(w, v, u)
  {
    WordFacts(w);
    WordFacts(v);
    WordFacts(u);
    var p := Clean.CleanRules[7].pattern;
    var r := Clean.CleanRules[7].replacement;
    BangRuleIs();
    Clean.ReplacePrefix(w, " " + ("'s" + Tail(v, u)), p, r);
    Clean.ReplacePrefix(" ", "'s" + Tail(v, u), p, r);
    Clean.ReplacePrefix("'s", Tail(v, u), p, r);
    Clean.ReplacePrefix(" ", v + (" " + (u + "!!")), p, r);
    Clean.ReplacePrefix(v, " " + (u + "!!"), p, r);
    Clean.ReplacePrefix(" ", u + "!!", p, r);
    Clean.ReplacePrefix(u, "!!", p, r);
    BangsRule();
  }

  /** The `!!` of the sentence is two occurrences of the pattern of the `!` rule, and `Bangs` is its replacement twice. */
  lemma BangRuleIs()
    ensures Clean.CleanRules[7].pattern == "!"
    ensures Clean.CleanRules[7].replacement + Clean.CleanRules[7].replacement == Bangs
  {
  }

  lemma BangsRule()
    ensures Clean.ReplaceAll("!!", Clean.CleanRules[7].pattern, Clean.CleanRules[7].replacement) == Bangs
  {
    var p, r := Clean.CleanRules[7].pattern, Clean.CleanRules[7].replacement;
    BangRuleIs();
    assert "!!" == p + p && p == p + "";
    Clean.ReplaceHead(p, p, r);
    Clean.ReplaceHead(p, "", r);
  }

  /** A word, one whitespace character, then the rest: the word is the first field. */
  lemma SplitWord(x: string, rest: string)
    requires |x| > 0 && forall i :: 0 <= i < |x| ==> !Clean.IsWhitespace(x[i])
    ensures Fields.Split(x + (" " + rest), Clean.IsWhitespace) == [x] + Fields.Split(rest, Clean.IsWhitespace)
  {
    Fields.SplitField(x, " " + rest, Clean.IsWhitespace);
    Fields.SplitSkip(' ', rest, Clean.IsWhitespace);
  }

  lemma SpacedFields(w: string, v: string, u: string)
    requires IsWord(w) && IsWord(v) && IsWord(u)
    ensures Fields.Split(Spaced(w, v, u), Clean.IsWhitespace) == [w, "'s", v, u, "!", "!"]
  {
    NoBlank(w);
    NoBlank(v);
    NoBlank(u);
    var tail := v + (" " + (u + Bangs));
    WordsBangs(v, u);
    LeadFields(w, tail, [v, u, "!", "!"]);
    assert Spaced(w, v, u) == w + (" " + ("'s" + (" " + tail)));
    assert [w, "'s"] + [v, u, "!", "!"] == [w, "'s", v, u, "!", "!"];
  }

  /** A word and the clitic in front of text whose fields are known. */
  lemma LeadFields(w: string, tail: string, fs: seq<string>)
    requires |w| > 0 && forall i :: 0 <= i < |w| ==> !Clean.IsWhitespace(w[i])
    requires Fields.Split(tail, Clean.IsWhitespace) == fs
    ensures Fields.Split(w + (" " + ("'s" + (" " + tail))), Clean.IsWhitespace) == [w, "'s"] + fs
  {
    CliticFields("'s", tail, fs);
    CliticFields(w, "'s" + (" " + tail), ["'s"] + fs);
    assert [w] + (["'s"] + fs) == [w, "'s"] + fs;
  }

  lemma NoBlank(w: string)
    requires IsWord(w)
    ensures |w| > 0 && forall i :: 0 <= i < |w| ==> !Clean.IsWhitespace(w[i])
  {
  }

  /** A field, a space, then text whose fields are known. */
  lemma CliticFields(x: string, rest: string, fs: seq<string>)
    requires |x| > 0 && forall i :: 0 <= i < |x| ==> !Clean.IsWhitespace(x[i])
    requires Fields.Split(rest, Clean.IsWhitespace) == fs
    ensures Fields.Split(x + (" " + rest), Clean.IsWhitespace) == [x] + fs
  {
    SplitWord(x, rest);
  }

  /** Two words, then the padded `!`s. */
  lemma WordsBangs(v: string, u: string)
    requires |v| > 0 && forall i :: 0 <= i < |v| ==> !Clean.IsWhitespace(v[i])
    requires |u| > 0 && forall i :: 0 <= i < |u| ==> !Clean.IsWhitespace(u[i])
    ensures Fields.Split(v + (" " + (u + Bangs)), Clean.IsWhitespace) == [v, u, "!", "!"]
  {
    WordBangs(u);
    CliticFields(v, u + Bangs, [u, "!", "!"]);
  }

  /** A word followed by the padded `!`s: the word, then `!` twice. */
  lemma WordBangs(u: string)
    requires |u| > 0 && forall i :: 0 <= i < |u| ==> !Clean.IsWhitespace(u[i])
    ensures Fields.Split(u + Bangs, Clean.IsWhitespace) == [u, "!", "!"]
  {
    BangsShape();
    SplitWord(u, "!" + (" " + (" " + ("!" + (" " + "")))));
    BangsFields();
  }

  lemma BangsShape()
    ensures Bangs == " " + ("!" + (" " + (" " + ("!" + (" " + "")))))
  {
  }

  lemma BangsFields()
    ensures Fields.Split("!" + (" " + (" " + ("!" + (" " + "")))), Clean.IsWhitespace) == ["!", "!"]
  {
    SplitWord("!", " " + ("!" + (" " + "")));
    Fields.SplitSkip(' ', "!" + (" " + ""), Clean.IsWhitespace);
    SplitWord("!", "");
  }
}
