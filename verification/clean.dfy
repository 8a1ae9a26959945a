/**
 * `clean_str` and `clean_str_sst`: string normalisation by a fixed pipeline
 * of regular-expression substitutions. Every pattern in the pipeline is a
 * literal (or a character class), so each pass is modelled as a left-to-right
 * scan over the string.
 */
module Clean {
  import Fields

  /**
   * Python's notion of whitespace for `str` (`str.isspace()`, and `\s` in a
   * `str` pattern), by code point.
   */
  predicate IsWhitespace(c: char) {
    var n := c as int;
    || n == 0x20 || 0x09 <= n <= 0x0D || 0x1C <= n <= 0x1F || n == 0x85 || n == 0xA0
    || n == 0x1680 || 0x2000 <= n <= 0x200A || n == 0x2028 || n == 0x2029
    || n == 0x202F || n == 0x205F || n == 0x3000
  }

  predicate IsUpper(c: char) {
    'A' <= c <= 'Z'
  }

  /** Membership in the character class `[A-Za-z0-9(),!?'`]`. */
  predicate Allowed(c: char) {
    || IsUpper(c) || 'a' <= c <= 'z' || '0' <= c <= '9'
    || c == '(' || c == ')' || c == ',' || c == '!' || c == '?' || c == '\'' || c == '`'
  }

  /** A character that can occur in the output of `clean_str`. */
  predicate CleanChar(c: char) {
    Allowed(c) || c == ' ' || c == '\\'
  }

  ghost predicate AllClean(s: string) {
    forall i :: 0 <= i < |s| ==> CleanChar(s[i])
  }

  /** What is left of a cleaned string once its spacing is ignored: whitespace and backslashes. */
  predicate IsGap(c: char) {
    IsWhitespace(c) || c == '\\'
  }

  /** `s` with every character outside the allowed class dropped: the reference for the cleaners' content. */
  function KeepAllowed(s: string): (r: string)
    ensures forall i :: 0 <= i < |r| ==> Allowed(r[i])
    decreases |s|
  {
    if |s| == 0 then [] else (if Allowed(s[0]) then [s[0]] else []) + KeepAllowed(s[1..])
  }

  /** `re.sub(r"[^A-Za-z0-9(),!?\'\`]", " ", s)` */
  function BlankDisallowed(s: string): (r: string)
    ensures |r| == |s|
    ensures forall i :: 0 <= i < |s| ==> if Allowed(s[i]) then r[i] == s[i] else r[i] == ' '
    decreases |s|
  {
    if |s| == 0 then [] else [if Allowed(s[0]) then s[0] else ' '] + BlankDisallowed(s[1..])
  }

  /** `re.sub(pat, rep, s)` for a literal pattern: leftmost, non-overlapping occurrences, left to right. */
  function ReplaceAll(s: string, pat: string, rep: string): (r: string)
    requires |pat| > 0
    ensures forall i :: 0 <= i < |r| ==> r[i] in s || r[i] in rep
    decreases |s|
  {
    if |s| < |pat| then s
    else if s[..|pat|] == pat then rep + ReplaceAll(s[|pat|..], pat, rep)
    else [s[0]] + ReplaceAll(s[1..], pat, rep)
  }

  /** One substitution of the pipeline. */
  datatype Rule = Rule(pattern: string, replacement: string)

  /**
   * The substitutions of `clean_str` in order: a space before each clitic,
   * spaces around `,` and `!`, and spaces around `(`, `)` and `?` whose
   * replacement templates keep their backslash (Python leaves the unknown
   * template escapes `\(`, `\)`, `\?` as written).
   */
  const CleanRules: seq<Rule> := [
    Rule("'s", " 's"), Rule("'ve", " 've"), Rule("n't", " n't"), Rule("'re", " 're"),
    Rule("'d", " 'd"), Rule("'ll", " 'll"),
    Rule(",", " , "), Rule("!", " ! "),
    Rule("(", " \\( "), Rule(")", " \\) "), Rule("?", " \\? ")
  ]

  ghost predicate WellFormedRules(rules: seq<Rule>) {
    forall i :: 0 <= i < |rules| ==> |rules[i].pattern| > 0
  }

  function ApplyRules(s: string, rules: seq<Rule>): (r: string)
    requires WellFormedRules(rules)
    ensures forall i :: 0 <= i < |r| ==> r[i] in s || exists j :: 0 <= j < |rules| && r[i] in rules[j].replacement
    decreases |rules|
  {
    if |rules| == 0 then s else ApplyRules(ReplaceAll(s, rules[0].pattern, rules[0].replacement), rules[1..])
  }

  /**
   * `re.sub(r"\s{2,}", " ", s)`: every run of two or more whitespace
   * characters becomes one space; a lone whitespace character is kept as is.
   * Replacing the first two characters of a run by a space and rescanning
   * reaches the same result as replacing the whole run.
   */
  function Collapse(s: string): (r: string)
    ensures |r| <= |s|
    ensures |r| > 0 <==> |s| > 0
    ensures |s| > 0 ==> (IsWhitespace(r[0]) <==> IsWhitespace(s[0]))
    ensures forall i :: 0 <= i < |r| - 1 ==> !(IsWhitespace(r[i]) && IsWhitespace(r[i + 1]))
    ensures forall i :: 0 <= i < |r| ==> r[i] in s || r[i] == ' '
    decreases |s|
  {
    if |s| == 0 then []
    else if |s| >= 2 && IsWhitespace(s[0]) && IsWhitespace(s[1]) then Collapse([' '] + s[2..])
    else [s[0]] + Collapse(s[1..])
  }

  /** Where `s.strip()` starts: the length of the leading whitespace run. */
  function StripStart(s: string): (a: nat)
    ensures a <= |s|
    ensures forall i :: 0 <= i < a ==> IsWhitespace(s[i])
    ensures a < |s| ==> !IsWhitespace(s[a])
    decreases |s|
  {
    if |s| > 0 && IsWhitespace(s[0]) then 1 + StripStart(s[1..]) else 0
  }

  /** Where `s.strip()` ends, given where it starts: just past the last non-whitespace character. */
  function StripEnd(s: string, a: nat, b: nat): (e: nat)
    requires a <= b <= |s|
    requires forall i :: b <= i < |s| ==> IsWhitespace(s[i])
    ensures a <= e <= b
    ensures forall i :: e <= i < |s| ==> IsWhitespace(s[i])
    ensures e > a ==> !IsWhitespace(s[e - 1])
    decreases b
  {
    if b > a && IsWhitespace(s[b - 1]) then StripEnd(s, a, b - 1) else b
  }

  /** `s.strip()`: `s` without its leading and trailing whitespace. */
  function Strip(s: string): (r: string)
    ensures |r| > 0 ==> !IsWhitespace(r[0]) && !IsWhitespace(r[|r| - 1])
    ensures exists a, b :: (0 <= a <= b <= |s| && r == s[a..b]
      && Fields.AllWhitespace(s[..a], IsWhitespace) && Fields.AllWhitespace(s[b..], IsWhitespace))
  {
    var a := StripStart(s);
    s[a..StripEnd(s, a, |s|)]
  }

  /** Stripping keeps every remaining character and never puts two whitespace characters side by side. */
  lemma StripKeeps(s: string)
    ensures forall i :: 0 <= i < |Strip(s)| ==> Strip(s)[i] in s
    ensures Fields.NoAdjacent(s, IsWhitespace) ==> Fields.NoAdjacent(Strip(s), IsWhitespace)
  {
    var a := StripStart(s);
    var r := Strip(s);
    forall i | 0 <= i < |r| ensures r[i] in s && r[i] == s[a + i] {
    }
  }


  function LowerChar(c: char): char {
    if IsUpper(c) then (c as int + 32) as char else c
  }

  /** `s.lower()` for ASCII letters; every other character is kept. */
  function Lower(s: string): (r: string)
    ensures |r| == |s|
    ensures forall i :: 0 <= i < |s| ==> r[i] == LowerChar(s[i])
    decreases |s|
  {
    if |s| == 0 then [] else [LowerChar(s[0])] + Lower(s[1..])
  }

  /** `clean_str(string, TREC)` */
  function CleanStr(s: string, trec: bool): (r: string)
    ensures Fields.SingleSpaced(r, IsWhitespace)
    ensures AllClean(r)
    ensures !trec ==> forall i :: 0 <= i < |r| ==> !IsUpper(r[i])
  {
    CleanRulesClean();
    var t := Strip(Collapse(ApplyRules(BlankDisallowed(s), CleanRules)));
    PipelineClean(s, CleanRules);
    if trec then t else LowerKeeps(t); Lower(t)
  }

  lemma PipelineClean(s: string, rules: seq<Rule>)
    requires WellFormedRules(rules)
    requires forall i :: 0 <= i < |rules| ==> AllClean(rules[i].replacement)
    ensures AllClean(Strip(Collapse(ApplyRules(BlankDisallowed(s), rules))))
    ensures Fields.SingleSpaced(Strip(Collapse(ApplyRules(BlankDisallowed(s), rules))), IsWhitespace)
  {
    ApplyRulesClean(BlankDisallowed(s), rules);
    FinishClean(ApplyRules(BlankDisallowed(s), rules));
  }

  /** `clean_str_sst(string)` */
  function CleanStrSst(s: string): (r: string)
    ensures Fields.SingleSpaced(r, IsWhitespace)
    ensures forall i :: 0 <= i < |r| ==> Allowed(r[i]) || r[i] == ' '
    ensures forall i :: 0 <= i < |r| ==> !IsUpper(r[i])
  {
    var t := Strip(Collapse(BlankDisallowed(s)));
    SstPipelineClean(s);
    LowerKeeps(t);
    Lower(t)
  }

  /** Allowed characters and plain spaces only: what `clean_str_sst` can emit. */
  ghost predicate AllowedOrSpace(s: string) {
    forall i :: 0 <= i < |s| ==> Allowed(s[i]) || s[i] == ' '
  }

  lemma SstPipelineClean(s: string)
    ensures AllowedOrSpace(Strip(Collapse(BlankDisallowed(s))))
    ensures Fields.SingleSpaced(Strip(Collapse(BlankDisallowed(s))), IsWhitespace)
  {
    var blanked := BlankDisallowed(s);
    var c := Collapse(blanked);
    FinishClean(blanked);
    StripKeeps(c);
    var t := Strip(c);
    forall i | 0 <= i < |t| ensures Allowed(t[i]) || t[i] == ' ' {
      assert t[i] in c;
    }
  }

  /** Lowercasing keeps the spacing and the character class and removes every upper-case letter. */
  lemma LowerKeeps(s: string)
    ensures Fields.SingleSpaced(s, IsWhitespace) ==> Fields.SingleSpaced(Lower(s), IsWhitespace)
    ensures AllClean(s) ==> AllClean(Lower(s))
    ensures AllowedOrSpace(s) ==> AllowedOrSpace(Lower(s))
    ensures forall i :: 0 <= i < |s| ==> !IsUpper(Lower(s)[i])
  {
    var r := Lower(s);
    forall i | 0 <= i < |s|
      ensures IsWhitespace(r[i]) == IsWhitespace(s[i]) && !IsUpper(r[i])
      ensures CleanChar(s[i]) ==> CleanChar(r[i])
      ensures Allowed(s[i]) || s[i] == ' ' ==> Allowed(r[i]) || r[i] == ' '
    {
      LowerCharWhitespace(s[i]);
    }
  }

  /** Every replacement of the pipeline is made of characters the cleaners may emit. */
  lemma CleanRulesClean()
    ensures WellFormedRules(CleanRules)
    ensures forall i :: 0 <= i < |CleanRules| ==> AllClean(CleanRules[i].replacement)
  {
  }

  lemma {:induction false} ApplyRulesClean(s: string, rules: seq<Rule>)
    requires WellFormedRules(rules)
    requires forall i :: 0 <= i < |rules| ==> AllClean(rules[i].replacement)
    requires AllClean(s)
    ensures AllClean(ApplyRules(s, rules))
    decreases |rules|
  {
    if |rules| > 0 {
      var t := ReplaceAll(s, rules[0].pattern, rules[0].replacement);
      assert AllClean(t) by {
        forall i | 0 <= i < |t| ensures CleanChar(t[i]) {
          assert t[i] in s || t[i] in rules[0].replacement;
        }
      }
      ApplyRulesClean(t, rules[1..]);
    }
  }

  /** The closing steps (collapse, strip) of a pipeline keep the characters clean and leave the text single-spaced. */
  lemma FinishClean(spaced: string)
    requires AllClean(spaced)
    ensures AllClean(Strip(Collapse(spaced)))
    ensures Fields.SingleSpaced(Strip(Collapse(spaced)), IsWhitespace)
  {
    var c := Collapse(spaced);
    StripKeeps(c);
    var t := Strip(c);
    forall i | 0 <= i < |t| ensures CleanChar(t[i]) {
      assert t[i] in c;
    }
  }

  lemma LowerCharWhitespace(c: char)
    ensures IsWhitespace(LowerChar(c)) == IsWhitespace(c)
    ensures !IsUpper(LowerChar(c))
    ensures CleanChar(c) ==> CleanChar(LowerChar(c))
    ensures Allowed(c) ==> Allowed(LowerChar(c))
  {
  }

  // What the cleaners keep: ignoring whitespace and backslashes, the output
  // is the input restricted to the allowed class (lowercased where asked).

  /** Deleting whitespace and backslashes from a `clean_str` result gives the allowed characters of the input. */
  lemma CleanStrKeepsContent(s: string, trec: bool)
    ensures Fields.Unspaced(CleanStr(s, trec), IsGap) == if trec then KeepAllowed(s) else Lower(KeepAllowed(s))
  {
    CleanRulesClean();
    CleanRulesBalanced();
    var blanked := BlankDisallowed(s);
    BlankDisallowedContent(s);
    ApplyRulesContent(blanked, CleanRules);
    var spaced := ApplyRules(blanked, CleanRules);
    CollapseContent(spaced);
    StripContent(Collapse(spaced));
    if !trec {
      LowerContent(Strip(Collapse(spaced)));
    }
  }

  /** Deleting the spaces from a `clean_str_sst` result gives the allowed characters of the input, lowercased. */
  lemma CleanStrSstKeepsContent(s: string)
    ensures Fields.Unspaced(CleanStrSst(s), IsWhitespace) == Lower(KeepAllowed(s))
  {
    var blanked := BlankDisallowed(s);
    var t := Strip(Collapse(blanked));
    assert CleanStrSst(s) == Lower(t);
    BlankDisallowedContent(s);
    NoBackslashUnspaced(blanked);
    CollapseContent(blanked);
    StripContent(Collapse(blanked));
    LowerContent(t);
  }

  /** A rule whose pattern and replacement agree once whitespace and backslashes are ignored. */
  ghost predicate Balanced(rule: Rule) {
    Fields.Unspaced(rule.pattern, IsGap) == Fields.Unspaced(rule.replacement, IsGap)
  }

  lemma CleanRulesBalanced()
    ensures forall i :: 0 <= i < |CleanRules| ==> Balanced(CleanRules[i])
  {
    forall i | 0 <= i < |CleanRules| ensures Balanced(CleanRules[i]) {
      var rule := CleanRules[i];
      var p, q := rule.pattern, rule.replacement;
      assert q == [' '] + p || q == [' ', '\\'] + p + [' '] || q == [' '] + p + [' '];
      Fields.UnspacedAppend([' '], p, IsGap);
      Fields.UnspacedAppend([' ', '\\'], p, IsGap);
      Fields.UnspacedAppend([' '], p, IsGap);
      Fields.UnspacedAppend([' '] + p, [' '], IsGap);
      Fields.UnspacedAppend([' ', '\\'] + p, [' '], IsGap);
      assert Fields.Unspaced([' '], IsGap) == [];
      assert Fields.Unspaced([' ', '\\'], IsGap) == [];
    }
  }

  lemma {:induction false} BlankDisallowedContent(s: string)
    ensures Fields.Unspaced(BlankDisallowed(s), IsGap) == KeepAllowed(s)
    decreases |s|
  {
    if |s| > 0 {
      BlankDisallowedContent(s[1..]);
      assert BlankDisallowed(s)[1..] == BlankDisallowed(s[1..]);
    }
  }

  lemma {:induction false} ReplaceAllContent(s: string, rule: Rule)
    requires |rule.pattern| > 0 && Balanced(rule)
    ensures Fields.Unspaced(ReplaceAll(s, rule.pattern, rule.replacement), IsGap) == Fields.Unspaced(s, IsGap)
    decreases |s|
  {
    var pat, rep := rule.pattern, rule.replacement;
    if |s| >= |pat| {
      if s[..|pat|] == pat {
        ReplaceAllContent(s[|pat|..], rule);
        Fields.UnspacedAppend(rep, ReplaceAll(s[|pat|..], pat, rep), IsGap);
        assert s == pat + s[|pat|..];
        Fields.UnspacedAppend(pat, s[|pat|..], IsGap);
      } else {
        ReplaceAllContent(s[1..], rule);
        Fields.UnspacedAppend([s[0]], ReplaceAll(s[1..], pat, rep), IsGap);
        assert s == [s[0]] + s[1..];
        Fields.UnspacedAppend([s[0]], s[1..], IsGap);
      }
    }
  }

  lemma {:induction false} ApplyRulesContent(s: string, rules: seq<Rule>)
    requires WellFormedRules(rules)
    requires forall i :: 0 <= i < |rules| ==> Balanced(rules[i])
    ensures Fields.Unspaced(ApplyRules(s, rules), IsGap) == Fields.Unspaced(s, IsGap)
    decreases |rules|
  {
    if |rules| > 0 {
      ReplaceAllContent(s, rules[0]);
      ApplyRulesContent(ReplaceAll(s, rules[0].pattern, rules[0].replacement), rules[1..]);
    }
  }

  lemma {:induction false} CollapseContent(s: string)
    ensures Fields.Unspaced(Collapse(s), IsGap) == Fields.Unspaced(s, IsGap)
    ensures Fields.Unspaced(Collapse(s), IsWhitespace) == Fields.Unspaced(s, IsWhitespace)
    decreases |s|
  {
    if |s| >= 2 && IsWhitespace(s[0]) && IsWhitespace(s[1]) {
      var t := [' '] + s[2..];
      CollapseContent(t);
      assert t[1..] == s[2..];
      assert s[1..][1..] == s[2..];
    } else if |s| > 0 {
      CollapseContent(s[1..]);
      assert Collapse(s)[1..] == Collapse(s[1..]);
    }
  }

  lemma StripContent(s: string)
    ensures Fields.Unspaced(Strip(s), IsGap) == Fields.Unspaced(s, IsGap)
    ensures Fields.Unspaced(Strip(s), IsWhitespace) == Fields.Unspaced(s, IsWhitespace)
  {
    var a := StripStart(s);
    var b := StripEnd(s, a, |s|);
    Fields.UnspacedSlice(s, a, b, IsWhitespace);
    assert forall i :: 0 <= i < a ==> IsGap(s[i]);
    assert forall i :: b <= i < |s| ==> IsGap(s[i]);
    Fields.UnspacedSlice(s, a, b, IsGap);
  }


  lemma {:induction false} LowerContent(s: string)
    ensures Fields.Unspaced(Lower(s), IsGap) == Lower(Fields.Unspaced(s, IsGap))
    ensures Fields.Unspaced(Lower(s), IsWhitespace) == Lower(Fields.Unspaced(s, IsWhitespace))
    decreases |s|
  {
    if |s| > 0 {
      LowerContent(s[1..]);
      LowerCharWhitespace(s[0]);
      assert Lower(s)[1..] == Lower(s[1..]);
      var u := if IsGap(s[0]) then [] else [s[0]];
      LowerAppend(u, Fields.Unspaced(s[1..], IsGap));
      var v := if IsWhitespace(s[0]) then [] else [s[0]];
      LowerAppend(v, Fields.Unspaced(s[1..], IsWhitespace));
    }
  }

  lemma LowerAppend(a: string, b: string)
    ensures Lower(a + b) == Lower(a) + Lower(b)
  {
  }

  lemma {:induction false} NoBackslashUnspaced(s: string)
    requires forall i :: 0 <= i < |s| ==> s[i] != '\\'
    ensures Fields.Unspaced(s, IsGap) == Fields.Unspaced(s, IsWhitespace)
    decreases |s|
  {
    if |s| > 0 {
      NoBackslashUnspaced(s[1..]);
    }
  }

  // What the cleaners do to the words: `split()` of the result.

  /**
   * `re.sub(r"\s{2,}", " ", s)` read run by run: a maximal whitespace run of
   * two or more characters becomes one space, and a lone whitespace
   * character stays as it is.
   */
  lemma {:induction false} CollapseRun(run: string, rest: string)
    requires |run| > 0 && Fields.AllWhitespace(run, IsWhitespace)
    requires !(|rest| > 0 && IsWhitespace(rest[0]))
    ensures Collapse(run + rest) == (if |run| == 1 then run else " ") + Collapse(rest)
    decreases |run|
  {
    var s := run + rest;
    if |run| == 1 {
      assert s == [run[0]] + rest && s[1..] == rest;
      if |rest| > 0 {
        assert s[1] == rest[0];
      }
    } else {
      var t := " " + run[2..];
      assert s[0] == run[0] && s[1] == run[1];
      assert [' '] + s[2..] == t + rest;
      CollapseRun(t, rest);
    }
  }

  /** Any character other than whitespace passes through the collapse unchanged. */
  lemma CollapseOther(c: char, rest: string)
    requires !IsWhitespace(c)
    ensures Collapse([c] + rest) == [c] + Collapse(rest)
  {
    assert ([c] + rest)[1..] == rest;
  }

  /** Collapsing whitespace runs keeps the words: the fields of the result are those of the input. */
  lemma {:induction false} CollapseFields(s: string)
    ensures Fields.Split(Collapse(s), IsWhitespace) == Fields.Split(s, IsWhitespace)
    decreases |s|
  {
    if |s| >= 2 && IsWhitespace(s[0]) && IsWhitespace(s[1]) {
      CollapseFields([' '] + s[2..]);
      CollapseFieldsPair(s);
    } else if |s| > 0 {
      CollapseFields(s[1..]);
      CollapseFieldsHead(s);
    }
  }

  /** Two leading whitespace characters become one space, which `split()` drops like them. */
  lemma CollapseFieldsPair(s: string)
    requires |s| >= 2 && IsWhitespace(s[0]) && IsWhitespace(s[1])
    requires Fields.Split(Collapse([' '] + s[2..]), IsWhitespace) == Fields.Split([' '] + s[2..], IsWhitespace)
    ensures Fields.Split(Collapse(s), IsWhitespace) == Fields.Split(s, IsWhitespace)
  {
    Fields.SplitSkip(' ', s[2..], IsWhitespace);
    assert s == [s[0]] + s[1..] && s[1..] == [s[1]] + s[2..];
    Fields.SplitSkip(s[0], s[1..], IsWhitespace);
    Fields.SplitSkip(s[1], s[2..], IsWhitespace);
  }

  /** Any other first character is kept in front of the collapsed rest. */
  lemma CollapseFieldsHead(s: string)
    requires |s| > 0 && !(|s| >= 2 && IsWhitespace(s[0]) && IsWhitespace(s[1]))
    requires Fields.Split(Collapse(s[1..]), IsWhitespace) == Fields.Split(s[1..], IsWhitespace)
    ensures Fields.Split(Collapse(s), IsWhitespace) == Fields.Split(s, IsWhitespace)
  {
    assert s == [s[0]] + s[1..];
    Fields.SplitCongruent(s[0], Collapse(s[1..]), s[1..], IsWhitespace);
  }

  /** Stripping keeps the words: the fields of the result are those of the input. */
  lemma StripFields(s: string)
    ensures Fields.Split(Strip(s), IsWhitespace) == Fields.Split(s, IsWhitespace)
  {
    var a := StripStart(s);
    var b := StripEnd(s, a, |s|);
    Fields.SliceParts(s, a, b);
    assert Fields.AllWhitespace(s[..a], IsWhitespace);
    assert Fields.AllWhitespace(s[b..], IsWhitespace);
    Fields.SplitSurround(s[..a], s[a..b], s[b..], IsWhitespace);
  }

  /** Every field lowercased. */
  function LowerFields(fs: seq<string>): (r: seq<string>)
    ensures |r| == |fs|
    ensures forall i :: 0 <= i < |fs| ==> r[i] == Lower(fs[i])
    decreases |fs|
  {
    if |fs| == 0 then [] else [Lower(fs[0])] + LowerFields(fs[1..])
  }

  lemma LowerFieldsCons(f: string, fs: seq<string>)
    ensures LowerFields([f] + fs) == [Lower(f)] + LowerFields(fs)
  {
    assert ([f] + fs)[1..] == fs;
  }

  /** Lowercasing keeps the word boundaries: the fields of the result are the input's fields, lowercased. */
  lemma {:induction false} LowerFieldsAgree(t: string)
    ensures Fields.Split(Lower(t), IsWhitespace) == LowerFields(Fields.Split(t, IsWhitespace))
    decreases |t|
  {
    if |t| > 0 {
      var x, rest := t[0], t[1..];
      LowerFieldsAgree(rest);
      LowerFieldsStep(x, rest);
      assert [x] + rest == t;
    }
  }

  /** One more character in front, lowercased or not, changes the fields alike. */
  lemma LowerFieldsStep(x: char, rest: string)
    requires Fields.Split(Lower(rest), IsWhitespace) == LowerFields(Fields.Split(rest, IsWhitespace))
    ensures Fields.Split(Lower([x] + rest), IsWhitespace) == LowerFields(Fields.Split([x] + rest, IsWhitespace))
  {
    var y := LowerChar(x);
    LowerAppend([x], rest);
    assert Lower([x] + rest) == [y] + Lower(rest);
    LowerCharWhitespace(x);
    if |rest| > 0 {
      LowerCharWhitespace(rest[0]);
    }
    assert Fields.StartsField(Lower(rest), IsWhitespace) == Fields.StartsField(rest, IsWhitespace);
    Fields.SplitCons(x, rest, IsWhitespace);
    Fields.SplitCons(y, Lower(rest), IsWhitespace);
    var f := Fields.Split(rest, IsWhitespace);
    if !IsWhitespace(x) && !Fields.StartsField(rest, IsWhitespace) {
      LowerFieldsCons([x], f);
    } else if !IsWhitespace(x) {
      LowerAppend([x], f[0]);
      assert f == [f[0]] + f[1..];
      LowerFieldsCons(f[0], f[1..]);
      LowerFieldsCons([x] + f[0], f[1..]);
    }
  }

  /** The complement of the allowed class: what `clean_str_sst` treats as a separator. */
  predicate Disallowed(c: char) {
    !Allowed(c)
  }

  /** Blanking the disallowed characters turns them into word separators and nothing else. */
  lemma BlankFields(s: string)
    ensures Fields.Split(BlankDisallowed(s), IsWhitespace) == Fields.Split(s, Disallowed)
  {
    var t := BlankDisallowed(s);
    forall i | 0 <= i < |s| ensures IsWhitespace(t[i]) == Disallowed(s[i]) {
    }
    Fields.SplitSeparators(s, t, Disallowed, IsWhitespace);
  }

  /**
   * The words of `clean_str_sst(s)` are the maximal runs of allowed
   * characters of `s`, lowercased: every other character only separates.
   */
  lemma CleanStrSstFields(s: string)
    ensures Fields.Split(CleanStrSst(s), IsWhitespace) == LowerFields(Fields.Split(s, Disallowed))
  {
    var blanked := BlankDisallowed(s);
    var t := Strip(Collapse(blanked));
    assert CleanStrSst(s) == Lower(t);
    LowerFieldsAgree(t);
    StripFields(Collapse(blanked));
    CollapseFields(blanked);
    BlankFields(s);
  }

  // `clean_str` against `clean_str_sst`, and a worked example.

  /** A pattern with a character that does not occur in `s` leaves `s` as it is. */
  lemma {:induction false} ReplaceAbsent(s: string, pat: string, rep: string, c: char)
    requires |pat| > 0 && c in pat && c !in s
    ensures ReplaceAll(s, pat, rep) == s
    decreases |s|
  {
    if |s| >= |pat| {
      assert s == [s[0]] + s[1..];
      ReplaceAbsent(s[1..], pat, rep, c);
    }
  }

  /** No occurrence can start inside a prefix that lacks the pattern's first character. */
  lemma {:induction false} ReplacePrefix(a: string, x: string, pat: string, rep: string)
    requires |pat| > 0 && pat[0] !in a
    ensures ReplaceAll(a + x, pat, rep) == a + ReplaceAll(x, pat, rep)
    decreases |a|
  {
    var s := a + x;
    if |a| == 0 {
      assert s == x;
    } else if |s| < |pat| {
      assert ReplaceAll(x, pat, rep) == x;
    } else {
      assert s[..|pat|][0] == a[0];
      assert s[1..] == a[1..] + x;
      ReplacePrefix(a[1..], x, pat, rep);
      assert a == [a[0]] + a[1..];
    }
  }

  /** An occurrence at the front is replaced, and the scan goes on behind it. */
  lemma ReplaceHead(pat: string, b: string, rep: string)
    requires |pat| > 0
    ensures ReplaceAll(pat + b, pat, rep) == rep + ReplaceAll(b, pat, rep)
  {
    assert (pat + b)[..|pat|] == pat && (pat + b)[|pat|..] == b;
  }

  /** The characters that every pattern of `clean_str` contains one of. */
  const RuleMarks: string := "',!()?"

  /** `p` holds a character of `marks`. */
  ghost predicate MarkedBy(p: string, marks: string) {
    exists j :: 0 <= j < |p| && p[j] in marks
  }

  /** Rules each of whose patterns holds a character of `marks` change no text free of `marks`. */
  lemma {:induction false} ApplyRulesUntouched(t: string, rules: seq<Rule>, marks: string)
    requires WellFormedRules(rules)
    requires forall i :: 0 <= i < |rules| ==> MarkedBy(rules[i].pattern, marks)
    requires forall i :: 0 <= i < |t| ==> t[i] !in marks
    ensures ApplyRules(t, rules) == t
    decreases |rules|
  {
    if |rules| > 0 {
      var p := rules[0].pattern;
      var j :| 0 <= j < |p| && p[j] in marks;
      ReplaceAbsent(t, p, rules[0].replacement, p[j]);
      assert forall i :: 0 <= i < |rules| - 1 ==> rules[1..][i] == rules[i + 1];
      ApplyRulesUntouched(t, rules[1..], marks);
    }
  }

  lemma CleanRulesMarked()
    ensures forall i :: 0 <= i < |CleanRules| ==> MarkedBy(CleanRules[i].pattern, RuleMarks)
    ensures ' ' !in RuleMarks
  {
    var m := RuleMarks;
    assert m[0] == '\'' && m[1] == ',' && m[2] == '!' && m[3] == '(' && m[4] == ')' && m[5] == '?';
    assert "'s"[0] == m[0] && "'ve"[0] == m[0] && "n't"[1] == m[0] && "'re"[0] == m[0];
    assert "'d"[0] == m[0] && "'ll"[0] == m[0];
    assert ","[0] == m[1] && "!"[0] == m[2] && "("[0] == m[3] && ")"[0] == m[4] && "?"[0] == m[5];
  }

  /**
   * Without apostrophes, commas, `!`, `(`, `)` and `?` the substitutions of
   * `clean_str` find nothing, so it agrees with `clean_str_sst`, and its
   * words are the runs of allowed characters of the input, lowercased.
   */
  lemma CleanStrMatchesSst(s: string)
    requires forall i :: 0 <= i < |s| ==> s[i] !in RuleMarks
    ensures CleanStr(s, false) == CleanStrSst(s)
    ensures Fields.Split(CleanStr(s, false), IsWhitespace) == LowerFields(Fields.Split(s, Disallowed))
  {
    UnmarkedUntouched(s);
    CleanStrSstFields(s);
  }

  /** Without marks, the substitutions of `clean_str` leave the blanked text as it is. */
  lemma UnmarkedUntouched(s: string)
    requires forall i :: 0 <= i < |s| ==> s[i] !in RuleMarks
    ensures WellFormedRules(CleanRules)
    ensures ApplyRules(BlankDisallowed(s), CleanRules) == BlankDisallowed(s)
  {
    CleanRulesClean();
    CleanRulesMarked();
    BlankUnmarked(s, RuleMarks);
    ApplyRulesUntouched(BlankDisallowed(s), CleanRules, RuleMarks);
  }

  /** Blanking adds only spaces, so it adds no mark other than a space. */
  lemma BlankUnmarked(s: string, marks: string)
    requires ' ' !in marks
    requires forall i :: 0 <= i < |s| ==> s[i] !in marks
    ensures forall i :: 0 <= i < |BlankDisallowed(s)| ==> BlankDisallowed(s)[i] !in marks
  {
    var b := BlankDisallowed(s);
    forall i | 0 <= i < |b| ensures b[i] !in marks {
      assert b[i] == s[i] || b[i] == ' ';
    }
  }

  /** A scan step at a place where the pattern does not start: the character is kept. */
  lemma ReplaceMiss(s: string, pat: string, rep: string)
    requires |pat| > 0 && |s| >= |pat| && s[..|pat|] != pat
    ensures ReplaceAll(s, pat, rep) == [s[0]] + ReplaceAll(s[1..], pat, rep)
  {
  }

  /**
   * No occurrence can start inside a prefix that lacks the pattern's second
   * character and does not end with its first.
   */
  lemma {:induction false} ReplacePrefixPair(x: string, y: string, pat: string, rep: string)
    requires |pat| >= 2 && pat[1] !in x && (|x| > 0 ==> x[|x| - 1] != pat[0])
    ensures ReplaceAll(x + y, pat, rep) == x + ReplaceAll(y, pat, rep)
    decreases |x|
  {
    if |x| == 0 {
      assert x + y == y;
    } else {
      ReplacePrefixPair(x[1..], y, pat, rep);
      ReplacePairStep(x, y, pat, rep);
    }
  }

  /** One scan step inside such a prefix keeps its first character. */
  lemma ReplacePairStep(x: string, y: string, pat: string, rep: string)
    requires |pat| >= 2 && |x| > 0 && pat[1] !in x && x[|x| - 1] != pat[0]
    requires ReplaceAll(x[1..] + y, pat, rep) == x[1..] + ReplaceAll(y, pat, rep)
    ensures ReplaceAll(x + y, pat, rep) == x + ReplaceAll(y, pat, rep)
  {
    var s := x + y;
    assert x == [x[0]] + x[1..];
    if |s| < |pat| {
      assert ReplaceAll(y, pat, rep) == y;
    } else {
      if |x| >= 2 {
        assert s[..|pat|][1] == x[1];
      } else {
        assert s[..|pat|][0] == x[0];
      }
      assert s[1..] == x[1..] + y;
    }
  }

  /** A text of allowed characters and spaces is left as it is by the first substitution. */
  lemma BlankKeeps(s: string)
    requires AllowedOrSpace(s)
    ensures BlankDisallowed(s) == s
  {
  }
}
