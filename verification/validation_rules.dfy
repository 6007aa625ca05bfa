/**
  Field-validation rules written as rule strings, as in
  `required|min:2|max:100`: a `|`-separated list of rules, each a name with
  an optional `:`-parameter. The validator library that interprets them is
  not part of this model; the meaning given here is the length reading of
  `required`, `min` and `max` on text fields, with the treatment of an empty
  value under rules other than `required` left open as a `BlankPolicy`.
 */
module ValidationRules {
  import opened Optional
  import Text
  import Decimal

  datatype Rule = Required | Min(size: nat) | Max(size: nat)

  /** Whether rules other than `required` are checked against an empty
      value (`CheckBlank`) or skipped for it (`SkipBlank`). */
  datatype BlankPolicy = CheckBlank | SkipBlank

  /** The rule string of the name field. */
  const NameRuleText: string := "required|min:2|max:100"

  /** The rule string of the url field; it has no `required`. */
  const UrlRuleText: string := "min:4|max:255"

  /** The rules the name field's rule string stands for. */
  const NameRules: seq<Rule> := [Required, Min(2), Max(100)]

  /** The rules the url field's rule string stands for. */
  const UrlRules: seq<Rule> := [Min(4), Max(255)]

  function RuleText(r: Rule): string
  {
    match r
    case Required => "required"
    case Min(n) => "min:" + Decimal.FromNat(n)
    case Max(n) => "max:" + Decimal.FromNat(n)
  }

  /** The rule string of a non-empty list of rules: the rules' texts
      separated by `|`. */
  function RulesText(rules: seq<Rule>): string
    requires |rules| >= 1
    decreases |rules|
  {
    if |rules| == 1 then RuleText(rules[0])
    else RuleText(rules[0]) + "|" + RulesText(rules[1..])
  }

  /** Reads one rule; an unknown name or a missing or non-numeric parameter
      is rejected. */
  function ParseRule(s: string): (r: Option<Rule>)
    ensures r.Some? && r.value.Required? ==> s == "required"
  {
    var cut := Text.SplitFirst(s, ':');
    var size := Decimal.ToNat(cut.1);
    if s == "required" then Some(Required)
    else if ':' in s && cut.0 == "min" && size.Some? then Some(Min(size.value))
    else if ':' in s && cut.0 == "max" && size.Some? then Some(Max(size.value))
    else None
  }

  /** Reads every part; fails as soon as one part is not a rule. */
  function ParseAll(parts: seq<string>): (r: Option<seq<Rule>>)
    ensures r.Some? ==> |r.value| == |parts|
    ensures r.Some? ==> forall i :: 0 <= i < |parts| ==> ParseRule(parts[i]) == Some(r.value[i])
    decreases |parts|
  {
    if |parts| == 0 then Some([])
    else
      match ParseRule(parts[0])
      case None => None
      case Some(rule) =>
        match ParseAll(parts[1..])
        case None => None
        case Some(rest) => Some([rule] + rest)
  }

  /** Reads a rule string. */
  function ParseRules(s: string): Option<seq<Rule>>
  {
    ParseAll(Text.Split(s, '|'))
  }

  /** Reading back `<name>:<decimal n>` gives the name and `n`. */
  lemma ParseSizedText(name: string, n: nat)
    requires ':' !in name
    ensures var s := name + ":" + Decimal.FromNat(n);
      && ':' in s
      && Text.SplitFirst(s, ':').0 == name
      && Decimal.ToNat(Text.SplitFirst(s, ':').1) == Some(n)
  {
    Text.SplitFirstCons(name, Decimal.FromNat(n), ':');
    assert (name + ":" + Decimal.FromNat(n))[|name|] == ':';
    Decimal.ToNatFromNat(n);
  }

  lemma ParseMinText(n: nat)
    ensures ParseRule(RuleText(Min(n))) == Some(Min(n))
  {
    var s := RuleText(Min(n));
    ParseSizedText("min", n);
    assert s == "min" + ":" + Decimal.FromNat(n);
    assert s[0] != "required"[0];
    assert s != "required";
  }

  lemma ParseMaxText(n: nat)
    ensures ParseRule(RuleText(Max(n))) == Some(Max(n))
  {
    var s := RuleText(Max(n));
    ParseSizedText("max", n);
    assert s == "max" + ":" + Decimal.FromNat(n);
    assert s[0] != "required"[0];
    assert s != "required";
  }

  /** Reading back the text of a rule gives the rule. */
  lemma ParseRuleText(r: Rule)
    ensures ParseRule(RuleText(r)) == Some(r)
  {
    match r
    case Required =>
    case Min(n) => ParseMinText(n);
    case Max(n) => ParseMaxText(n);
  }

  lemma RuleTextNoBar(r: Rule)
    ensures '|' !in RuleText(r)
  {
    match r
    case Required =>
    case Min(n) =>
      assert forall i :: 4 <= i < |RuleText(r)| ==> Decimal.IsDigit(RuleText(r)[i]);
    case Max(n) =>
      assert forall i :: 4 <= i < |RuleText(r)| ==> Decimal.IsDigit(RuleText(r)[i]);
  }

  /** Reading back the rule string of a non-empty list of rules gives the
      list. */
  lemma {:induction false} ParseRulesText(rules: seq<Rule>)
    requires |rules| >= 1
    ensures ParseRules(RulesText(rules)) == Some(rules)
    decreases |rules|
  {
    RuleTextNoBar(rules[0]);
    ParseRuleText(rules[0]);
    var head := RuleText(rules[0]);
    if |rules| == 1 {
      Text.SplitNoSep(head, '|');
      ParseAllCons(head, [], rules[0], []);
      assert [head] + [] == [head];
      assert rules == [rules[0]] + [];
    } else {
      var rest := RulesText(rules[1..]);
      ParseRulesText(rules[1..]);
      Text.SplitCons(head, rest, '|');
      ParseAllCons(head, Text.Split(rest, '|'), rules[0], rules[1..]);
      assert [rules[0]] + rules[1..] == rules;
    }
  }

  lemma ParseAllCons(part: string, parts: seq<string>, r: Rule, rules: seq<Rule>)
    requires ParseRule(part) == Some(r) && ParseAll(parts) == Some(rules)
    ensures ParseAll([part] + parts) == Some([r] + rules)
  {
    assert ([part] + parts)[1..] == parts;
  }

  predicate Blank(value: string)
  {
    |value| == 0
  }

  /** What one rule demands of a text value: presence, or a bound on its
      length. */
  predicate Holds(value: string, r: Rule)
  {
    match r
    case Required => !Blank(value)
    case Min(n) => |value| >= n
    case Max(n) => |value| <= n
  }

  /** Whether a rule is checked at all against `value`. */
  predicate Checked(value: string, r: Rule, policy: BlankPolicy)
  {
    r.Required? || !(policy.SkipBlank? && Blank(value))
  }

  /** A value passes its rules when every rule that is checked holds. */
  predicate Passes(value: string, rules: seq<Rule>, policy: BlankPolicy)
  {
    forall i :: 0 <= i < |rules| ==> Checked(value, rules[i], policy) ==> Holds(value, rules[i])
  }

  lemma SmallDecimals()
    ensures Decimal.FromNat(2) == "2" && Decimal.FromNat(4) == "4"
    ensures Decimal.FromNat(100) == "100" && Decimal.FromNat(255) == "255"
  {
    assert Decimal.FromNat(10) == "10";
    assert Decimal.FromNat(25) == "25";
  }

  lemma SizedRuleTexts()
    ensures RuleText(Min(2)) == "min:2" && RuleText(Max(100)) == "max:100"
    ensures RuleText(Min(4)) == "min:4" && RuleText(Max(255)) == "max:255"
  {
    SmallDecimals();
  }

  lemma NameRulesTail()
    ensures RulesText([Min(2), Max(100)]) == "min:2|max:100"
  {
    SizedRuleTexts();
    assert [Min(2), Max(100)][1..] == [Max(100)];
  }

  lemma NameRulesText()
    ensures RulesText(NameRules) == NameRuleText
  {
    NameRulesTail();
    assert NameRules[1..] == [Min(2), Max(100)];
  }

  lemma NameRuleTextMeaning()
    ensures ParseRules(NameRuleText) == Some(NameRules)
  {
    NameRulesText();
    ParseRulesText(NameRules);
  }

  lemma UrlRulesText()
    ensures RulesText(UrlRules) == UrlRuleText
  {
    SizedRuleTexts();
    assert UrlRules[1..] == [Max(255)];
  }

  lemma UrlRuleTextMeaning()
    ensures ParseRules(UrlRuleText) == Some(UrlRules)
  {
    UrlRulesText();
    ParseRulesText(UrlRules);
  }

  /** The name field is valid exactly when it holds 2 to 100 characters,
      whichever blank policy the validator follows. */
  function NameValid(name: string, policy: BlankPolicy): (ok: bool)
    ensures ok <==> 2 <= |name| <= 100
  {
    assert Checked(name, NameRules[0], policy);
    assert !Blank(name) ==> Checked(name, NameRules[1], policy) && Checked(name, NameRules[2], policy);
    Passes(name, NameRules, policy)
  }

  /** The url field is valid when it holds 4 to 255 characters; an empty url
      is valid too exactly when the validator skips blank values. */
  function UrlValid(url: string, policy: BlankPolicy): (ok: bool)
    ensures ok <==> (4 <= |url| <= 255 || (policy.SkipBlank? && url == ""))
  {
    assert !Blank(url) ==> Checked(url, UrlRules[0], policy) && Checked(url, UrlRules[1], policy);
    assert policy.CheckBlank? ==> Checked(url, UrlRules[0], policy);
    Passes(url, UrlRules, policy)
  }
}
