/** Applying an ordered list of rules to a text and counting the matches of each rule. */
module Transform {
  import opened Common
  import opened RuleFile

  /** The text after every rule has been applied, and one match count per rule. */
  datatype Transformed = Transformed(text: string, counts: seq<nat>)

  /** The engine takes the rule: its pattern compiles (for the count and the substitution)
      and its replacement parses as a template for that pattern. */
  predicate Accepted(e: Engine, rule: Rule)
  {
    e.compiles(rule.pattern) && e.acceptsReplacement(rule.pattern, rule.replacement)
  }

  /** The error a rule the engine does not take raises: the pattern is compiled first (by
      the count), so a bad pattern is reported before its replacement is looked at. */
  function Rejection(e: Engine, rule: Rule): (err: Error)
    ensures RuleError(err)
  {
    if !e.compiles(rule.pattern) then InvalidPattern(rule.pattern)
    else InvalidReplacement(rule.pattern, rule.replacement)
  }

  /** Rules 0..k-1 are all taken and rule k is not: rule k is where the engine fails. */
  predicate FirstInvalid(e: Engine, rules: seq<Rule>, k: nat)
  {
    k < |rules| && !Accepted(e, rules[k])
    && forall l :: 0 <= l < k ==> Accepted(e, rules[l])
  }

  /** The rules applied one after the other, left to right: each rule's count is taken on
      the text left by the rules before it, then that text is replaced by the substitution.
      The first rule whose pattern or replacement the engine rejects aborts the whole
      application. */
  function Apply(e: Engine, text: string, rules: seq<Rule>): (r: Result<Transformed>)
    ensures r.Ok? ==> |r.value.counts| == |rules|
    ensures r.Err? ==> RuleError(r.error)
    decreases |rules|
  {
    if rules == [] then Ok(Transformed(text, []))
    else
      var init, last := rules[..|rules| - 1], rules[|rules| - 1];
      match Apply(e, text, init)
      case Err(err) => Err(err)
      case Ok(t) =>
        if !Accepted(e, last) then
          Err(Rejection(e, last))
        else
          Ok(Transformed(e.substitute(last.pattern, last.replacement, t.text),
                         t.counts + [e.countMatches(last.pattern, t.text)]))
  }

  /** The application succeeds exactly when the engine takes every rule; otherwise the
      error names the first rule it does not take, and what it rejected in it. */
  lemma {:induction false} ApplyFailsAtFirstInvalid(e: Engine, text: string, rules: seq<Rule>)
    ensures Apply(e, text, rules).Ok? <==> forall k :: 0 <= k < |rules| ==> Accepted(e, rules[k])
    ensures Apply(e, text, rules).Err? ==>
      exists k: nat :: FirstInvalid(e, rules, k) && Apply(e, text, rules).error == Rejection(e, rules[k])
    decreases |rules|
  {
    if rules != [] {
      var init, last := rules[..|rules| - 1], rules[|rules| - 1];
      ApplyFailsAtFirstInvalid(e, text, init);
      assert forall k :: 0 <= k < |init| ==> init[k] == rules[k];
      match Apply(e, text, init)
      case Err(err) =>
        var k: nat :| FirstInvalid(e, init, k) && err == Rejection(e, init[k]);
        assert FirstInvalid(e, rules, k);
      case Ok(t) =>
        if !Accepted(e, last) {
          assert FirstInvalid(e, rules, |rules| - 1);
        }
    }
  }

  /** Applying no rules is the identity: the text comes back unchanged with no counts. */
  lemma ApplyNothing(e: Engine, text: string)
    ensures Apply(e, text, []) == Ok(Transformed(text, []))
  {
  }

  /** Applying `first + second` is applying `second` to the text `first` produced; the
      counts are the two count lists one after the other, and an error in `first` wins. */
  lemma {:induction false} ApplyAppend(e: Engine, text: string, first: seq<Rule>, second: seq<Rule>)
    ensures Apply(e, text, first + second) ==
      match Apply(e, text, first)
      case Err(err) => Err(err)
      case Ok(t) =>
        match Apply(e, t.text, second)
        case Err(err) => Err(err)
        case Ok(u) => Ok(Transformed(u.text, t.counts + u.counts))
    decreases |second|
  {
    if second == [] {
      assert first + second == first;
      match Apply(e, text, first)
      case Err(_) =>
      case Ok(t) => assert t.counts + [] == t.counts;
    } else {
      var init := second[..|second| - 1];
      assert (first + second)[..|first + second| - 1] == first + init;
      assert (first + second)[|first + second| - 1] == second[|second| - 1];
      ApplyAppend(e, text, first, init);
      match Apply(e, text, first)
      case Err(_) =>
      case Ok(t) =>
        match Apply(e, t.text, init)
        case Err(_) =>
        case Ok(u) =>
          assert t.counts + (u.counts + [e.countMatches(second[|second| - 1].pattern, u.text)])
              == (t.counts + u.counts) + [e.countMatches(second[|second| - 1].pattern, u.text)];
    }
  }

  /** A successful application ends with the last rule applied to what the others left. */
  lemma ApplyLast(e: Engine, text: string, rules: seq<Rule>)
    requires rules != [] && Apply(e, text, rules).Ok?
    ensures var init, last := rules[..|rules| - 1], rules[|rules| - 1];
      && Apply(e, text, init).Ok?
      && var t := Apply(e, text, init).value;
         Apply(e, text, rules).value
         == Transformed(e.substitute(last.pattern, last.replacement, t.text),
                        t.counts + [e.countMatches(last.pattern, t.text)])
  {
  }

  /** A successful application succeeded on every prefix of the rules, with the prefix's
      counts at the front of the whole list. */
  lemma ApplyPrefix(e: Engine, text: string, rules: seq<Rule>, j: nat)
    requires Apply(e, text, rules).Ok?
    requires j <= |rules|
    ensures Apply(e, text, rules[..j]).Ok?
    ensures Apply(e, text, rules[..j]).value.counts == Apply(e, text, rules).value.counts[..j]
  {
    var head, tail := rules[..j], rules[j..];
    assert rules == head + tail;
    ApplyAppend(e, text, head, tail);
  }

  /** Rule k sees the text the rules before it produced, not the original text: its count
      is taken on that text, and the text after it is the substitution on that text. */
  lemma RuleSeesPriorOutput(e: Engine, text: string, rules: seq<Rule>, k: nat)
    requires Apply(e, text, rules).Ok?
    requires k < |rules|
    ensures Apply(e, text, rules[..k]).Ok? && Apply(e, text, rules[..k + 1]).Ok?
    ensures var before := Apply(e, text, rules[..k]).value.text;
      && Apply(e, text, rules).value.counts[k] == e.countMatches(rules[k].pattern, before)
      && Apply(e, text, rules[..k + 1]).value.text
         == e.substitute(rules[k].pattern, rules[k].replacement, before)
  {
    var head := rules[..k + 1];
    ApplyPrefix(e, text, rules, k + 1);
    assert head[..k] == rules[..k] && head[k] == rules[k];
    ApplyLast(e, text, head);
  }

  /** `apply_rules_to_text`: walks the rules in order, recording each count on the current
      text before substituting, and stops at the first pattern (rejected by the count) or
      replacement (rejected by the substitution) the engine does not take. */
  method ApplyRulesToText(e: Engine, text: string, rules: seq<Rule>) returns (r: Result<Transformed>)
    ensures r == Apply(e, text, rules)
  {
    var current := text;
    var counts: seq<nat> := [];
    var i := 0;
    while i < |rules|
      invariant i <= |rules|
      invariant Apply(e, text, rules[..i]) == Ok(Transformed(current, counts))
    {
      var rule := rules[i];
      assert rules[..i + 1][..i] == rules[..i];
      if !e.compiles(rule.pattern) {
        ApplyAppend(e, text, rules[..i + 1], rules[i + 1..]);
        assert rules[..i + 1] + rules[i + 1..] == rules;
        return Err(InvalidPattern(rule.pattern));
      }
      var count := e.countMatches(rule.pattern, current);
      if !e.acceptsReplacement(rule.pattern, rule.replacement) {
        ApplyAppend(e, text, rules[..i + 1], rules[i + 1..]);
        assert rules[..i + 1] + rules[i + 1..] == rules;
        return Err(InvalidReplacement(rule.pattern, rule.replacement));
      }
      current := e.substitute(rule.pattern, rule.replacement, current);
      counts := counts + [count];
      i := i + 1;
    }
    assert rules[..i] == rules;
    r := Ok(Transformed(current, counts));
  }
}
