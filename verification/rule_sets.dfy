/** One rule set of a property (FilterContextImpl.get): a JSON object whose
  members are attribute tests, AND-ed in member order.  A value written
  `regex(<pattern>)` becomes a regex-find test on `<pattern>`; any other
  value an exact-equality test.
 */
module RuleSets {
  import opened Wrappers
  import opened Strings
  import opened Json
  import opened Predicates

  const RegexPrefix: string := "regex("
  const RegexSuffix: string := ")"

  predicate IsRegex(v: string) {
    StartsWith(v, RegexPrefix) && EndsWith(v, RegexSuffix)
  }

  /** The pattern inside the `regex(...)` tag. */
  function StripRegex(v: string): (p: string)
    requires IsRegex(v)
    ensures RegexPrefix + p + RegexSuffix == v
  {
    assert v[..6][5] == '(';
    assert v[|v| - 1..][0] == ')';
    var p := v[|RegexPrefix|..|v| - |RegexSuffix|];
    assert v == v[..6] + p + v[|v| - 1..];
    p
  }

  /** A value is a regex exactly when it is some pattern wrapped in the tag. */
  lemma IsRegexIffWrapped(v: string)
    ensures IsRegex(v) <==> exists p :: v == RegexPrefix + p + RegexSuffix
  {
    if exists p :: v == RegexPrefix + p + RegexSuffix {
      var p :| v == RegexPrefix + p + RegexSuffix;
      assert v[..|RegexPrefix|] == RegexPrefix;
      assert v[|v| - 1..] == RegexSuffix;
    }
    if IsRegex(v) {
      var p := StripRegex(v);
      assert v == RegexPrefix + p + RegexSuffix;
    }
  }

  /** Wrapping a pattern and stripping it again gives the pattern back. */
  lemma StripRegexOfWrapped(p: string)
    ensures IsRegex(RegexPrefix + p + RegexSuffix)
    ensures StripRegex(RegexPrefix + p + RegexSuffix) == p
  {
    var v := RegexPrefix + p + RegexSuffix;
    IsRegexIffWrapped(v);
    var q := StripRegex(v);
    assert RegexPrefix + q + RegexSuffix == RegexPrefix + p + RegexSuffix;
    assert q == v[6..|v| - 1];
    assert p == v[6..|v| - 1];
  }

  /** The test one attribute member stands for. */
  function AttributeTest(key: string, value: string): (t: Pred)
    ensures t.AttrFind? <==> IsRegex(value)
    ensures t.AttrFind? ==> t == AttrFind(key, StripRegex(value)) && RegexPrefix + t.pattern + RegexSuffix == value
    ensures t.AttrEq? ==> t == AttrEq(key, value)
  {
    if IsRegex(value) then AttrFind(key, StripRegex(value)) else AttrEq(key, value)
  }

  /** The attribute tests of a rule set's members, in member order; each
      value is read through `toString()`. */
  function MemberTests(members: seq<(string, Json)>): (r: Result<seq<Pred>>)
    ensures r.Success? ==> |r.value| == |members|
    ensures r.Success? ==> forall i :: 0 <= i < |members| ==>
      JavaToString(members[i].1).Success? && r.value[i] == AttributeTest(members[i].0, JavaToString(members[i].1).value)
    ensures r.Failure? <==> exists i :: 0 <= i < |members| && members[i].1 == JNull
  {
    if |members| == 0 then Success([])
    else
      var v :- JavaToString(members[0].1);
      var rest :- MemberTests(members[1..]);
      Success([AttributeTest(members[0].0, v)] + rest)
  }

  /** The predicate for one rule set: its tests AND-ed left to right, or the
      caller's default when the rule set has no members.  A null element
      throws NullPointerException at `keySet()`, any other non-object
      element ClassCastException at the cast to `Map`. */
  function RuleSetPred(ruleSet: Json, dflt: Option<Pred>): (r: Result<Option<Pred>>)
    ensures ruleSet == JNull ==> r.Failure? && r.error.NullPointer?
    ensures !ruleSet.JObject? ==> r.Failure?
    ensures ruleSet.JObject? && |ruleSet.entries| == 0 ==> r == Success(dflt)
    ensures r.Success? && ruleSet.JObject? && |ruleSet.entries| > 0 ==> r.value.Some?
  {
    match ruleSet
    case JObject(members) =>
      var tests :- MemberTests(members);
      if |tests| == 0 then Success(dflt) else Success(Fold(tests, true))
    case JNull => Failure(NullPointer("rule set is null"))
    case _ => Failure(ClassCast("rule set is not an object"))
  }

  /** A non-empty rule set holds of a node iff every one of its attribute
      tests holds. */
  lemma RuleSetMeaning<N>(env: Attrs<N>, ruleSet: Json, dflt: Option<Pred>, node: N, tests: seq<Pred>)
    requires ruleSet.JObject? && |ruleSet.entries| > 0
    requires MemberTests(ruleSet.entries) == Success(tests)
    ensures RuleSetPred(ruleSet, dflt).Success? && RuleSetPred(ruleSet, dflt).value.Some?
    ensures Eval(env, RuleSetPred(ruleSet, dflt).value.value, node)
            <==> forall i :: 0 <= i < |tests| ==> Eval(env, tests[i], node)
  {
    assert RuleSetPred(ruleSet, dflt) == Success(Fold(tests, true));
    FoldMeaning(env, tests, true, node);
  }

  /** A non-empty rule set's predicate does not depend on the caller's default. */
  lemma RuleSetIgnoresDefault(ruleSet: Json, d1: Option<Pred>, d2: Option<Pred>)
    requires ruleSet.JObject? && |ruleSet.entries| > 0
    ensures RuleSetPred(ruleSet, d1) == RuleSetPred(ruleSet, d2)
  {
  }
}
