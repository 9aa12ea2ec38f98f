/** evaluateRules and evaluateExpression: every active rule of the object type
    is evaluated against the form in the order the rules were fetched, and the
    messages of the rules that fire are collected. A rule fires when its
    formula evaluates to true, and also (fail-closed) when any Exception is
    thrown while it is processed or evaluated. */
module RuleEvaluator {
  import opened PhpStrings
  import opened FormValues
  import opened Dates
  import opened ExpressionProcessing
  import opened SafeEvaluation

  /** A stored validation rule. */
  datatype Rule = Rule(objectType: string, expression: string, errorMessage: string, isActive: bool)

  /** ValidationRule::active()->forObjectType($objectType)->get(): the active
      rules of the object type, in the order they are stored. */
  function Fetched(store: seq<Rule>, objectType: string): (rules: seq<Rule>)
    ensures forall r :: r in rules <==> r in store && r.isActive && r.objectType == objectType
    ensures |rules| <= |store|
    decreases |store|
  {
    if store == [] then []
    else
      var n := |store| - 1;
      var rest := Fetched(store[..n], objectType);
      assert forall r :: r in store <==> r in store[..n] || r == store[n];
      if Selected(store[n], objectType) then rest + [store[n]] else rest
  }

  /** The query keeps the store's order and drops nothing it should keep: the
      fetched rules are picked from the store at strictly increasing indices,
      and an index is picked exactly when its rule is active and of the object
      type. */
  lemma {:induction false} FetchedPicks(store: seq<Rule>, objectType: string) returns (picked: seq<nat>)
    ensures |picked| == |Fetched(store, objectType)|
    ensures forall j :: 0 <= j < |picked| ==> picked[j] < |store| && Fetched(store, objectType)[j] == store[picked[j]]
    ensures forall j, k :: 0 <= j < k < |picked| ==> picked[j] < picked[k]
    ensures forall i :: 0 <= i < |store| ==> (i in picked <==> Selected(store[i], objectType))
    decreases |store|
  {
    if store == [] {
      picked := [];
    } else {
      var n := |store| - 1;
      var earlier := FetchedPicks(store[..n], objectType);
      picked := FetchedPicksStep(store, objectType, earlier);
    }
  }

  /** Whether the two scopes keep a rule. */
  predicate Selected(r: Rule, objectType: string) {
    r.isActive && r.objectType == objectType
  }

  /** The rules `fetched` are those of `store` at the strictly increasing
      indices `picked`, and an index is picked exactly when its rule is
      selected. */
  predicate PickedFrom(fetched: seq<Rule>, store: seq<Rule>, picked: seq<nat>, objectType: string) {
    && |picked| == |fetched|
    && (forall j :: 0 <= j < |picked| ==> picked[j] < |store| && fetched[j] == store[picked[j]])
    && (forall j, k :: 0 <= j < k < |picked| ==> picked[j] < picked[k])
    && (forall i :: 0 <= i < |store| ==> (i in picked <==> Selected(store[i], objectType)))
  }

  /** FetchedPicks for a store one rule longer. */
  lemma FetchedPicksStep(store: seq<Rule>, objectType: string, earlier: seq<nat>) returns (picked: seq<nat>)
    requires store != []
    requires PickedFrom(Fetched(store[..|store| - 1], objectType), store[..|store| - 1], earlier, objectType)
    ensures PickedFrom(Fetched(store, objectType), store, picked, objectType)
  {
    var n := |store| - 1;
    var front, last := store[..n], store[n];
    var rest := Fetched(front, objectType);
    FetchedLast(store, objectType);
    if Selected(last, objectType) {
      PickedKept(rest, front, earlier, last, objectType);
      picked := earlier + [n];
    } else {
      PickedDropped(rest, front, earlier, last, objectType);
      picked := earlier;
    }
  }

  lemma FetchedLast(store: seq<Rule>, objectType: string)
    requires store != []
    ensures store == store[..|store| - 1] + [store[|store| - 1]]
    ensures Fetched(store, objectType)
         == Fetched(store[..|store| - 1], objectType)
            + (if Selected(store[|store| - 1], objectType) then [store[|store| - 1]] else [])
  {
  }

  lemma PickedKept(fetched: seq<Rule>, front: seq<Rule>, earlier: seq<nat>, last: Rule, objectType: string)
    requires PickedFrom(fetched, front, earlier, objectType) && Selected(last, objectType)
    ensures PickedFrom(fetched + [last], front + [last], earlier + [|front|], objectType)
  {
    var store, picked := front + [last], earlier + [|front|];
    assert forall j :: 0 <= j < |earlier| ==> picked[j] == earlier[j] && store[earlier[j]] == front[earlier[j]];
    forall i | 0 <= i < |store|
      ensures i in picked <==> Selected(store[i], objectType)
    {
      if i < |front| {
        assert store[i] == front[i];
        assert i in picked <==> i in earlier;
      }
    }
  }

  lemma PickedDropped(fetched: seq<Rule>, front: seq<Rule>, earlier: seq<nat>, last: Rule, objectType: string)
    requires PickedFrom(fetched, front, earlier, objectType) && !Selected(last, objectType)
    ensures PickedFrom(fetched, front + [last], earlier, objectType)
  {
    var store := front + [last];
    assert forall j :: 0 <= j < |earlier| ==> store[earlier[j]] == front[earlier[j]];
    forall i | 0 <= i < |store|
      ensures i in earlier <==> Selected(store[i], objectType)
    {
      if i < |front| {
        assert store[i] == front[i];
      }
    }
  }

  /** evaluateExpression: Ok(true) when the rule fires, Ok(false) when it does
      not, Thrown(t) when an Error that is not caught escapes. */
  function Verdict(expression: string, form: FormData, today: Date, eval: string -> EvalResult): (r: Outcome<bool>)
    ensures !Whitelisted(Processed(expression, form, today)) ==> r == Ok(true)
    ensures r.Thrown? ==> r.thrown == OtherError
  {
    match SafeEval(Processed(expression, form, today), eval)
    case Ok(b) => Ok(b)
    case Thrown(t) => if IsException(t) then Ok(true) else Thrown(t)
  }

  method EvaluateExpression(expression: string, form: FormData, today: Date, eval: string -> EvalResult)
    returns (verdict: Outcome<bool>)
    ensures verdict == Verdict(expression, form, today, eval)
    ensures verdict == Ok(false)
        <==> Whitelisted(Processed(expression, form, today))
             && eval(EvalCode(DoubledEquals(Processed(expression, form, today), false))) == Returned(false)
    ensures !Whitelisted(Processed(expression, form, today)) ==> verdict == Ok(true)
    ensures verdict.Thrown?
        <==> Whitelisted(Processed(expression, form, today))
             && eval(EvalCode(DoubledEquals(Processed(expression, form, today), false))) == Threw(OtherError)
  {
    var processed := ProcessExpression(expression, form, today);
    var result := SafeEval(processed, eval);
    if result.Thrown? && IsException(result.thrown) {
      verdict := Ok(true);
    } else {
      verdict := result;
    }
    VerdictFailClosed(expression, form, today, eval);
  }

  /** Fail-closed: a rule does not fire only when its processed formula
      passes the whitelist and eval, on the rewritten formula, returns a false
      value. Anything rejected by the whitelist, any syntax error and any
      Exception makes it fire, and only an Error other than a syntax error
      escapes. */
  lemma VerdictFailClosed(expression: string, form: FormData, today: Date, eval: string -> EvalResult)
    ensures Verdict(expression, form, today, eval) == Ok(false)
        <==> Whitelisted(Processed(expression, form, today))
             && eval(EvalCode(DoubledEquals(Processed(expression, form, today), false))) == Returned(false)
    ensures !Whitelisted(Processed(expression, form, today)) ==> Verdict(expression, form, today, eval) == Ok(true)
    ensures Verdict(expression, form, today, eval).Thrown?
        <==> Whitelisted(Processed(expression, form, today))
             && eval(EvalCode(DoubledEquals(Processed(expression, form, today), false))) == Threw(OtherError)
  {
    SafeEvalCases(Processed(expression, form, today), eval);
  }

  /** evaluateExpression with the form, the date and eval fixed, as a
      function of the formula. */
  function RuleVerdict(form: FormData, today: Date, eval: string -> EvalResult): string -> Outcome<bool> {
    expression => Verdict(expression, form, today, eval)
  }

  /** The result of the loop of evaluateRules over the rules, where
      `verdict` evaluates one formula: the messages of the rules that fired,
      or the Error that escaped from the first rule that let one escape. */
  function ReportedErrors(rules: seq<Rule>, verdict: string -> Outcome<bool>): (r: Outcome<seq<string>>)
    ensures r.Ok? ==> |r.value| <= |rules|
    decreases |rules|
  {
    if rules == [] then Ok([])
    else
      var last := rules[|rules| - 1];
      match ReportedErrors(rules[..|rules| - 1], verdict)
      case Thrown(t) => Thrown(t)
      case Ok(errors) =>
        match verdict(last.expression)
        case Thrown(t) => Thrown(t)
        case Ok(fires) => Ok(if fires then errors + [last.errorMessage] else errors)
  }

  /** evaluateRules over the rules found in the store. */
  method EvaluateRules(store: seq<Rule>, objectType: string, form: FormData, today: Date, eval: string -> EvalResult)
    returns (result: Outcome<seq<string>>)
    ensures result == ReportedErrors(Fetched(store, objectType), RuleVerdict(form, today, eval))
  {
    var rules := Fetched(store, objectType);
    ghost var verdictOf := RuleVerdict(form, today, eval);
    var errors: seq<string> := [];
    var i := 0;
    while i < |rules|
      invariant 0 <= i <= |rules|
      invariant ReportedErrors(rules[..i], verdictOf) == Ok(errors)
    {
      var rule := rules[i];
      var verdict := EvaluateExpression(rule.expression, form, today, eval);
      assert verdictOf(rule.expression) == verdict;
      ReportedErrorsStep(rules, i, verdictOf);
      if verdict.Thrown? {
        ReportedErrorsThrownStays(rules, i + 1, verdictOf);
        return Thrown(verdict.thrown);
      }
      if verdict.value {
        errors := errors + [rule.errorMessage];
      }
      i := i + 1;
    }
    assert rules[..|rules|] == rules;
    return Ok(errors);
  }

  /** One more turn of the loop. */
  lemma ReportedErrorsStep(rules: seq<Rule>, i: nat, verdict: string -> Outcome<bool>)
    requires i < |rules|
    ensures ReportedErrors(rules[..i + 1], verdict)
         == match ReportedErrors(rules[..i], verdict)
            case Thrown(t) => Thrown(t)
            case Ok(errors) =>
              match verdict(rules[i].expression)
              case Thrown(t) => Thrown(t)
              case Ok(fires) => Ok(if fires then errors + [rules[i].errorMessage] else errors)
  {
    assert rules[..i + 1][..i] == rules[..i];
  }

  /** Once an Error has escaped, the later rules are not evaluated. */
  lemma {:induction false} ReportedErrorsThrownStays(rules: seq<Rule>, n: nat, verdict: string -> Outcome<bool>)
    requires n <= |rules|
    requires ReportedErrors(rules[..n], verdict).Thrown?
    ensures ReportedErrors(rules, verdict) == ReportedErrors(rules[..n], verdict)
    decreases |rules| - n
  {
    if n < |rules| {
      assert rules[..n + 1][..n] == rules[..n];
      ReportedErrorsThrownStays(rules, n + 1, verdict);
    } else {
      assert rules[..n] == rules;
    }
  }

  /** When no Error escapes, the result lists the messages of exactly the
      rules that fire, in rule order: it is the subsequence of the messages
      picked by the strictly increasing indices of those rules. */
  lemma {:induction false} ReportedErrorsAreFiredRules(rules: seq<Rule>, verdict: string -> Outcome<bool>)
    returns (fired: seq<nat>)
    requires ReportedErrors(rules, verdict).Ok?
    ensures |fired| == |ReportedErrors(rules, verdict).value|
    ensures forall j :: 0 <= j < |fired| ==> fired[j] < |rules|
    ensures forall j, k :: 0 <= j < k < |fired| ==> fired[j] < fired[k]
    ensures forall j :: 0 <= j < |fired| ==> ReportedErrors(rules, verdict).value[j] == rules[fired[j]].errorMessage
    ensures forall i :: 0 <= i < |rules| ==> (i in fired <==> verdict(rules[i].expression) == Ok(true))
    ensures |ReportedErrors(rules, verdict).value| <= |rules|
    decreases |rules|
  {
    if rules == [] {
      fired := [];
    } else {
      var n := |rules| - 1;
      var front := rules[..n];
      var earlier := ReportedErrorsAreFiredRules(front, verdict);
      assert forall i :: 0 <= i < n ==> rules[i] == front[i];
      if verdict(rules[n].expression) == Ok(true) {
        fired := earlier + [n];
      } else {
        fired := earlier;
      }
    }
  }

  /** An Error escapes exactly when some rule's evaluation lets one escape,
      and it is the one of the first such rule. */
  lemma {:induction false} ReportedErrorsThrown(rules: seq<Rule>, verdict: string -> Outcome<bool>)
    ensures ReportedErrors(rules, verdict).Thrown?
        <==> exists i :: 0 <= i < |rules| && verdict(rules[i].expression).Thrown?
    ensures ReportedErrors(rules, verdict).Thrown? ==>
              exists i :: 0 <= i < |rules|
                && verdict(rules[i].expression) == Thrown(ReportedErrors(rules, verdict).thrown)
                && forall j :: 0 <= j < i ==> verdict(rules[j].expression).Ok?
    decreases |rules|
  {
    if rules != [] {
      var n := |rules| - 1;
      var front := rules[..n];
      ReportedErrorsThrown(front, verdict);
      assert forall i :: 0 <= i < n ==> rules[i] == front[i];
    }
  }

  /** Evaluating two batches of rules one after the other: the messages of
      the second batch follow those of the first. */
  lemma {:induction false} ReportedErrorsAppend(first: seq<Rule>, second: seq<Rule>, verdict: string -> Outcome<bool>)
    requires ReportedErrors(first, verdict).Ok?
    requires ReportedErrors(second, verdict).Ok?
    ensures ReportedErrors(first + second, verdict)
         == Ok(ReportedErrors(first, verdict).value + ReportedErrors(second, verdict).value)
    decreases |second|
  {
    if second == [] {
      assert first + second == first;
      assert ReportedErrors(first, verdict).value + [] == ReportedErrors(first, verdict).value;
    } else {
      var n := |second|;
      assert ReportedErrors(second[..n - 1], verdict).Ok?;
      assert (first + second)[..|first + second| - 1] == first + second[..n - 1];
      assert (first + second)[|first + second| - 1] == second[n - 1];
      ReportedErrorsAppend(first, second[..n - 1], verdict);
      assert verdict(second[n - 1].expression).Ok?;
      ReportedErrorsStep(second, n - 1, verdict);
      ReportedErrorsStep(first + second, |first| + n - 1, verdict);
      assert second[..n] == second;
      assert (first + second)[..|first| + n] == first + second;
      var f, s := ReportedErrors(first, verdict).value, ReportedErrors(second[..n - 1], verdict).value;
      assert (f + s) + [second[n - 1].errorMessage] == f + (s + [second[n - 1].errorMessage]);
    }
  }

  /** A rule whose processed formula still carries a string value, without
      NUL or dollar, that holds a quote, a double quote or a backslash fires,
      whatever else the formula says. */
  lemma EscapedValueFires(s: string, name: string, before: string, after: string, expression: string, form: FormData, today: Date, eval: string -> EvalResult)
    requires forall i :: 0 <= i < |s| ==> s[i] != '\0' && s[i] != '$'
    requires exists i :: 0 <= i < |s| && (s[i] == '\'' || s[i] == '"' || s[i] == '\\')
    requires Processed(expression, form, today) == before + Inserted(Str(s), name) + after
    ensures Verdict(expression, form, today, eval) == Ok(true)
  {
    EscapedLiteralRejected(s, name, before, after);
    VerdictFailClosed(expression, form, today, eval);
  }
}
