/** The rule-based validator library of lab4sem/3 (validatorDLL.cs): a fluent builder that
    collects rules and a validator that runs all of them and aggregates their failures. */
module Validator {

  /** The exceptions the validator and the rules raise. */
  datatype Exception =
    | ValidationException(message: string)
    | IndexOutOfRangeException
    | NoValidationRulesException(message: string)
    | AggregateException(innerExceptions: seq<Exception>)

  /** What running one rule on the data does: return normally or throw. */
  datatype Check = Pass | Fail(error: Exception)

  /** `IValidationRule<T>`: a rule is its `Validate` method, a check of the data. */
  type Rule<!T> = T -> Check

  /** The `List<IValidationRule<T>>` object that the builder fills and the validator reads. */
  class RuleList<T> {
    var items: seq<Rule<T>>

    constructor ()
      ensures items == []
    {
      items := [];
    }
  }

  /** The errors of the failing rules, in rule order: what `Validate` collects. */
  function Failures<T>(rules: seq<Rule<T>>, data: T): seq<Exception>
  {
    if rules == [] then []
    else
      var last := rules[|rules| - 1](data);
      Failures(rules[..|rules| - 1], data) + (if last.Fail? then [last.error] else [])
  }

  /** The outcome `Validate` reports for a list of errors: normal return for none, one
      aggregate exception holding all of them otherwise. */
  function Aggregate(errors: seq<Exception>): Check
  {
    if |errors| > 0 then Fail(AggregateException(errors)) else Pass
  }

  /** `DataValidatorBuilder<T>`. */
  class DataValidatorBuilder<T> {
    const rules: RuleList<T>

    constructor ()
      ensures fresh(rules) && rules.items == []
    {
      rules := new RuleList();
    }

    /** Appends `rule` to the rule list and returns this same builder. */
    method AddRule(rule: Rule<T>) returns (builder: DataValidatorBuilder<T>)
      modifies rules
      ensures builder == this
      ensures rules.items == old(rules.items) + [rule]
    {
      rules.items := rules.items + [rule];
      builder := this;
    }

    /** Refuses to build without rules; otherwise gives a validator that shares (not copies)
        the builder's rule list. */
    method Build() returns (r: BuildResult<T>)
      ensures r.Failure? <==> rules.items == []
      ensures r.Failure? ==>
                r.error == NoValidationRulesException("No validation rules have been added.")
      ensures r.Success? ==> fresh(r.validator) && r.validator.rules == rules
    {
      if |rules.items| == 0 {
        return Failure(NoValidationRulesException("No validation rules have been added."));
      }
      var v := new UniversalValidator(rules);
      return Success(v);
    }
  }

  /** The outcome of `Build`: a validator or the exception it throws. */
  datatype BuildResult<T> = Success(validator: UniversalValidator<T>) | Failure(error: Exception)

  /** `UniversalValidator<T>`. */
  class UniversalValidator<T> {
    const rules: RuleList<T>

    constructor (rules: RuleList<T>)
      ensures this.rules == rules
    {
      this.rules := rules;
    }

    /** Runs every rule in order, catching what each one throws, and throws one aggregate of
        all the caught exceptions if there are any. */
    method Validate(data: T) returns (r: Check)
      ensures r == Aggregate(Failures(rules.items, data))
    {
      var exceptions: seq<Exception> := [];
      var i := 0;
      while i < |rules.items|
        invariant 0 <= i <= |rules.items|
        invariant exceptions == Failures(rules.items[..i], data)
      {
        var rule := rules.items[i];
        var outcome := rule(data);
        if outcome.Fail? {
          exceptions := exceptions + [outcome.error];
        }
        assert rules.items[..i + 1][..i] == rules.items[..i];
        i := i + 1;
      }
      assert rules.items[..i] == rules.items;
      if |exceptions| > 0 {
        return Fail(AggregateException(exceptions));
      }
      return Pass;
    }
  }

  /** At most one error per rule. */
  lemma {:induction false} FailuresBound<T>(rules: seq<Rule<T>>, data: T)
    ensures |Failures(rules, data)| <= |rules|
  {
    if rules != [] {
      FailuresBound(rules[..|rules| - 1], data);
    }
  }

  /** The errors of two rule lists run one after the other are the errors of the first
      followed by those of the second. */
  lemma {:induction false} FailuresAppend<T>(a: seq<Rule<T>>, b: seq<Rule<T>>, data: T)
    ensures Failures(a + b, data) == Failures(a, data) + Failures(b, data)
  {
    if b != [] {
      var b' := b[..|b| - 1];
      assert (a + b)[..|a + b| - 1] == a + b';
      FailuresAppend(a, b', data);
    } else {
      assert a + b == a;
    }
  }

  /** No error is collected exactly when every rule passes. */
  lemma {:induction false} FailuresEmptyIff<T>(rules: seq<Rule<T>>, data: T)
    ensures Failures(rules, data) == [] <==> forall i :: 0 <= i < |rules| ==> rules[i](data).Pass?
  {
    if rules != [] {
      var init := rules[..|rules| - 1];
      FailuresEmptyIff(init, data);
      assert forall i :: 0 <= i < |init| ==> init[i] == rules[i];
    }
  }

  /** Validation does not stop at a failing rule: the error of the rule at index `i` is in
      the collected list, right after the errors of the rules before it. */
  lemma {:induction false} FailureAt<T>(rules: seq<Rule<T>>, data: T, i: nat)
    requires i < |rules| && rules[i](data).Fail?
    ensures |Failures(rules[..i], data)| < |Failures(rules, data)|
    ensures Failures(rules, data)[|Failures(rules[..i], data)|] == rules[i](data).error
  {
    assert rules == rules[..i] + [rules[i]] + rules[i + 1..];
    FailuresAppend(rules[..i] + [rules[i]], rules[i + 1..], data);
    FailuresAppend(rules[..i], [rules[i]], data);
    assert [rules[i]][..0] == [];
  }

  /** Validate returns normally exactly when no rule fails; otherwise its aggregate holds one
      exception per failing rule, and at most one per rule. */
  lemma ValidateOutcome<T>(rules: seq<Rule<T>>, data: T)
    ensures Aggregate(Failures(rules, data)) == Pass <==>
              forall i :: 0 <= i < |rules| ==> rules[i](data).Pass?
    ensures Aggregate(Failures(rules, data)).Fail? ==>
              Aggregate(Failures(rules, data)).error.AggregateException? &&
              0 < |Aggregate(Failures(rules, data)).error.innerExceptions| <= |rules|
  {
    FailuresEmptyIff(rules, data);
    FailuresBound(rules, data);
  }

  /** A rule added to the builder after `Build` is still applied by the built validator,
      because the two share one rule list. */
  method RuleAddedAfterBuild<T>(first: Rule<T>, later: Rule<T>, data: T)
    returns (built: bool, r: Check)
    requires first(data) == Pass && later(data).Fail?
    ensures built && r == Fail(AggregateException([later(data).error]))
  {
    var builder := new DataValidatorBuilder<T>();
    var b := builder.AddRule(first);
    var v := b.Build();
    built := v.Success?;
    b := b.AddRule(later);
    assert v.validator.rules.items == [first, later];
    assert [first, later][..1] == [first] && [first][..0] == [];
    assert Failures([first], data) == [];
    assert Failures([first, later], data) == [later(data).error];
    r := v.validator.Validate(data);
    assert r == Aggregate([later(data).error]);
  }
}
