/** The rule evaluator of jquery.autoValidation (`validate`): from a field's
    value and its rule object to the message its annotation shows ("" when
    the field is valid). The model follows the code as written:

    - the `required` check only seeds the message; the rule loop always runs
      after it, and `required` wins because a non-empty message is never
      replaced by a later default;
    - a rule whose value carries a truthy `msg` sets the message to it when
      the loop reaches the rule, whether or not the rule's check fails;
    - parameterless checks (`alphanumeric`, `email`, `kana`, `name_kana`)
      run only when the rule's value is falsy; a truthy value such as `true`
      falls to the branch that only calls a custom `rule` function. */
module Rules {

  import opened Wrappers
  import opened Predicates
  import opened Messages

  /** A field of the document, named by its selector. */
  type FieldId = string

  /** The properties of a rule object. `msg` and `name` are tested for
      truthiness and `pitch` is compared with `===` against "full" and "half",
      so each of these three is "" when absent; the others are `None` when
      absent. */
  datatype Params = Params(
    msg: string,
    pitch: string,
    min: Option<int>,
    max: Option<int>,
    target: Option<FieldId>,
    name: string,
    reg: Option<string>,
    rule: Option<string -> bool>)

  /** `true` as a rule value: truthy, and every property reads `undefined`. */
  const NoParams: Params := Params("", "", None, None, None, "", None, None)

  /** A rule's value: `undefined`, another falsy value (`false`, `null`, `0`,
      `''`), or a truthy value with its properties. */
  datatype RuleValue = Undefined | Falsy | Truthy(p: Params)

  /** One key of the rule object with its value. */
  datatype Rule = Rule(key: string, value: RuleValue)

  /** What an evaluation reads besides the value: the current values of the
      document's fields (for `equals`) and the regular-expression matcher
      (for `pattern`). */
  datatype Env = Env(values: map<FieldId, string>, matches: (string, string) -> bool)

  /** `$(target).val()`: `undefined` when there is no target or no such field. */
  function TargetValue(env: Env, target: Option<FieldId>): Option<string>
  {
    if target.Some? && target.value in env.values then Some(env.values[target.value]) else None
  }

  /** A rule's `min` or `max` handed to `getErrorText`. */
  function ArgOf(bound: Option<int>): Arg
  {
    if bound.Some? then Int(bound.value) else NoArg
  }

  /** The rule's value carries a truthy `msg`. */
  predicate HasMsg(r: Rule)
  {
    r.value.Truthy? && r.value.p.msg != ""
  }

  /** The default message a rule reports when its check fails; `None` when it
      passes or checks nothing. */
  function Failure(s: string, r: Rule, env: Env): Option<string>
  {
    match r.value
    case Truthy(p) =>
      if r.key == "number" then
        if p.pitch == "full" then
          if IsFullNum(s) then None else Some(GetErrorText(FullNum, NoArg, NoArg))
        else if p.pitch == "half" then
          if IsHalfNum(s) then None else Some(GetErrorText(HalfNum, NoArg, NoArg))
        else None
      else if r.key == "between" then
        if IsBetween(s, p.min, p.max) then None else Some(GetErrorText(Between, ArgOf(p.min), ArgOf(p.max)))
      else if r.key == "long" then
        if IsLong(s, p.max) then None else Some(GetErrorText(Long, ArgOf(p.max), NoArg))
      else if r.key == "short" then
        if IsShort(s, p.min) then None else Some(GetErrorText(Kana, ArgOf(p.min), NoArg))
      else if r.key == "equals" then
        var t := TargetValue(env, p.target);
        if t.Some? && IsSame(s, t.value) then None
        else if p.name != "" then Some(GetErrorText(NoSame, Text(p.name), NoArg))
        else Some(GetErrorText(NoSameGeneric, NoArg, NoArg))
      else if r.key == "pattern" then
        if Pattern(s, p.reg, env.matches) then None else Some(GetErrorText(PatternMismatch, NoArg, NoArg))
      else if p.rule.Some? then
        if |s| == 0 || p.rule.value(s) then None else Some(GetErrorText(Func, NoArg, NoArg))
      else None
    case _ =>
      if r.key == "alphanumeric" then
        if IsAlphanumeric(s) then None else Some(GetErrorText(Alphanumeric, NoArg, NoArg))
      else if r.key == "email" then
        if IsMail(s) then None else Some(GetErrorText(Mail, NoArg, NoArg))
      else if r.key == "kana" then
        if IsFullKana(s) then None else Some(GetErrorText(Kana, NoArg, NoArg))
      else if r.key == "name_kana" then
        if IsFullKanaName(s) then None else Some(GetErrorText(Kana, NoArg, NoArg))
      else None
  }

  // ---------------------------------------------------------------------
  // The specification of the evaluation
  // ---------------------------------------------------------------------

  /** `rules[key]`: the position of the key in the rule object. */
  function IndexOf(rules: seq<Rule>, key: string): (r: Option<nat>)
    ensures r.Some? ==> r.value < |rules| && rules[r.value].key == key
    ensures r.None? ==> forall k :: 0 <= k < |rules| ==> rules[k].key != key
  {
    if |rules| == 0 then None
    else if rules[0].key == key then Some(0)
    else match IndexOf(rules[1..], key)
      case None => None
      case Some(i) => Some(i + 1)
  }

  /** `rules.required !== undefined` */
  predicate RequiredDeclared(rules: seq<Rule>)
  {
    var i := IndexOf(rules, "required");
    i.Some? && !rules[i.value].value.Undefined?
  }

  /** The `msg` of the last rule, in key order, whose value carries one. */
  function LastMsg(rules: seq<Rule>): Option<string>
    decreases |rules|
  {
    if |rules| == 0 then None
    else if HasMsg(rules[|rules| - 1]) then Some(rules[|rules| - 1].value.p.msg)
    else LastMsg(rules[..|rules| - 1])
  }

  /** The default message of the first failing rule in key order. */
  function FirstFailure(s: string, rules: seq<Rule>, env: Env): Option<string>
    decreases |rules|
  {
    if |rules| == 0 then None
    else if Failure(s, rules[0], env).Some? then Failure(s, rules[0], env)
    else FirstFailure(s, rules[1..], env)
  }

  /** The message of an evaluation: the last custom `msg` if any rule carries
      one; otherwise the `required` text when `required` is declared and the
      value is empty; otherwise the default message of the first failing
      rule; otherwise "". */
  function Resolve(s: string, rules: seq<Rule>, env: Env): string
  {
    if LastMsg(rules).Some? then LastMsg(rules).value
    else if RequiredDeclared(rules) && s == "" then GetErrorText(Req, NoArg, NoArg)
    else if FirstFailure(s, rules, env).Some? then FirstFailure(s, rules, env).value
    else ""
  }

  /** The message before the rule loop (the `required` check). */
  function InitialText(s: string, rules: seq<Rule>): string
  {
    if RequiredDeclared(rules) && !IsInputted(s) then
      var v := rules[IndexOf(rules, "required").value].value;
      if v.Truthy? && v.p.msg != "" then v.p.msg else GetErrorText(Req, NoArg, NoArg)
    else ""
  }

  /** The message after the loop has visited `done`, having started from `t0`. */
  function AfterRules(s: string, t0: string, done: seq<Rule>, env: Env): string
  {
    if LastMsg(done).Some? then LastMsg(done).value
    else if t0 != "" then t0
    else if FirstFailure(s, done, env).Some? then FirstFailure(s, done, env).value
    else ""
  }

  // ---------------------------------------------------------------------
  // The evaluation as the source runs it
  // ---------------------------------------------------------------------

  /** `validate`, lines 201-305: the message for value `s` under `rules`. */
  method ComputeMessage(s: string, rules: seq<Rule>, env: Env) returns (txt: string)
    ensures txt == Resolve(s, rules, env)
  {
    AllErrorTextsNonEmpty();
    txt := "";
    var requiredAllow := true;
    var req := IndexOf(rules, "required");
    if req.Some? && !rules[req.value].value.Undefined? {
      if !IsInputted(s) {
        var v := rules[req.value].value;
        if v.Truthy? && v.p.msg != "" {
          txt := v.p.msg;
        } else {
          txt := GetErrorText(Req, NoArg, NoArg);
        }
        requiredAllow := txt != "";
      }
    }
    ghost var t0 := txt;
    assert t0 == InitialText(s, rules);
    if requiredAllow {
      for i := 0 to |rules|
        invariant txt == AfterRules(s, t0, rules[..i], env)
      {
        var r := rules[i];
        ghost var before := txt;
        if r.value.Truthy? && r.value.p.msg != "" {
          txt := r.value.p.msg;
        }
        if r.value.Truthy? {
          var p := r.value.p;
          if r.key == "number" {
            if p.pitch == "full" {
              if !IsFullNum(s) {
                txt := if txt != "" then txt else GetErrorText(FullNum, NoArg, NoArg);
              }
            } else if p.pitch == "half" {
              if !IsHalfNum(s) {
                txt := if txt != "" then txt else GetErrorText(HalfNum, NoArg, NoArg);
              }
            }
          } else if r.key == "between" {
            if !IsBetween(s, p.min, p.max) {
              txt := if txt != "" then txt else GetErrorText(Between, ArgOf(p.min), ArgOf(p.max));
            }
          } else if r.key == "long" {
            if !IsLong(s, p.max) {
              txt := if txt != "" then txt else GetErrorText(Long, ArgOf(p.max), NoArg);
            }
          } else if r.key == "short" {
            if !IsShort(s, p.min) {
              txt := if txt != "" then txt else GetErrorText(Kana, ArgOf(p.min), NoArg);
            }
          } else if r.key == "equals" {
            var other := TargetValue(env, p.target);
            if !(other.Some? && IsSame(s, other.value)) {
              if p.name != "" {
                txt := if txt != "" then txt else GetErrorText(NoSame, Text(p.name), NoArg);
              } else {
                txt := if txt != "" then txt else GetErrorText(NoSameGeneric, NoArg, NoArg);
              }
            }
          } else if r.key == "pattern" {
            if !Pattern(s, p.reg, env.matches) {
              txt := if txt != "" then txt else GetErrorText(PatternMismatch, NoArg, NoArg);
            }
          } else if p.rule.Some? {
            if !(|s| == 0 || p.rule.value(s)) {
              txt := if txt != "" then txt else GetErrorText(Func, NoArg, NoArg);
            }
          }
        } else {
          if r.key == "alphanumeric" {
            if !IsAlphanumeric(s) {
              txt := if txt != "" then txt else GetErrorText(Alphanumeric, NoArg, NoArg);
            }
          } else if r.key == "email" {
            if !IsMail(s) {
              txt := if txt != "" then txt else GetErrorText(Mail, NoArg, NoArg);
            }
          } else if r.key == "kana" {
            if !IsFullKana(s) {
              txt := if txt != "" then txt else GetErrorText(Kana, NoArg, NoArg);
            }
          } else if r.key == "name_kana" {
            if !IsFullKanaName(s) {
              txt := if txt != "" then txt else GetErrorText(Kana, NoArg, NoArg);
            }
          }
        }
        assert txt == Step(s, before, r, env);
        AfterRulesStep(s, t0, rules[..i], r, env);
        assert rules[..i + 1] == rules[..i] + [r];
      }
      assert rules[..|rules|] == rules;
    }
    InitialThenRulesIsResolve(s, rules, env);
  }

  /** One iteration of the rule loop on message `t`. */
  function Step(s: string, t: string, r: Rule, env: Env): string
  {
    var t1 := if HasMsg(r) then r.value.p.msg else t;
    match Failure(s, r, env)
    case Some(m) => if t1 != "" then t1 else m
    case None => t1
  }

  // ---------------------------------------------------------------------
  // Properties
  // ---------------------------------------------------------------------

  /** Every default message a failing rule reports is non-empty. */
  lemma FailureNonEmpty(s: string, r: Rule, env: Env)
    ensures Failure(s, r, env).Some? ==> Failure(s, r, env).value != ""
  {
    AllErrorTextsNonEmpty();
  }

  /** `LastMsg` is the `msg` of the last rule carrying one. */
  lemma {:induction false} LastMsgIsLast(rules: seq<Rule>)
    ensures LastMsg(rules).None? <==> forall k :: 0 <= k < |rules| ==> !HasMsg(rules[k])
    ensures LastMsg(rules).Some? ==>
      exists k :: 0 <= k < |rules| && HasMsg(rules[k]) && LastMsg(rules).value == rules[k].value.p.msg
        && forall j :: k < j < |rules| ==> !HasMsg(rules[j])
    decreases |rules|
  {
    if |rules| > 0 {
      var init := rules[..|rules| - 1];
      LastMsgIsLast(init);
      assert forall k :: 0 <= k < |init| ==> init[k] == rules[k];
    }
  }

  /** `FirstFailure` is the message of the first failing rule. */
  lemma {:induction false} FirstFailureIsFirst(s: string, rules: seq<Rule>, env: Env)
    ensures FirstFailure(s, rules, env).None? <==> forall k :: 0 <= k < |rules| ==> Failure(s, rules[k], env).None?
    ensures FirstFailure(s, rules, env).Some? ==>
      exists k :: 0 <= k < |rules| && Failure(s, rules[k], env) == FirstFailure(s, rules, env)
        && forall j :: 0 <= j < k ==> Failure(s, rules[j], env).None?
    decreases |rules|
  {
    if |rules| > 0 {
      var tail := rules[1..];
      FirstFailureIsFirst(s, tail, env);
      assert forall k :: 0 <= k < |tail| ==> tail[k] == rules[k + 1];
      if Failure(s, rules[0], env).None? && FirstFailure(s, tail, env).Some? {
        var k :| 0 <= k < |tail| && Failure(s, tail[k], env) == FirstFailure(s, tail, env)
          && forall j :: 0 <= j < k ==> Failure(s, tail[j], env).None?;
        assert Failure(s, rules[k + 1], env) == FirstFailure(s, rules, env);
      }
    }
  }

  /** Appending a rule: the first failure of the longer list. */
  lemma {:induction false} FirstFailureSnoc(s: string, rules: seq<Rule>, r: Rule, env: Env)
    ensures FirstFailure(s, rules + [r], env)
         == if FirstFailure(s, rules, env).Some? then FirstFailure(s, rules, env) else Failure(s, r, env)
    decreases |rules|
  {
    if |rules| == 0 {
      assert rules + [r] == [r];
    } else {
      assert (rules + [r])[1..] == rules[1..] + [r];
      FirstFailureSnoc(s, rules[1..], r, env);
    }
  }

  /** The loop invariant is kept by one iteration. */
  lemma AfterRulesStep(s: string, t0: string, done: seq<Rule>, r: Rule, env: Env)
    ensures Step(s, AfterRules(s, t0, done, env), r, env) == AfterRules(s, t0, done + [r], env)
  {
    var all := done + [r];
    assert all[..|all| - 1] == done;
    FirstFailureSnoc(s, done, r, env);
    FailureNonEmpty(s, r, env);
    LastMsgIsLast(done);
    if FirstFailure(s, done, env).Some? {
      FirstFailureIsFirst(s, done, env);
      var k :| 0 <= k < |done| && Failure(s, done[k], env) == FirstFailure(s, done, env)
        && forall j :: 0 <= j < k ==> Failure(s, done[j], env).None?;
      FailureNonEmpty(s, done[k], env);
    }
  }

  /** Starting the loop from the `required` check's message yields `Resolve`. */
  lemma InitialThenRulesIsResolve(s: string, rules: seq<Rule>, env: Env)
    ensures AfterRules(s, InitialText(s, rules), rules, env) == Resolve(s, rules, env)
  {
    LastMsgIsLast(rules);
    AllErrorTextsNonEmpty();
  }

  /** Once the message is non-empty, an iteration keeps it unless the rule
      carries its own `msg`: later default messages never replace it. */
  lemma StepKeepsMessage(s: string, t: string, r: Rule, env: Env)
    requires t != ""
    ensures Step(s, t, r, env) == (if HasMsg(r) then r.value.p.msg else t)
    ensures Step(s, t, r, env) != ""
  {
  }

  /** Without custom messages: an empty value under a declared `required`
      yields the `required` text and nothing else; otherwise the message is
      the default of the first failing rule in key order, and "" exactly when
      every rule passes. */
  lemma ResolveWithoutMsg(s: string, rules: seq<Rule>, env: Env)
    requires forall k :: 0 <= k < |rules| ==> !HasMsg(rules[k])
    ensures RequiredDeclared(rules) && s == "" ==> Resolve(s, rules, env) == "必須入力です。"
    ensures !(RequiredDeclared(rules) && s == "") ==>
      (Resolve(s, rules, env) == "" <==> forall k :: 0 <= k < |rules| ==> Failure(s, rules[k], env).None?)
    ensures !(RequiredDeclared(rules) && s == "") ==>
      forall k :: 0 <= k < |rules| && Failure(s, rules[k], env).Some?
        && (forall j :: 0 <= j < k ==> Failure(s, rules[j], env).None?)
        ==> Resolve(s, rules, env) == Failure(s, rules[k], env).value
  {
    LastMsgIsLast(rules);
    FirstFailureIsFirst(s, rules, env);
    if FirstFailure(s, rules, env).Some? {
      var k :| 0 <= k < |rules| && Failure(s, rules[k], env) == FirstFailure(s, rules, env)
        && forall j :: 0 <= j < k ==> Failure(s, rules[j], env).None?;
      FailureNonEmpty(s, rules[k], env);
    }
  }

  /** A custom `msg` wins: the message is the `msg` of the last rule carrying
      one, whatever the value and whether or not any check fails. */
  lemma LastMsgWins(s: string, rules: seq<Rule>, env: Env, k: int)
    requires 0 <= k < |rules| && HasMsg(rules[k])
    requires forall j :: k < j < |rules| ==> !HasMsg(rules[j])
    ensures Resolve(s, rules, env) == rules[k].value.p.msg
  {
    LastMsgIsLast(rules);
  }

  /** On an empty value only an `equals` rule whose target's value is not ""
      can fail. */
  lemma EmptyFailsOnlyEquals(r: Rule, env: Env)
    ensures Failure("", r, env).Some? ==>
      r.key == "equals" && r.value.Truthy? && TargetValue(env, r.value.p.target) != Some("")
  {
  }

  /** The empty-value policy for a whole rule object: with no `required`, no
      custom `msg` and no `equals`, an empty value is valid. */
  lemma EmptyValueIsValid(rules: seq<Rule>, env: Env)
    requires !RequiredDeclared(rules)
    requires forall k :: 0 <= k < |rules| ==> !HasMsg(rules[k]) && rules[k].key != "equals"
    ensures Resolve("", rules, env) == ""
  {
    LastMsgIsLast(rules);
    FirstFailureIsFirst("", rules, env);
  }

  /** A truthy value (`true`, or an object without `rule`) on a parameterless
      kind checks nothing. */
  lemma TruthyParameterlessIsNoOp(s: string, key: string, p: Params, env: Env)
    requires key in ["alphanumeric", "email", "kana", "name_kana"] && p.rule.None?
    ensures Failure(s, Rule(key, Truthy(p)), env).None?
  {
  }

  /** A falsy value (`false`, `undefined`, ...) on a parameterless kind runs
      its check. */
  lemma FalsyParameterlessChecks(s: string, v: RuleValue, env: Env)
    requires !v.Truthy?
    ensures Failure(s, Rule("alphanumeric", v), env).None? <==> IsAlphanumeric(s)
    ensures Failure(s, Rule("email", v), env).None? <==> IsMail(s)
    ensures Failure(s, Rule("kana", v), env).None? <==> IsFullKana(s)
    ensures Failure(s, Rule("name_kana", v), env).None? <==> IsFullKanaName(s)
  {
  }

  /** `short` reports the katakana message, untouched by its `min`. */
  lemma ShortReportsKanaText(s: string, p: Params, env: Env)
    ensures Failure(s, Rule("short", Truthy(p)), env)
         == if IsShort(s, p.min) then None else Some("全角カタカナで入力してください。")
  {
    PlainTemplateUnchanged(Kana, ArgOf(p.min), NoArg);
  }

  /** `number` with a `pitch` other than "full" or "half" checks nothing. */
  lemma OtherPitchIsNoOp(s: string, p: Params, env: Env)
    requires p.pitch != "full" && p.pitch != "half"
    ensures Failure(s, Rule("number", Truthy(p)), env).None?
  {
  }

  /** `equals` without an empty bypass: an empty value fails against a
      non-empty target, and a missing target fails every value. */
  lemma EqualsHasNoEmptyBypass(s: string, p: Params, env: Env)
    ensures Failure(s, Rule("equals", Truthy(p)), env).None?
        <==> TargetValue(env, p.target) == Some(s)
  {
  }

  /** `between`: a non-empty value fails outside [min, max] and whenever a bound is missing. */
  lemma BetweenFailsOutside(s: string, p: Params, env: Env)
    requires s != ""
    ensures Failure(s, Rule("between", Truthy(p)), env).None?
        <==> p.min.Some? && p.max.Some? && p.min.value <= |s| <= p.max.value
  {
  }

  /** A custom `rule` callback is not consulted on an empty value. */
  lemma CustomRuleBypassedOnEmpty(key: string, p: Params, env: Env)
    requires key !in ["number", "between", "long", "short", "equals", "pattern"]
    ensures Failure("", Rule(key, Truthy(p)), env).None?
  {
  }
}
