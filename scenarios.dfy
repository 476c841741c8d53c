/** End-to-end behaviour of jquery.autoValidation on small rule objects:
    the message a single rule yields on passing and failing values, and the
    submit gate blocking a form until its fields are corrected. */
module Scenarios {

  import opened Wrappers
  import opened Predicates
  import opened Messages
  import opened Rules
  import opened Plugin

  /** `{required: true}`: the `required` text on "", "" on any other value. */
  lemma RequiredScenario(s: string, env: Env)
    ensures Resolve("", [Rule("required", Truthy(NoParams))], env) == "必須入力です。"
    ensures s != "" ==> Resolve(s, [Rule("required", Truthy(NoParams))], env) == ""
  {
    var rules := [Rule("required", Truthy(NoParams))];
    assert IndexOf(rules, "required") == Some(0);
    ResolveWithoutMsg("", rules, env);
    ResolveWithoutMsg(s, rules, env);
  }

  /** `{between: {min: 4, max: 8}}`: a two-character value reports both bounds;
      a four-character value passes. The bounds are parameters fixed by the
      precondition: written as literals, the message functions are unfolded
      eagerly on the constant arguments and the proof grows too expensive. */
  lemma BetweenScenario(s: string, t: string, lo: int, hi: int, env: Env)
    requires lo == 4 && hi == 8 && |s| == 2 && |t| == 4
    ensures Resolve(s, [Rule("between", Truthy(NoParams.(min := Some(lo), max := Some(hi))))], env)
         == "4字以上8字以下で入力してください。"
    ensures Resolve(t, [Rule("between", Truthy(NoParams.(min := Some(lo), max := Some(hi))))], env) == ""
  {
    var r := Rule("between", Truthy(NoParams.(min := Some(lo), max := Some(hi))));
    BetweenText(lo, hi);
    FourToEightText(lo, hi);
    assert Failure(s, r, env) == Some(GetErrorText(Between, Int(lo), Int(hi)));
    assert Failure(t, r, env).None?;
    ResolveWithoutMsg(s, [r], env);
    ResolveWithoutMsg(t, [r], env);
  }

  lemma FourToEightText(lo: int, hi: int)
    requires lo == 4 && hi == 8
    ensures IntToString(lo) + "字以上" + IntToString(hi) + "字以下で入力してください。"
         == "4字以上8字以下で入力してください。"
  {
    assert IntToString(lo) == "4" && IntToString(hi) == "8";
  }

  /** `{equals: {target: "#pw2", name: "Password"}}`: equal to the target's
      value passes; anything else names the field in the message. The name
      is a parameter fixed by the precondition, as in `BetweenScenario`. */
  lemma EqualsScenario(s: string, name: string, env: Env)
    requires name == "Password" && "#pw2" in env.values
    ensures var rules := [Rule("equals", Truthy(NoParams.(target := Some("#pw2"), name := name)))];
      Resolve(s, rules, env) == (if s == env.values["#pw2"] then "" else "Passwordと内容が一致しません。")
  {
    var rules := [Rule("equals", Truthy(NoParams.(target := Some("#pw2"), name := name)))];
    NoSamePlainName(name);
    ResolveWithoutMsg(s, rules, env);
  }

  /** `{pattern: {reg: "^[A-Z]+$"}}`: a non-empty value passes exactly when
      the expression matches it, and otherwise reports the generic text. */
  lemma PatternScenario(s: string, env: Env)
    requires s != ""
    ensures var rules := [Rule("pattern", Truthy(NoParams.(reg := Some("^[A-Z]+$"))))];
      Resolve(s, rules, env) == (if env.matches(s, "^[A-Z]+$") then "" else "指定された形式と一致しません。")
  {
    var rules := [Rule("pattern", Truthy(NoParams.(reg := Some("^[A-Z]+$"))))];
    PlainTemplateUnchanged(PatternMismatch, NoArg, NoArg);
    ResolveWithoutMsg(s, rules, env);
  }

  /** `{required: true, alphanumeric: true}`: `true` on `alphanumeric` checks
      nothing, so a non-empty value of any characters passes. */
  lemma AlphanumericTrueScenario(s: string, env: Env)
    requires s != ""
    ensures Resolve(s, [Rule("required", Truthy(NoParams)), Rule("alphanumeric", Truthy(NoParams))], env) == ""
  {
    var rules := [Rule("required", Truthy(NoParams)), Rule("alphanumeric", Truthy(NoParams))];
    TruthyParameterlessIsNoOp(s, "alphanumeric", NoParams, env);
    ResolveWithoutMsg(s, rules, env);
  }

  /** Two required fields, one of them empty: the gate blocks and annotates
      the empty one; once it is filled in, the gate lets the form through. */
  lemma SubmitGateScenario(env: Env, fixedEnv: Env)
    requires env.values == map["#a" := "", "#b" := "x"]
    requires fixedEnv.values == map["#a" := "y", "#b" := "x"]
    ensures var hs := [Binding("#a", [Rule("required", Truthy(NoParams))]), Binding("#b", [Rule("required", Truthy(NoParams))])];
      var blocked := Gate(map[], hs, {"#a", "#b"}, env);
      blocked == map["#a" := "必須入力です。"]
      && Gate(blocked, hs, {"#a", "#b"}, fixedEnv) == map[]
  {
    var req := [Rule("required", Truthy(NoParams))];
    var hs := [Binding("#a", req), Binding("#b", req)];
    var inputs: set<FieldId> := {"#a", "#b"};
    RequiredScenario("x", env);
    RequiredScenario("y", fixedEnv);
    RequiredScenario("x", fixedEnv);
    assert FieldValue(env.values, "#a") == "" && FieldValue(env.values, "#b") == "x";
    assert FieldValue(fixedEnv.values, "#a") == "y" && FieldValue(fixedEnv.values, "#b") == "x";
    var h1 := [Binding("#a", req)];
    assert hs[..1] == h1 && h1[..0] == [];
    var blocked1 := Gate(map[], h1, inputs, env);
    assert Gate(map[], h1[..0], inputs, env) == map[];
    assert blocked1 == Toggled(map[], "#a", Resolve("", req, env));
    var blocked := Gate(map[], hs, inputs, env);
    assert blocked == Toggled(blocked1, "#b", Resolve("x", req, env));
    assert blocked == map["#a" := "必須入力です。"];
    var fixed1 := Gate(blocked, h1, inputs, fixedEnv);
    assert Gate(blocked, h1[..0], inputs, fixedEnv) == blocked;
    assert fixed1 == Toggled(blocked, "#a", Resolve("y", req, fixedEnv));
    assert Gate(blocked, hs, inputs, fixedEnv) == Toggled(fixed1, "#b", Resolve("x", req, fixedEnv));
  }

  /** The same story told through the plugin instance: set up, submit with
      an empty required field, correct it, submit again. */
  method SubmitAndCorrect(matches: (string, string) -> bool) returns (first: bool, second: bool)
    ensures !first && second
  {
    var req := [Rule("required", Truthy(NoParams))];
    var hs := [Binding("#a", req), Binding("#b", req)];
    var inputs: set<FieldId> := {"#a", "#b"};
    var p := new AutoValidation(map["#a" := "", "#b" := "x"], inputs, matches, Some(hs), []);
    var fixedValues := map["#a" := "y", "#b" := "x"];
    SubmitGateScenario(p.Env(), Rules.Env(fixedValues, matches));
    assert p.handlers == hs && p.formInputs == inputs && Texts(p.annotations) == map[];
    var alert, scroll;
    first, alert, scroll := p.Submit();
    assert Texts(p.annotations) == map["#a" := "必須入力です。"];
    assert "#a" in p.annotations;
    p.Edit("#a", "y");
    assert p.values == fixedValues;
    second, alert, scroll := p.Submit();
    assert Texts(p.annotations) == map[];
  }
}
