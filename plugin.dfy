/** The plugin entry `$.fn.autoValidation` of jquery.autoValidation: its
    module-level settings and the settings loop that overwrites them, the
    validation handlers it binds, the error annotations that
    `toggleErrorHtml` keeps next to the fields, and the submit gate.

    The document is abstracted to what the plugin reads and writes: the
    fields' values, the fields matched by `form input`, at most one
    annotation per field (the element of the error class right after the
    field) and the set of fields carrying the input-error class. */
module Plugin {

  import opened Wrappers
  import opened Messages
  import opened Rules

  // ---------------------------------------------------------------------
  // Settings
  // ---------------------------------------------------------------------

  /** One entry of the `setting` object, in iteration order. */
  datatype SettingEntry =
    | ErrorInputClass(inputClass: string)
    | ErrorMsgClass(msgClass: string)
    | ScrollSpeed(speed: int)
    | ErrorTag(tag: string)
    /** `scrollTarget`: a selector, or "" for `false` (no scrolling) */
    | ScrollTarget(target: string)
    /** `alert`: `outIsFalse` is `out === false`; `msg` is "" when falsy */
    | Alert(outIsFalse: bool, msg: string)
    | Unknown(key: string)

  /** The plugin's module-level variables. */
  datatype Config = Config(
    inputErrorClass: string,
    errorClass: string,
    errorSelector: string,
    scrollSpeed: int,
    scrollTarget: string,
    errorTag: string,
    errorAlert: bool,
    master: string)

  /** The values the variables start with. */
  const Defaults: Config := Config("form-error", "error", ".error", 400, "form", "span", true, MasterText)

  /** One iteration of the settings loop. */
  function ApplyEntry(c: Config, e: SettingEntry): Config
  {
    match e
    case ErrorInputClass(v) => c.(inputErrorClass := v)
    case ErrorMsgClass(v) => c.(errorClass := v, errorSelector := "." + v)
    case ScrollSpeed(v) => c.(scrollSpeed := v)
    case ErrorTag(v) => c.(errorTag := v)
    case ScrollTarget(v) => c.(scrollTarget := v)
    case Alert(outIsFalse, m) =>
      if outIsFalse then c.(errorAlert := false)
      else if m != "" then c.(master := m)
      else c
    case Unknown(_) => c
  }

  /** The settings after the loop has applied `es` in order. */
  function Configure(c: Config, es: seq<SettingEntry>): Config
    decreases |es|
  {
    if |es| == 0 then c else ApplyEntry(Configure(c, es[..|es| - 1]), es[|es| - 1])
  }

  predicate SelectorMatchesClass(c: Config)
  {
    c.errorSelector == "." + c.errorClass
  }

  /** Applying two runs of entries is applying their concatenation. */
  lemma {:induction false} ConfigureConcat(c: Config, a: seq<SettingEntry>, b: seq<SettingEntry>)
    ensures Configure(c, a + b) == Configure(Configure(c, a), b)
    decreases |b|
  {
    if |b| == 0 {
      assert a + b == a;
    } else {
      assert (a + b)[..|a + b| - 1] == a + b[..|b| - 1];
      ConfigureConcat(c, a, b[..|b| - 1]);
    }
  }

  /** The error selector is always `'.'` followed by the error class. */
  lemma {:induction false} SelectorFollowsClass(c: Config, es: seq<SettingEntry>)
    requires SelectorMatchesClass(c)
    ensures SelectorMatchesClass(Configure(c, es))
    decreases |es|
  {
    if |es| > 0 {
      SelectorFollowsClass(c, es[..|es| - 1]);
    }
  }

  /** `alert.out === false` switches the alert off for good: no later entry
      switches it back on. */
  lemma {:induction false} AlertOffIsFinal(c: Config, es: seq<SettingEntry>, k: int)
    requires 0 <= k < |es| && es[k].Alert? && es[k].outIsFalse
    ensures !Configure(c, es).errorAlert
    decreases |es|
  {
    if k < |es| - 1 {
      AlertOffIsFinal(c, es[..|es| - 1], k);
    }
  }

  /** `alert.out === false` ignores `alert.msg`. */
  lemma AlertOffKeepsMaster(c: Config, m: string)
    ensures ApplyEntry(c, Alert(true, m)) == c.(errorAlert := false)
  {
  }

  /** The master message changes only to the truthy `msg` of an `alert`
      entry whose `out` is not `false`. */
  lemma {:induction false} MasterOnlyFromAlert(c: Config, es: seq<SettingEntry>)
    ensures Configure(c, es).master == c.master
         || exists k :: 0 <= k < |es| && es[k].Alert? && !es[k].outIsFalse && es[k].msg != ""
                        && es[k].msg == Configure(c, es).master
    decreases |es|
  {
    if |es| > 0 {
      var init := es[..|es| - 1];
      MasterOnlyFromAlert(c, init);
      assert forall k :: 0 <= k < |init| ==> init[k] == es[k];
    }
  }

  /** An unknown key is ignored: removing it changes nothing. */
  lemma UnknownKeyIgnored(c: Config, es: seq<SettingEntry>, k: int)
    requires 0 <= k < |es| && es[k].Unknown?
    ensures Configure(c, es) == Configure(c, es[..k] + es[k + 1..])
  {
    assert es == es[..k + 1] + es[k + 1..];
    ConfigureConcat(c, es[..k + 1], es[k + 1..]);
    ConfigureConcat(c, es[..k], es[k + 1..]);
    assert es[..k + 1][..k] == es[..k];
  }

  // ---------------------------------------------------------------------
  // Annotations
  // ---------------------------------------------------------------------

  /** An error annotation: the document node inserted after a field, the tag
      and class it was created with, and its text. */
  datatype Annotation = Annotation(node: nat, tag: string, cls: string, text: string)

  /** A validation handler bound by the plugin: a field and its rule object. */
  datatype Binding = Binding(field: FieldId, rules: seq<Rule>)

  /** A value-changing event delivered to a validation handler. */
  datatype Event = Keyup(keyCode: Option<int>) | Blur

  predicate IsTabKeyup(e: Event)
  {
    e.Keyup? && e.keyCode == Some(9)
  }

  /** The text of each annotation. */
  function Texts(ann: map<FieldId, Annotation>): map<FieldId, string>
  {
    map f | f in ann :: ann[f].text
  }

  /** The texts are keyed by the annotated fields. */
  lemma TextsOf(ann: map<FieldId, Annotation>)
    ensures Texts(ann).Keys == ann.Keys
    ensures forall f :: f in ann ==> Texts(ann)[f] == ann[f].text
  {
  }

  /** The annotation texts after `toggleErrorHtml(field, txt)`. */
  function Toggled(m: map<FieldId, string>, f: FieldId, txt: string): map<FieldId, string>
  {
    if txt == "" then m - {f} else m[f := txt]
  }

  /** `$(field).val()`; a field that is not in the document reads as "". */
  function FieldValue(values: map<FieldId, string>, f: FieldId): string
  {
    if f in values then values[f] else ""
  }

  /** The annotation texts after the submit gate has triggered the handlers
      `hs` in order; only fields matched by `form input` are triggered. */
  function Gate(m: map<FieldId, string>, hs: seq<Binding>, inputs: set<FieldId>, env: Env): map<FieldId, string>
    decreases |hs|
  {
    if |hs| == 0 then m
    else
      var before := Gate(m, hs[..|hs| - 1], inputs, env);
      var h := hs[|hs| - 1];
      if h.field in inputs then Toggled(before, h.field, Resolve(FieldValue(env.values, h.field), h.rules, env))
      else before
  }

  /** The position of the last handler bound to field `f`. */
  function LastBinding(hs: seq<Binding>, f: FieldId): (r: Option<nat>)
    ensures r.Some? ==> r.value < |hs| && hs[r.value].field == f
    ensures r.Some? ==> forall j :: r.value < j < |hs| ==> hs[j].field != f
    ensures r.None? ==> forall j :: 0 <= j < |hs| ==> hs[j].field != f
    decreases |hs|
  {
    if |hs| == 0 then None
    else if hs[|hs| - 1].field == f then Some(|hs| - 1)
    else LastBinding(hs[..|hs| - 1], f)
  }

  /** Every annotation has text, the given tag and class, and a node of its
      own, numbered below `next`. */
  predicate WellFormed(ann: map<FieldId, Annotation>, next: nat, tag: string, cls: string)
  {
    && (forall f :: f in ann ==> ann[f].text != "" && ann[f].node < next)
    && (forall f :: f in ann ==> ann[f].tag == tag && ann[f].cls == cls)
    && (forall f, g :: f in ann && g in ann && f != g ==> ann[f].node != ann[g].node)
  }

  /** The annotations after `toggleErrorHtml(f, txt)`: the annotation goes
      with "", has its text replaced in place when present, or is inserted as
      node `next` with the markup `getErrorHtml(txt)` of tag `tag` and class `cls`. */
  function ToggledAnnotations(ann: map<FieldId, Annotation>, next: nat, tag: string, cls: string,
                              f: FieldId, txt: string): map<FieldId, Annotation>
  {
    if txt == "" then ann - {f}
    else if f in ann then ann[f := ann[f].(text := txt)]
    else ann[f := Annotation(next, tag, cls, txt)]
  }

  /** Toggling keeps the annotations well formed and acts on the texts as
      `Toggled` does. */
  lemma ToggleKeepsWellFormed(ann: map<FieldId, Annotation>, next: nat, tag: string, cls: string, f: FieldId, txt: string)
    requires WellFormed(ann, next, tag, cls)
    ensures WellFormed(ToggledAnnotations(ann, next, tag, cls, f, txt), if txt != "" && f !in ann then next + 1 else next, tag, cls)
    ensures Texts(ToggledAnnotations(ann, next, tag, cls, f, txt)) == Toggled(Texts(ann), f, txt)
    ensures ToggledAnnotations(ann, next, tag, cls, f, txt).Keys == if txt == "" then ann.Keys - {f} else ann.Keys + {f}
  {
    var r := ToggledAnnotations(ann, next, tag, cls, f, txt);
    TextsOf(ann);
    TextsOf(r);
    assert Texts(r) == Toggled(Texts(ann), f, txt);
  }

  /** Toggling twice with the same text is toggling once. */
  lemma ToggleIdempotent(m: map<FieldId, string>, f: FieldId, txt: string)
    ensures Toggled(Toggled(m, f, txt), f, txt) == Toggled(m, f, txt)
  {
  }

  /** A failing evaluation leaves one annotation with its message; a later
      passing one removes it, however many failing ones came between. */
  lemma {:induction false} ToggleRoundTrip(m: map<FieldId, string>, f: FieldId, txts: seq<string>)
    requires forall k :: 0 <= k < |txts| ==> txts[k] != ""
    ensures |txts| > 0 ==> f in ToggleAll(m, f, txts) && ToggleAll(m, f, txts)[f] == txts[|txts| - 1]
    ensures Toggled(ToggleAll(m, f, txts), f, "") == m - {f}
    decreases |txts|
  {
    if |txts| > 0 {
      ToggleRoundTrip(m, f, txts[..|txts| - 1]);
    }
  }

  /** Toggling field `f` with the texts `txts` in order. */
  function ToggleAll(m: map<FieldId, string>, f: FieldId, txts: seq<string>): map<FieldId, string>
    decreases |txts|
  {
    if |txts| == 0 then m else Toggled(ToggleAll(m, f, txts[..|txts| - 1]), f, txts[|txts| - 1])
  }

  /** After the gate, a triggered field has an annotation exactly when the
      last handler bound to it yields a message, and its text is that
      message; every other field keeps what it had. */
  lemma {:induction false} GateFieldState(m: map<FieldId, string>, hs: seq<Binding>, inputs: set<FieldId>, env: Env, f: FieldId)
    ensures f in inputs && LastBinding(hs, f).Some? ==>
      var txt := Resolve(FieldValue(env.values, f), hs[LastBinding(hs, f).value].rules, env);
      (f in Gate(m, hs, inputs, env) <==> txt != "")
      && (f in Gate(m, hs, inputs, env) ==> Gate(m, hs, inputs, env)[f] == txt)
    ensures !(f in inputs && LastBinding(hs, f).Some?) ==>
      (f in Gate(m, hs, inputs, env) <==> f in m)
      && (f in m ==> Gate(m, hs, inputs, env)[f] == m[f])
    decreases |hs|
  {
    if |hs| > 0 {
      GateFieldState(m, hs[..|hs| - 1], inputs, env, f);
    }
  }

  /** Submission is blocked exactly when some triggered field's last handler
      yields a message, provided every annotation present before belongs to
      a triggered field. */
  lemma GateBlocksIffSomeFieldFails(m: map<FieldId, string>, hs: seq<Binding>, inputs: set<FieldId>, env: Env)
    requires forall f :: f in m ==> f in inputs && LastBinding(hs, f).Some?
    ensures Gate(m, hs, inputs, env) != map[] <==>
      exists k :: 0 <= k < |hs| && hs[k].field in inputs && LastBinding(hs, hs[k].field) == Some(k)
                  && Resolve(FieldValue(env.values, hs[k].field), hs[k].rules, env) != ""
  {
    var g := Gate(m, hs, inputs, env);
    if g != map[] {
      var f :| f in g;
      GateFieldState(m, hs, inputs, env, f);
      assert f in inputs && LastBinding(hs, f).Some?;
      var k := LastBinding(hs, f).value;
      assert hs[k].field == f;
    }
    if exists k :: 0 <= k < |hs| && hs[k].field in inputs && LastBinding(hs, hs[k].field) == Some(k)
                  && Resolve(FieldValue(env.values, hs[k].field), hs[k].rules, env) != "" {
      var k :| 0 <= k < |hs| && hs[k].field in inputs && LastBinding(hs, hs[k].field) == Some(k)
               && Resolve(FieldValue(env.values, hs[k].field), hs[k].rules, env) != "";
      GateFieldState(m, hs, inputs, env, hs[k].field);
    }
  }

  // ---------------------------------------------------------------------
  // The plugin instance
  // ---------------------------------------------------------------------

  class AutoValidation {
    // The module-level variables (lines 10-43).
    var inputErrorClass: string
    var errorClass: string
    var errorSelector: string
    var scrollSpeed: int
    var scrollTarget: string
    var errorTag: string
    var errorAlert: bool
    var master: string

    /** The validation handlers bound to `keyup blur`, in bind order. */
    var handlers: seq<Binding>

    // The document.
    var values: map<FieldId, string>
    /** The fields carrying an annotation. */
    var annotations: map<FieldId, Annotation>
    /** The fields carrying the input-error class. */
    var errorInputs: set<FieldId>
    /** The number given to the next annotation node inserted. */
    var nextNode: nat
    /** The fields `$('form input')` matches. */
    const formInputs: set<FieldId>
    /** `s.match(new RegExp(reg))` */
    const matches: (string, string) -> bool

    function Settings(): Config
      reads this
    {
      Config(inputErrorClass, errorClass, errorSelector, scrollSpeed, scrollTarget, errorTag, errorAlert, master)
    }

    function Env(): Env
      reads this`values
    {
      Rules.Env(values, matches)
    }

    /** The error selector names the error class; a field carries the
        input-error class exactly when it has an annotation; every annotation
        has text and a node of its own. */
    ghost predicate Valid()
      reads this
    {
      && SelectorMatchesClass(Settings())
      && errorInputs == annotations.Keys
      && WellFormed(annotations, nextNode, errorTag, errorClass)
    }

    /** The markup of a field's annotation: the element of its tag and class
        around its text, from which the text can be read back. */
    function Markup(f: FieldId): (html: string)
      reads this
      requires f in annotations
      ensures ErrorHtmlText(annotations[f].tag, annotations[f].cls, html) == Some(annotations[f].text)
    {
      var a := annotations[f];
      ErrorHtmlRoundTrip(a.tag, a.cls, a.text);
      GetErrorHtml(a.tag, a.cls, a.text)
    }

    /** `$(form).autoValidation(validOpt, setting)` on a document without
        annotations: the settings loop, then one handler per selector. */
    constructor (values: map<FieldId, string>, formInputs: set<FieldId>, matches: (string, string) -> bool,
                 validOpt: Option<seq<Binding>>, setting: seq<SettingEntry>)
      ensures Valid()
      ensures Settings() == Configure(Defaults, setting)
      ensures handlers == (if validOpt.Some? then validOpt.value else [])
      ensures this.values == values && this.formInputs == formInputs && this.matches == matches
      ensures annotations == map[] && errorInputs == {}
    {
      this.values := values;
      this.formInputs := formInputs;
      this.matches := matches;
      inputErrorClass, errorClass, errorSelector := "form-error", "error", ".error";
      scrollSpeed, scrollTarget, errorTag := 400, "form", "span";
      errorAlert, master := true, MasterText;
      handlers, annotations, errorInputs, nextNode := [], map[], {}, 0;
      new;
      ghost var c0 := Settings();
      for i := 0 to |setting|
        invariant Settings() == Configure(c0, setting[..i])
        invariant SelectorMatchesClass(Settings())
        invariant this.values == values && handlers == [] && annotations == map[] && errorInputs == {}
      {
        Apply(setting[i]);
        assert setting[..i + 1][..i] == setting[..i];
      }
      assert setting[..|setting|] == setting;
      if validOpt.Some? {
        var sels := validOpt.value;
        for i := 0 to |sels|
          invariant handlers == sels[..i]
          invariant Settings() == Configure(Defaults, setting) && SelectorMatchesClass(Settings())
          invariant this.values == values && annotations == map[] && errorInputs == {}
        {
          handlers := handlers + [sels[i]];
        }
        assert sels[..|sels|] == sels;
      }
    }

    /** One iteration of the settings loop. */
    method Apply(e: SettingEntry)
      modifies this`inputErrorClass, this`errorClass, this`errorSelector, this`scrollSpeed,
               this`scrollTarget, this`errorTag, this`errorAlert, this`master
      ensures Settings() == ApplyEntry(old(Settings()), e)
    {
      match e
      case ErrorInputClass(v) =>
        inputErrorClass := v;
      case ErrorMsgClass(v) =>
        errorClass := v;
        errorSelector := "." + errorClass;
      case ScrollSpeed(v) =>
        scrollSpeed := v;
      case ErrorTag(v) =>
        errorTag := v;
      case ScrollTarget(v) =>
        scrollTarget := v;
      case Alert(outIsFalse, m) =>
        if outIsFalse {
          errorAlert := false;
        } else if m != "" {
          master := m;
        }
      case Unknown(_) =>
    }

    /** The user changes a field's value. */
    method Edit(f: FieldId, v: string)
      requires Valid()
      modifies this`values
      ensures Valid()
      ensures values == old(values)[f := v]
    {
      values := values[f := v];
    }

    /** `toggleErrorHtml(field, txt)`: with "" the annotation and the
        input-error class go; otherwise the field ends with one annotation
        holding `txt`, updated in place when it had one and inserted
        otherwise, and the input-error class. Always returns true. */
    method Toggle(f: FieldId, txt: string) returns (r: bool)
      requires Valid()
      modifies this`annotations, this`errorInputs, this`nextNode
      ensures Valid()
      ensures r
      ensures f in annotations <==> txt != ""
      ensures Texts(annotations) == Toggled(Texts(old(annotations)), f, txt)
      ensures annotations - {f} == old(annotations) - {f}
      ensures txt != "" && f in old(annotations) ==> annotations[f].node == old(annotations[f].node) && nextNode == old(nextNode)
      ensures txt != "" && f !in old(annotations) ==> annotations[f].node == old(nextNode) && nextNode == old(nextNode) + 1
      ensures txt == "" ==> nextNode == old(nextNode)
      ensures txt != "" ==> Markup(f) == GetErrorHtml(errorTag, errorClass, txt)
    {
      ToggleKeepsWellFormed(annotations, nextNode, errorTag, errorClass, f, txt);
      var inserted := txt != "" && f !in annotations;
      annotations := ToggledAnnotations(annotations, nextNode, errorTag, errorClass, f, txt);
      if |txt| == 0 {
        errorInputs := errorInputs - {f};
      } else {
        errorInputs := errorInputs + {f};
      }
      if inserted {
        nextNode := nextNode + 1;
      }
      r := true;
    }

    /** `validate` on field `f` with its rule object: a Tab keyup returns
        false and changes nothing; any other event evaluates the rules and
        toggles the field's annotation with the message. */
    method Validate(f: FieldId, rules: seq<Rule>, e: Event) returns (returnedFalse: bool)
      requires Valid()
      modifies this`annotations, this`errorInputs, this`nextNode
      ensures Valid()
      ensures returnedFalse == IsTabKeyup(e)
      ensures IsTabKeyup(e) ==> annotations == old(annotations) && errorInputs == old(errorInputs) && nextNode == old(nextNode)
      ensures !IsTabKeyup(e) ==>
        Texts(annotations) == Toggled(Texts(old(annotations)), f, Resolve(FieldValue(values, f), rules, Env()))
    {
      if e.Keyup? && e.keyCode == Some(9) {
        return true;
      }
      var txt := ComputeMessage(FieldValue(values, f), rules, Env());
      var _ := Toggle(f, txt);
      returnedFalse := false;
    }

    /** The submit handler: trigger `keyup` on every `form input`, then block
        the submission when any annotation exists, raising the alert when it
        is enabled and scrolling when a target is set. */
    method Submit() returns (proceed: bool, alertText: Option<string>, scroll: Option<(string, int)>)
      requires Valid()
      modifies this`annotations, this`errorInputs, this`nextNode
      ensures Valid()
      ensures Texts(annotations) == Gate(Texts(old(annotations)), handlers, formInputs, Env())
      ensures proceed <==> annotations == map[]
      ensures alertText == if !proceed && errorAlert then Some(master) else None
      ensures scroll == if !proceed && scrollTarget != "" then Some((scrollTarget, scrollSpeed)) else None
    {
      for i := 0 to |handlers|
        invariant Valid()
        invariant Texts(annotations) == Gate(Texts(old(annotations)), handlers[..i], formInputs, Env())
      {
        var h := handlers[i];
        if h.field in formInputs {
          var _ := Validate(h.field, h.rules, Keyup(None));
        }
        assert handlers[..i + 1][..i] == handlers[..i];
      }
      assert handlers[..|handlers|] == handlers;
      proceed, alertText, scroll := true, None, None;
      if |annotations| > 0 {
        if errorAlert {
          alertText := Some(master);
        }
        if scrollTarget != "" {
          scroll := Some((scrollTarget, scrollSpeed));
        }
        proceed := false;
      }
    }
  }
}
