# jquery.autoValidation in Dafny

A verified model of jquery.autoValidation, a jQuery plugin that validates form
fields as the user types. Each field selector is bound to a rule object. On
every `keyup` or `blur` the plugin evaluates the field's value against its
rules. It then shows the resulting message in an annotation element right
after the field, or removes the annotation when the message is empty. When
the form is submitted, the plugin re-evaluates every form input first. It
blocks the submission while any annotation remains, optionally raising an
alert and scrolling to a target.

The model has six modules:

- `Wrappers` (wrappers.dfy): the `Option` type.
- `Predicates` (predicates.dfy): the `valid` predicate library as predicates
  over `seq<char>`. The regular expressions are written as the character
  ranges and shapes they denote. It also holds lemmas on the empty-value
  policy, the length bounds, the katakana-name shape and the mail shape.
- `Messages` (messages.dfy): the message table and `getErrorText`. That
  function is modelled with JavaScript's `String.prototype.replace` on a
  string pattern: only the first occurrence is replaced, and `$$`, `$&`,
  `` $` `` and `$'` in the replacement are expanded. `String(n)` of an integer
  bound (below 1e21 in magnitude; see "Left out") and `getErrorHtml` are
  modelled too.
- `Rules` (rules.dfy): the rule evaluator. `ComputeMessage` is the loop of
  `validate` as written, with its `requiredAllow` flag and its message
  accumulator. It is proved equal to the declarative `Resolve`: the last
  custom `msg`, else the `required` text on an empty value, else the default
  message of the first failing rule, else "".
- `Plugin` (plugin.dfy): the plugin's module-level settings and the settings
  loop (`Configure` and `AutoValidation.Apply`). Also here: the class
  `AutoValidation`, with the bound handlers, the per-field annotations (each
  its own document node), the input-error class, `toggleErrorHtml`,
  `validate` and the submit gate. The pure specifications `Toggled` and
  `Gate` carry the properties of the annotation state and the gate.
- `Scenarios` (scenarios.dfy): end-to-end consequences on small rule objects
  (`required`, `between`, `equals`, `pattern`, `alphanumeric: true`), and a
  form that is blocked and then let through once corrected.

The model follows the code as written. Where the code behaves differently
from what its comments announce, the contracts state the code's behaviour:

- `required` has no real short-circuit. The comment at line 194 says the
  `required` check comes first. But after it fails, `requiredAllow` is
  always true, because the message is never empty. So the rule loop still
  runs. `required` wins only because a non-empty message is never replaced
  by a later default (`Rules.StepKeepsMessage`, `Rules.ResolveWithoutMsg`).
- A truthy `msg` on any rule replaces the message when the loop reaches that
  rule, even if its check passes (`Rules.LastMsgWins`).
- `true` on `alphanumeric`, `email`, `kana` or `name_kana` checks nothing.
  Those checks run only when the rule's value is falsy
  (`Rules.TruthyParameterlessIsNoOp`, `Scenarios.AlphanumericTrueScenario`).
- `short` reports the katakana message, whatever its `min`
  (`Rules.ShortReportsKanaText`).
- `equals` has no empty bypass (`Rules.EqualsHasNoEmptyBypass`).
- A zero bound is falsy, so `getErrorText` leaves its placeholder in the
  text (`Messages.BetweenZeroMin`). A `name` containing `$&` puts the
  placeholder back into the text (`Messages.NoSameDollarPattern`).

## Model

| member | source | states |
|---|---|---|
| Predicates.IsInputted | jquery.autoValidation.js:52 | `isInputted`: the value is non-empty |
| Predicates.IsHalfNum | jquery.autoValidation.js:59 | `isHalfNum`: empty, or only the digits 0-9 |
| Predicates.IsFullNum | jquery.autoValidation.js:66 | `isFullNum`: empty, or only the full-width digits U+FF10-U+FF19 |
| Predicates.IsHalfKana | jquery.autoValidation.js:73 | `isHalfKana`: empty, or only the half-width katakana U+FF67-U+FF9F |
| Predicates.IsFullKana | jquery.autoValidation.js:80 | `isFullKana`: empty, or only the characters U+30A1-U+30FC |
| Predicates.IsFullKanaName | jquery.autoValidation.js:87 | `isFullKanaName`: empty, or name kana, then spaces (U+3000 or U+0020), then at least one name kana |
| Predicates.IsMail | jquery.autoValidation.js:94 | `isMail`: empty, or a local part of the allowed characters, `@`, and two or more dot-separated labels |
| Predicates.IsBetween | jquery.autoValidation.js:103 | `isBetween`: empty, or min ≤ length ≤ max; an absent bound compares false |
| Predicates.IsShort | jquery.autoValidation.js:110 | `isShort`: empty, or min ≤ length |
| Predicates.IsLong | jquery.autoValidation.js:117 | `isLong`: empty, or length ≤ max |
| Predicates.IsSame | jquery.autoValidation.js:124 | `isSame`: strict equality of the two strings |
| Predicates.IsAlphanumeric | jquery.autoValidation.js:130 | `isAlphanumeric`: empty, or only ASCII letters and digits |
| Predicates.Pattern | jquery.autoValidation.js:137 | `pattern`: empty, or the matcher accepts the value for the expression |
| Predicates.EmptyIsValid | jquery.autoValidation.js:52-137 | every test except `isInputted` and `isSame` accepts the empty string, for any bounds, expression and matcher |
| Predicates.PresenceAndEquality | jquery.autoValidation.js:52-124 | `isInputted` is false exactly on ""; `isSame` is plain equality, so "" equals "" and differs from any non-empty target |
| Predicates.LengthBounds | jquery.autoValidation.js:103-117 | on a non-empty value, `isBetween` holds iff both bounds exist and min ≤ length ≤ max; `isShort` iff min exists and min ≤ length; `isLong` iff max exists and length ≤ max |
| Predicates.NameIsKanaAndSpaces | jquery.autoValidation.js:87 | a katakana name ends with a name kana and holds only name kana and spaces |
| Predicates.KanaRunIsName | jquery.autoValidation.js:87 | any non-empty run of name kana is a valid katakana name |
| Predicates.NameSpacesAreOneBlock | jquery.autoValidation.js:87 | the spaces of a katakana name form one contiguous block |
| Predicates.NameSplitIsForced | jquery.autoValidation.js:87 | a separator space is never a name kana, so the kana-spaces-kana split of a name is forced: the space block runs exactly from the first space to the last |
| Predicates.LabelsChars | jquery.autoValidation.js:94 | a dot-separated list of labels holds only label characters and dots |
| Predicates.DomainChars | jquery.autoValidation.js:94 | a mail domain holds only label characters and dots, and has an inner dot |
| Predicates.DomainHasNoAt | jquery.autoValidation.js:94 | a mail domain contains no `@` |
| Predicates.OneAtBetween | jquery.autoValidation.js:94 | joining two `@`-free strings with `@` leaves that `@` as the only one |
| Predicates.MailAt | jquery.autoValidation.js:94 | a mail address has an `@` with a non-empty part before it, and no other `@` before or after it |
| Predicates.MailHasOneAt | jquery.autoValidation.js:94 | every `@` of a mail address is at the same position: the address has exactly one |
| Predicates.MailHasDottedDomain | jquery.autoValidation.js:94 | a mail address has an `@` followed later by a dot |
| Predicates.MailOfParts | jquery.autoValidation.js:94 | a local part, `@`, and two labels joined by a dot always form a valid address |
| Messages.Template | jquery.autoValidation.js:27-43 | the message table, one text per key, with `#STR1#` and `#STR2#` placeholders; the `master` entry (line 28) is the constant `Messages.MasterText` |
| Messages.IsTruthy | jquery.autoValidation.js:182-185 | the tests `if(replace1)` and `if(replace2)`: `undefined`, `0` and `''` are falsy, every other argument truthy |
| Messages.IntToString | jquery.autoValidation.js:243 | `String(n)` of an integer bound: a minus sign for a negative bound, then its decimal digits |
| Messages.ArgText | jquery.autoValidation.js:183-186 | the text `replace` inserts for an argument: the decimal text of a number, a string as it is |
| Messages.FindFirst | jquery.autoValidation.js:183 | the position of the first occurrence of the placeholder, which `replace` with a string pattern acts on |
| Messages.Expand | jquery.autoValidation.js:183 | the replacement text with `$$`, `$&`, `` $` `` and `$'` expanded as `String.prototype.replace` does |
| Messages.GetErrorText | jquery.autoValidation.js:180-189 | `getErrorText`: the template, with `#STR1#` replaced by a truthy first argument, then `#STR2#` by a truthy second one |
| Messages.GetErrorHtml | jquery.autoValidation.js:170-172 | `getErrorHtml`: the text wrapped in the error tag carrying the error class |
| Messages.DigitsRoundTrip | jquery.autoValidation.js:243 | the decimal text of a bound is a non-empty string of digits that reads back as the bound |
| Messages.IntTextIsPlain | jquery.autoValidation.js:183-186 | the text of a number holds no `$` and no `#`, so it is inserted literally and adds no placeholder |
| Messages.FindFrom | jquery.autoValidation.js:183 | the position found is an occurrence of the placeholder, with none before it; None means there is no occurrence at all |
| Messages.ExpandPlain | jquery.autoValidation.js:183 | a replacement without `$` is inserted unchanged |
| Messages.ExpandPlainPrefix | jquery.autoValidation.js:183 | the `$`-free prefix of a replacement is copied unchanged before its patterns |
| Messages.ReplaceFirst | jquery.autoValidation.js:183-186 | the result is at least the input minus the placeholder's length, and the input is unchanged when the placeholder does not occur |
| Messages.ReplaceFirstAt | jquery.autoValidation.js:183-186 | when no earlier occurrence exists, the first occurrence is the one replaced, and the rest of the text is kept |
| Messages.ReplaceAfterPlain | jquery.autoValidation.js:183-186 | a placeholder preceded by `#`-free text is the first occurrence and is the one replaced |
| Messages.NoHashNoMatch | jquery.autoValidation.js:183-186 | text without `#` contains no placeholder |
| Messages.ErrorTextNonEmpty | jquery.autoValidation.js:180-189 | every message text is non-empty, whatever the arguments |
| Messages.AllErrorTextsNonEmpty | jquery.autoValidation.js:27-43 | the same for all keys and arguments at once |
| Messages.FalsyArgsKeepTemplate | jquery.autoValidation.js:182-187 | with both replacements falsy (`undefined`, `0`, `''`) the template is returned unchanged |
| Messages.PlainTemplateUnchanged | jquery.autoValidation.js:180-189 | a template without placeholder is returned unchanged, whatever the arguments |
| Messages.BetweenText | jquery.autoValidation.js:38 | `between` with non-zero bounds substitutes min for `#STR1#` and max for `#STR2#`, in that order |
| Messages.BetweenZeroMin | jquery.autoValidation.js:182-186 | a zero `min` is falsy, so `#STR1#` stays in the `between` text while max is substituted |
| Messages.LongText | jquery.autoValidation.js:248 | `long` with a non-zero bound substitutes it for `#STR1#` |
| Messages.NoSameText | jquery.autoValidation.js:260 | `nosame` with a name inserts the name after expanding its `$` patterns |
| Messages.NoSamePlainName | jquery.autoValidation.js:260 | a name without `$` appears in the `nosame` text as it is |
| Messages.NoSameDollarPattern | jquery.autoValidation.js:183 | a name ending in `$&` puts the placeholder itself back into the text |
| Messages.ErrorHtmlRoundTrip | jquery.autoValidation.js:170-172 | the annotation markup has the configured tag and class, and its inner text is the message |
| Rules.TargetValue | jquery.autoValidation.js:257 | `$(target).val()`: the target field's value, or `undefined` when there is no target or no such field |
| Rules.HasMsg | jquery.autoValidation.js:221 | `rules[rule] && rules[rule]['msg']`: the rule's value is truthy and carries a non-empty `msg` |
| Rules.RequiredDeclared | jquery.autoValidation.js:206 | `rules.required !== undefined`: a `required` key exists and its value is not `undefined` |
| Rules.InitialText | jquery.autoValidation.js:201-216 | the message before the rule loop: on an empty value with `required` declared, the required rule's truthy `msg` or else the `req` text; otherwise "" |
| Rules.Failure | jquery.autoValidation.js:225-302 | the default message one rule reports on a value, or None when its check passes or it checks nothing |
| Rules.Step | jquery.autoValidation.js:221-302 | one iteration of the rule loop: a truthy `msg` replaces the message, then a failure's default text fills an empty message |
| Rules.Resolve | jquery.autoValidation.js:200-305 | the message of `validate`: the last custom `msg`, else the `required` text on an empty value, else the first failure's text, else "" |
| Rules.IndexOf | jquery.autoValidation.js:206 | the index found holds the key, and no index holds it when none is found |
| Rules.ComputeMessage | jquery.autoValidation.js:201-305 | the `required` check followed by the rule loop yields exactly `Resolve` |
| Rules.FailureNonEmpty | jquery.autoValidation.js:227-302 | every default message a failing rule reports is non-empty |
| Rules.LastMsgIsLast | jquery.autoValidation.js:221-223 | the custom message chosen belongs to the last rule carrying one; none is chosen iff no rule carries one |
| Rules.FirstFailureIsFirst | jquery.autoValidation.js:220-303 | the default message chosen belongs to the first failing rule in key order; none is chosen iff every rule passes |
| Rules.FirstFailureSnoc | jquery.autoValidation.js:220-303 | appending a rule changes the first failure only when none failed before |
| Rules.AfterRulesStep | jquery.autoValidation.js:220-304 | one iteration of the loop keeps the loop invariant |
| Rules.InitialThenRulesIsResolve | jquery.autoValidation.js:206-216 | starting the loop from the `required` check's message yields `Resolve` |
| Rules.StepKeepsMessage | jquery.autoValidation.js:221-299 | once the message is non-empty, an iteration never clears it, and only a rule's own `msg` replaces it |
| Rules.ResolveWithoutMsg | jquery.autoValidation.js:200-305 | with no custom messages: the `required` text on an empty value when `required` is declared; otherwise the first failing rule's default message, and "" iff every rule passes |
| Rules.LastMsgWins | jquery.autoValidation.js:221-223 | the message is the last custom `msg`, even when every check passes |
| Rules.EmptyFailsOnlyEquals | jquery.autoValidation.js:52-137 | on an empty value only an `equals` rule whose target value is not "" can fail |
| Rules.EmptyValueIsValid | jquery.autoValidation.js:206-305 | without `required`, custom messages or `equals`, an empty value yields "" |
| Rules.TruthyParameterlessIsNoOp | jquery.autoValidation.js:271-277 | a truthy value without `rule` on `alphanumeric`, `email`, `kana` or `name_kana` checks nothing |
| Rules.FalsyParameterlessChecks | jquery.autoValidation.js:279-302 | a falsy value on those kinds runs their check: each fails iff its predicate fails |
| Rules.ShortReportsKanaText | jquery.autoValidation.js:251-254 | `short` fails iff `isShort` fails, and then reports the katakana text |
| Rules.OtherPitchIsNoOp | jquery.autoValidation.js:228-239 | `number` with a pitch other than "full" or "half" checks nothing |
| Rules.EqualsHasNoEmptyBypass | jquery.autoValidation.js:256-265 | `equals` passes iff the target exists and its value equals the field's value, empty or not |
| Rules.BetweenFailsOutside | jquery.autoValidation.js:241-245 | on a non-empty value `between` passes iff both bounds exist and the length lies between them |
| Rules.CustomRuleBypassedOnEmpty | jquery.autoValidation.js:271-276 | a custom `rule` callback is not consulted on an empty value |
| Plugin.IsTabKeyup | jquery.autoValidation.js:200 | the event is a keyup whose key code is 9 |
| Plugin.FieldValue | jquery.autoValidation.js:202 | `$(this).val()`: the field's current value, "" for a field the document does not hold |
| Plugin.ApplyEntry | jquery.autoValidation.js:314-337 | one case of the settings `switch`: each known key sets its setting, `errorMsgClass` also the selector, `alert` disables the alert or sets the master text |
| Plugin.Configure | jquery.autoValidation.js:313-338 | the settings loop: the entries applied in order |
| Plugin.ConfigureConcat | jquery.autoValidation.js:313-338 | applying two runs of settings is applying their concatenation |
| Plugin.SelectorFollowsClass | jquery.autoValidation.js:318-321 | after the settings loop the error selector is `'.'` followed by the error class |
| Plugin.AlertOffIsFinal | jquery.autoValidation.js:331-333 | an `alert` entry with `out === false` disables the alert, and no later entry enables it again |
| Plugin.AlertOffKeepsMaster | jquery.autoValidation.js:332-336 | with `out === false` the entry's `msg` is ignored |
| Plugin.MasterOnlyFromAlert | jquery.autoValidation.js:331-336 | the master message changes only to the truthy `msg` of an `alert` entry whose `out` is not false |
| Plugin.UnknownKeyIgnored | jquery.autoValidation.js:313-337 | removing an unknown key from the settings changes nothing |
| Plugin.AutoValidation.Apply | jquery.autoValidation.js:314-337 | one iteration of the settings loop updates the settings as `ApplyEntry` |
| Plugin.AutoValidation.constructor | jquery.autoValidation.js:10-24 | the defaults (the constant `Plugin.Defaults`), then the settings loop (`Configure`), then one handler bound per selector in order |
| Plugin.Toggled | jquery.autoValidation.js:146-162 | `toggleErrorHtml` on the annotation texts: "" removes the field's text, anything else sets it |
| Plugin.ToggledAnnotations | jquery.autoValidation.js:146-162 | `toggleErrorHtml` on the annotation nodes: "" removes the field's node; otherwise an existing node gets the new text and a missing one is created with the configured tag and class |
| Plugin.AutoValidation.Markup | jquery.autoValidation.js:170-172 | the markup of a field's annotation reads back, through its tag and class, as the annotation's text |
| Plugin.ToggleKeepsWellFormed | jquery.autoValidation.js:146-162 | toggling keeps every annotation non-empty, on a node of its own and with the configured tag and class; it acts on the texts as `Toggled`, and the field is annotated afterwards iff the text is non-empty |
| Plugin.ToggleIdempotent | jquery.autoValidation.js:146-162 | repeating a toggle with the same text changes nothing |
| Plugin.ToggleRoundTrip | jquery.autoValidation.js:146-162 | after failing evaluations the field holds one annotation with the latest message; a passing one removes it and restores the other fields |
| Plugin.AutoValidation.Toggle | jquery.autoValidation.js:146-162 | "" removes the annotation and the error class; otherwise one annotation holds the text, updated in place on its node if present and inserted as a new node otherwise, whose markup is `getErrorHtml` of the text; other fields are unchanged; returns true |
| Plugin.AutoValidation.Edit | jquery.autoValidation.js:202 | the user changes one field's value, which `$(this).val()` reads at the next event; the annotations stay well formed |
| Plugin.Gate | jquery.autoValidation.js:353-357 | the forced evaluation: each handler bound to a form input toggles its field with `Resolve` of the field's value, in bind order |
| Plugin.AutoValidation.Validate | jquery.autoValidation.js:198-307 | a Tab keyup returns false and changes nothing; any other event toggles the field with `Resolve` of its value |
| Plugin.LastBinding | jquery.autoValidation.js:340-343 | the last handler bound to a field, with none after it |
| Plugin.GateFieldState | jquery.autoValidation.js:353-357 | after the forced evaluation a triggered field has an annotation iff its last handler yields a message, and the annotation holds that message; other fields keep theirs |
| Plugin.GateBlocksIffSomeFieldFails | jquery.autoValidation.js:353-369 | when every annotation present before the gate belongs to a bound field that `form input` matches, submission is blocked iff some triggered field's last handler yields a message (an annotation on a field outside `form input` is not re-evaluated and keeps blocking; `GateFieldState` covers that case) |
| Plugin.AutoValidation.Submit | jquery.autoValidation.js:353-370 | the handlers of form inputs run in bind order; the form proceeds iff no annotation remains; otherwise the alert fires iff enabled, and it scrolls iff a target is set |
| Scenarios.RequiredScenario | jquery.autoValidation.js:206-216 | `{required: true}` yields the required text on "" and "" on any other value |
| Scenarios.BetweenScenario | jquery.autoValidation.js:241-245 | `{between: {min: 4, max: 8}}` reports "4字以上8字以下で入力してください。" for a 2-character value and passes a 4-character one |
| Scenarios.EqualsScenario | jquery.autoValidation.js:256-265 | `equals` with a target and a name passes iff the values are equal, and otherwise names the field |
| Scenarios.PatternScenario | jquery.autoValidation.js:266-270 | `pattern` passes a non-empty value iff the expression matches it, and otherwise reports the generic text |
| Scenarios.AlphanumericTrueScenario | jquery.autoValidation.js:225-277 | `alphanumeric: true` beside `required` accepts any non-empty value |
| Scenarios.SubmitGateScenario | jquery.autoValidation.js:353-369 | two required fields, one empty: the gate annotates that field; once it is filled in, the gate leaves no annotation |
| Scenarios.SubmitAndCorrect | jquery.autoValidation.js:311-370 | through the plugin instance: the first submit is blocked, the submit after the correction proceeds |

## Left out

- jQuery and DOM plumbing (`$(sel)`, `bind`, `trigger`, `next`, `after`, `remove`, `html`, `addClass`, `removeClass`): the document is a map of field values, a map of annotations keyed by field, and the set of fields carrying the input-error class.
- Each selector names one field. A selector that matches several elements, or none, is not modelled.
- `$('form input').trigger` visits elements in document order, and the model runs the handlers in bind order. Each handler only touches its own field's annotation, so the result is the same. The order is kept among handlers of the same field.
- Only annotations the plugin created are counted. Other elements of the page carrying the error class, which `$(ERROR_SELECTOR)` would also find, are not modelled.
- The plugin is set up once, on a document without annotations. A second call would change the error class or selector while annotations exist. Neither that nor a second submit handler is modelled.
- The `alert()` dialog, `$(SCROLL_TARGET).offset().top` and the `animate` scroll: `Submit` returns the alert text and the scroll target and speed it would use.
- Plugin.AutoValidation.Submit: when the scroll target matches no element, `$(SCROLL_TARGET).offset()` is undefined and reading `.top` throws (lines 364-368) before `return false`. The handler then does not cancel the submission, so the form is sent with the annotations showing. The model does not see the document's other elements and returns proceed = false in that case too.
- Plugin.AutoValidation.Toggle, Plugin.AutoValidation.Submit, Plugin.GateBlocksIffSomeFieldFails: these assume `errorMsgClass` is a single class name. The selector is built as `'.' + ERROR_CLASS` (line 320). With a value such as `'error text-red'` it becomes a descendant selector. The inserted annotation (`class="error text-red"`) then never matches `next(ERROR_SELECTOR)` or `$(ERROR_SELECTOR)`. Each failing keyup would insert another annotation, a passing one would remove none, and the gate would never block. The same holds for a class with selector metacharacters. The model treats every annotation as found by the selector.
- `new RegExp(reg)` and the JavaScript regular-expression engine: `pattern` uses an uninterpreted matcher `matches(s, reg)`. An invalid expression would throw; that is not modelled.
- User-supplied `rule` callbacks are opaque `string -> bool` functions. Exceptions and side effects inside them are not modelled.
- The `console.error` call when no rule object is given (line 345): with no rule object, the model binds no handler.
- The event names `'keyup blur'` and their splitting: an event is a keyup with an optional key code, or a blur.
- Predicates.IsBetween, Predicates.IsShort, Predicates.IsLong: a Dafny `char` is a Unicode scalar value. A character outside the Basic Multilingual Plane is one element of the model's string, but JavaScript's `str.length` counts two UTF-16 code units for it. The length tests agree with the source only on values within that plane. Every character range the regular expressions use lies in it.
- Rule-object keys are visited in the order of the given sequence. JavaScript's ordering of integer-like keys is not modelled, and neither are duplicate keys: `required` is looked up at its first occurrence.
- The values of rule properties are typed: `min` and `max` are integers or absent, `msg`, `pitch` and `name` are strings. JavaScript's coercion of other types (a string `min`, a numeric `msg`) is not modelled.
- Settings are typed too. `scrollSpeed` is an integer, although jQuery's `animate` also accepts `'slow'` and `'fast'`. `scrollTarget` is a selector string, with "" standing for `false` and every other falsy value.
- Messages.IntToString, Messages.DigitsRoundTrip: a bound is an unbounded integer written in plain decimal. JavaScript's `String(n)` uses exponent notation (`1e+21`) from 1e21 in magnitude up. Integers beyond 2^53 are not exactly representable as JavaScript numbers. The model agrees with the source only for safe integers, whose magnitude is at most 2^53 - 1.
- `alert: null` in the settings raises a TypeError in the source. The model's `Alert` entry always has `out` and `msg`.
- `isHalfKana` and the `num` message are defined but never used by the evaluator. They are modelled (`Predicates.IsHalfKana`, `Messages.Template`) with no property beyond the empty-value policy.
