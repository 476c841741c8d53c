/** Message resolution of jquery.autoValidation: the table of default
    messages, `getErrorText` (a template with its first `#STR1#` and `#STR2#`
    replaced by JavaScript's `String.prototype.replace`), and `getErrorHtml`
    (the markup of an error annotation). */
module Messages {

  import opened Wrappers

  /** The keys of the message table `msg` other than `master`, which the
      settings own (see Plugin). */
  datatype MsgKey =
    | Alphanumeric | Req | Kana | Mail | Short | Long | HalfNum | FullNum | Num
    | Between | NoSame | NoSameGeneric | PatternMismatch | Func

  /** The default text of the submit alert, `msg.master`. */
  const MasterText: string := "入力に誤りがあります。入力内容をご確認ください。"

  function Template(k: MsgKey): string
  {
    match k
    case Alphanumeric => "半角英数字で入力してください。"
    case Req => "必須入力です。"
    case Kana => "全角カタカナで入力してください。"
    case Mail => "メールアドレスの形式で入力してください。"
    case Short => "#STR1#字以上で入力してください。"
    case Long => "#STR1#字以下で入力してください。"
    case HalfNum => "半角数字で入力してください。"
    case FullNum => "全角数字で入力してください。"
    case Num => "数字で入力してください。"
    case Between => "#STR1#字以上#STR2#字以下で入力してください。"
    case NoSame => "#STR1#と内容が一致しません。"
    case NoSameGeneric => "値が一致しません。"
    case PatternMismatch => "指定された形式と一致しません。"
    case Func => "入力に誤りがあります"
  }

  const Placeholder1: string := "#STR1#"
  const Placeholder2: string := "#STR2#"

  /** A replacement argument of `getErrorText`: absent (`undefined`), a
      number (a rule's `min` or `max`) or a string (a rule's `name`). */
  datatype Arg = NoArg | Int(n: int) | Text(s: string)

  /** JavaScript truthiness of an argument: `undefined`, `0` and `''` are falsy. */
  predicate IsTruthy(a: Arg)
  {
    match a
    case NoArg => false
    case Int(n) => n != 0
    case Text(s) => s != ""
  }

  // ---------------------------------------------------------------------
  // Decimal text of an integer: `String(n)` for a safe integer (|n| < 2^53)
  // ---------------------------------------------------------------------

  function Digit(d: nat): char
    requires d < 10
  {
    "0123456789"[d]
  }

  function DigitsOf(n: nat): string
    decreases n
  {
    if n < 10 then [Digit(n)] else DigitsOf(n / 10) + [Digit(n % 10)]
  }

  function IntToString(n: int): string
  {
    if n < 0 then "-" + DigitsOf(-n) else DigitsOf(n)
  }

  /** The value of a string of decimal digits, the inverse of `DigitsOf`. */
  function ParseDigits(s: string): nat
    decreases |s|
  {
    if s == [] then 0
    else
      var c := s[|s| - 1];
      var d := if '0' <= c <= '9' then (c as int) - ('0' as int) else 0;
      10 * ParseDigits(s[..|s| - 1]) + d
  }

  /** `DigitsOf` is a decimal numeral: digits only, and it reads back as `n`. */
  lemma {:induction false} DigitsRoundTrip(n: nat)
    ensures |DigitsOf(n)| > 0
    ensures forall k :: 0 <= k < |DigitsOf(n)| ==> '0' <= DigitsOf(n)[k] <= '9'
    ensures ParseDigits(DigitsOf(n)) == n
    decreases n
  {
    if n >= 10 {
      DigitsRoundTrip(n / 10);
      var s := DigitsOf(n);
      assert s[..|s| - 1] == DigitsOf(n / 10);
    }
  }

  /** The text of a number holds no `$` and no `#`, so replacing a
      placeholder by it inserts it literally and creates no new placeholder. */
  lemma IntTextIsPlain(n: int)
    ensures '$' !in IntToString(n) && '#' !in IntToString(n)
    ensures |IntToString(n)| > 0
  {
    DigitsRoundTrip(if n < 0 then -n else n);
  }

  // ---------------------------------------------------------------------
  // String.prototype.replace with a string pattern
  // ---------------------------------------------------------------------

  /** `pat` occurs in `s` starting at position `k`. */
  predicate OccursAt(s: string, pat: string, k: nat)
  {
    k + |pat| <= |s| && s[k..k + |pat|] == pat
  }

  /** The position of the first occurrence of `pat` in `s` at or after `from`. */
  function FindFrom(s: string, pat: string, from: nat): (r: Option<nat>)
    ensures r.Some? ==> from <= r.value && OccursAt(s, pat, r.value)
    ensures r.Some? ==> forall k :: from <= k < r.value ==> !OccursAt(s, pat, k)
    ensures r.None? ==> forall k :: from <= k ==> !OccursAt(s, pat, k)
    decreases |s| - from
  {
    if from + |pat| > |s| then None
    else if s[from..from + |pat|] == pat then Some(from)
    else FindFrom(s, pat, from + 1)
  }

  /** The position of the first occurrence of `pat` in `s`. */
  function FindFirst(s: string, pat: string): (r: Option<nat>)
  {
    FindFrom(s, pat, 0)
  }

  /** The replacement text after JavaScript's `$` patterns are expanded:
      `$$` is a dollar sign, `$&` the matched text, `` $` `` the text before
      the match, `$'` the text after it; any other `$` is literal (a string
      pattern has no capture groups). */
  function Expand(rep: string, matched: string, before: string, after: string): string
    decreases |rep|
  {
    if |rep| == 0 then ""
    else if rep[0] == '$' && |rep| >= 2 && rep[1] in "$&`'" then
      var insert :=
        if rep[1] == '$' then "$"
        else if rep[1] == '&' then matched
        else if rep[1] == '`' then before
        else after;
      insert + Expand(rep[2..], matched, before, after)
    else [rep[0]] + Expand(rep[1..], matched, before, after)
  }

  /** A replacement without `$` is inserted as it is. */
  lemma {:induction false} ExpandPlain(rep: string, matched: string, before: string, after: string)
    requires '$' !in rep
    ensures Expand(rep, matched, before, after) == rep
    decreases |rep|
  {
    if |rep| > 0 {
      assert rep[0] != '$';
      assert '$' !in rep[1..] by {
        forall k | 0 <= k < |rep[1..]| ensures rep[1..][k] != '$' {
          assert rep[1..][k] == rep[k + 1];
        }
      }
      ExpandPlain(rep[1..], matched, before, after);
    }
  }

  /** `s.replace(pat, rep)`: only the first occurrence is replaced. */
  function ReplaceFirst(s: string, pat: string, rep: string): (r: string)
    ensures |r| >= |s| - |pat|
    ensures FindFirst(s, pat).None? ==> r == s
  {
    match FindFirst(s, pat)
    case None => s
    case Some(i) =>
      s[..i] + Expand(rep, pat, s[..i], s[i + |pat|..]) + s[i + |pat|..]
  }

  /** `getErrorText(type, replace1, replace2)`: a replacement is applied only
      when its argument is truthy. */
  function GetErrorText(k: MsgKey, r1: Arg, r2: Arg): string
  {
    var t := Template(k);
    var t1 := if IsTruthy(r1) then ReplaceFirst(t, Placeholder1, ArgText(r1)) else t;
    if IsTruthy(r2) then ReplaceFirst(t1, Placeholder2, ArgText(r2)) else t1
  }

  /** `String(a)` for a truthy argument. */
  function ArgText(a: Arg): string
  {
    match a
    case NoArg => "undefined"
    case Int(n) => IntToString(n)
    case Text(s) => s
  }

  // ---------------------------------------------------------------------
  // Markup of an annotation
  // ---------------------------------------------------------------------

  function OpenTag(tag: string, cls: string): string
  {
    "<" + tag + " class=\"" + cls + "\">"
  }

  function CloseTag(tag: string): string
  {
    "</" + tag + ">"
  }

  /** `getErrorHtml(str)` with the configured tag and class. */
  function GetErrorHtml(tag: string, cls: string, text: string): string
  {
    OpenTag(tag, cls) + text + CloseTag(tag)
  }

  /** The text inside an annotation's markup, if the markup has the given tag and class. */
  function ErrorHtmlText(tag: string, cls: string, html: string): Option<string>
  {
    var o, c := OpenTag(tag, cls), CloseTag(tag);
    if |html| >= |o| + |c| && html[..|o|] == o && html[|html| - |c|..] == c
    then Some(html[|o|..|html| - |c|])
    else None
  }

  // ---------------------------------------------------------------------
  // Properties
  // ---------------------------------------------------------------------

  /** The annotation markup keeps its text recoverable. */
  lemma ErrorHtmlRoundTrip(tag: string, cls: string, text: string)
    ensures ErrorHtmlText(tag, cls, GetErrorHtml(tag, cls, text)) == Some(text)
  {
    var o, c := OpenTag(tag, cls), CloseTag(tag);
    var h := GetErrorHtml(tag, cls, text);
    assert h[..|o|] == o;
    assert h[|h| - |c|..] == c;
    assert h[|o|..|h| - |c|] == text;
  }

  /** An occurrence of the placeholder with none before it is the one replaced. */
  lemma ReplaceFirstAt(a: string, pat: string, b: string, rep: string)
    requires forall k :: 0 <= k < |a| ==> !OccursAt(a + pat + b, pat, k)
    ensures FindFirst(a + pat + b, pat) == Some(|a|)
    ensures ReplaceFirst(a + pat + b, pat, rep) == a + Expand(rep, pat, a, b) + b
  {
    var s := a + pat + b;
    assert OccursAt(s, pat, |a|);
    assert s[..|a|] == a && s[|a| + |pat|..] == b;
  }

  /** A placeholder preceded by text without `#` is the first occurrence. */
  lemma ReplaceAfterPlain(a: string, pat: string, b: string, rep: string)
    requires |pat| > 0 && pat[0] == '#' && '#' !in a
    ensures FindFirst(a + pat + b, pat) == Some(|a|)
    ensures ReplaceFirst(a + pat + b, pat, rep) == a + Expand(rep, pat, a, b) + b
  {
    var s := a + pat + b;
    forall k | 0 <= k < |a|
      ensures !OccursAt(s, pat, k)
    {
      assert s[k..k + |pat|][0] == a[k];
    }
    ReplaceFirstAt(a, pat, b, rep);
  }

  /** No `#` in `s`: a placeholder cannot occur. */
  lemma NoHashNoMatch(s: string, pat: string)
    requires |pat| > 0 && pat[0] == '#' && '#' !in s
    ensures FindFirst(s, pat).None?
  {
    forall k | 0 <= k
      ensures !OccursAt(s, pat, k)
    {
      assert k + |pat| <= |s| ==> s[k..k + |pat|][0] == s[k];
    }
  }

  /** Every message text is non-empty, whatever the arguments. */
  lemma ErrorTextNonEmpty(k: MsgKey, r1: Arg, r2: Arg)
    ensures |GetErrorText(k, r1, r2)| > 0
  {
    if k !in {Short, Long, Between, NoSame} {
      PlainTemplateUnchanged(k, r1, r2);
    }
  }

  lemma AllErrorTextsNonEmpty()
    ensures forall k, r1, r2 :: |GetErrorText(k, r1, r2)| > 0
  {
    forall k, r1, r2
      ensures |GetErrorText(k, r1, r2)| > 0
    {
      ErrorTextNonEmpty(k, r1, r2);
    }
  }

  /** Both replacements falsy (`undefined`, `0`, `''`): the template is returned as it is. */
  lemma FalsyArgsKeepTemplate(k: MsgKey, r1: Arg, r2: Arg)
    requires !IsTruthy(r1) && !IsTruthy(r2)
    ensures GetErrorText(k, r1, r2) == Template(k)
  {
  }

  /** A template without placeholder (the `kana` text that the `short` rule
      reports, for one) is returned unchanged whatever the arguments. */
  lemma PlainTemplateUnchanged(k: MsgKey, r1: Arg, r2: Arg)
    requires k !in {Short, Long, Between, NoSame}
    ensures GetErrorText(k, r1, r2) == Template(k)
  {
    NoHashNoMatch(Template(k), Placeholder1);
    NoHashNoMatch(Template(k), Placeholder2);
  }

  /** `between` with non-zero bounds: both numbers are substituted, in order. */
  lemma BetweenText(min: int, max: int)
    requires min != 0 && max != 0
    ensures GetErrorText(Between, Int(min), Int(max))
         == IntToString(min) + "字以上" + IntToString(max) + "字以下で入力してください。"
  {
    var lo, hi := IntToString(min), IntToString(max);
    IntTextIsPlain(min);
    IntTextIsPlain(max);
    var tail := "字以上" + Placeholder2 + "字以下で入力してください。";
    assert Template(Between) == [] + Placeholder1 + tail;
    ReplaceAfterPlain([], Placeholder1, tail, lo);
    ExpandPlain(lo, Placeholder1, [], tail);
    var t1 := lo + "字以上" + Placeholder2 + "字以下で入力してください。";
    assert [] + lo + tail == t1;
    var a := lo + "字以上";
    assert '#' !in a;
    ReplaceAfterPlain(a, Placeholder2, "字以下で入力してください。", hi);
    ExpandPlain(hi, Placeholder2, a, "字以下で入力してください。");
  }

  /** `between` with a zero bound leaves that placeholder in the text. */
  lemma BetweenZeroMin(max: int)
    requires max != 0
    ensures GetErrorText(Between, Int(0), Int(max))
         == "#STR1#字以上" + IntToString(max) + "字以下で入力してください。"
  {
    var hi := IntToString(max);
    IntTextIsPlain(max);
    var a, b := "#STR1#字以上", "字以下で入力してください。";
    var s := a + Placeholder2 + b;
    assert Template(Between) == s;
    forall k | 0 <= k < |a|
      ensures !OccursAt(s, Placeholder2, k)
    {
      if k == 0 {
        assert s[k..k + 6][4] != Placeholder2[4];
      } else if k == 5 {
        assert s[k..k + 6][1] != Placeholder2[1];
      } else {
        assert s[k..k + 6][0] != Placeholder2[0];
      }
    }
    ReplaceFirstAt(a, Placeholder2, b, hi);
    ExpandPlain(hi, Placeholder2, a, b);
  }

  /** `long` with a non-zero bound. */
  lemma LongText(max: int)
    requires max != 0
    ensures GetErrorText(Long, Int(max), NoArg) == IntToString(max) + "字以下で入力してください。"
  {
    var b := "字以下で入力してください。";
    assert Template(Long) == [] + Placeholder1 + b;
    ReplaceAfterPlain([], Placeholder1, b, IntToString(max));
    IntTextIsPlain(max);
    ExpandPlain(IntToString(max), Placeholder1, [], b);
  }

  /** `nosame` with a name: the name is inserted after its `$` patterns are
      expanded. */
  lemma NoSameText(name: string)
    requires name != ""
    ensures GetErrorText(NoSame, Text(name), NoArg)
         == Expand(name, Placeholder1, "", "と内容が一致しません。") + "と内容が一致しません。"
  {
    var b := "と内容が一致しません。";
    assert Template(NoSame) == [] + Placeholder1 + b;
    ReplaceAfterPlain([], Placeholder1, b, name);
    assert GetErrorText(NoSame, Text(name), NoArg) == ReplaceFirst(Template(NoSame), Placeholder1, name);
  }

  /** A name without `$` appears in the `nosame` message as it is. */
  lemma NoSamePlainName(name: string)
    requires name != "" && '$' !in name
    ensures GetErrorText(NoSame, Text(name), NoArg) == name + "と内容が一致しません。"
  {
    NoSameText(name);
    ExpandPlain(name, Placeholder1, "", "と内容が一致しません。");
  }

  /** Text without `$` in front of a replacement is copied as it is. */
  lemma {:induction false} ExpandPlainPrefix(p: string, rest: string, matched: string, before: string, after: string)
    requires '$' !in p
    ensures Expand(p + rest, matched, before, after) == p + Expand(rest, matched, before, after)
    decreases |p|
  {
    if |p| > 0 {
      assert (p + rest)[0] == p[0] && (p + rest)[1..] == p[1..] + rest;
      assert '$' !in p[1..] by {
        forall k | 0 <= k < |p[1..]| ensures p[1..][k] != '$' {
          assert p[1..][k] == p[k + 1];
        }
      }
      assert p[0] != '$' && [p[0]] + p[1..] == p;
      calc {
        Expand(p + rest, matched, before, after);
        [p[0]] + Expand(p[1..] + rest, matched, before, after);
        { ExpandPlainPrefix(p[1..], rest, matched, before, after); }
        [p[0]] + (p[1..] + Expand(rest, matched, before, after));
        ([p[0]] + p[1..]) + Expand(rest, matched, before, after);
        p + Expand(rest, matched, before, after);
      }
    } else {
      assert p + rest == rest;
    }
  }

  /** A name ending in `$&` brings the placeholder itself back into the message. */
  lemma NoSameDollarPattern(pre: string)
    requires '$' !in pre
    ensures GetErrorText(NoSame, Text(pre + "$&"), NoArg) == pre + "#STR1#と内容が一致しません。"
  {
    var b := "と内容が一致しません。";
    NoSameText(pre + "$&");
    ExpandPlainPrefix(pre, "$&", Placeholder1, "", b);
    assert "$&"[2..] == "";
    assert Expand("$&", Placeholder1, "", b) == Placeholder1;
  }
}
