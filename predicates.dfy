/** The `valid` predicate library of jquery.autoValidation: pure tests on a
    field's value. Every test except `IsInputted` and `IsSame` accepts the
    empty string, so that emptiness is reported by the `required` rule alone.
    The character classes are the fixed ranges of the library's regular
    expressions, all of them in the Basic Multilingual Plane. A string is a
    sequence of Unicode scalar values, so a character outside that plane is
    one element here where JavaScript's `length` counts two code units. */
module Predicates {

  import opened Wrappers

  // ---------------------------------------------------------------------
  // Character classes
  // ---------------------------------------------------------------------

  /** `[0-9]` */
  predicate IsHalfDigit(c: char) { '0' <= c <= '9' }

  /** `[０-９]`: FULLWIDTH DIGIT ZERO .. FULLWIDTH DIGIT NINE */
  predicate IsFullDigit(c: char) { '\U{FF10}' <= c <= '\U{FF19}' }

  /** `[ｧ-ﾝﾞﾟ]`: U+FF67 .. U+FF9D, U+FF9E, U+FF9F, one contiguous range */
  predicate IsHalfKanaChar(c: char) { '\U{FF67}' <= c <= '\U{FF9F}' }

  /** `[ァ-ー]`: KATAKANA LETTER SMALL A .. KATAKANA-HIRAGANA PROLONGED SOUND MARK */
  predicate IsFullKanaChar(c: char) { '\U{30A1}' <= c <= '\U{30FC}' }

  /** `[a-zA-Z0-9]` */
  predicate IsAlnumChar(c: char) { 'a' <= c <= 'z' || 'A' <= c <= 'Z' || '0' <= c <= '9' }

  /** `[ァ-ヶー゛゜]`: the letters of a katakana name */
  predicate IsNameKanaChar(c: char)
  {
    '\U{30A1}' <= c <= '\U{30F6}' || c == '\U{30FC}' || c == '\U{309B}' || c == '\U{309C}'
  }

  /** `[　 ]`: IDEOGRAPHIC SPACE or SPACE, the separator inside a katakana name */
  predicate IsNameSpace(c: char) { c == '\U{3000}' || c == ' ' }

  /** The characters allowed before the `@` of a mail address. */
  predicate IsLocalChar(c: char) { IsAlnumChar(c) || c in ".!#$%&'*+/=?^_`{|}~-" }

  /** The characters of one label of a mail domain: `[a-zA-Z0-9-]` */
  predicate IsLabelChar(c: char) { IsAlnumChar(c) || c == '-' }

  // ---------------------------------------------------------------------
  // Shapes of the regular expressions
  // ---------------------------------------------------------------------

  /** Every character of `s` is in the class. */
  predicate OnlyOf(s: string, inClass: char -> bool)
  {
    forall i :: 0 <= i < |s| ==> inClass(s[i])
  }

  /** `^[class]+$`: a non-empty run of characters of the class, and nothing else. */
  predicate PlusOf(s: string, inClass: char -> bool)
  {
    |s| > 0 && OnlyOf(s, inClass)
  }

  /** `^[ァ-ヶー゛゜]*[　 ]*[ァ-ヶー゛゜]+$`: kana, then spaces, then at least one kana. */
  predicate NameShape(s: string)
  {
    exists i, j | 0 <= i <= j < |s| ::
      OnlyOf(s[..i], IsNameKanaChar) && OnlyOf(s[i..j], IsNameSpace) && OnlyOf(s[j..], IsNameKanaChar)
  }

  /** `label(\.label)*` with `label = [a-zA-Z0-9-]+` */
  predicate Labels(d: string)
    decreases |d|
  {
    PlusOf(d, IsLabelChar)
    || exists k | 0 < k < |d| :: d[k] == '.' && PlusOf(d[..k], IsLabelChar) && Labels(d[k + 1..])
  }

  /** `label(?:\.label)+`: the domain of a mail address has at least two labels. */
  predicate DomainShape(d: string)
  {
    exists k | 0 < k < |d| :: d[k] == '.' && PlusOf(d[..k], IsLabelChar) && Labels(d[k + 1..])
  }

  /** `^[local]+@domain$` */
  predicate MailShape(s: string)
  {
    exists i | 0 < i < |s| :: s[i] == '@' && PlusOf(s[..i], IsLocalChar) && DomainShape(s[i + 1..])
  }

  // ---------------------------------------------------------------------
  // The predicates of the library (jquery.autoValidation.js, `valid`)
  // ---------------------------------------------------------------------

  predicate IsInputted(s: string) { |s| != 0 }

  predicate IsHalfNum(s: string) { |s| == 0 || PlusOf(s, IsHalfDigit) }

  predicate IsFullNum(s: string) { |s| == 0 || PlusOf(s, IsFullDigit) }

  predicate IsHalfKana(s: string) { |s| == 0 || PlusOf(s, IsHalfKanaChar) }

  predicate IsFullKana(s: string) { |s| == 0 || PlusOf(s, IsFullKanaChar) }

  predicate IsFullKanaName(s: string) { |s| == 0 || NameShape(s) }

  predicate IsMail(s: string) { |s| == 0 || MailShape(s) }

  /** A JavaScript comparison with a missing bound (`undefined`) is false,
      so an absent `min` or `max` fails every non-empty value. */
  predicate IsBetween(s: string, min: Option<int>, max: Option<int>)
  {
    |s| == 0 || (min.Some? && |s| >= min.value && max.Some? && max.value >= |s|)
  }

  predicate IsShort(s: string, min: Option<int>) { |s| == 0 || (min.Some? && min.value <= |s|) }

  predicate IsLong(s: string, max: Option<int>) { |s| == 0 || (max.Some? && |s| <= max.value) }

  predicate IsSame(s1: string, s2: string) { s1 == s2 }

  predicate IsAlphanumeric(s: string) { |s| == 0 || PlusOf(s, IsAlnumChar) }

  /** `pattern(str, reg)`: `matches(s, reg)` stands for `s.match(new RegExp(reg))`;
      `new RegExp(undefined)` is the empty expression, which matches every string. */
  predicate Pattern(s: string, reg: Option<string>, matches: (string, string) -> bool)
  {
    |s| == 0 || reg.None? || matches(s, reg.value)
  }

  // ---------------------------------------------------------------------
  // Properties
  // ---------------------------------------------------------------------

  /** The empty-value policy: every test but presence and equality accepts "". */
  lemma EmptyIsValid(min: Option<int>, max: Option<int>, reg: Option<string>, matches: (string, string) -> bool)
    ensures !IsInputted("")
    ensures IsHalfNum("") && IsFullNum("") && IsHalfKana("") && IsFullKana("")
    ensures IsFullKanaName("") && IsMail("") && IsAlphanumeric("")
    ensures IsBetween("", min, max) && IsShort("", min) && IsLong("", max)
    ensures Pattern("", reg, matches)
  {
  }

  /** Presence fails exactly on the empty string; equality has no empty bypass. */
  lemma PresenceAndEquality(s: string, t: string)
    ensures IsInputted(s) <==> s != ""
    ensures IsSame(s, t) <==> s == t
    ensures IsSame("", "") && (t != "" ==> !IsSame("", t))
  {
  }

  /** On a non-empty value the length tests are the plain bound comparisons,
      and a missing bound fails. */
  lemma LengthBounds(s: string, min: Option<int>, max: Option<int>)
    requires s != ""
    ensures IsBetween(s, min, max) <==> min.Some? && max.Some? && min.value <= |s| <= max.value
    ensures IsShort(s, min) <==> min.Some? && min.value <= |s|
    ensures IsLong(s, max) <==> max.Some? && |s| <= max.value
  {
  }

  /** A katakana name ends with a kana and is made of kana and spaces only. */
  lemma NameIsKanaAndSpaces(s: string)
    requires NameShape(s)
    ensures IsNameKanaChar(s[|s| - 1])
    ensures forall k :: 0 <= k < |s| ==> IsNameKanaChar(s[k]) || IsNameSpace(s[k])
  {
    var i, j :| 0 <= i <= j < |s| &&
      OnlyOf(s[..i], IsNameKanaChar) && OnlyOf(s[i..j], IsNameSpace) && OnlyOf(s[j..], IsNameKanaChar);
    assert s[|s| - 1] == s[j..][|s| - 1 - j];
    forall k | 0 <= k < |s|
      ensures IsNameKanaChar(s[k]) || IsNameSpace(s[k])
    {
      if k < i {
        assert s[k] == s[..i][k];
      } else if k < j {
        assert s[k] == s[i..j][k - i];
      } else {
        assert s[k] == s[j..][k - j];
      }
    }
  }

  /** Any non-empty run of name kana is a katakana name (no space at all). */
  lemma KanaRunIsName(s: string)
    requires PlusOf(s, IsNameKanaChar)
    ensures IsFullKanaName(s)
  {
    assert s[0..] == s;
    assert OnlyOf(s[..0], IsNameKanaChar) && OnlyOf(s[0..0], IsNameSpace);
  }

  /** The spaces of a katakana name form one block: every character between
      two spaces of a name is itself a space. */
  lemma NameSpacesAreOneBlock(s: string, a: int, b: int, c: int)
    requires NameShape(s)
    requires 0 <= a < b < c < |s| && IsNameSpace(s[a]) && IsNameSpace(s[c])
    ensures IsNameSpace(s[b])
  {
    var i, j :| 0 <= i <= j < |s| &&
      OnlyOf(s[..i], IsNameKanaChar) && OnlyOf(s[i..j], IsNameSpace) && OnlyOf(s[j..], IsNameKanaChar);
    forall k | 0 <= k < i
      ensures IsNameKanaChar(s[k])
    {
      assert s[..i][k] == s[k];
    }
    forall k | i <= k < j
      ensures IsNameSpace(s[k])
    {
      assert s[i..j][k - i] == s[k];
    }
    forall k | j <= k < |s|
      ensures IsNameKanaChar(s[k])
    {
      assert s[j..][k - j] == s[k];
    }
  }

  /** The split of a katakana name that holds a space is forced: the
      spaces run from the first space to the last one, so no two splits of
      the same name differ. */
  lemma NameSplitIsForced(s: string, i: int, j: int, p: int)
    requires 0 <= i <= j < |s|
    requires OnlyOf(s[..i], IsNameKanaChar) && OnlyOf(s[i..j], IsNameSpace) && OnlyOf(s[j..], IsNameKanaChar)
    requires 0 <= p < |s| && IsNameSpace(s[p])
    ensures i <= p < j
    ensures IsNameSpace(s[i]) && IsNameSpace(s[j - 1])
    ensures forall k :: 0 <= k < i ==> !IsNameSpace(s[k])
    ensures forall k :: j <= k < |s| ==> !IsNameSpace(s[k])
  {
    forall k | 0 <= k < i
      ensures !IsNameSpace(s[k])
    {
      assert s[..i][k] == s[k];
    }
    forall k | j <= k < |s|
      ensures !IsNameSpace(s[k])
    {
      assert s[j..][k - j] == s[k];
    }
    assert s[i..j][0] == s[i];
    assert s[i..j][j - 1 - i] == s[j - 1];
  }

  /** The characters of a mail domain. */
  predicate IsDomainChar(c: char) { IsLabelChar(c) || c == '.' }

  /** Every character of a list of labels is a label character or a dot. */
  lemma {:induction false} LabelsChars(d: string)
    requires Labels(d)
    ensures OnlyOf(d, IsDomainChar)
    decreases |d|
  {
    if !PlusOf(d, IsLabelChar) {
      var k :| 0 < k < |d| && d[k] == '.' && PlusOf(d[..k], IsLabelChar) && Labels(d[k + 1..]);
      LabelsChars(d[k + 1..]);
      forall m | 0 <= m < |d|
        ensures IsDomainChar(d[m])
      {
        if m < k {
          assert d[..k][m] == d[m];
        } else if m > k {
          assert d[k + 1..][m - k - 1] == d[m];
        }
      }
    }
  }

  /** A mail domain is made of label characters and dots, and has a dot. */
  lemma DomainChars(d: string)
    requires DomainShape(d)
    ensures OnlyOf(d, IsDomainChar)
    ensures exists m :: 0 < m < |d| - 1 && d[m] == '.'
  {
    var k :| 0 < k < |d| && d[k] == '.' && PlusOf(d[..k], IsLabelChar) && Labels(d[k + 1..]);
    LabelsChars(d[k + 1..]);
    forall m | 0 <= m < |d|
      ensures IsDomainChar(d[m])
    {
      if m < k {
        assert d[..k][m] == d[m];
      } else if m > k {
        assert d[k + 1..][m - k - 1] == d[m];
      }
    }
    assert |d[k + 1..]| > 0;
  }

  /** A mail domain holds no `@`. */
  lemma DomainHasNoAt(d: string)
    requires DomainShape(d)
    ensures '@' !in d
  {
    DomainChars(d);
    assert forall k :: 0 <= k < |d| ==> d[k] != '@';
  }

  /** Text joined around one `@` has no other `@`. */
  lemma OneAtBetween(a: string, b: string)
    requires '@' !in a && '@' !in b
    ensures forall x :: 0 <= x < |a + "@" + b| && (a + "@" + b)[x] == '@' ==> x == |a|
  {
    var s := a + "@" + b;
    assert forall x :: 0 <= x < |a| ==> s[x] == a[x];
    assert forall x :: |a| < x < |s| ==> s[x] == b[x - |a| - 1];
  }

  /** A mail address has an `@` with a dot in the domain after it. */
  lemma MailHasDottedDomain(s: string)
    requires MailShape(s)
    ensures exists i :: 0 < i < |s| - 1 && s[i] == '@' && (exists m :: i + 1 < m < |s| - 1 && s[m] == '.')
  {
    var i :| 0 < i < |s| && s[i] == '@' && PlusOf(s[..i], IsLocalChar) && DomainShape(s[i + 1..]);
    var d := s[i + 1..];
    DomainChars(d);
    var m :| 0 < m < |d| - 1 && d[m] == '.';
    assert s[i + 1 + m] == d[m];
  }

  /** The `@` of a mail address, with no other `@` before or after it. */
  lemma MailAt(s: string) returns (i: int)
    requires MailShape(s)
    ensures 0 < i < |s| && s[i] == '@' && '@' !in s[..i] && '@' !in s[i + 1..]
  {
    i :| 0 < i < |s| && s[i] == '@' && PlusOf(s[..i], IsLocalChar) && DomainShape(s[i + 1..]);
    var local := s[..i];
    assert '@' !in local by {
      assert forall k :: 0 <= k < |local| ==> IsLocalChar(local[k]);
    }
    DomainHasNoAt(s[i + 1..]);
  }

  /** A mail address has exactly one `@`. */
  lemma MailHasOneAt(s: string)
    requires MailShape(s)
    ensures forall a, b :: 0 <= a < |s| && 0 <= b < |s| && s[a] == '@' && s[b] == '@' ==> a == b
  {
    var i := MailAt(s);
    assert s == s[..i] + "@" + s[i + 1..];
    OneAtBetween(s[..i], s[i + 1..]);
  }

  /** A local part, `@`, and two labels joined by a dot form a mail address. */
  lemma MailOfParts(local: string, l1: string, l2: string)
    requires PlusOf(local, IsLocalChar) && PlusOf(l1, IsLabelChar) && PlusOf(l2, IsLabelChar)
    ensures IsMail(local + "@" + l1 + "." + l2)
  {
    var s := local + "@" + l1 + "." + l2;
    var d := l1 + "." + l2;
    assert s[..|local|] == local;
    assert s[|local| + 1..] == d;
    assert d[..|l1|] == l1 && d[|l1| + 1..] == l2;
    assert Labels(l2);
    assert DomainShape(d);
  }
}
