/**
 * The conditions of a simple selector (attribute matchers, class, id, :lang()
 * and pseudo-classes), their accessors and their CSS text.
 *
 * A condition's value is three-valued: absent (a Java null), empty, or
 * non-empty. `Option<string>` keeps absent and empty apart everywhere.
 */
module Conditions {
  import opened Wrappers
  import opened Strings

  /** Where a node was parsed from; carried for diagnostics only. */
  datatype Locator = Locator(uri: string, line: int, column: int)

  /** The tag every condition reports through its condition type. */
  datatype ConditionType =
    | AttributeCondition
    | OneOfAttributeCondition
    | BeginHyphenAttributeCondition
    | PrefixAttributeCondition
    | SuffixAttributeCondition
    | SubstringAttributeCondition
    | ClassCondition
    | IdCondition
    | LangCondition
    | PseudoClassCondition

  /**
   * The six attribute matchers of sections 6.3.1 and 6.3.2 of W3C Selectors
   * Level 3: `=`, `~=`, `|=`, `^=`, `$=` and `*=`.
   */
  datatype AttributeMatcher = Equal | OneOf | BeginHyphen | Prefix | Suffix | Substring

  datatype Condition =
    | Attribute(matcher: AttributeMatcher, name: Option<string>, value: Option<string>, locator: Option<Locator>)
    | Class(className: string, locator: Option<Locator>)
    | Id(id: string, locator: Option<Locator>)
    | Lang(lang: string, locator: Option<Locator>)
    | PseudoClass(value: Option<string>, locator: Option<Locator>, doubleColon: bool)

  /** The character written before `=` for a matcher; `Equal` writes none. */
  function MatcherChar(m: AttributeMatcher): (ch: Option<char>)
    ensures ch.None? <==> m == Equal
  {
    match m
    case Equal => None
    case OneOf => Some('~')
    case BeginHyphen => Some('|')
    case Prefix => Some('^')
    case Suffix => Some('$')
    case Substring => Some('*')
  }

  /** The matcher a character written before `=` stands for, if any. */
  function MatcherOf(ch: char): (m: Option<AttributeMatcher>)
    ensures m.Some? ==> MatcherChar(m.value) == Some(ch)
  {
    match ch
    case '~' => Some(OneOf)
    case '|' => Some(BeginHyphen)
    case '^' => Some(Prefix)
    case '$' => Some(Suffix)
    case '*' => Some(Substring)
    case _ => None
  }

  function OperatorText(m: AttributeMatcher): string {
    match MatcherChar(m)
    case None => ""
    case Some(ch) => [ch]
  }

  function AttributeType(m: AttributeMatcher): ConditionType {
    match m
    case Equal => AttributeCondition
    case OneOf => OneOfAttributeCondition
    case BeginHyphen => BeginHyphenAttributeCondition
    case Prefix => PrefixAttributeCondition
    case Suffix => SuffixAttributeCondition
    case Substring => SubstringAttributeCondition
  }

  /** Different matchers report different condition types. */
  lemma AttributeTypeInjective(m1: AttributeMatcher, m2: AttributeMatcher)
    requires AttributeType(m1) == AttributeType(m2)
    ensures m1 == m2
  {
  }

  /** The type tag tells the four non-attribute kinds apart from each other and from the attributes. */
  function GetConditionType(c: Condition): (t: ConditionType)
    ensures t == ClassCondition <==> c.Class?
    ensures t == IdCondition <==> c.Id?
    ensures t == LangCondition <==> c.Lang?
    ensures t == PseudoClassCondition <==> c.PseudoClass?
  {
    match c
    case Attribute(m, _, _, _) => AttributeType(m)
    case Class(_, _) => ClassCondition
    case Id(_, _) => IdCondition
    case Lang(_, _) => LangCondition
    case PseudoClass(_, _, _) => PseudoClassCondition
  }

  /** Only attribute conditions have a local name: the attribute's, verbatim. */
  function GetLocalName(c: Condition): (n: Option<string>)
    ensures n.Some? ==> c.Attribute?
    ensures c.Attribute? ==> n == c.name
  {
    if c.Attribute? then c.name else None
  }

  /**
   * The payload as constructed: absent, empty and non-empty stay distinct.
   * Only attribute and pseudo-class conditions can have an absent value, and
   * for them an absent value is exactly what makes the text short (`[name]`)
   * or absent.
   */
  function GetValue(c: Condition): (v: Option<string>)
    ensures v.None? ==> c.Attribute? || c.PseudoClass?
    ensures c.PseudoClass? ==> (v.None? <==> ConditionText(c).None?)
    ensures c.Attribute? ==> (v.None? <==> |ConditionText(c).value| == |JavaText(c.name)| + 2)
  {
    match c
    case Attribute(_, _, v, _) => v
    case Class(n, _) => Some(n)
    case Id(n, _) => Some(n)
    case Lang(l, _) => Some(l)
    case PseudoClass(v, _, _) => v
  }

  /** What Java's string concatenation writes for a possibly-null string. */
  function JavaText(s: Option<string>): string {
    match s
    case None => "null"
    case Some(t) => t
  }

  /**
   * Text of a pseudo-class (or pseudo-element): absent stays absent, otherwise
   * the value behind one colon, or two when `doubleColon` is set.
   */
  function PseudoText(value: Option<string>, doubleColon: bool): (r: Option<string>)
    ensures r.None? <==> value.None?
    ensures r.Some? ==> |r.value| == |value.value| + (if doubleColon then 2 else 1)
    ensures r.Some? ==> r.value[0] == ':' && r.value[|r.value| - |value.value|..] == value.value
  {
    match value
    case None => None
    case Some(v) => Some((if doubleColon then "::" else ":") + v)
  }

  /**
   * Text of an attribute condition: `[name]` without a value, and
   * `[name<op>="v"]` with one, even when `v` is empty.
   */
  function AttributeText(m: AttributeMatcher, name: Option<string>, value: Option<string>): (r: string)
    ensures |r| >= 2 && r[0] == '[' && r[|r| - 1] == ']'
    ensures value.None? <==> |r| == |JavaText(name)| + 2
  {
    match value
    case None => "[" + JavaText(name) + "]"
    case Some(v) => "[" + JavaText(name) + OperatorText(m) + "=\"" + v + "\"]"
  }

  /** The CSS text of a condition; only a pseudo-class without a value has none. */
  function ConditionText(c: Condition): (r: Option<string>)
    ensures r.None? <==> c.PseudoClass? && c.value.None?
  {
    match c
    case Attribute(m, n, v, _) => Some(AttributeText(m, n, v))
    case Class(n, _) => Some("." + n)
    case Id(n, _) => Some("#" + n)
    case Lang(l, _) => Some(":lang(" + l + ")")
    case PseudoClass(v, _, dc) => PseudoText(v, dc)
  }

  // ---------------------------------------------------------------------------
  // What each condition class promises through its accessors and its text.

  /** A pseudo-class condition: whatever it is built with, its type and local name are fixed. */
  lemma PseudoClassConditionContract(value: Option<string>, locator: Option<Locator>, doubleColon: bool)
    ensures var c := PseudoClass(value, locator, doubleColon);
      && GetConditionType(c) == PseudoClassCondition
      && GetLocalName(c) == None
      && GetValue(c) == value
      && (value.None? ==> ConditionText(c) == None)
      && (value.Some? && !doubleColon ==> ConditionText(c) == Some(":" + value.value))
      && (value.Some? && doubleColon ==> ConditionText(c) == Some("::" + value.value))
  {
  }

  /** `[name|="v"]`: the begin-hyphen matcher of section 6.3.1 of Selectors Level 3. */
  lemma BeginHyphenAttributeConditionContract(name: Option<string>, value: Option<string>, locator: Option<Locator>)
    ensures var c := Attribute(BeginHyphen, name, value, locator);
      && GetConditionType(c) == BeginHyphenAttributeCondition
      && GetLocalName(c) == name
      && GetValue(c) == value
      && (value.None? ==> ConditionText(c) == Some("[" + JavaText(name) + "]"))
      && (value.Some? ==> ConditionText(c) == Some("[" + JavaText(name) + "|=\"" + value.value + "\"]"))
  {
    if value.Some? {
      assert OperatorText(BeginHyphen) == "|";
      assert "[" + JavaText(name) + "|" + "=\"" + value.value + "\"]"
        == "[" + JavaText(name) + "|=\"" + value.value + "\"]";
    }
  }

  /** `[name*="v"]`: the substring matcher of section 6.3.2 of Selectors Level 3. */
  lemma SubstringAttributeConditionContract(name: Option<string>, value: Option<string>, locator: Option<Locator>)
    ensures var c := Attribute(Substring, name, value, locator);
      && GetConditionType(c) == SubstringAttributeCondition
      && GetLocalName(c) == name
      && GetValue(c) == value
      && (value.None? ==> ConditionText(c) == Some("[" + JavaText(name) + "]"))
      && (value.Some? ==> ConditionText(c) == Some("[" + JavaText(name) + "*=\"" + value.value + "\"]"))
  {
    if value.Some? {
      assert OperatorText(Substring) == "*";
      assert "[" + JavaText(name) + "*" + "=\"" + value.value + "\"]"
        == "[" + JavaText(name) + "*=\"" + value.value + "\"]";
    }
  }

  /** The source position changes neither the type, the name, the value nor the text. */
  lemma LocatorIrrelevant(c: Condition, locator: Option<Locator>)
    ensures var moved := c.(locator := locator);
      && GetConditionType(moved) == GetConditionType(c)
      && GetLocalName(moved) == GetLocalName(c)
      && GetValue(moved) == GetValue(c)
      && ConditionText(moved) == ConditionText(c)
  {
  }

  // ---------------------------------------------------------------------------
  // Reading the text back: absent and empty values are never collapsed.

  /** An attribute name that can be read back: no `=` and no matcher character. */
  predicate IsPlainName(n: string) {
    forall i :: 0 <= i < |n| ==> n[i] != '=' && MatcherOf(n[i]).None?
  }

  datatype AttributeParts =
    | Bare(name: string)
    | Matched(name: string, matcher: AttributeMatcher, value: string)

  /** The text between a leading `open` and a trailing `close` character. */
  function Between(t: string, open: char, close: char): (r: Option<string>)
    ensures r.Some? ==> t == [open] + r.value + [close]
  {
    if |t| >= 2 && t[0] == open && t[|t| - 1] == close then
      assert t == [open] + t[1..|t| - 1] + [close];
      Some(t[1..|t| - 1])
    else None
  }

  /** Splits what precedes `=` into the attribute name and the matcher. */
  function SplitMatcher(head: string): (AttributeMatcher, string) {
    if |head| >= 1 && MatcherOf(head[|head| - 1]).Some? then
      (MatcherOf(head[|head| - 1]).value, head[..|head| - 1])
    else
      (Equal, head)
  }

  /** Reads the text of an attribute condition back into name, matcher and value. */
  function ParseAttributeText(t: string): Option<AttributeParts> {
    match Between(t, '[', ']')
    case None => None
    case Some(inner) =>
      match Cut(inner, '=')
      case None => Some(Bare(inner))
      case Some((head, rest)) =>
        match Between(rest, '"', '"')
        case None => None
        case Some(v) => Some(Matched(SplitMatcher(head).1, SplitMatcher(head).0, v))
  }

  lemma BetweenOf(open: char, x: string, close: char)
    ensures Between([open] + x + [close], open, close) == Some(x)
  {
  }

  lemma SplitMatcherOf(m: AttributeMatcher, n: string)
    requires IsPlainName(n)
    ensures SplitMatcher(n + OperatorText(m)) == (m, n)
  {
    var head := n + OperatorText(m);
    if m == Equal {
      assert head == n;
      if |n| >= 1 {
        assert MatcherOf(n[|n| - 1]).None?;
      }
    } else {
      assert head[..|head| - 1] == n;
    }
  }

  lemma ParseBareText(n: string)
    requires '=' !in n
    ensures ParseAttributeText("[" + n + "]") == Some(Bare(n))
  {
  }

  lemma ParseMatchedText(head: string, v: string)
    requires '=' !in head
    ensures ParseAttributeText("[" + head + "=\"" + v + "\"]") ==
      Some(Matched(SplitMatcher(head).1, SplitMatcher(head).0, v))
  {
    var rest := "\"" + v + "\"";
    var inner := head + ['='] + rest;
    assert "[" + head + "=\"" + v + "\"]" == "[" + inner + "]";
    BetweenOf('[', inner, ']');
    CutAt(head, '=', rest);
    BetweenOf('"', v, '"');
  }

  /**
   * The text of an attribute condition determines its name and value, and the
   * matcher whenever there is a value; so `[name]` and `[name<op>=""]` differ.
   */
  lemma AttributeTextRoundTrip(m: AttributeMatcher, name: Option<string>, value: Option<string>)
    requires IsPlainName(JavaText(name))
    ensures ParseAttributeText(AttributeText(m, name, value)) ==
      Some(if value.None? then Bare(JavaText(name)) else Matched(JavaText(name), m, value.value))
  {
    var n := JavaText(name);
    assert '=' !in n;
    match value
    case None =>
      ParseBareText(n);
    case Some(v) =>
      var head := n + OperatorText(m);
      assert AttributeText(m, name, value) == "[" + head + "=\"" + v + "\"]";
      assert '=' !in OperatorText(m);
      ParseMatchedText(head, v);
      SplitMatcherOf(m, n);
  }

  /** Absent and empty values of an attribute condition give different texts. */
  lemma AbsentAndEmptyAttributeDiffer(m: AttributeMatcher, name: Option<string>)
    ensures AttributeText(m, name, None) != AttributeText(m, name, Some(""))
  {
  }

  /** Without a value the text has no `=`; with an empty one it ends in `=""]`. */
  lemma AttributeTextOperator(m: AttributeMatcher, name: Option<string>, value: Option<string>)
    requires IsPlainName(JavaText(name))
    ensures value.None? ==> '=' !in AttributeText(m, name, value)
    ensures value == Some("") ==> AttributeText(m, name, value)[|AttributeText(m, name, value)| - 4..] == "=\"\"]"
  {
  }

  /** Reads the text of a pseudo-class or pseudo-element back into value and colon count. */
  function ParsePseudoText(t: string): Option<(string, bool)> {
    if |t| >= 2 && t[..2] == "::" then Some((t[2..], true))
    else if |t| >= 1 && t[0] == ':' then Some((t[1..], false))
    else None
  }

  /**
   * A present value can be read back from its pseudo text, with its colon
   * count, provided it does not itself start with a colon.
   */
  lemma PseudoTextRoundTrip(v: string, doubleColon: bool)
    requires |v| == 0 || v[0] != ':'
    ensures ParsePseudoText(PseudoText(Some(v), doubleColon).value) == Some((v, doubleColon))
  {
  }

  /** Why the round trip needs its precondition: `:` + `:x` and `::` + `x` print alike. */
  lemma PseudoTextLeadingColon()
    ensures PseudoText(Some(":x"), false) == PseudoText(Some("x"), true)
  {
    assert ":" + ":x" == "::" + "x";
  }

  /** Absent text for an absent value, present text (`:` or `::`) for an empty one. */
  lemma AbsentAndEmptyPseudoDiffer(doubleColon: bool)
    ensures PseudoText(None, doubleColon).None?
    ensures PseudoText(Some(""), doubleColon) == Some(if doubleColon then "::" else ":")
  {
    assert ":" + "" == ":" && "::" + "" == "::";
  }
}
