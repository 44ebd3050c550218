/**
 * The concrete cases the repository's tests assert, stated over the model:
 * condition and pseudo-element texts, and the specificity of each selector
 * the specificity tests parse (built here directly as trees).
 */
module Scenarios {
  import opened Wrappers
  import opened Conditions
  import opened Selectors
  import opened SelectorSpecificity

  // ---------------------------------------------------------------------------
  // Condition and pseudo-element nodes built without a value, with an empty
  // value and with the value "value".

  lemma BeginHyphenAttributeConditionCases()
    ensures var c := Attribute(BeginHyphen, Some("test"), None, None);
      GetConditionType(c) == BeginHyphenAttributeCondition && Conditions.GetLocalName(c) == Some("test")
      && GetValue(c) == None && ConditionText(c) == Some("[test]")
    ensures var c := Attribute(BeginHyphen, Some("test"), Some(""), None);
      GetConditionType(c) == BeginHyphenAttributeCondition && Conditions.GetLocalName(c) == Some("test")
      && GetValue(c) == Some("") && ConditionText(c) == Some("[test|=\"\"]")
    ensures var c := Attribute(BeginHyphen, Some("test"), Some("value"), None);
      GetConditionType(c) == BeginHyphenAttributeCondition && Conditions.GetLocalName(c) == Some("test")
      && GetValue(c) == Some("value") && ConditionText(c) == Some("[test|=\"value\"]")
  {
    assert "[" + "test" + "]" == "[test]";
    assert "[" + "test" + "|=\"" + "" + "\"]" == "[test|=\"\"]";
    assert "[" + "test" + "|=\"" + "value" + "\"]" == "[test|=\"value\"]";
    BeginHyphenAttributeConditionContract(Some("test"), None, None);
    BeginHyphenAttributeConditionContract(Some("test"), Some(""), None);
    BeginHyphenAttributeConditionContract(Some("test"), Some("value"), None);
  }

  lemma SubstringAttributeConditionCases()
    ensures var c := Attribute(Substring, Some("test"), None, None);
      GetConditionType(c) == SubstringAttributeCondition && Conditions.GetLocalName(c) == Some("test")
      && GetValue(c) == None && ConditionText(c) == Some("[test]")
    ensures var c := Attribute(Substring, Some("test"), Some(""), None);
      GetConditionType(c) == SubstringAttributeCondition && Conditions.GetLocalName(c) == Some("test")
      && GetValue(c) == Some("") && ConditionText(c) == Some("[test*=\"\"]")
    ensures var c := Attribute(Substring, Some("test"), Some("value"), None);
      GetConditionType(c) == SubstringAttributeCondition && Conditions.GetLocalName(c) == Some("test")
      && GetValue(c) == Some("value") && ConditionText(c) == Some("[test*=\"value\"]")
  {
    assert "[" + "test" + "]" == "[test]";
    assert "[" + "test" + "*=\"" + "" + "\"]" == "[test*=\"\"]";
    assert "[" + "test" + "*=\"" + "value" + "\"]" == "[test*=\"value\"]";
    SubstringAttributeConditionContract(Some("test"), None, None);
    SubstringAttributeConditionContract(Some("test"), Some(""), None);
    SubstringAttributeConditionContract(Some("test"), Some("value"), None);
  }

  lemma PseudoElementSelectorCases()
    ensures var p := PseudoElement(None, None, false);
      Selectors.GetLocalName(p) == None && GetSelectorType(Simple(p)) == PseudoElementSelector
      && PseudoElementText(p) == None
    ensures var p := PseudoElement(Some(""), None, false);
      Selectors.GetLocalName(p) == Some("") && GetSelectorType(Simple(p)) == PseudoElementSelector
      && PseudoElementText(p) == Some(":")
    ensures var p := PseudoElement(Some("value"), None, false);
      Selectors.GetLocalName(p) == Some("value") && GetSelectorType(Simple(p)) == PseudoElementSelector
      && PseudoElementText(p) == Some(":value")
  {
    assert ":" + "value" == ":value";
    PseudoElementSelectorContract(None, None, false);
    PseudoElementSelectorContract(Some(""), None, false);
    PseudoElementSelectorContract(Some("value"), None, false);
  }

  // ---------------------------------------------------------------------------
  // The selectors of the specificity tests, with their element names, class
  // names, ids and values left free: only the shape decides the counts.

  /** An element selector with a name other than `*` and no conditions. */
  function Named(name: string): SimpleSelector {
    Element(Some(name), [])
  }

  function Tag(name: string): Selector {
    Simple(Named(name))
  }

  /** `*`, written with or without the star. */
  lemma UniversalSpecificity(u: Option<string>)
    requires IsUniversal(u)
    ensures Of(Simple(Element(u, []))) == Specificity(0, 0, 0, 0)
  {
  }

  /** `li` */
  lemma TypeSpecificity(li: string)
    requires li != "*"
    ensures Of(Tag(li)) == Specificity(0, 0, 0, 1)
  {
  }

  /** `li:first-line`: the element and its pseudo-element. */
  lemma PseudoElementSpecificity(li: string, p: Option<string>, loc: Option<Locator>, doubleColon: bool)
    requires li != "*"
    ensures Of(Combined(Descendant, Tag(li), PseudoElement(p, loc, doubleColon))) == Specificity(0, 0, 0, 2)
  {
    TypeSpecificity(li);
    var w := Of(Combined(Descendant, Tag(li), PseudoElement(p, loc, doubleColon)));
    assert w.b == 0 && w.c == 0 && w.d == 2;
  }

  /** `ul li` and `body > p`: two element names under any combinator. */
  lemma TwoTypesSpecificity(k: Combinator, ul: string, li: string)
    requires ul != "*" && li != "*"
    ensures Of(Combined(k, Tag(ul), Named(li))) == Specificity(0, 0, 0, 2)
  {
  }

  /** `ul ol+li` */
  lemma ThreeTypesSpecificity(ul: string, ol: string, li: string)
    requires ul != "*" && ol != "*" && li != "*"
    ensures Of(Combined(DirectAdjacent, Combined(Descendant, Tag(ul), Named(ol)), Named(li))) == Specificity(0, 0, 0, 3)
  {
    TwoTypesSpecificity(Descendant, ul, ol);
    TypeSpecificity(li);
    var w := Of(Combined(DirectAdjacent, Combined(Descendant, Tag(ul), Named(ol)), Named(li)));
    assert w.b == 0 && w.c == 0 && w.d == 3;
  }

  /** A combinator adds its two operands' counts. */
  lemma CombinedCounts(k: Combinator, anc: Selector, x: SimpleSelector)
    ensures Of(Combined(k, anc, x)).b == Of(anc).b + SimpleWeight(x).b
    ensures Of(Combined(k, anc, x)).c == Of(anc).c + SimpleWeight(x).c
    ensures Of(Combined(k, anc, x)).d == Of(anc).d + SimpleWeight(x).d
  {
  }

  /** One condition of any kind but an id counts once in `c`. */
  lemma OneClassLikeCondition(cond: Condition)
    requires !cond.Id?
    ensures ConditionsWeight([cond]).b == 0 && ConditionsWeight([cond]).c == 1
  {
  }

  /** `h1 + *[rel=up]`: an attribute on a universal element counts once in `c`. */
  lemma AdjacentAttributeSpecificity(h1: string, u: Option<string>, m: AttributeMatcher, rel: Option<string>, up: Option<string>)
    requires h1 != "*" && IsUniversal(u)
    ensures Of(Combined(DirectAdjacent, Tag(h1), Element(u, [Attribute(m, rel, up, None)]))) == Specificity(0, 0, 1, 1)
  {
  }

  /** `ul ol li.red` */
  lemma DescendantClassSpecificity(ul: string, ol: string, li: string, red: string)
    requires ul != "*" && ol != "*" && li != "*"
    ensures Of(Combined(Descendant, Combined(Descendant, Tag(ul), Named(ol)), Element(Some(li), [Class(red, None)])))
      == Specificity(0, 0, 1, 3)
  {
    TwoTypesSpecificity(Descendant, ul, ol);
    assert !IsUniversal(Some(li));
    OneClassLikeCondition(Class(red, None));
    var w := Of(Combined(Descendant, Combined(Descendant, Tag(ul), Named(ol)), Element(Some(li), [Class(red, None)])));
    assert w.b == 0 && w.c == 1 && w.d == 3;
  }

  /** `li.red.level` */
  lemma TwoClassesSpecificity(li: string, red: string, level: string)
    requires li != "*"
    ensures Of(Simple(Element(Some(li), [Class(red, None), Class(level, None)]))) == Specificity(0, 0, 2, 1)
  {
    assert !IsUniversal(Some(li));
    assert [Class(red, None), Class(level, None)][..1] == [Class(red, None)];
    OneClassLikeCondition(Class(red, None));
    var w := Of(Simple(Element(Some(li), [Class(red, None), Class(level, None)])));
    assert w.b == 0 && w.c == 2 && w.d == 1;
  }

  /** `#x34y` and `test#x34y`: an id counts in `b`, a name in `d`. */
  lemma IdSpecificity(name: Option<string>, id: string)
    ensures Of(Simple(Element(name, [Id(id, None)]))) == Specificity(0, 1, 0, if IsUniversal(name) then 0 else 1)
  {
  }

  /** `.cls ~ p` */
  lemma SiblingClassSpecificity(u: Option<string>, cls: string, p: string)
    requires IsUniversal(u) && p != "*"
    ensures Of(Combined(GeneralAdjacent, Simple(Element(u, [Class(cls, None)])), Named(p))) == Specificity(0, 0, 1, 1)
  {
    OneClassLikeCondition(Class(cls, None));
    assert !IsUniversal(Some(p));
    var v := Of(Simple(Element(u, [Class(cls, None)])));
    assert v.b == 0 && v.c == 1 && v.d == 0;
    var w := Of(Combined(GeneralAdjacent, Simple(Element(u, [Class(cls, None)])), Named(p)));
    assert w.b == 0 && w.c == 1 && w.d == 1;
  }

  /** `:lang(en)` and `li:lang(en)`: a language condition counts in `c`. */
  lemma LangSpecificity(name: Option<string>, en: string)
    ensures Of(Simple(Element(name, [Lang(en, None)]))) == Specificity(0, 0, 1, if IsUniversal(name) then 0 else 1)
  {
  }

  /** `div:hover`: one pseudo-class and one name. */
  lemma PseudoClassElementSpecificity(div: string, hover: string)
    requires div != "*"
    ensures SimpleWeight(Element(Some(div), [PseudoClass(Some(hover), None, false)])) == Specificity(0, 0, 1, 1)
  {
  }

  /** `#id div:hover`: the left part of the next selector. */
  lemma IdThenPseudoClassSpecificity(id: string, div: string, hover: string)
    requires div != "*"
    ensures Of(Combined(Descendant, Simple(Element(None, [Id(id, None)])),
                 Element(Some(div), [PseudoClass(Some(hover), None, false)])))
      == Specificity(0, 1, 1, 1)
  {
  }

  /** `#id div:hover > div`: an id, a pseudo-class and two names. */
  lemma IdPseudoClassSpecificity(id: string, div: string, hover: string, div2: string)
    requires div != "*" && div2 != "*"
    ensures Of(Combined(Child,
                 Combined(Descendant, Simple(Element(None, [Id(id, None)])),
                   Element(Some(div), [PseudoClass(Some(hover), None, false)])),
                 Named(div2)))
      == Specificity(0, 1, 1, 2)
  {
    var inner := Combined(Descendant, Simple(Element(None, [Id(id, None)])), Element(Some(div), [PseudoClass(Some(hover), None, false)]));
    IdThenPseudoClassSpecificity(id, div, hover);
    assert !IsUniversal(Some(div2));
    CombinedCounts(Child, inner, Named(div2));
    var w := Of(Combined(Child, inner, Named(div2)));
    assert w.b == 1 && w.c == 1 && w.d == 2;
  }

  /** `a[target=x]`, `a[id*=x]` and the rest: each of the six matchers counts once in `c`. */
  lemma AttributeSelectorSpecificity(a: string, m: AttributeMatcher, attr: string, value: string)
    requires a != "*"
    ensures Of(Simple(Element(Some(a), [Attribute(m, Some(attr), Some(value), None)]))) == Specificity(0, 0, 1, 1)
  {
  }

  /** The texts the tests expect for the tuples above. */
  lemma SpecificityTexts()
    ensures SpecificityText(Specificity(0, 0, 0, 0)) == "0,0,0,0"
    ensures SpecificityText(Specificity(0, 0, 0, 1)) == "0,0,0,1"
    ensures SpecificityText(Specificity(0, 0, 0, 2)) == "0,0,0,2"
    ensures SpecificityText(Specificity(0, 0, 0, 3)) == "0,0,0,3"
    ensures SpecificityText(Specificity(0, 0, 1, 0)) == "0,0,1,0"
    ensures SpecificityText(Specificity(0, 0, 1, 1)) == "0,0,1,1"
    ensures SpecificityText(Specificity(0, 0, 1, 3)) == "0,0,1,3"
    ensures SpecificityText(Specificity(0, 0, 2, 1)) == "0,0,2,1"
    ensures SpecificityText(Specificity(0, 1, 0, 0)) == "0,1,0,0"
    ensures SpecificityText(Specificity(0, 1, 0, 1)) == "0,1,0,1"
    ensures SpecificityText(Specificity(0, 1, 1, 2)) == "0,1,1,2"
  {
    // Each tuple's text as seven characters; without these the proof is much slower.
    OneDigitSpecificityText(Specificity(0, 0, 0, 0));
    OneDigitSpecificityText(Specificity(0, 0, 0, 1));
    OneDigitSpecificityText(Specificity(0, 0, 0, 2));
    OneDigitSpecificityText(Specificity(0, 0, 0, 3));
    OneDigitSpecificityText(Specificity(0, 0, 1, 0));
    OneDigitSpecificityText(Specificity(0, 0, 1, 1));
    OneDigitSpecificityText(Specificity(0, 0, 1, 3));
    OneDigitSpecificityText(Specificity(0, 0, 2, 1));
    OneDigitSpecificityText(Specificity(0, 1, 0, 0));
    OneDigitSpecificityText(Specificity(0, 1, 0, 1));
    OneDigitSpecificityText(Specificity(0, 1, 1, 2));
  }

  /** The comparisons the tests assert between the tuples of `*`, `li`, `li:first-line`, `ul ol+li`,
   * `h1 + *[rel=up]`, `ul ol li.red`, `li.red.level` and `#x34y`. */
  lemma SpecificityOrder()
    ensures CompareTo(Specificity(0, 0, 0, 0), Specificity(0, 0, 0, 0)) == 0
    ensures CompareTo(Specificity(0, 0, 0, 0), Specificity(0, 0, 0, 1)) < 0
    ensures CompareTo(Specificity(0, 0, 0, 0), Specificity(0, 0, 0, 2)) < 0
    ensures CompareTo(Specificity(0, 0, 0, 0), Specificity(0, 0, 1, 3)) < 0
    ensures CompareTo(Specificity(0, 0, 0, 1), Specificity(0, 0, 0, 1)) == 0
    ensures CompareTo(Specificity(0, 0, 0, 1), Specificity(0, 0, 0, 0)) > 0
    ensures CompareTo(Specificity(0, 0, 0, 1), Specificity(0, 0, 0, 2)) < 0
    ensures CompareTo(Specificity(0, 0, 0, 1), Specificity(0, 0, 1, 3)) < 0
    ensures CompareTo(Specificity(0, 0, 0, 2), Specificity(0, 0, 0, 2)) == 0
    ensures CompareTo(Specificity(0, 0, 0, 2), Specificity(0, 0, 0, 0)) > 0
    ensures CompareTo(Specificity(0, 0, 0, 2), Specificity(0, 0, 0, 3)) < 0
    ensures CompareTo(Specificity(0, 0, 0, 2), Specificity(0, 0, 1, 1)) < 0
    ensures CompareTo(Specificity(0, 0, 0, 2), Specificity(0, 0, 1, 3)) < 0
    ensures CompareTo(Specificity(0, 0, 0, 2), Specificity(0, 1, 0, 0)) < 0
    ensures CompareTo(Specificity(0, 0, 1, 1), Specificity(0, 0, 1, 1)) == 0
    ensures CompareTo(Specificity(0, 0, 1, 1), Specificity(0, 0, 0, 0)) > 0
    ensures CompareTo(Specificity(0, 0, 1, 1), Specificity(0, 0, 1, 3)) < 0
    ensures CompareTo(Specificity(0, 0, 1, 1), Specificity(0, 0, 2, 1)) < 0
    ensures CompareTo(Specificity(0, 0, 1, 1), Specificity(0, 1, 0, 0)) < 0
  {
  }

  /** `equals` against null, an object of another class, itself and other tuples. */
  lemma SpecificityEquals()
    ensures !Equals(Specificity(0, 0, 0, 0), Null)
    ensures !Equals(Specificity(0, 0, 0, 0), OfOtherClass)
    ensures Equals(Specificity(0, 0, 0, 0), OfSpecificity(Specificity(0, 0, 0, 0)))
    ensures !Equals(Specificity(0, 0, 0, 0), OfSpecificity(Specificity(0, 1, 0, 0)))
    ensures !Equals(Specificity(0, 0, 0, 0), OfSpecificity(Specificity(0, 0, 1, 1)))
    ensures !Equals(Specificity(0, 0, 0, 0), OfSpecificity(Specificity(0, 0, 0, 1)))
  {
  }
}
