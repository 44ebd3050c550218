/**
 * Selector trees: simple selectors (an element with its ordered conditions, or
 * a pseudo-element) chained to the left by the four combinators.
 */
module Selectors {
  import opened Wrappers
  import opened Conditions

  /** The tag every selector reports through its selector type. */
  datatype SelectorType =
    | ElementNodeSelector
    | PseudoElementSelector
    | DescendantSelector
    | ChildSelector
    | DirectAdjacentSelector
    | GeneralAdjacentSelector

  /** Descendant (whitespace), child `>`, direct adjacent `+` and general sibling `~`. */
  datatype Combinator = Descendant | Child | DirectAdjacent | GeneralAdjacent

  datatype SimpleSelector =
    | Element(localName: Option<string>, conditions: seq<Condition>)
    | PseudoElement(name: Option<string>, locator: Option<Locator>, doubleColon: bool)

  /**
   * A selector is a simple selector, or a combinator whose left operand (the
   * ancestor or preceding sibling) is again a selector and whose right operand
   * is a simple selector: a left-leaning, finite tree.
   */
  datatype Selector =
    | Simple(simple: SimpleSelector)
    | Combined(combinator: Combinator, ancestor: Selector, operand: SimpleSelector)

  function CombinatorType(k: Combinator): SelectorType {
    match k
    case Descendant => DescendantSelector
    case Child => ChildSelector
    case DirectAdjacent => DirectAdjacentSelector
    case GeneralAdjacent => GeneralAdjacentSelector
  }

  function SimpleSelectorType(s: SimpleSelector): SelectorType {
    if s.Element? then ElementNodeSelector else PseudoElementSelector
  }

  /** Element and pseudo-element selectors report their own tags; a combinator reports its kind. */
  function GetSelectorType(s: Selector): (t: SelectorType)
    ensures t == ElementNodeSelector <==> s.Simple? && s.simple.Element?
    ensures t == PseudoElementSelector <==> s.Simple? && s.simple.PseudoElement?
    ensures s.Combined? ==> t == CombinatorType(s.combinator)
  {
    match s
    case Simple(x) => SimpleSelectorType(x)
    case Combined(k, _, _) => CombinatorType(k)
  }

  /** The selector type tells simple selectors and each combinator apart. */
  lemma SelectorTypeDeterminesShape(s: Selector, t: Selector)
    requires GetSelectorType(s) == GetSelectorType(t)
    ensures s.Simple? <==> t.Simple?
    ensures s.Simple? ==> (s.simple.Element? <==> t.simple.Element?)
    ensures s.Combined? ==> s.combinator == t.combinator
  {
  }

  /**
   * The name a simple selector was built with, verbatim (absent, empty or
   * not); a pseudo-element has text exactly when it has a name.
   */
  function GetLocalName(s: SimpleSelector): (n: Option<string>)
    ensures s.Element? ==> n == s.localName
    ensures s.PseudoElement? ==> (n.None? <==> PseudoElementText(s).None?)
  {
    match s
    case Element(n, _) => n
    case PseudoElement(n, _, _) => n
  }

  /** The universal selector `*`: no local name, or the name `*` itself. */
  predicate IsUniversal(localName: Option<string>) {
    localName.None? || localName.value == "*"
  }

  /** Text of a pseudo-element: absent for an absent name, else the name behind its colons. */
  function PseudoElementText(p: SimpleSelector): (r: Option<string>)
    requires p.PseudoElement?
    ensures r.None? <==> p.name.None?
  {
    PseudoText(p.name, p.doubleColon)
  }

  /** What a pseudo-element selector promises through its accessors and its text. */
  lemma PseudoElementSelectorContract(name: Option<string>, locator: Option<Locator>, doubleColon: bool)
    ensures var p := PseudoElement(name, locator, doubleColon);
      && GetSelectorType(Simple(p)) == PseudoElementSelector
      && GetLocalName(p) == name
      && (name.None? ==> PseudoElementText(p) == None)
      && (name == Some("") && !doubleColon ==> PseudoElementText(p) == Some(":"))
      && (name.Some? && !doubleColon ==> PseudoElementText(p) == Some(":" + name.value))
      && (name.Some? && doubleColon ==> PseudoElementText(p) == Some("::" + name.value))
  {
    AbsentAndEmptyPseudoDiffer(doubleColon);
  }
}
