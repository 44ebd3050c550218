# Selector and condition model of htmlunit-cssparser

This project models the immutable selector/condition object model of the
htmlunit CSS parser and the selector specificity it computes.

- **Conditions** (`conditions.dfy`, module `Conditions`) are the parts of a simple selector:
  - the six attribute matchers `=`, `~=`, `|=`, `^=`, `$=` and `*=`;
  - `.class`, `#id`, `:lang(x)` and pseudo-classes.
  Each condition has a condition type, an optional local name, a value and a CSS text. For attribute conditions and pseudo-classes the name and the value are three-valued: absent (Java `null`), empty, or non-empty, and `Option<string>` keeps absent and empty apart. Class, id and `:lang()` conditions carry a plain string. Parsers for the attribute and pseudo-class texts serve as partners, and the round trips state how much of a condition its text determines:
  - an attribute text gives back the name as printed, when the name contains no `=` and no operator character. It also gives back the matcher and the value, but only when a value is present. Without a value every matcher prints the same `[name]`, and an absent name prints as `null`, the same as the name `"null"`;
  - a pseudo-class text gives back the value and the single/double-colon flag, when the value does not itself start with `:`. `Conditions.PseudoTextLeadingColon` shows that without this restriction two different conditions print alike.
- **Selectors** (`selectors.dfy`, module `Selectors`) are a left-leaning tree:
  - a simple selector is an element with an ordered list of conditions, or a pseudo-element;
  - the descendant, child `>`, direct-adjacent `+` and general-sibling `~` combinators join a selector to a simple selector.
- **Specificity** (`specificity.dfy`, module `SelectorSpecificity`) is the tuple `(a, b, c, d)` of section 6.4.3 of CSS 2.1:
  - `b` counts ids;
  - `c` counts classes, attribute matchers and pseudo-classes (`:lang()` included);
  - `d` counts element names and pseudo-elements;
  - the universal selector `*` adds nothing, and combinators add up their operands.
  The recursive computation `Of` is checked against an independent count, `Tally`, over the flattened parts of the selector. Comparison is checked against a lexicographic order (`LexLess`). The text form `"a,b,c,d"` is checked by a parser that reads it back.
- **Scenarios** (`scenarios.dfy`, module `Scenarios`) state the cases the repository's tests assert, over the model. The selectors of the specificity tests are built directly as trees, with their names left free: only their shape fixes the tuple.

`wrappers.dfy` holds `Option`. `strings.dfy` holds small string helpers: cutting at a separator, and decimal text of naturals with its parser.

## Model

| member | source | states |
|---|---|---|
| Conditions.PseudoClassConditionContract | src/main/java/com/gargoylesoftware/css/parser/condition/PseudoClassCondition.java:37-71 | whatever the arguments, the type is PSEUDO_CLASS_CONDITION and the local name is absent; the value comes back verbatim; the text is absent for an absent value, else `:v`, or `::v` with doubleColon |
| Conditions.GetConditionType | src/main/java/com/gargoylesoftware/css/parser/condition/PseudoClassCondition.java:43-46 | each condition kind reports its own type, and a pseudo-class reports PSEUDO_CLASS_CONDITION exactly |
| Conditions.GetLocalName | src/main/java/com/gargoylesoftware/css/parser/condition/PseudoClassCondition.java:51-54 | only attribute conditions have a local name, and it is the name they were built with; a pseudo-class has none |
| Conditions.GetValue | src/main/java/com/gargoylesoftware/css/parser/condition/PseudoClassCondition.java:59-62 | only an attribute condition or a pseudo-class can have an absent value; for a pseudo-class it is absent exactly when the text is, for an attribute exactly when the text is the short `[name]` form |
| Conditions.PseudoText | src/main/java/com/gargoylesoftware/css/parser/condition/PseudoClassCondition.java:64-71 | text is absent exactly when the value is; otherwise it starts with `:`, ends with the value, and is one or two characters longer |
| Conditions.ConditionText | src/main/java/com/gargoylesoftware/css/parser/condition/PseudoClassCondition.java:64-71 | the only condition without text is a pseudo-class with an absent value |
| Conditions.AbsentAndEmptyPseudoDiffer | src/main/java/com/gargoylesoftware/css/parser/condition/PseudoClassCondition.java:66-70 | absent value gives absent text; empty value gives `:` or `::` |
| Conditions.PseudoTextRoundTrip | src/main/java/com/gargoylesoftware/css/parser/condition/PseudoClassCondition.java:70 | a value that does not start with `:` and the doubleColon flag can both be read back from the text |
| Conditions.PseudoTextLeadingColon | src/main/java/com/gargoylesoftware/css/parser/condition/PseudoClassCondition.java:70 | without that restriction the text is ambiguous: `:` + `:x` equals `::` + `x` |
| Conditions.LocatorIrrelevant | src/main/java/com/gargoylesoftware/css/parser/condition/PseudoClassCondition.java:37-41 | changing the locator changes neither type, local name, value nor text, for every condition kind |
| Conditions.BeginHyphenAttributeConditionContract | src/test/java/com/gargoylesoftware/css/parser/condition/BeginHyphenAttributeConditionTest.java:33-64 | type BEGIN_HYPHEN_ATTRIBUTE_CONDITION; name and value verbatim; text `[name]` when the value is absent, `[name`, the begin-hyphen operator, `="v"]` otherwise, including an empty v |
| Conditions.SubstringAttributeConditionContract | src/test/java/com/gargoylesoftware/css/parser/condition/SubstringAttributeConditionTest.java:35-66 | type SUBSTRING_ATTRIBUTE_CONDITION; name and value verbatim; text `[name]` when the value is absent, `[name*="v"]` otherwise |
| Conditions.AttributeText | src/test/java/com/gargoylesoftware/css/parser/condition/BeginHyphenAttributeConditionTest.java:33-64 | text is bracketed, and is exactly `[name]` long precisely when the value is absent |
| Conditions.AttributeTextRoundTrip | src/test/java/com/gargoylesoftware/css/parser/condition/SubstringAttributeConditionTest.java:35-66 | reading the text back gives the name, and gives the matcher and value whenever a value is present |
| Conditions.AbsentAndEmptyAttributeDiffer | src/test/java/com/gargoylesoftware/css/parser/condition/SubstringAttributeConditionTest.java:48-53 | the texts for an absent and an empty value differ |
| Conditions.AttributeTextOperator | src/test/java/com/gargoylesoftware/css/parser/condition/BeginHyphenAttributeConditionTest.java:33-51 | no `=` without a value; an empty value ends the text in `=""]` |
| Conditions.MatcherChar | src/test/java/com/gargoylesoftware/css/parser/selector/SelectorSpecificityTest.java:110-126 | only the `=` matcher has no operator character |
| Conditions.MatcherOf | src/test/java/com/gargoylesoftware/css/parser/selector/SelectorSpecificityTest.java:110-126 | an operator character maps back to the matcher that writes it |
| Conditions.AttributeTypeInjective | src/test/java/com/gargoylesoftware/css/parser/condition/SubstringAttributeConditionTest.java:36 | different matchers report different condition types |
| Selectors.GetSelectorType | src/test/java/com/gargoylesoftware/css/parser/selector/PseudoElementSelectorTest.java:35 | an element reports ELEMENT_NODE_SELECTOR and a pseudo-element PSEUDO_ELEMENT_SELECTOR, each exactly; a combined selector reports its combinator's type |
| Selectors.GetLocalName | src/test/java/com/gargoylesoftware/css/parser/selector/PseudoElementSelectorTest.java:34 | an element's local name is the one it was built with; a pseudo-element's is absent exactly when its text is |
| Selectors.PseudoElementSelectorContract | src/test/java/com/gargoylesoftware/css/parser/selector/PseudoElementSelectorTest.java:33-61 | type PSEUDO_ELEMENT_SELECTOR; local name verbatim; text absent, `:` for an empty name, `:n` or `::n` |
| Selectors.PseudoElementText | src/test/java/com/gargoylesoftware/css/parser/selector/PseudoElementSelectorTest.java:33-37 | text is absent exactly when the name is |
| Selectors.SelectorTypeDeterminesShape | src/test/java/com/gargoylesoftware/css/parser/AbstractCSSParserTest.java:250-261 | the selector type separates element, pseudo-element and each combinator |
| SelectorSpecificity.ConditionWeight | src/test/java/com/gargoylesoftware/css/parser/selector/SelectorSpecificityTest.java:49-53 | each condition adds exactly one, to `b` exactly when it is an id, else to `c` |
| SelectorSpecificity.ConditionsWeight | src/test/java/com/gargoylesoftware/css/parser/AbstractCSSParserTest.java:169-174 | an element's conditions add exactly their number to `b` + `c`, nothing to `a` or `d` |
| SelectorSpecificity.SimpleWeight | src/test/java/com/gargoylesoftware/css/parser/selector/SelectorSpecificityTest.java:42-44 | a pseudo-element weighs (0,0,0,1); an element adds 1 to `d` unless universal, plus one per condition |
| SelectorSpecificity.Of | src/test/java/com/gargoylesoftware/css/parser/selector/SelectorSpecificityTest.java:42-53 | the first component is always 0 |
| SelectorSpecificity.ConditionsWeightCounts | src/test/java/com/gargoylesoftware/css/parser/selector/SelectorSpecificityTest.java:49-53 | `b` and `c` of a condition list are the number of ids and of class-like conditions in it |
| SelectorSpecificity.SimpleWeightCounts | src/test/java/com/gargoylesoftware/css/parser/selector/SelectorSpecificityTest.java:42-53 | a simple selector's tuple is its counts of ids, class-like conditions and typed names |
| SelectorSpecificity.TallySimple | src/test/java/com/gargoylesoftware/css/parser/selector/SelectorSpecificityTest.java:42-44 | on simple selectors the recursive and the counting definitions agree |
| SelectorSpecificity.PartsWeightSnocCounts | src/test/java/com/gargoylesoftware/css/parser/selector/SelectorSpecificityTest.java:45-48 | appending a simple selector adds its own weight to each component of the count |
| SelectorSpecificity.PartsWeightSnoc | src/test/java/com/gargoylesoftware/css/parser/selector/SelectorSpecificityTest.java:45-48 | appending a simple selector adds its tuple to the count |
| SelectorSpecificity.OfIsTally | src/test/java/com/gargoylesoftware/css/parser/selector/SelectorSpecificityTest.java:41-53 | for every selector, the tuple equals the count of ids, class-like conditions and typed parts over all its simple selectors |
| SelectorSpecificity.ConditionOrderIrrelevant | src/test/java/com/gargoylesoftware/css/parser/selector/SelectorSpecificityTest.java:50 | any reordering of an element's conditions keeps its tuple |
| SelectorSpecificity.CombinatorKindIrrelevant | src/test/java/com/gargoylesoftware/css/parser/selector/SelectorSpecificityTest.java:45-48 | all four combinators give the same tuple, the sum of the operands' tuples |
| SelectorSpecificity.CompareTo | src/test/java/com/gargoylesoftware/css/parser/selector/SelectorSpecificityTest.java:55-77 | zero exactly on equal tuples |
| SelectorSpecificity.CompareToIsLexicographic | src/test/java/com/gargoylesoftware/css/parser/selector/SelectorSpecificityTest.java:55-77 | negative exactly when the first tuple is lexicographically smaller, positive exactly when larger |
| SelectorSpecificity.CompareToAntisymmetric | src/test/java/com/gargoylesoftware/css/parser/selector/SelectorSpecificityTest.java:61-74 | swapping the arguments negates the result |
| SelectorSpecificity.CompareToTransitive | src/test/java/com/gargoylesoftware/css/parser/selector/SelectorSpecificityTest.java:55-77 | smaller-than is transitive |
| SelectorSpecificity.PlusRaises | src/test/java/com/gargoylesoftware/css/parser/selector/SelectorSpecificityTest.java:45-48 | adding a tuple never lowers the comparison, and leaves it equal only when adding zero |
| SelectorSpecificity.WeightlessSimple | src/test/java/com/gargoylesoftware/css/parser/selector/SelectorSpecificityTest.java:42 | a simple selector weighs nothing exactly when it is a bare universal element |
| SelectorSpecificity.CombinedOutweighsOperands | src/test/java/com/gargoylesoftware/css/parser/selector/SelectorSpecificityTest.java:55-77 | a combined selector compares at least as high as each operand, and equal to its left operand only when the right operand is a bare `*` |
| SelectorSpecificity.AddingConditionRaises | src/test/java/com/gargoylesoftware/css/parser/selector/SelectorSpecificityTest.java:49-51 | one more condition adds one to `b` (id) or `c` (otherwise) and compares strictly higher |
| SelectorSpecificity.Equals | src/test/java/com/gargoylesoftware/css/parser/selector/SelectorSpecificityTest.java:153-170 | true exactly for a specificity argument that compares equal; false for null and other classes |
| SelectorSpecificity.EqualsByCounts | src/test/java/com/gargoylesoftware/css/parser/selector/SelectorSpecificityTest.java:65-66 | two selectors' specificities are equal exactly when their counts agree, whatever their shape |
| SelectorSpecificity.SpecificityText | src/test/java/com/gargoylesoftware/css/parser/selector/SelectorSpecificityTest.java:136 | the text of any tuple is at least seven characters long |
| SelectorSpecificity.SpecificityTextShape | src/test/java/com/gargoylesoftware/css/parser/selector/SelectorSpecificityTest.java:136 | the text is made only of decimal digits and commas, with exactly three commas |
| SelectorSpecificity.OneDigitSpecificityText | src/test/java/com/gargoylesoftware/css/parser/selector/SelectorSpecificityTest.java:42-53 | a tuple whose components are below ten prints as its four digits separated by commas |
| SelectorSpecificity.SpecificityTextRoundTrip | src/test/java/com/gargoylesoftware/css/parser/selector/SelectorSpecificityTest.java:129-137 | the decimal `a,b,c,d` text reads back to the same tuple |
| SelectorSpecificity.SpecificityTextInjective | src/test/java/com/gargoylesoftware/css/parser/selector/SelectorSpecificityTest.java:129-137 | equal texts only for equal tuples |
| Scenarios.BeginHyphenAttributeConditionCases | src/test/java/com/gargoylesoftware/css/parser/condition/BeginHyphenAttributeConditionTest.java:33-103 | for `test` with null, "" and "value": the asserted type, name, value and texts `[test]`, then the begin-hyphen forms with `=""]` and `="value"]` |
| Scenarios.SubstringAttributeConditionCases | src/test/java/com/gargoylesoftware/css/parser/condition/SubstringAttributeConditionTest.java:35-106 | for `test` with null, "" and "value": the asserted type, name, value and texts `[test]`, `[test*=""]`, `[test*="value"]` |
| Scenarios.PseudoElementSelectorCases | src/test/java/com/gargoylesoftware/css/parser/selector/PseudoElementSelectorTest.java:33-61 | for null, "" and "value": the asserted local name, type and texts absent, `:`, `:value` |
| Scenarios.UniversalSpecificity | src/test/java/com/gargoylesoftware/css/parser/selector/SelectorSpecificityTest.java:42 | `*` is 0,0,0,0 |
| Scenarios.TypeSpecificity | src/test/java/com/gargoylesoftware/css/parser/selector/SelectorSpecificityTest.java:43 | `li` is 0,0,0,1 |
| Scenarios.PseudoElementSpecificity | src/test/java/com/gargoylesoftware/css/parser/selector/SelectorSpecificityTest.java:44 | `li:first-line` is 0,0,0,2 |
| Scenarios.TwoTypesSpecificity | src/test/java/com/gargoylesoftware/css/parser/selector/SelectorSpecificityTest.java:45-46 | `ul li` and `body > p` are 0,0,0,2 |
| Scenarios.ThreeTypesSpecificity | src/test/java/com/gargoylesoftware/css/parser/selector/SelectorSpecificityTest.java:47 | `ul ol+li` is 0,0,0,3 |
| Scenarios.CombinedCounts | src/test/java/com/gargoylesoftware/css/parser/selector/SelectorSpecificityTest.java:45-48 | a combinator adds its operands' `b`, `c` and `d` |
| Scenarios.OneClassLikeCondition | src/test/java/com/gargoylesoftware/css/parser/selector/SelectorSpecificityTest.java:110-126 | a single non-id condition counts once in `c` and not in `b` |
| Scenarios.AdjacentAttributeSpecificity | src/test/java/com/gargoylesoftware/css/parser/selector/SelectorSpecificityTest.java:48 | `h1 + *[rel=up]` is 0,0,1,1 |
| Scenarios.DescendantClassSpecificity | src/test/java/com/gargoylesoftware/css/parser/selector/SelectorSpecificityTest.java:49 | `ul ol li.red` is 0,0,1,3 |
| Scenarios.TwoClassesSpecificity | src/test/java/com/gargoylesoftware/css/parser/selector/SelectorSpecificityTest.java:50 | `li.red.level` is 0,0,2,1 |
| Scenarios.IdSpecificity | src/test/java/com/gargoylesoftware/css/parser/selector/SelectorSpecificityTest.java:51-53 | `#x34y` is 0,1,0,0 and `test#x34y` is 0,1,0,1 |
| Scenarios.SiblingClassSpecificity | src/test/java/com/gargoylesoftware/css/parser/selector/SelectorSpecificityTest.java:85 | `.cls ~ p` is 0,0,1,1 |
| Scenarios.LangSpecificity | src/test/java/com/gargoylesoftware/css/parser/selector/SelectorSpecificityTest.java:93-94 | `:lang(en)` is 0,0,1,0 and `li:lang(en)` is 0,0,1,1 |
| Scenarios.PseudoClassElementSpecificity | src/test/java/com/gargoylesoftware/css/parser/selector/SelectorSpecificityTest.java:102 | `div:hover` weighs 0,0,1,1 |
| Scenarios.IdThenPseudoClassSpecificity | src/test/java/com/gargoylesoftware/css/parser/selector/SelectorSpecificityTest.java:102 | `#id div:hover` is 0,1,1,1 |
| Scenarios.IdPseudoClassSpecificity | src/test/java/com/gargoylesoftware/css/parser/selector/SelectorSpecificityTest.java:102 | `#id div:hover > div` is 0,1,1,2 |
| Scenarios.AttributeSelectorSpecificity | src/test/java/com/gargoylesoftware/css/parser/selector/SelectorSpecificityTest.java:110-126 | `a[attr<op>=v]` is 0,0,1,1 for all six matchers and any attribute name, `id` included |
| Scenarios.SpecificityTexts | src/test/java/com/gargoylesoftware/css/parser/selector/SelectorSpecificityTest.java:42-53 | the texts of the tuples above are the expected strings `0,0,0,0` … `0,1,1,2` |
| Scenarios.SpecificityOrder | src/test/java/com/gargoylesoftware/css/parser/selector/SelectorSpecificityTest.java:55-77 | every comparison the test asserts, with its sign |
| Scenarios.SpecificityEquals | src/test/java/com/gargoylesoftware/css/parser/selector/SelectorSpecificityTest.java:153-170 | `equals` is false for null and a string, true for itself and an equal tuple, false for the three different tuples |

## Left out

- Parsing: the CSS parser, `InputSource`, readers and the selector-list wrapper are not part of this model. Selector trees are built directly as values.
- The parser's error handler, its warning and error counts, and locale setup are not modelled. They are diagnostics and JVM global state.
- Media queries and property values are outside the selector model.
- Source locators are carried as data only. `Conditions.LocatorIrrelevant` states that they change nothing.
- `hashCode` and `Serializable` depend on the JVM's hash algorithm and serialisation and are not modelled. Equal tuples trivially give equal hashes, since the tuple is a value.
- Only the pseudo-class, pseudo-element and attribute-condition texts are pinned by the tests. The texts of class, id and `:lang()` conditions follow the CSS syntax (`.c`, `#i`, `:lang(l)`), but no test states them. The texts of element selectors and combinators are not modelled.
- `BeginHyphenAttributeCondition`, `SubstringAttributeCondition`, `PseudoElementSelector` and `SelectorSpecificity` are modelled from the behaviour their tests assert, because their implementations are not part of this model. The remaining matchers (`=`, `~=`, `^=`, `$=`) follow the same pattern with their own operator.
- Three choices in those models are not pinned down by any test:
  - Conditions.JavaText: an absent attribute name prints as `null`, as Java string concatenation would. The tests always give a name.
  - Selectors.PseudoElementText: a pseudo-element built with the double-colon flag prints as `::n`, following `PseudoClassCondition`. The tests only use the single-colon form.
  - SelectorSpecificity.SimpleWeight: a pseudo-element counts one in `d` even when its name is absent or empty. The tests only use named pseudo-elements.
- An element is universal when its name is absent or is the literal `*`. Neither form adds to `d`.
- `li:first-line` is modelled as the element `li` followed by a pseudo-element part, and a pseudo-element counts one in `d` wherever it stands.
- SelectorSpecificity.CompareTo: Java's `int` result and component fields are modelled as unbounded integers. A wrap-around in the subtraction would need more than 2^31 parts in one selector. Only the sign of the result is relied on.
- The scenario lemmas leave the test's element names, class names, ids and values free. A name stands for any string other than `*`, so each lemma covers the literal selector in the test and every selector of the same shape.
