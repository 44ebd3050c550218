/**
 * Selector specificity after section 6.4.3 of CSS 2.1: a tuple (a, b, c, d)
 * computed from a finished selector tree, compared lexicographically, equal
 * by value and written as "a,b,c,d".
 */
module SelectorSpecificity {
  import opened Wrappers
  import opened Strings
  import opened Conditions
  import opened Selectors

  /**
   * `a` counts inline-style origins and is never set from a selector, `b`
   * counts ids, `c` classes, attribute matchers and pseudo-classes, `d`
   * element names and pseudo-elements.
   */
  datatype Specificity = Specificity(a: nat, b: nat, c: nat, d: nat)

  const Zero := Specificity(0, 0, 0, 0)

  function Plus(x: Specificity, y: Specificity): Specificity {
    Specificity(x.a + y.a, x.b + y.b, x.c + y.c, x.d + y.d)
  }

  /** A tuple whose components are the sums of two others' is their sum. */
  lemma PlusByComponents(u: Specificity, x: Specificity, y: Specificity)
    requires u.a == x.a + y.a && u.b == x.b + y.b && u.c == x.c + y.c && u.d == x.d + y.d
    ensures u == Plus(x, y)
  {
  }

  // ---------------------------------------------------------------------------
  // Computing the tuple from a selector tree.

  /** Every condition weighs one: in `b` if it is an id, in `c` otherwise. */
  function ConditionWeight(cond: Condition): (w: Specificity)
    ensures w.a == 0 && w.d == 0 && w.b + w.c == 1
    ensures w.b == 1 <==> cond.Id?
  {
    match cond
    case Id(_, _) => Specificity(0, 1, 0, 0)
    case Attribute(_, _, _, _) => Specificity(0, 0, 1, 0)
    case Class(_, _) => Specificity(0, 0, 1, 0)
    case Lang(_, _) => Specificity(0, 0, 1, 0)
    case PseudoClass(_, _, _) => Specificity(0, 0, 1, 0)
  }

  /** The conditions of one element, in order; each adds exactly one to `b` or `c`. */
  function ConditionsWeight(cs: seq<Condition>): (w: Specificity)
    ensures w.a == 0 && w.d == 0 && w.b + w.c == |cs|
  {
    if cs == [] then Zero
    else
      var w, v := ConditionsWeight(cs[..|cs| - 1]), ConditionWeight(cs[|cs| - 1]);
      Specificity(0, w.b + v.b, w.c + v.c, 0)
  }

  /**
   * A named element adds one to `d` (the universal selector nothing) and its
   * conditions one each to `b` or `c`; a pseudo-element adds one to `d`.
   */
  function SimpleWeight(s: SimpleSelector): (w: Specificity)
    ensures w.a == 0
    ensures s.PseudoElement? ==> w == Specificity(0, 0, 0, 1)
    ensures s.Element? ==> w.d == (if IsUniversal(s.localName) then 0 else 1) && w.b + w.c == |s.conditions|
  {
    match s
    case Element(name, cs) =>
      var w := ConditionsWeight(cs);
      Specificity(0, w.b, w.c, if IsUniversal(name) then 0 else 1)
    case PseudoElement(_, _, _) => Specificity(0, 0, 0, 1)
  }

  /** The specificity of a selector: combinators add up their two operands. */
  function Of(s: Selector): (w: Specificity)
    ensures w.a == 0
  {
    match s
    case Simple(x) => SimpleWeight(x)
    case Combined(_, anc, x) => Plus(Of(anc), SimpleWeight(x))
  }

  // ---------------------------------------------------------------------------
  // An independent reading: count the parts of the selector, wherever they stand.

  /** The simple selectors of a selector, leftmost first. */
  function Compounds(s: Selector): (parts: seq<SimpleSelector>)
    ensures |parts| >= 1
  {
    match s
    case Simple(x) => [x]
    case Combined(_, anc, x) => Compounds(anc) + [x]
  }

  function OwnConditions(x: SimpleSelector): seq<Condition> {
    if x.Element? then x.conditions else []
  }

  /** All conditions of a sequence of simple selectors, in order. */
  function AllConditions(parts: seq<SimpleSelector>): seq<Condition> {
    if parts == [] then []
    else OwnConditions(parts[0]) + AllConditions(parts[1..])
  }

  /** How many elements of `xs` satisfy `p`. */
  function Count<T>(xs: seq<T>, p: T -> bool): nat
  {
    if xs == [] then 0
    else (if p(xs[0]) then 1 else 0) + Count(xs[1..], p)
  }

  predicate IsId(cond: Condition) {
    cond.Id?
  }

  predicate IsClassLike(cond: Condition) {
    cond.Class? || cond.Attribute? || cond.Lang? || cond.PseudoClass?
  }

  predicate HasTypeWeight(x: SimpleSelector) {
    x.PseudoElement? || !IsUniversal(x.localName)
  }

  /** The tuple by counting: ids, class-like conditions, typed simple selectors. */
  function PartsWeight(parts: seq<SimpleSelector>): Specificity {
    var cs := AllConditions(parts);
    Specificity(0, Count(cs, IsId), Count(cs, IsClassLike), Count(parts, HasTypeWeight))
  }

  function Tally(s: Selector): Specificity {
    PartsWeight(Compounds(s))
  }

  lemma {:induction false} CountAppend<T>(xs: seq<T>, ys: seq<T>, p: T -> bool)
    ensures Count(xs + ys, p) == Count(xs, p) + Count(ys, p)
  {
    if xs == [] {
      assert xs + ys == ys;
    } else {
      assert (xs + ys)[1..] == xs[1..] + ys;
      CountAppend(xs[1..], ys, p);
    }
  }

  lemma CountSnoc<T>(xs: seq<T>, y: T, p: T -> bool)
    ensures Count(xs + [y], p) == Count(xs, p) + (if p(y) then 1 else 0)
  {
    CountAppend(xs, [y], p);
    assert [y][1..] == [];
  }

  lemma {:induction false} ConditionsWeightCounts(cs: seq<Condition>)
    ensures ConditionsWeight(cs) == Specificity(0, Count(cs, IsId), Count(cs, IsClassLike), 0)
  {
    if cs != [] {
      var init, last := cs[..|cs| - 1], cs[|cs| - 1];
      ConditionsWeightCounts(init);
      assert cs == init + [last];
      CountSnoc(init, last, IsId);
      CountSnoc(init, last, IsClassLike);
    }
  }

  lemma {:induction false} AllConditionsAppend(parts: seq<SimpleSelector>, x: SimpleSelector)
    ensures AllConditions(parts + [x]) == AllConditions(parts) + OwnConditions(x)
  {
    var own := OwnConditions(x);
    if parts == [] {
      assert parts + [x] == [x];
      assert [x][1..] == [];
      assert AllConditions([x]) == own + [];
      assert own + [] == own;
    } else {
      var first, rest := parts[0], parts[1..];
      assert (parts + [x])[0] == first;
      assert (parts + [x])[1..] == rest + [x];
      AllConditionsAppend(rest, x);
      calc {
        AllConditions(parts + [x]);
        OwnConditions(first) + AllConditions(rest + [x]);
        OwnConditions(first) + (AllConditions(rest) + own);
        (OwnConditions(first) + AllConditions(rest)) + own;
      }
    }
  }

  lemma SimpleWeightCounts(x: SimpleSelector)
    ensures SimpleWeight(x) ==
      Specificity(0, Count(OwnConditions(x), IsId), Count(OwnConditions(x), IsClassLike), if HasTypeWeight(x) then 1 else 0)
  {
    match x
    case Element(name, cs) =>
      ConditionsWeightCounts(cs);
    case PseudoElement(_, _, _) =>
      assert OwnConditions(x) == [];
  }

  lemma TallySimple(x: SimpleSelector)
    ensures Of(Simple(x)) == Tally(Simple(x))
  {
    assert AllConditions([x]) == OwnConditions(x) by {
      assert [x][1..] == [];
    }
    assert Count([x], HasTypeWeight) == (if HasTypeWeight(x) then 1 else 0) by {
      assert [x][1..] == [];
    }
    SimpleWeightCounts(x);
  }

  /** Appending a simple selector adds its counts, component by component. */
  lemma PartsWeightSnocCounts(parts: seq<SimpleSelector>, x: SimpleSelector)
    ensures PartsWeight(parts + [x]).a == PartsWeight(parts).a + SimpleWeight(x).a
    ensures PartsWeight(parts + [x]).b == PartsWeight(parts).b + SimpleWeight(x).b
    ensures PartsWeight(parts + [x]).c == PartsWeight(parts).c + SimpleWeight(x).c
    ensures PartsWeight(parts + [x]).d == PartsWeight(parts).d + SimpleWeight(x).d
  {
    var own, cs := OwnConditions(x), AllConditions(parts);
    AllConditionsAppend(parts, x);
    SimpleWeightCounts(x);
    CountAppend(cs, own, IsId);
    CountAppend(cs, own, IsClassLike);
    CountSnoc(parts, x, HasTypeWeight);
  }

  lemma PartsWeightSnoc(parts: seq<SimpleSelector>, x: SimpleSelector)
    ensures PartsWeight(parts + [x]) == Plus(PartsWeight(parts), SimpleWeight(x))
  {
    PartsWeightSnocCounts(parts, x);
    PlusByComponents(PartsWeight(parts + [x]), PartsWeight(parts), SimpleWeight(x));
  }

  /** The recursive computation and the count agree on every selector. */
  lemma {:induction false} OfIsTally(s: Selector)
    ensures Of(s) == Tally(s)
  {
    match s
    case Simple(x) =>
      TallySimple(x);
    case Combined(k, anc, x) =>
      OfIsTally(anc);
      PartsWeightSnoc(Compounds(anc), x);
  }

  /** Taking out the element at `i` takes its share out of the count. */
  lemma CountRemove<T>(ys: seq<T>, i: nat, p: T -> bool)
    requires i < |ys|
    ensures Count(ys, p) == Count(ys[..i] + ys[i + 1..], p) + (if p(ys[i]) then 1 else 0)
  {
    var left, right := ys[..i], ys[i + 1..];
    assert ys == left + ([ys[i]] + right);
    CountAppend(left, right, p);
    CountAppend(left, [ys[i]] + right, p);
    assert ([ys[i]] + right)[1..] == right;
  }

  lemma MultisetRemove<T>(xs: seq<T>, ys: seq<T>, i: nat)
    requires multiset(xs) == multiset(ys) && |xs| > 0
    requires i < |ys| && ys[i] == xs[0]
    ensures multiset(xs[1..]) == multiset(ys[..i] + ys[i + 1..])
  {
    var x, left, right := xs[0], ys[..i], ys[i + 1..];
    assert xs == [x] + xs[1..];
    assert ys == left + [x] + right;
    assert multiset(xs) == multiset{x} + multiset(xs[1..]);
    assert multiset(ys) == multiset(left) + multiset{x} + multiset(right);
    assert multiset(left + right) == multiset(left) + multiset(right);
    assert multiset(xs[1..]) == multiset(xs) - multiset{x};
    assert multiset(left + right) == multiset(ys) - multiset{x};
  }

  /** A count does not depend on the order of the sequence. */
  lemma {:induction false} CountPermutation<T>(xs: seq<T>, ys: seq<T>, p: T -> bool)
    requires multiset(xs) == multiset(ys)
    ensures Count(xs, p) == Count(ys, p)
    decreases |xs|
  {
    if xs == [] {
      assert |ys| == |multiset(ys)| == 0;
    } else {
      assert xs[0] in multiset(ys);
      var i :| 0 <= i < |ys| && ys[i] == xs[0];
      MultisetRemove(xs, ys, i);
      CountPermutation(xs[1..], ys[..i] + ys[i + 1..], p);
      CountRemove(ys, i, p);
    }
  }

  /** The order of an element's conditions does not change its specificity. */
  lemma ConditionOrderIrrelevant(name: Option<string>, cs: seq<Condition>, reordered: seq<Condition>)
    requires multiset(cs) == multiset(reordered)
    ensures SimpleWeight(Element(name, cs)) == SimpleWeight(Element(name, reordered))
  {
    ConditionsWeightCounts(cs);
    ConditionsWeightCounts(reordered);
    CountPermutation(cs, reordered, IsId);
    CountPermutation(cs, reordered, IsClassLike);
  }

  /** Which combinator joins two operands does not matter, only the operands. */
  lemma CombinatorKindIrrelevant(k1: Combinator, k2: Combinator, anc: Selector, x: SimpleSelector)
    ensures Of(Combined(k1, anc, x)) == Of(Combined(k2, anc, x))
    ensures Of(Combined(k1, anc, x)) == Plus(Of(anc), Of(Simple(x)))
  {
  }

  // ---------------------------------------------------------------------------
  // Comparing, equality and text.

  /**
   * Three-way comparison: the difference of the first component in which the
   * two tuples differ, zero when there is none.
   */
  function CompareTo(x: Specificity, y: Specificity): (r: int)
    ensures r == 0 <==> x == y
  {
    if x.a != y.a then x.a - y.a
    else if x.b != y.b then x.b - y.b
    else if x.c != y.c then x.c - y.c
    else x.d - y.d
  }

  function Components(x: Specificity): (s: seq<nat>)
    ensures |s| == 4
  {
    [x.a, x.b, x.c, x.d]
  }

  /** Strict lexicographic order on equally long sequences of numbers. */
  predicate LexLess(s: seq<nat>, t: seq<nat>)
    requires |s| == |t|
  {
    |s| > 0 && (s[0] < t[0] || (s[0] == t[0] && LexLess(s[1..], t[1..])))
  }

  lemma LexLessUnfold(s: seq<nat>, t: seq<nat>)
    requires |s| == |t| == 4
    ensures LexLess(s, t) <==>
      s[0] < t[0] || (s[0] == t[0] && (s[1] < t[1] || (s[1] == t[1] && (s[2] < t[2] || (s[2] == t[2] && s[3] < t[3])))))
  {
    var s1, t1 := s[1..], t[1..];
    var s2, t2 := s1[1..], t1[1..];
    var s3, t3 := s2[1..], t2[1..];
    assert !LexLess(s3[1..], t3[1..]);
    assert LexLess(s3, t3) <==> s[3] < t[3];
    assert LexLess(s2, t2) <==> s[2] < t[2] || (s[2] == t[2] && s[3] < t[3]);
  }

  /** `CompareTo` orders tuples lexicographically, both ways round. */
  lemma CompareToIsLexicographic(x: Specificity, y: Specificity)
    ensures CompareTo(x, y) < 0 <==> LexLess(Components(x), Components(y))
    ensures CompareTo(x, y) > 0 <==> LexLess(Components(y), Components(x))
  {
    LexLessUnfold(Components(x), Components(y));
    LexLessUnfold(Components(y), Components(x));
  }

  /** Swapping the arguments flips the sign; unequal tuples always compare non-zero. */
  lemma CompareToAntisymmetric(x: Specificity, y: Specificity)
    ensures CompareTo(x, y) == -CompareTo(y, x)
  {
  }

  lemma CompareToTransitive(x: Specificity, y: Specificity, z: Specificity)
    requires CompareTo(x, y) < 0 && CompareTo(y, z) < 0
    ensures CompareTo(x, z) < 0
  {
  }

  /** Adding a tuple never lowers specificity, and raises it unless the tuple is zero. */
  lemma PlusRaises(x: Specificity, y: Specificity)
    ensures CompareTo(Plus(x, y), x) >= 0
    ensures CompareTo(Plus(x, y), x) == 0 <==> y == Zero
  {
  }

  /** Only the bare universal selector `*` weighs nothing. */
  lemma WeightlessSimple(x: SimpleSelector)
    ensures SimpleWeight(x) == Zero <==> x.Element? && x.conditions == [] && IsUniversal(x.localName)
  {
  }

  /** A combined selector weighs at least as much as either of its operands. */
  lemma CombinedOutweighsOperands(k: Combinator, anc: Selector, x: SimpleSelector)
    ensures CompareTo(Of(Combined(k, anc, x)), Of(anc)) >= 0
    ensures CompareTo(Of(Combined(k, anc, x)), Of(Simple(x))) >= 0
    ensures CompareTo(Of(Combined(k, anc, x)), Of(anc)) == 0 <==>
      x.Element? && x.conditions == [] && IsUniversal(x.localName)
  {
  }

  /** One more condition on an element adds one to `b` for an id, to `c` otherwise. */
  lemma AddingConditionRaises(name: Option<string>, cs: seq<Condition>, cond: Condition)
    ensures SimpleWeight(Element(name, cs + [cond])) ==
      Plus(SimpleWeight(Element(name, cs)), if cond.Id? then Specificity(0, 1, 0, 0) else Specificity(0, 0, 1, 0))
    ensures CompareTo(SimpleWeight(Element(name, cs + [cond])), SimpleWeight(Element(name, cs))) > 0
  {
  }

  /** What `equals` may be handed: null, a specificity, or an object of another class. */
  datatype EqualsArgument = Null | OfSpecificity(value: Specificity) | OfOtherClass

  /** Value equality, consistent with `CompareTo`; false for null and other classes. */
  function Equals(x: Specificity, other: EqualsArgument): (r: bool)
    ensures r <==> other.OfSpecificity? && CompareTo(x, other.value) == 0
  {
    other.OfSpecificity? && other.value == x
  }

  /** Two selectors have equal specificities exactly when their counts agree. */
  lemma EqualsByCounts(s: Selector, t: Selector)
    ensures Equals(Of(s), OfSpecificity(Of(t))) <==> Tally(s) == Tally(t)
  {
    OfIsTally(s);
    OfIsTally(t);
  }

  /** The text form "a,b,c,d" in decimal, without padding. */
  function SpecificityText(x: Specificity): (t: string)
    ensures |t| >= 7
  {
    NatText(x.a) + "," + NatText(x.b) + "," + NatText(x.c) + "," + NatText(x.d)
  }

  /** A tuple of one-digit components is written as seven characters: the digits and three commas. */
  lemma OneDigitSpecificityText(x: Specificity)
    requires x.a < 10 && x.b < 10 && x.c < 10 && x.d < 10
    ensures SpecificityText(x) == [DigitChar(x.a), ',', DigitChar(x.b), ',', DigitChar(x.c), ',', DigitChar(x.d)]
  {
  }

  /** The text is made of decimal digits and exactly three commas. */
  lemma SpecificityTextShape(x: Specificity)
    ensures multiset(SpecificityText(x))[','] == 3
    ensures DigitsAndSeparators(SpecificityText(x), ',')
  {
    var ta, tb, tc, td := NatText(x.a), NatText(x.b), NatText(x.c), NatText(x.d);
    NoSeparatorInNatText(x.a, ',');
    NoSeparatorInNatText(x.b, ',');
    NoSeparatorInNatText(x.c, ',');
    NoSeparatorInNatText(x.d, ',');
    assert multiset(SpecificityText(x)) ==
      multiset(ta) + multiset{','} + multiset(tb) + multiset{','} + multiset(tc) + multiset{','} + multiset(td);
    DigitsAndSeparatorsAppend(ta, ",", ',');
    DigitsAndSeparatorsAppend(ta + ",", tb, ',');
    DigitsAndSeparatorsAppend(ta + "," + tb, ",", ',');
    DigitsAndSeparatorsAppend(ta + "," + tb + ",", tc, ',');
    DigitsAndSeparatorsAppend(ta + "," + tb + "," + tc, ",", ',');
    DigitsAndSeparatorsAppend(ta + "," + tb + "," + tc + ",", td, ',');
  }

  /** Reads "a,b,c,d" back; anything else is rejected. */
  function ParseSpecificityText(t: string): Option<Specificity> {
    match Cut(t, ',')
    case None => None
    case Some((ta, r1)) =>
      match Cut(r1, ',')
      case None => None
      case Some((tb, r2)) =>
        match Cut(r2, ',')
        case None => None
        case Some((tc, td)) =>
          match (ParseNat(ta), ParseNat(tb), ParseNat(tc), ParseNat(td))
          case (Some(a), Some(b), Some(c), Some(d)) => Some(Specificity(a, b, c, d))
          case _ => None
  }

  /** The text form loses nothing: reading it back gives the tuple. */
  lemma SpecificityTextRoundTrip(x: Specificity)
    ensures ParseSpecificityText(SpecificityText(x)) == Some(x)
  {
    var ta, tb, tc, td := NatText(x.a), NatText(x.b), NatText(x.c), NatText(x.d);
    var r2 := tc + [','] + td;
    var r1 := tb + [','] + r2;
    assert SpecificityText(x) == ta + [','] + r1;
    NoSeparatorInNatText(x.a, ',');
    NoSeparatorInNatText(x.b, ',');
    NoSeparatorInNatText(x.c, ',');
    CutAt(ta, ',', r1);
    CutAt(tb, ',', r2);
    CutAt(tc, ',', td);
    NatTextRoundTrip(x.a);
    NatTextRoundTrip(x.b);
    NatTextRoundTrip(x.c);
    NatTextRoundTrip(x.d);
  }

  /** Equal texts mean equal specificities. */
  lemma SpecificityTextInjective(x: Specificity, y: Specificity)
    requires SpecificityText(x) == SpecificityText(y)
    ensures x == y
  {
    SpecificityTextRoundTrip(x);
    SpecificityTextRoundTrip(y);
  }
}
