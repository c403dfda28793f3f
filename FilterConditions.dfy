/**
 * Raw-data filter conditions and their compilation into a filter tree:
 * `AndFilterCondition` and `DateTimeCompareFilterCondition`.
 *
 * Conditions are immutable values, so the snapshot the `AndFilterCondition` constructor
 * takes of its children, and the fixed fields of a date comparison, are given by value
 * semantics; `BuildFilterTree` is a function, so repeated calls give the same tree.
 */
module FilterConditions {
  import opened Wrappers
  import opened Timestamps
  import opened FilterTrees

  /** `A` is the date-time attribute enumeration, `O` the compare-operation enumeration. */
  datatype FilterCondition<A, O> =
    | And(children: seq<FilterCondition<A, O>>)
    | DateTimeCompare(attribute: A, operation: O, value: Option<DateTime>)

  /** `ArgumentNullException`, naming the parameter. */
  datatype ArgumentNullError = ArgumentNull(paramName: string)

  /**
   * The `AndFilterCondition` constructor: a null child collection is refused before any
   * state is set; otherwise the condition keeps a copy of the children, in order.
   */
  function NewAnd<A, O>(childConditions: Option<seq<FilterCondition<A, O>>>): (r: Result<FilterCondition<A, O>, ArgumentNullError>)
    ensures r.Failure? <==> childConditions.None?
    ensures r.Failure? ==> r.error == ArgumentNull("childConditions")
    ensures r.Success? ==> r.value.And? && r.value.children == childConditions.value
  {
    match childConditions
    case None => Failure(ArgumentNull("childConditions"))
    case Some(cs) => Success(And(cs))
  }

  /** The literal of a date comparison: the round-trip text of its timestamp, or null. */
  function DateTimeLiteral(value: Option<DateTime>): Option<string> {
    match value
    case None => None
    case Some(t) => Some(FormatDateTime(t))
  }

  /**
   * `BuildFilterTree`. An And condition becomes an And node with one subtree per child,
   * in order; a date comparison becomes one comparison node over one value leaf.
   */
  function BuildFilterTree<A, O>(c: FilterCondition<A, O>, helper: FilterHelper<A, O>): (t: FilterTree)
    ensures c.And? ==> t.AndNode? && |t.children| == |c.children|
    ensures c.DateTimeCompare? ==> t.ComparisonNode? && t.value.ValueNode?
    decreases c
  {
    match c
    case And(children) =>
      AndNode(seq(|children|, i requires 0 <= i < |children| => BuildFilterTree(children[i], helper)))
    case DateTimeCompare(attribute, operation, value) =>
      ComparisonNode(helper.operatorTokenType(operation), helper.attributeName(attribute),
                     ValueNode(DateTimeLiteral(value)))
  }

  /** The i-th subtree of an And node is compiled from the i-th child. */
  lemma BuildAndChild<A, O>(children: seq<FilterCondition<A, O>>, helper: FilterHelper<A, O>, i: nat)
    requires i < |children|
    ensures BuildFilterTree(And(children), helper).children[i] == BuildFilterTree(children[i], helper)
  {
  }

  /**
   * A date comparison's literal is null exactly when it has no timestamp, and otherwise
   * reads back as that very timestamp.
   */
  lemma DateTimeLiteralRoundTrip(value: Option<DateTime>)
    ensures DateTimeLiteral(value).None? <==> value.None?
    ensures value.Some? ==> ParseDateTime(DateTimeLiteral(value).value) == value
  {
    if value.Some? {
      ParseFormatDateTime(value.value);
    }
  }

  /**
   * A date comparison compiles to the comparison its helper names, over a value leaf
   * whose literal is null without a timestamp and otherwise reads back as the timestamp.
   */
  lemma DateTimeCompareTree<A, O>(attribute: A, operation: O, value: Option<DateTime>, helper: FilterHelper<A, O>)
    ensures var t := BuildFilterTree(DateTimeCompare(attribute, operation, value), helper);
      t.operator == helper.operatorTokenType(operation) &&
      t.attributeName == helper.attributeName(attribute) &&
      (t.value.literal.None? <==> value.None?) &&
      (value.Some? ==> ParseDateTime(t.value.literal.value) == value)
  {
    DateTimeLiteralRoundTrip(value);
  }

  ghost predicate Injective<X(!new), Y>(f: X -> Y) {
    forall x1, x2 :: f(x1) == f(x2) ==> x1 == x2
  }

  /**
   * Compilation loses nothing: when attribute names and operator tokens identify their
   * enumeration members, two conditions with the same tree are the same condition.
   */
  lemma {:induction false} BuildFilterTreeInjective<A(!new), O(!new)>(c1: FilterCondition<A, O>, c2: FilterCondition<A, O>, helper: FilterHelper<A, O>)
    requires Injective(helper.attributeName) && Injective(helper.operatorTokenType)
    requires BuildFilterTree(c1, helper) == BuildFilterTree(c2, helper)
    ensures c1 == c2
    decreases c1
  {
    match c1
    case And(cs1) =>
      var cs2 := c2.children;
      forall i | 0 <= i < |cs1| ensures cs1[i] == cs2[i] {
        BuildAndChild(cs1, helper, i);
        BuildAndChild(cs2, helper, i);
        BuildFilterTreeInjective(cs1[i], cs2[i], helper);
      }
    case DateTimeCompare(a1, o1, v1) =>
      DateTimeLiteralRoundTrip(v1);
      DateTimeLiteralRoundTrip(c2.value);
  }
}
