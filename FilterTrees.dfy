/**
 * The compiled filter tree and its tokens. The tree's own library code (`FilterTree`,
 * `Token`, `TokenType`, `FilterHelper`) is not part of this model: only the node shapes
 * the conditions build are represented, and the token types are known by name only.
 */
module FilterTrees {
  import opened Wrappers

  /** A member of the `TokenType` enumeration, known by its name. */
  datatype TokenType = TokenType(name: string)

  /** A token: its type and, for a value leaf, its literal text (`None` for null). */
  datatype Token = Token(tokenType: TokenType, value: Option<string>)

  /**
   * The three node shapes the conditions build:
   * `FilterTree.MakeValue(literal)`, `FilterHelper.MakeComparison(op, attribute, value)`
   * and `FilterTree.MakeAnd(children)`.
   */
  datatype FilterTree =
    | ValueNode(literal: Option<string>)
    | ComparisonNode(operator: TokenType, attributeName: string, value: FilterTree)
    | AndNode(children: seq<FilterTree>)

  /**
   * `FilterHelper`: the attribute-name and operator-token lookups, as supplied by the
   * library. `A` is the attribute enumeration, `O` the compare-operation enumeration.
   */
  datatype FilterHelper<!A, !O> = FilterHelper(attributeName: A -> string, operatorTokenType: O -> TokenType)
}
