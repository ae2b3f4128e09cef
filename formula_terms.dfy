/**
 * The variable names of a model formula, read off the flattened syntax
 * tree the formula parser produces (`_leaf_collector`). The parser itself
 * is not part of this model: its output is the `ParseNode` given here.
 */
module FormulaTerms {
  import opened Wrappers

  /**
   * A flattened parse: a variable token, a list `[operator, left, right]`,
   * or any other object (an operator sits at the head of each list).
   */
  datatype ParseNode = Token(text: string) | List(items: seq<ParseNode>) | Operator(symbol: string)

  /** Every token of a tree, left to right, whatever the shape of its lists. */
  function Tokens(t: ParseNode): seq<string>
  {
    match t
    case Token(text) => [text]
    case Operator(_) => []
    case List(items) => TokensOfAll(items)
  }

  function TokensOfAll(ts: seq<ParseNode>): seq<string>
  {
    if ts == [] then [] else Tokens(ts[0]) + TokensOfAll(ts[1..])
  }

  /** The shape the parser gives a sum of terms: every list is an operator and two operands. */
  predicate BinaryShaped(t: ParseNode)
  {
    match t
    case Token(_) => true
    case Operator(_) => true
    case List(items) =>
      |items| == 3 && items[0].Operator? && BinaryShaped(items[1]) && BinaryShaped(items[2])
  }

  lemma {:induction false} TokensOfAllContains(ts: seq<ParseNode>, k: nat)
    requires k < |ts|
    ensures forall s :: s in Tokens(ts[k]) ==> s in TokensOfAll(ts)
  {
    if k > 0 {
      TokensOfAllContains(ts[1..], k - 1);
      assert ts[1..][k - 1] == ts[k];
    }
  }

  /**
   * `_leaf_collector`: a token gives itself, a list the leaves of its
   * second item followed by those of its third, anything else nothing.
   * `None` is the `IndexError` of a list with fewer than three items.
   * Whatever it collects is a token of the tree.
   */
  function LeafCollector(t: ParseNode): (r: Option<seq<string>>)
    ensures r.Some? ==> forall s :: s in r.value ==> s in Tokens(t)
    ensures t.List? && |t.items| < 3 ==> r.None?
  {
    match t
    case Token(text) => Some([text])
    case Operator(_) => Some([])
    case List(items) =>
      if |items| < 3 then None
      else
        match (LeafCollector(items[1]), LeafCollector(items[2]))
        case (Some(left), Some(right)) =>
          TokensOfAllContains(items, 1);
          TokensOfAllContains(items, 2);
          Some(left + right)
        case _ => None
  }

  /**
   * On a tree of the parser's shape the collector returns exactly the
   * tokens in left-to-right order: no operator is collected, no leaf
   * is lost, reordered or repeated.
   */
  lemma {:induction false} LeafCollectorInOrder(t: ParseNode)
    requires BinaryShaped(t)
    ensures LeafCollector(t) == Some(Tokens(t))
  {
    match t
    case Token(_) =>
    case Operator(_) =>
    case List(items) =>
      LeafCollectorInOrder(items[1]);
      LeafCollectorInOrder(items[2]);
      var rest := items[1..];
      assert rest[0] == items[1] && rest[1..][0] == items[2] && rest[1..][1..] == [];
      calc {
        Tokens(t);
        TokensOfAll(items);
        Tokens(items[0]) + TokensOfAll(rest);
        { assert Tokens(items[0]) == []; }
        TokensOfAll(rest);
        Tokens(items[1]) + TokensOfAll(rest[1..]);
        Tokens(items[1]) + (Tokens(items[2]) + TokensOfAll(rest[1..][1..]));
        Tokens(items[1]) + Tokens(items[2]);
      }
  }
}
