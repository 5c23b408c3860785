/** The part of the IR that the analyses of this project observe: a node kind
    with its kind-specific payload, and the ordered list of children that the
    post-order walker descends into before visiting the node itself. */
module Wasm {

  type Name = string

  /** The node kinds that have a visitor in the analyses; `Other` stands for
      every kind without one (constants, unary and binary operators, selects,
      drops, ...), which the walker still descends into. */
  datatype Kind =
    | Block(name: Name)
    | Loop(outName: Name, inName: Name)
    | If
    | Break(name: Name)
    | Switch(targets: seq<Name>, defaultTarget: Name)
    | Call(target: Name)
    | CallImport(target: Name)
    | CallIndirect
    | GetLocal(name: Name)
    | SetLocal(name: Name)
    | Load
    | Store
    | Return
    | Host
    | Unreachable
    | Nop
    | Other

  /** A node owns its children exclusively, in evaluation order. */
  datatype Expression = Node(kind: Kind, children: seq<Expression>)

  /** The kinds of all nodes of the tree rooted at `e`. */
  function Kinds(e: Expression): set<Kind>
    decreases e
  {
    {e.kind} + KindsOf(e.children)
  }

  /** The kinds of all nodes of a list of trees. */
  function KindsOf(es: seq<Expression>): set<Kind>
    decreases es
  {
    if es == [] then {} else KindsOf(es[..|es| - 1]) + Kinds(es[|es| - 1])
  }

  /** `c` is `e` or a subtree of one of its children. */
  predicate IsSubtree(c: Expression, e: Expression)
    decreases e
  {
    c == e || exists i :: 0 <= i < |e.children| && IsSubtree(c, e.children[i])
  }

  /** A list's kinds are those of its members. */
  lemma {:induction false} KindsOfMember(es: seq<Expression>, k: Kind)
    ensures k in KindsOf(es) <==> exists i :: 0 <= i < |es| && k in Kinds(es[i])
    decreases es
  {
    if es != [] {
      var init := es[..|es| - 1];
      KindsOfMember(init, k);
      if k in KindsOf(init) {
        var i :| 0 <= i < |init| && k in Kinds(init[i]);
        assert es[i] == init[i];
      }
      if i :| 0 <= i < |es| && k in Kinds(es[i]) {
        if i < |init| {
          assert es[i] == init[i];
        }
      }
    }
  }

  /** Every node kind of a subtree occurs in the enclosing tree. */
  lemma {:induction false} SubtreeKinds(c: Expression, e: Expression)
    requires IsSubtree(c, e)
    ensures Kinds(c) <= Kinds(e)
    decreases e
  {
    if c != e {
      var i :| 0 <= i < |e.children| && IsSubtree(c, e.children[i]);
      SubtreeKinds(c, e.children[i]);
      forall k | k in Kinds(e.children[i])
        ensures k in KindsOf(e.children)
      {
        KindsOfMember(e.children, k);
      }
    }
  }
}
