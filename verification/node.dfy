/** The `Node` entry class of linked_list.py: a key/data pair whose
    attributes may each be Python `None`, and its hand-written `__eq__`. */
module Nodes {
  import opened Wrappers

  datatype Node<K, D> = Node(key: K, data: D)

  /** A node as Python sees it: key and data are each either a value or `None`. */
  type PyNode<K, D> = Node<Option<K>, Option<D>>

  /** The right-hand operand of `==`: `None`, another `Node`, or any other object. */
  datatype Operand<K, D> = NoneOperand | NodeOperand(node: PyNode<K, D>) | OtherOperand

  /** What `__eq__` returns: `True`, `False`, or `None` when it falls off the end. */
  datatype EqResult = EqTrue | EqFalse | EqNone

  /** Python truthiness of an `__eq__` result: only `True` is truthy. */
  predicate Truthy(r: EqResult) {
    r == EqTrue
  }

  /** `Node(key, data)`; both arguments default to `None`. */
  function NewNode<K, D>(key: Option<K> := None, data: Option<D> := None): (n: PyNode<K, D>)
    ensures n.key == key && n.data == data
  {
    Node(key, data)
  }

  /** `setdata(item)`: the data is replaced, the key is kept. */
  function SetData<K, D>(n: Node<K, D>, item: D): (r: Node<K, D>)
    ensures r.key == n.key
    ensures r.data == item
  {
    n.(data := item)
  }

  /** `Node.__eq__`. The `elif` branch of the source repeats the test of the
      `if` before it, so it is never taken and the method returns `None`
      whenever either data is `None`. */
  function NodeEq<K(==), D(==)>(self: PyNode<K, D>, other: Operand<K, D>): (r: EqResult)
    ensures other.NoneOperand? ==> (Truthy(r) <==> self.key.None?)
    ensures other.NoneOperand? ==> r != EqNone
    ensures other.OtherOperand? ==> r == EqFalse
    ensures other.NodeOperand? && self.data.Some? && other.node.data.Some? ==>
              r != EqNone && (Truthy(r) <==> self.key == other.node.key && self.data == other.node.data)
    ensures other.NodeOperand? && (self.data.None? || other.node.data.None?) ==> r == EqNone
  {
    match other
    case NoneOperand => if self.key.None? then EqTrue else EqFalse
    case OtherOperand => EqFalse
    case NodeOperand(o) =>
      if self.data.Some? && o.data.Some? then
        (if self.key == o.key && self.data == o.data then EqTrue else EqFalse)
      else EqNone
  }

  /** Comparing two nodes gives the same answer in either order. */
  lemma NodeEqSymmetric<K, D>(a: PyNode<K, D>, b: PyNode<K, D>)
    ensures NodeEq(a, NodeOperand(b)) == NodeEq(b, NodeOperand(a))
  {
  }

  /** A node equals itself under `==` exactly when its data is not `None`. */
  lemma NodeEqReflexiveIff<K, D>(a: PyNode<K, D>)
    ensures Truthy(NodeEq(a, NodeOperand(a))) <==> a.data.Some?
  {
  }

  /** A node compares equal to `None` exactly when it has the default key. */
  lemma DefaultNodeEqualsNone<K, D>(d: Option<D>)
    ensures Truthy(NodeEq(NewNode<K, D>(None, d), NoneOperand))
    ensures forall k: K :: !Truthy(NodeEq(NewNode<K, D>(Some(k), d), NoneOperand))
  {
  }
}
