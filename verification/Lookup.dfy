/**
 Finding the segment of an address in the tree of segments.
 */
module Lookup {
  import opened Basics
  import opened Tree
  import opened Segments

  /** The segments are in the tree under their starts. */
  ghost predicate ByStart(ns: seq<Node<Mapping>>) { forall i :: 0 <= i < |ns| ==> ns[i].val.start == ns[i].key }

  ghost predicate Disjoint(ns: seq<Node<Mapping>>) {
    forall i, j :: 0 <= i < j < |ns| ==> ns[i].val.end <= ns[j].val.start
  }

  /** The reference: the first segment of a list that contains the address. */
  function FirstContaining(ms: seq<Mapping>, a: Address): Option<Mapping> {
    if ms == [] then None else if Contains(ms[0], a) then Some(ms[0]) else FirstContaining(ms[1..], a)
  }

  lemma {:induction false} OnlyContaining(ms: seq<Mapping>, a: Address, i: nat)
    requires i < |ms| && Contains(ms[i], a) && forall j :: 0 <= j < i ==> !Contains(ms[j], a)
    ensures FirstContaining(ms, a) == Some(ms[i])
  {
    if i > 0 {
      OnlyContaining(ms[1..], a, i - 1);
    }
  }

  lemma {:induction false} NoneContaining(ms: seq<Mapping>, a: Address)
    requires forall j :: 0 <= j < |ms| ==> !Contains(ms[j], a)
    ensures FirstContaining(ms, a) == None
  {
    if ms != [] {
      NoneContaining(ms[1..], a);
    }
  }

  ghost function Mappings(ns: seq<Node<Mapping>>): seq<Mapping> { seq(|ns|, i requires 0 <= i < |ns| => ns[i].val) }

  /** segment_get agrees with a search through all segments. */
  method SegmentGet(root: Node?<Mapping>, a: Address, ghost s: Shape<Mapping>) returns (r: Option<Mapping>)
    requires SearchTree(s) && root == Top(s) && ByStart(InOrder(s)) && Disjoint(InOrder(s))
    ensures r == FirstContaining(Mappings(InOrder(s)), a)
  {
    var node := GetNodeLe(root, a, s);
    ghost var ns := InOrder(s);
    if node == null || a >= node.val.end {
      NotContained(ns, a, node);
      return None;
    }
    ghost var i :| 0 <= i < |ns| && ns[i] == node;
    assert forall j :: 0 <= j < i ==> ns[j].val.end <= ns[i].val.start;
    OnlyContaining(Mappings(ns), a, i);
    return Some(node.val);
  }

  /** No segment contains an address that is outside the nearest one from below. */
  lemma NotContained(ns: seq<Node<Mapping>>, a: Address, node: Node?<Mapping>)
    requires ByStart(ns) && Disjoint(ns) && Ascending(ns)
    requires node == null ==> forall n :: n in ns ==> n.key > a
    requires node != null ==> node in ns && node.key <= a && a >= node.val.end && forall n :: n in ns && n.key <= a ==>
              n.key <= node.key
    ensures FirstContaining(Mappings(ns), a) == None
  {
    forall j | 0 <= j < |ns|
      ensures !Contains(Mappings(ns)[j], a)
    {
      assert ns[j] in ns;
    }
    NoneContaining(Mappings(ns), a);
  }
}
