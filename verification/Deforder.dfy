/**
 The order in which C type definitions are generated, so that each type is known before it is
 used.
 */
module Deforder {

  type Id = nat

  /** A type: whether it can be declared ahead, the types that must at least be declared to
      define it, and those that must be defined. */
  datatype Type = Type(forwardable: bool, soft: set<Id>, hard: set<Id>)

  type Graph = map<Id, Type>

  /** Requirements are types of the graph. */
  predicate Closed(g: Graph) { forall x :: x in g ==> g[x].soft <= g.Keys && g[x].hard <= g.Keys }

  /** What has to be defined before x: hard requirements, and soft ones that cannot be declared. */
  function Must(g: Graph, x: Id): set<Id>
    requires Closed(g) && x in g
  {
    g[x].hard + set y | y in g[x].soft && !g[y].forwardable
  }

  // ----- Cycles -----

  /** Types each of which has to be defined after another one of them. */
  ghost predicate Knot(g: Graph, s: set<Id>)
    requires Closed(g)
  {
    s != {} && s <= g.Keys && forall x :: x in s ==> exists y :: y in s && y in Must(g, x)
  }

  ghost predicate Acyclic(g: Graph)
    requires Closed(g)
  {
    forall s :: !Knot(g, s)
  }

  /** What must come first has a lower rank. */
  ghost predicate Ranked(g: Graph, s: set<Id>, rank: map<Id, nat>)
    requires Closed(g) && s <= g.Keys
  {
    s <= rank.Keys && forall x, y :: x in s && y in s && y in Must(g, x) ==> rank[y] < rank[x]
  }

  lemma {:induction false} RankExists(g: Graph, s: set<Id>) returns (rank: map<Id, nat>)
    requires Closed(g) && Acyclic(g) && s <= g.Keys
    ensures Ranked(g, s, rank)
    decreases s
  {
    if s == {} {
      return map[];
    }
    assert !Knot(g, s);
    var x :| x in s && forall y :: y in s ==> y !in Must(g, x);
    var below := RankExists(g, s - {x});
    rank := map y | y in s :: if y == x then 0 else below[y] + 1;
  }

  // ----- Orders of definition -----

  /** A declaration, or a definition, of a type. */
  datatype Entry = Entry(id: Id, isDefinition: bool)

  predicate Defined(ret: seq<Entry>, x: Id) { Entry(x, true) in ret }

  predicate Declared(ret: seq<Entry>, x: Id) { Defined(ret, x) || Entry(x, false) in ret }

  /** An entry is in order after those before it: a definition comes once and after what it
      requires, a declaration once and before the definition. */
  predicate FitsAfter(g: Graph, before: seq<Entry>, e: Entry) {
    && e.id in g
    && (e.isDefinition ==>
      && !Defined(before, e.id)
      && (forall y :: y in g[e.id].hard ==> Defined(before, y))
      && (forall y :: y in g[e.id].soft ==> Declared(before, y)))
    && (!e.isDefinition ==> g[e.id].forwardable && !Declared(before, e.id))
  }

  predicate InOrder(g: Graph, ret: seq<Entry>) {
    forall i :: 0 <= i < |ret| ==> FitsAfter(g, ret[..i], ret[i])
  }

  lemma AppendInOrder(g: Graph, ret: seq<Entry>, e: Entry)
    requires InOrder(g, ret) && FitsAfter(g, ret, e)
    ensures InOrder(g, ret + [e])
  {
    var ret' := ret + [e];
    forall i | 0 <= i < |ret'|
      ensures FitsAfter(g, ret'[..i], ret'[i])
    {
      assert ret'[..i] == if i < |ret| then ret[..i] else ret;
    }
  }

  lemma InitInOrder(g: Graph, ret: seq<Entry>)
    requires InOrder(g, ret) && ret != []
    ensures InOrder(g, ret[..|ret| - 1]) && FitsAfter(g, ret[..|ret| - 1], ret[|ret| - 1])
  {
    PrefixInOrder(g, ret, |ret| - 1);
  }

  /** What must come first was defined before. */
  lemma MustBeDefined(g: Graph, before: seq<Entry>, x: Id, y: Id)
    requires Closed(g) && InOrder(g, before) && FitsAfter(g, before, Entry(x, true)) && y in Must(g, x)
    ensures Defined(before, y)
  {
    if y !in g[x].hard {
      DeclaredIsForwardable(g, before, y);
    }
  }

  lemma NextInKnot(g: Graph, s: set<Id>, x: Id) returns (y: Id)
    requires Closed(g) && Knot(g, s) && x in s
    ensures x in g && y in s && y in Must(g, x)
  {
    y :| y in s && y in Must(g, x);
  }

  /** No type of a knot is ever defined: for a type in a knot there is no order at all. */
  lemma {:induction false} KnotIsNeverDefined(g: Graph, ret: seq<Entry>, s: set<Id>, x: Id)
    requires Closed(g) && InOrder(g, ret) && Knot(g, s) && x in s
    ensures !Defined(ret, x)
    decreases |ret|
  {
    hide Knot, InOrder, FitsAfter, Closed;
    if ret != [] {
      var before, e := ret[..|ret| - 1], ret[|ret| - 1];
      InitInOrder(g, ret);
      KnotIsNeverDefined(g, before, s, x);
      if e == Entry(x, true) {
        var y := NextInKnot(g, s, x);
        KnotIsNeverDefined(g, before, s, y);
        MustBeDefined(g, before, x, y);
        assert false;
      }
    }
  }

  lemma DeclaredIsForwardable(g: Graph, ret: seq<Entry>, x: Id)
    requires InOrder(g, ret) && Declared(ret, x)
    ensures Defined(ret, x) || (x in g && g[x].forwardable)
  {
    if !Defined(ret, x) {
      var i :| 0 <= i < |ret| && ret[i] == Entry(x, false);
      assert FitsAfter(g, ret[..i], ret[i]);
    }
  }

  // ----- The algorithm -----

  /** A set of types that has what must come before its members. */
  ghost predicate Complete(g: Graph, c: set<Id>)
    requires Closed(g)
  {
    forall x :: x in c && x in g ==> Must(g, x) <= c
  }

  /** ret' continues ret, and the definitions it adds are of rank below r and needed for x:
      they are in every complete set that x is in. */
  ghost predicate Extends(g: Graph, rank: map<Id, nat>, x: Id, r: nat, ret: seq<Entry>, ret': seq<Entry>)
    requires Closed(g)
  {
    && ret <= ret' && InOrder(g, ret')
    && (forall t :: Defined(ret', t) && !Defined(ret, t) ==> t in rank && rank[t] < r)
    && (forall c, t :: Complete(g, c) && x in c && Defined(ret', t) && !Defined(ret, t) ==> t in c)
  }

  lemma ExtendsMore(g: Graph, rank: map<Id, nat>, x: Id, y: Id, ret: seq<Entry>, ret1: seq<Entry>, ret2: seq<Entry>)
    requires Closed(g) && Ranked(g, g.Keys, rank) && x in g && y in Must(g, x) && y in rank && x in rank
    requires Extends(g, rank, x, rank[x], ret, ret1) && Extends(g, rank, y, rank[y] + 1, ret1, ret2)
    ensures Extends(g, rank, x, rank[x], ret, ret2)
  {
    assert rank[y] < rank[x];
    forall c, t | Complete(g, c) && x in c && Defined(ret2, t) && !Defined(ret, t)
      ensures t in c
    {
      assert y in c;
      assert Defined(ret1, t) || !Defined(ret1, t);
    }
  }

  lemma ExtendsNothing(g: Graph, rank: map<Id, nat>, x: Id, r: nat, ret: seq<Entry>, ret': seq<Entry>)
    requires Closed(g) && ret <= ret' && InOrder(g, ret') && forall t :: Defined(ret', t) <==> Defined(ret, t)
    ensures Extends(g, rank, x, r, ret, ret')
  {
  }

  lemma StaysDefined(ret: seq<Entry>, ret': seq<Entry>, x: Id)
    requires ret <= ret'
    ensures Defined(ret, x) ==> Defined(ret', x)
    ensures Declared(ret, x) ==> Declared(ret', x)
  {
  }

  function Required(g: Graph, x: Id, soft: bool): set<Id>
    requires x in g
  {
    if soft then g[x].soft else g[x].hard
  }

  /** Requirements that are defined, or are soft and can be declared. */
  predicate Handled(g: Graph, ret: seq<Entry>, ys: set<Id>, soft: bool) {
    forall y :: y in ys ==> Defined(ret, y) || (soft && y in g && g[y].forwardable)
  }

  lemma HandledMore(g: Graph, ret: seq<Entry>, ret': seq<Entry>, ys: set<Id>, y: Id, soft: bool)
    requires Handled(g, ret, ys, soft) && ret <= ret' && Handled(g, ret', {y}, soft)
    ensures Handled(g, ret', ys + {y}, soft)
  {
    assert y in {y};
  }

  class Order {
    const g: Graph
    ghost const rank: map<Id, nat>
    var ret: seq<Entry>

    ghost predicate Valid()
      reads this
    {
      Closed(g) && Ranked(g, g.Keys, rank) && InOrder(g, ret)
    }

    constructor (g: Graph, ghost rank: map<Id, nat>)
      requires Closed(g) && Ranked(g, g.Keys, rank)
      ensures Valid() && ret == [] && this.g == g && this.rank == rank
    {
      this.g, this.rank, ret := g, rank, [];
    }

    /** A declaration, if the type can and need be declared. */
    method Declare(x: Id)
      requires Valid() && x in g
      modifies this`ret
      ensures Valid() && old(ret) <= ret && (g[x].forwardable ==> Declared(ret, x))
      ensures forall t :: Defined(ret, t) <==> Defined(old(ret), t)
    {
      if g[x].forwardable && !Declared(ret, x) {
        AppendInOrder(g, ret, Entry(x, false));
        ret := ret + [Entry(x, false)];
      }
    }

    method DeclareAll(xs: set<Id>)
      requires Valid() && xs <= g.Keys
      modifies this`ret
      ensures Valid() && old(ret) <= ret
      ensures forall x :: x in xs && g[x].forwardable ==> Declared(ret, x)
      ensures forall t :: Defined(ret, t) <==> Defined(old(ret), t)
    {
      var left := xs;
      while left != {}
        invariant Valid() && old(ret) <= ret && left <= xs
        invariant forall x :: x in xs - left && g[x].forwardable ==> Declared(ret, x)
        invariant forall t :: Defined(ret, t) <==> Defined(old(ret), t)
        decreases left
      {
        var each :| each in left;
        ghost var before := ret;
        Declare(each);
        forall x | x in xs - left && g[x].forwardable
          ensures Declared(ret, x)
        {
          StaysDefined(before, ret, x);
        }
        left := left - {each};
      }
    }

    /** One requirement: a hard one is processed, a soft one if it can be neither declared nor
        found defined. */
    method ProcessOne(x: Id, y: Id, soft: bool, ghost start: seq<Entry>)
      requires Valid() && x in g && y in Required(g, x, soft) && Extends(g, rank, x, rank[x], start, ret)
      modifies this`ret
      ensures Valid() && old(ret) <= ret && Extends(g, rank, x, rank[x], start, ret) && Handled(g, ret, {y}, soft)
      decreases rank[x], 0
    {
      if !soft || (!g[y].forwardable && !Defined(ret, y)) {
        ghost var before := ret;
        ProcessType(y);
        ExtendsMore(g, rank, x, y, start, before, ret);
      }
    }

    method ProcessAll(x: Id, soft: bool)
      requires Valid() && x in g
      modifies this`ret
      ensures Valid() && Extends(g, rank, x, rank[x], old(ret), ret) && Handled(g, ret, Required(g, x, soft), soft)
      decreases rank[x], 1
    {
      var all := Required(g, x, soft);
      var left := all;
      ghost var done: set<Id> := {};
      ExtendsNothing(g, rank, x, rank[x], ret, ret);
      while left != {}
        invariant Valid() && Extends(g, rank, x, rank[x], old(ret), ret)
        invariant left <= all <= left + done && Handled(g, ret, done, soft)
        decreases left
      {
        var each :| each in left;
        ghost var before := ret;
        ProcessOne(x, each, soft, old(ret));
        HandledMore(g, before, ret, done, each, soft);
        left, done := left - {each}, done + {each};
      }
    }

    method ProcessType(x: Id)
      requires Valid() && x in g
      modifies this`ret
      ensures Valid() && Extends(g, rank, x, rank[x] + 1, old(ret), ret) && Defined(ret, x)
      decreases rank[x], 2
    {
      if Defined(ret, x) {
        ExtendsNothing(g, rank, x, rank[x] + 1, ret, ret);
        return;
      }
      DeclareAll(g[x].soft + g[x].hard);
      Declare(x);
      ghost var ret1 := ret;
      ProcessAll(x, false);
      ghost var ret2 := ret;
      ProcessAll(x, true);
      ReadyToDefine(g, rank, x, ret1, ret2, ret);
      AppendInOrder(g, ret, Entry(x, true));
      AllExtends(g, rank, x, old(ret), ret1, ret2, ret);
      ret := ret + [Entry(x, true)];
    }
  }

  /** After the loops the requirements are there, and x itself is not defined yet. */
  lemma ReadyToDefine(g: Graph, rank: map<Id, nat>, x: Id, ret1: seq<Entry>, ret2: seq<Entry>, ret3: seq<Entry>)
    requires Closed(g) && x in g && x in rank && !Defined(ret1, x)
    requires forall y :: y in g[x].soft && g[y].forwardable ==> Declared(ret1, y)
    requires Extends(g, rank, x, rank[x], ret1, ret2) && (forall y :: y in g[x].hard ==> Defined(ret2, y))
    requires Extends(g, rank, x, rank[x], ret2, ret3)
    requires (forall y :: y in g[x].soft ==> Defined(ret3, y) || g[y].forwardable)
    ensures FitsAfter(g, ret3, Entry(x, true))
  {
    forall y | y in g[x].hard
      ensures Defined(ret3, y)
    {
      StaysDefined(ret2, ret3, y);
    }
    forall y | y in g[x].soft
      ensures Declared(ret3, y)
    {
      StaysDefined(ret1, ret2, y);
      StaysDefined(ret2, ret3, y);
    }
  }

  /** The whole run for x adds what its loops add, and x. */
  lemma AllExtends(g: Graph, rank: map<Id, nat>, x: Id, ret0: seq<Entry>, ret1: seq<Entry>, ret2: seq<Entry>,
                   ret3: seq<Entry>)
    requires Closed(g) && x in rank && ret0 <= ret1 && InOrder(g, ret3 + [Entry(x, true)])
    requires forall t :: Defined(ret1, t) <==> Defined(ret0, t)
    requires Extends(g, rank, x, rank[x], ret1, ret2) && Extends(g, rank, x, rank[x], ret2, ret3)
    ensures Extends(g, rank, x, rank[x] + 1, ret0, ret3 + [Entry(x, true)])
  {
    var ret4 := ret3 + [Entry(x, true)];
    forall t | Defined(ret4, t) && !Defined(ret0, t)
      ensures t == x || (Defined(ret3, t) && !Defined(ret2, t)) || (Defined(ret2, t) && !Defined(ret1, t))
    {
    }
  }

  function AllDefined(g: Graph, ret: seq<Entry>): set<Id> { set t | t in g && Defined(ret, t) }

  /** Of what must come first nothing is missing. */
  lemma DefinedIsComplete(g: Graph, ret: seq<Entry>)
    requires Closed(g) && InOrder(g, ret)
    ensures Complete(g, AllDefined(g, ret))
  {
    forall t, y | t in AllDefined(g, ret) && y in Must(g, t)
      ensures y in AllDefined(g, ret)
    {
      var i :| 0 <= i < |ret| && ret[i] == Entry(t, true);
      PrefixInOrder(g, ret, i);
      MustBeDefined(g, ret[..i], t, y);
      StaysDefined(ret[..i], ret, y);
    }
  }

  lemma PrefixInOrder(g: Graph, ret: seq<Entry>, n: nat)
    requires InOrder(g, ret) && n < |ret|
    ensures InOrder(g, ret[..n]) && FitsAfter(g, ret[..n], ret[n])
  {
    forall i | 0 <= i < n
      ensures FitsAfter(g, ret[..n][..i], ret[..n][i])
    {
      assert ret[..n][..i] == ret[..i];
    }
  }

  /** The definitions for x: each type that x needs, directly or not, is defined, once and in
      order; and no others are. */
  method DefinitionOrder(g: Graph, x: Id) returns (ret: seq<Entry>)
    requires Closed(g) && Acyclic(g) && x in g
    ensures InOrder(g, ret)
    ensures x in AllDefined(g, ret) && Complete(g, AllDefined(g, ret))
    ensures forall c, t :: Complete(g, c) && x in c && Defined(ret, t) ==> t in c
  {
    ghost var rank := RankExists(g, g.Keys);
    var o := new Order(g, rank);
    o.ProcessType(x);
    ret := o.ret;
    DefinedIsComplete(g, ret);
  }
}
