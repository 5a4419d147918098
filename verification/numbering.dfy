/** Object identity for a freshly parsed tree.

    Parsing yields distinct element objects; the model gives them the ids
    1, 2, 3, ... in document order.  Distinct ids make a reference (an id)
    pick out exactly the element it was taken from.
 */
module Numbering {
  import opened Wrappers
  import opened XmlTree

  /** Number the subtree in document order starting at `next`; the second
      component is the first unused id. */
  function Number(e: Element, next: nat): (r: (Element, nat))
    ensures r.1 > next
    ensures r.0.tag == e.tag && r.0.attrs == e.attrs && r.0.text == e.text
    ensures |r.0.children| == |e.children|
    decreases e
  {
    var (cs, n) := NumberSeq(e.children, next + 1);
    (Element(next, e.tag, e.attrs, e.text, cs), n)
  }

  function NumberSeq(cs: seq<Element>, next: nat): (r: (seq<Element>, nat))
    ensures r.1 >= next
    ensures |r.0| == |cs|
    ensures forall j :: 0 <= j < |cs| ==>
      r.0[j].tag == cs[j].tag && r.0[j].attrs == cs[j].attrs && r.0[j].text == cs[j].text
    decreases cs
  {
    if cs == [] then ([], next)
    else
      var (c0, m) := Number(cs[0], next);
      var (rest, n) := NumberSeq(cs[1..], m);
      ([c0] + rest, n)
  }

  function Ids(ns: seq<Element>): (r: seq<nat>)
    ensures |r| == |ns|
    ensures forall i :: 0 <= i < |ns| ==> r[i] == ns[i].id
  {
    seq(|ns|, i requires 0 <= i < |ns| => ns[i].id)
  }

  /** The ids a, a+1, ..., b-1. */
  function Range(a: nat, b: nat): (r: seq<nat>)
    requires a <= b
    ensures |r| == b - a
    ensures forall i :: 0 <= i < |r| ==> r[i] == a + i
  {
    seq(b - a, i requires 0 <= i < b - a => a + i)
  }

  predicate Distinct(s: seq<nat>) {
    forall i, j :: 0 <= i < j < |s| ==> s[i] != s[j]
  }

  /** The subtree's elements carry the consecutive ids next, next+1, ...,
      ending just below the returned counter. */
  lemma {:induction false} NumberIds(e: Element, next: nat)
    ensures Ids(Nodes(Number(e, next).0)) == Range(next, Number(e, next).1)
    decreases e
  {
    var (cs, n) := NumberSeq(e.children, next + 1);
    NumberIdsSeq(e.children, next + 1);
    var r := Number(e, next).0;
    assert r.children == cs;
    assert Ids(Nodes(r)) == [next] + Ids(NodesSeq(cs));
  }

  lemma {:induction false} NumberIdsSeq(cs: seq<Element>, next: nat)
    ensures Ids(NodesSeq(NumberSeq(cs, next).0)) == Range(next, NumberSeq(cs, next).1)
    decreases cs
  {
    if cs != [] {
      var (c0, m) := Number(cs[0], next);
      var (rest, n) := NumberSeq(cs[1..], m);
      NumberIds(cs[0], next);
      NumberIdsSeq(cs[1..], m);
      var r := NumberSeq(cs, next).0;
      assert r == [c0] + rest;
      assert r[1..] == rest;
      assert NodesSeq(r) == Nodes(c0) + NodesSeq(rest);
      assert Ids(NodesSeq(r)) == Ids(Nodes(c0)) + Ids(NodesSeq(rest));
    }
  }

  /** A numbered tree has pairwise distinct ids, all at least `next`. */
  lemma NumberDistinct(e: Element, next: nat)
    ensures Distinct(Ids(Nodes(Number(e, next).0)))
    ensures forall x :: x in Nodes(Number(e, next).0) ==> next <= x.id < Number(e, next).1
  {
    NumberIds(e, next);
    var ns := Nodes(Number(e, next).0);
    forall x | x in ns
      ensures next <= x.id < Number(e, next).1
    {
      var i :| 0 <= i < |ns| && ns[i] == x;
      assert Ids(ns)[i] == x.id;
    }
  }

  // ---------------------------------------------------------------------
  // Membership facts about Nodes

  lemma {:induction false} DistinctConcat(a: seq<nat>, b: seq<nat>)
    requires Distinct(a + b)
    ensures Distinct(a) && Distinct(b)
    ensures forall x :: x in a ==> x !in b
  {
    assert forall i :: 0 <= i < |a| ==> (a + b)[i] == a[i];
    assert forall j :: 0 <= j < |b| ==> (a + b)[|a| + j] == b[j];
    forall x | x in a
      ensures x !in b
    {
      var i :| 0 <= i < |a| && a[i] == x;
      forall j | 0 <= j < |b|
        ensures b[j] != x
      {
        assert (a + b)[i] != (a + b)[|a| + j];
      }
    }
  }

  lemma IdsConcat(a: seq<Element>, b: seq<Element>)
    ensures Ids(a + b) == Ids(a) + Ids(b)
  {
  }

  lemma IdOfMember(ns: seq<Element>, x: Element)
    requires x in ns
    ensures x.id in Ids(ns)
  {
    var i :| 0 <= i < |ns| && ns[i] == x;
    assert Ids(ns)[i] == x.id;
  }

  /** Every direct child is among the nodes of a sequence of subtrees. */
  lemma {:induction false} ChildInNodesSeq(cs: seq<Element>, x: Element)
    requires x in cs
    ensures x in NodesSeq(cs)
    decreases cs
  {
    if cs[0] != x {
      ChildInNodesSeq(cs[1..], x);
    }
  }

  /** Looking up an id that no element of the subtree carries finds nothing. */
  lemma {:induction false} LookupAbsent(e: Element, id: nat)
    requires id !in Ids(Nodes(e))
    ensures Lookup(e, id).None?
    decreases e
  {
    IdsConcat([e], NodesSeq(e.children));
    assert Ids([e])[0] == e.id;
    LookupAbsentSeq(e.children, id);
  }

  lemma {:induction false} LookupAbsentSeq(cs: seq<Element>, id: nat)
    requires id !in Ids(NodesSeq(cs))
    ensures LookupSeq(cs, id).None?
    decreases cs
  {
    if cs != [] {
      IdsConcat(Nodes(cs[0]), NodesSeq(cs[1..]));
      LookupAbsent(cs[0], id);
      LookupAbsentSeq(cs[1..], id);
    }
  }

  /** With distinct ids, looking up an element's id finds that element. */
  lemma {:induction false} LookupFinds(e: Element, y: Element)
    requires Distinct(Ids(Nodes(e)))
    requires y in Nodes(e)
    ensures Lookup(e, y.id) == Some(y)
    decreases e
  {
    IdsConcat([e], NodesSeq(e.children));
    DistinctConcat(Ids([e]), Ids(NodesSeq(e.children)));
    if y != e {
      assert y in NodesSeq(e.children);
      IdOfMember(NodesSeq(e.children), y);
      assert Ids([e])[0] == e.id;
      LookupFindsSeq(e.children, y);
    }
  }

  lemma {:induction false} LookupFindsSeq(cs: seq<Element>, y: Element)
    requires Distinct(Ids(NodesSeq(cs)))
    requires y in NodesSeq(cs)
    ensures LookupSeq(cs, y.id) == Some(y)
    decreases cs
  {
    IdsConcat(Nodes(cs[0]), NodesSeq(cs[1..]));
    DistinctConcat(Ids(Nodes(cs[0])), Ids(NodesSeq(cs[1..])));
    if y in Nodes(cs[0]) {
      LookupFinds(cs[0], y);
    } else {
      IdOfMember(NodesSeq(cs[1..]), y);
      LookupAbsent(cs[0], y.id);
      LookupFindsSeq(cs[1..], y);
    }
  }
}
