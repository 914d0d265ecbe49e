/**
 * The relationship edges the add-children handler inserts, in the order it
 * inserts them, and what they amount to: one or two parent-child edges per
 * child and one sibling edge per pair of new children.
 */
module ChildEdges {
  import opened Rows

  /** The edges written for one child: from the parent, then from the partner if there is one. */
  function EdgesForChild(parent: Id, partner: Option<Id>, child: Id): seq<Edge>
  {
    [Edge(parent, child, ParentChild)]
    + (if partner.Some? then [Edge(partner.value, child, ParentChild)] else [])
  }

  /** The parent-child edges of the first loop, after it has handled `kids`. */
  function ParentEdges(parent: Id, partner: Option<Id>, kids: seq<Id>): seq<Edge>
    decreases |kids|
  {
    if kids == [] then []
    else ParentEdges(parent, partner, kids[..|kids| - 1]) + EdgesForChild(parent, partner, kids[|kids| - 1])
  }

  /** The sibling edges one pass of the outer loop writes: kids[i] with every later child. */
  function SiblingRow(kids: seq<Id>, i: nat): seq<Edge>
    requires i < |kids|
  {
    seq(|kids| - i - 1, k requires 0 <= k < |kids| - i - 1 => Edge(kids[i], kids[i + 1 + k], Sibling))
  }

  /** The sibling edges written once the outer loop has finished its first `i` passes. */
  function SiblingPrefix(kids: seq<Id>, i: nat): seq<Edge>
    requires i <= |kids|
  {
    if i == 0 then [] else SiblingPrefix(kids, i - 1) + SiblingRow(kids, i - 1)
  }

  /** Every sibling edge of one batch. */
  function SiblingEdges(kids: seq<Id>): seq<Edge>
  {
    SiblingPrefix(kids, |kids|)
  }

  /** Every edge one add-children call writes, in order: the parent-child edges, then the sibling edges. */
  function BatchEdges(parent: Id, partner: Option<Id>, kids: seq<Id>): seq<Edge>
  {
    ParentEdges(parent, partner, kids) + SiblingEdges(kids)
  }

  /** No element occurs twice. */
  predicate NoDuplicates<T(==)>(s: seq<T>)
  {
    forall a, b :: 0 <= a < b < |s| ==> s[a] != s[b]
  }

  // ---------------------------------------------------------------------------
  // Parent-child edges

  /** One more pass of the first loop appends the edges of one more child. */
  lemma ParentEdgesSnoc(parent: Id, partner: Option<Id>, kids: seq<Id>, c: Id)
    ensures ParentEdges(parent, partner, kids + [c]) == ParentEdges(parent, partner, kids) + EdgesForChild(parent, partner, c)
  {
    assert (kids + [c])[..|kids|] == kids;
  }

  /** n children give n parent-child edges, or 2n when a partner was found. */
  lemma {:induction false} ParentEdgesCount(parent: Id, partner: Option<Id>, kids: seq<Id>)
    ensures |ParentEdges(parent, partner, kids)| == if partner.Some? then 2 * |kids| else |kids|
    decreases |kids|
  {
    if kids != [] {
      ParentEdgesCount(parent, partner, kids[..|kids| - 1]);
    }
  }

  /**
   * Every child gets an edge from the parent, and one from the partner
   * when a partner was found; ParentEdgesOnly gives the converse.
   */
  lemma {:induction false} ParentEdgesCover(parent: Id, partner: Option<Id>, kids: seq<Id>, k: nat)
    requires k < |kids|
    ensures Edge(parent, kids[k], ParentChild) in ParentEdges(parent, partner, kids)
    ensures partner.Some? ==> Edge(partner.value, kids[k], ParentChild) in ParentEdges(parent, partner, kids)
    decreases |kids|
  {
    var front := kids[..|kids| - 1];
    if k < |kids| - 1 {
      ParentEdgesCover(parent, partner, front, k);
      assert front[k] == kids[k];
    }
  }

  /**
   * Nothing else: every edge of the first loop is parent-child, points at one
   * of the new children, and starts at the parent or at the partner.
   */
  lemma {:induction false} ParentEdgesOnly(parent: Id, partner: Option<Id>, kids: seq<Id>, e: Edge)
    requires e in ParentEdges(parent, partner, kids)
    ensures e.kind == ParentChild
    ensures e.member2 in kids
    ensures e.member1 == parent || (partner.Some? && e.member1 == partner.value)
    decreases |kids|
  {
    var front := kids[..|kids| - 1];
    if e in ParentEdges(parent, partner, front) {
      ParentEdgesOnly(parent, partner, front, e);
      assert e.member2 in kids by {
        var j :| 0 <= j < |front| && front[j] == e.member2;
        assert kids[j] == e.member2;
      }
    }
  }

  // ---------------------------------------------------------------------------
  // Sibling edges

  /** Twice the number of edges after `i` passes of the outer loop. */
  lemma {:induction false} SiblingPrefixCount(kids: seq<Id>, i: nat)
    requires i <= |kids|
    ensures 2 * |SiblingPrefix(kids, i)| == i * (2 * |kids| - i - 1)
  {
    if i > 0 {
      SiblingPrefixCount(kids, i - 1);
      var n := |kids|;
      assert i * (2 * n - i - 1) == (i - 1) * (2 * n - (i - 1) - 1) + 2 * (n - i);
    }
  }

  /** n new children get n(n-1)/2 sibling edges; a single child gets none. */
  lemma SiblingEdgesCount(kids: seq<Id>)
    ensures 2 * |SiblingEdges(kids)| == |kids| * (|kids| - 1)
    ensures |kids| <= 1 ==> SiblingEdges(kids) == []
  {
    SiblingPrefixCount(kids, |kids|);
  }

  /** After `i` passes, the edges are exactly those from kids[a] to a later kids[b], a < i. */
  lemma {:induction false} SiblingPrefixMembers(kids: seq<Id>, i: nat, e: Edge)
    requires i <= |kids|
    ensures e in SiblingPrefix(kids, i) <==>
              exists a, b :: 0 <= a < i && a < b < |kids| && e == Edge(kids[a], kids[b], Sibling)
  {
    if i > 0 {
      SiblingPrefixMembers(kids, i - 1, e);
      var row := SiblingRow(kids, i - 1);
      if e in row {
        var k :| 0 <= k < |row| && row[k] == e;
        assert e == Edge(kids[i - 1], kids[i + k], Sibling);
      }
      if exists b :: i - 1 < b < |kids| && e == Edge(kids[i - 1], kids[b], Sibling) {
        var b :| i - 1 < b < |kids| && e == Edge(kids[i - 1], kids[b], Sibling);
        assert row[b - i] == e;
      }
    }
  }

  /** The sibling edges are exactly one edge per pair i < j, from the earlier child to the later one. */
  lemma SiblingEdgesMembers(kids: seq<Id>)
    ensures forall i, j :: 0 <= i < j < |kids| ==> Edge(kids[i], kids[j], Sibling) in SiblingEdges(kids)
    ensures forall e :: e in SiblingEdges(kids) ==>
              exists i, j :: 0 <= i < j < |kids| && e == Edge(kids[i], kids[j], Sibling)
  {
    forall i, j | 0 <= i < j < |kids|
      ensures Edge(kids[i], kids[j], Sibling) in SiblingEdges(kids)
    {
      SiblingPrefixMembers(kids, |kids|, Edge(kids[i], kids[j], Sibling));
    }
    forall e | e in SiblingEdges(kids)
      ensures exists i, j :: 0 <= i < j < |kids| && e == Edge(kids[i], kids[j], Sibling)
    {
      SiblingPrefixMembers(kids, |kids|, e);
    }
  }

  /** The first `i` passes only start edges at kids[0..i). */
  lemma {:induction false} SiblingPrefixStarts(kids: seq<Id>, i: nat, x: nat)
    requires i <= |kids|
    requires x < |SiblingPrefix(kids, i)|
    ensures exists a :: 0 <= a < i && SiblingPrefix(kids, i)[x].member1 == kids[a]
  {
    var front := SiblingPrefix(kids, i - 1);
    if x < |front| {
      SiblingPrefixStarts(kids, i - 1, x);
    } else {
      assert SiblingPrefix(kids, i)[x] == SiblingRow(kids, i - 1)[x - |front|];
    }
  }

  /** With distinct children, no sibling edge is written twice. */
  lemma {:induction false} SiblingPrefixNoDuplicates(kids: seq<Id>, i: nat)
    requires i <= |kids|
    requires NoDuplicates(kids)
    ensures NoDuplicates(SiblingPrefix(kids, i))
  {
    if i > 0 {
      SiblingPrefixNoDuplicates(kids, i - 1);
      var front := SiblingPrefix(kids, i - 1);
      var row := SiblingRow(kids, i - 1);
      var all := SiblingPrefix(kids, i);
      forall a, b | 0 <= a < b < |all|
        ensures all[a] != all[b]
      {
        if b >= |front| && a < |front| {
          SiblingPrefixStarts(kids, i - 1, a);
          assert all[b] == row[b - |front|];
        } else if a >= |front| {
          assert all[a] == row[a - |front|] && all[b] == row[b - |front|];
        }
      }
    }
  }

  /** With distinct children, every pair i < j has exactly one sibling edge. */
  lemma SiblingEdgesExactlyOnce(kids: seq<Id>, i: nat, j: nat)
    requires NoDuplicates(kids)
    requires i < j < |kids|
    ensures multiset(SiblingEdges(kids))[Edge(kids[i], kids[j], Sibling)] == 1
  {
    SiblingEdgesMembers(kids);
    SiblingPrefixNoDuplicates(kids, |kids|);
    DistinctCountsOnce(SiblingEdges(kids), Edge(kids[i], kids[j], Sibling));
  }

  /** An element of a duplicate-free sequence occurs in its multiset once. */
  lemma {:induction false} DistinctCountsOnce<T>(s: seq<T>, x: T)
    requires NoDuplicates(s)
    requires x in s
    ensures multiset(s)[x] == 1
  {
    var rest := s[1..];
    assert s == [s[0]] + rest;
    assert NoDuplicates(rest) by {
      forall a, b | 0 <= a < b < |rest| ensures rest[a] != rest[b] {
        assert rest[a] == s[a + 1] && rest[b] == s[b + 1];
      }
    }
    if s[0] == x {
      assert x !in rest;
    } else {
      DistinctCountsOnce(rest, x);
    }
  }
}
