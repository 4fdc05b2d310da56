/** `subResourceCount` and `totalSubResourceCount` of pycolo's `Resource`
    (pycolo/endpoint/Resource.py): what the two counts count. */
module TreeCounts {
  import opened Wrappers
  import opened ResourceForest

  /** The nodes whose parent is `n`. */
  ghost function Children(N: map<NodeId, Node>, n: NodeId): set<NodeId>
  {
    set x | x in N && N[x].parent == Some(n)
  }

  /** A map that never files one value under two keys has as many values as
      keys. */
  lemma {:induction false} InjectiveCard(m: map<string, NodeId>)
    requires forall a, b | a in m && b in m && a != b :: m[a] != m[b]
    ensures |m.Values| == |m.Keys|
    decreases |m.Keys|
  {
    if m.Keys != {} {
      var k :| k in m;
      var m' := m - {k};
      assert m'.Values == m.Values - {m[k]} by {
        forall v
          ensures v in m'.Values <==> v in m.Values - {m[k]}
        {
          if v in m.Values - {m[k]} {
            var j :| j in m && m[j] == v;
            assert j in m';
          }
        }
      }
      assert m'.Keys == m.Keys - {k};
      InjectiveCard(m');
    }
  }

  /** The children of `n` are the values of its child map, and there are as
      many as it has entries. */
  lemma ChildCount(N: map<NodeId, Node>, A: map<NodeId, set<NodeId>>, n: NodeId)
    requires Shape(N, A) && n in N
    ensures Children(N, n) == N[n].subs.Values
    ensures |Children(N, n)| == |N[n].subs|
  {
    var m := N[n].subs;
    forall a, b | a in m && b in m && a != b
      ensures m[a] != m[b]
    {
      assert N[m[a]].name == a && N[m[b]].name == b;
    }
    InjectiveCard(m);
    forall x
      ensures x in Children(N, n) <==> x in m.Values
    {
      if x in Children(N, n) {
        assert m[N[x].name] == x;
      }
    }
  }

  /** `subResourceCount()`: the number of direct children. */
  function SubResourceCount(N: map<NodeId, Node>, ghost A: map<NodeId, set<NodeId>>, n: NodeId): (count: nat)
    requires Shape(N, A) && n in N
    ensures count == |Children(N, n)|
  {
    ChildCount(N, A, n);
    |N[n].subs|
  }

  /** `totalSubResourceCount()`: the number of resources anywhere below `n`,
      never fewer than its direct children. */
  function TotalSubResourceCount(N: map<NodeId, Node>, ghost A: map<NodeId, set<NodeId>>, n: NodeId): (count: int)
    requires Valid(N, A) && n in N
    ensures count == |Desc(A, n)|
    ensures count >= |Children(N, n)|
  {
    assert CountOk(N, A, n);
    assert Children(N, n) <= Desc(A, n) by {
      forall x | x in Children(N, n)
        ensures x in Desc(A, n)
      {
        assert A[x] == {n} + A[n];
      }
    }
    SubsetCard(Children(N, n), Desc(A, n));
    N[n].total
  }

  lemma SubsetCard(X: set<NodeId>, Y: set<NodeId>)
    requires X <= Y
    ensures |X| <= |Y|
  {
    assert Y == X + (Y - X);
  }
}
