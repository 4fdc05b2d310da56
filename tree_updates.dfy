/** The changes `add` and `removeSubResource` make to the resource arena,
    stated on values, with the proofs that each keeps parent and child links
    agreeing and every `totalSubResourceCount` equal to the number of nodes
    below. */
module TreeUpdates {
  import opened Wrappers
  import opened ResourceForest

  /** The arena with `delta` added to the count of every node in `S`. */
  function Bump(N: map<NodeId, Node>, S: set<NodeId>, delta: int): (r: map<NodeId, Node>)
    ensures r.Keys == N.Keys
    ensures forall x | x in N :: r[x].total == N[x].total + (if x in S then delta else 0)
  {
    map x | x in N :: if x in S then N[x].(total := N[x].total + delta) else N[x]
  }

  /** `p.totalSubResourceCount += delta` on one node. */
  function BumpAt(M: map<NodeId, Node>, x: NodeId, delta: int): (M': map<NodeId, Node>)
    requires x in M
    ensures M'.Keys == M.Keys && M'[x].parent == M[x].parent
  {
    M[x := M[x].(total := M[x].total + delta)]
  }

  /** Bumping one more node. */
  lemma BumpOne(N: map<NodeId, Node>, S: set<NodeId>, x: NodeId, delta: int)
    requires x in N && x !in S
    ensures BumpAt(Bump(N, S, delta), x, delta) == Bump(N, S + {x}, delta)
    ensures Bump(N, S, delta)[x].parent == N[x].parent
  {
  }

  /** The nodes a climb to the root still has to pass from `p` on. */
  ghost function Pending(A: map<NodeId, set<NodeId>>, p: Option<NodeId>): set<NodeId>
  {
    if p.Some? && p.value in A then {p.value} + A[p.value] else {}
  }

  /** One step of the climb from `q` to the root: passing `x` moves it from
      the pending nodes to the passed ones. */
  lemma ClimbStep(N: map<NodeId, Node>, A: map<NodeId, set<NodeId>>, q: NodeId, x: NodeId)
    requires Ancestry(N, A) && q in N && x in N && (x == q || x in A[q])
    ensures x !in ({q} + A[q]) - Pending(A, Some(x))
    ensures (({q} + A[q]) - Pending(A, Some(x))) + {x} == ({q} + A[q]) - Pending(A, N[x].parent)
    ensures N[x].parent.Some? ==>
      var p := N[x].parent.value; p in N && (p == q || p in A[q]) && |A[p]| < |A[x]|
  {
    AncestorsChain(N, A, q);
    if N[x].parent.Some? {
      var p := N[x].parent.value;
      assert A[x] == {p} + A[p];
    }
  }

  /** Two arenas with the same nodes, names, parents and child maps. */
  ghost predicate SameLinks(N: map<NodeId, Node>, M: map<NodeId, Node>)
  {
    N.Keys == M.Keys
    && forall x | x in N :: M[x].parent == N[x].parent && M[x].subs == N[x].subs && M[x].name == N[x].name
  }

  /** The shape of the tree depends only on names, parents and child maps. */
  lemma SameLinksShape(N: map<NodeId, Node>, M: map<NodeId, Node>, A: map<NodeId, set<NodeId>>)
    requires Shape(N, A) && SameLinks(N, M)
    ensures Shape(M, A)
  {
    forall n, k | n in M && k in M[n].subs
      ensures M[n].subs[k] in M && M[M[n].subs[k]].parent == Some(n) && M[M[n].subs[k]].name == k
    {
      assert k in N[n].subs;
    }
    forall c | c in M && M[c].parent.Some?
      ensures M[c].parent.value in M && M[c].name in M[M[c].parent.value].subs
              && M[M[c].parent.value].subs[M[c].name] == c
    {
      assert N[c].parent.Some?;
    }
    assert ChildrenAgree(M);
    forall c | c in M && M[c].parent.Some?
      ensures M[c].parent.value in M && A[c] == {M[c].parent.value} + A[M[c].parent.value]
    {
      assert N[c].parent.Some?;
    }
    assert Ancestry(M, A);
    assert Segmented(M) by {
      forall c | c in M && M[c].parent.Some? ensures IsSegment(M[c].name) {
        assert N[c].parent.Some?;
      }
    }
  }

  /** Counts play no part in the shape of the tree. */
  lemma BumpKeepsShape(N: map<NodeId, Node>, A: map<NodeId, set<NodeId>>, S: set<NodeId>, delta: int)
    requires Shape(N, A)
    ensures Shape(Bump(N, S, delta), A)
  {
    SameLinksShape(N, Bump(N, S, delta), A);
  }

  /** Nothing lies below a node without children. */
  lemma {:induction false} NotBelowLeaf(N: map<NodeId, Node>, A: map<NodeId, set<NodeId>>, r: NodeId, x: NodeId)
    requires Shape(N, A) && r in N && N[r].subs == map[] && x in N
    ensures r !in A[x]
    decreases |A[x]|
  {
    match N[x].parent
    case None =>
    case Some(p) =>
      assert N[p].subs[N[x].name] == x;
      assert |A[x]| == |A[p]| + 1;
      NotBelowLeaf(N, A, r, p);
  }

  lemma LeafHasNoDescendants(N: map<NodeId, Node>, A: map<NodeId, set<NodeId>>, r: NodeId)
    requires Shape(N, A) && r in N && N[r].subs == map[]
    ensures Desc(A, r) == {}
  {
    forall x | x in A
      ensures r !in A[x]
    {
      NotBelowLeaf(N, A, r, x);
    }
  }

  /** A node that can be attached under `b`: without parent or children,
      named by one segment that `b` does not use yet. */
  ghost predicate Attachable(N: map<NodeId, Node>, b: NodeId, r: NodeId)
  {
    b in N && r in N && r != b && N[r].parent.None? && N[r].subs == map[]
    && IsSegment(N[r].name) && N[r].name !in N[b].subs
  }

  /** `resource.parent = base; base.subResources().put(resource.name, resource)`. */
  function Link(N: map<NodeId, Node>, b: NodeId, r: NodeId): (M: map<NodeId, Node>)
    requires b in N && r in N
    ensures M.Keys == N.Keys
  {
    var N1 := N[b := N[b].(subs := N[b].subs[N[r].name := r])];
    N1[r := N1[r].(parent := Some(b))]
  }

  function LinkAncestry(A: map<NodeId, set<NodeId>>, b: NodeId, r: NodeId): map<NodeId, set<NodeId>>
    requires b in A
  {
    A[r := {b} + A[b]]
  }

  /** What linking changes: `r` gains a parent and `b` a child. */
  lemma LinkFacts(N: map<NodeId, Node>, A: map<NodeId, set<NodeId>>, b: NodeId, r: NodeId)
    requires Shape(N, A) && Attachable(N, b, r)
    ensures Link(N, b, r)[r] == N[r].(parent := Some(b))
    ensures Link(N, b, r)[b] == N[b].(subs := N[b].subs[N[r].name := r])
    ensures forall x | x in N && x != b && x != r :: Link(N, b, r)[x] == N[x]
    ensures forall c | c in N && N[c].parent.Some? :: N[c].parent.value != r
    ensures r !in A[b]
  {
    NotBelowLeaf(N, A, r, b);
    forall c | c in N && N[c].parent.Some?
      ensures N[c].parent.value != r
    {
      assert N[N[c].parent.value].subs[N[c].name] == c;
    }
  }

  lemma LinkAgree(N: map<NodeId, Node>, A: map<NodeId, set<NodeId>>, b: NodeId, r: NodeId)
    requires Shape(N, A) && Attachable(N, b, r)
    ensures ChildrenAgree(Link(N, b, r))
  {
    var M := Link(N, b, r);
    var nm := N[r].name;
    LinkFacts(N, A, b, r);
    forall n, k | n in M && k in M[n].subs
      ensures M[n].subs[k] in M && M[M[n].subs[k]].parent == Some(n) && M[M[n].subs[k]].name == k
    {
      if !(n == b && k == nm) {
        assert k in N[n].subs;
      }
    }
    forall c | c in M && M[c].parent.Some?
      ensures M[c].parent.value in M && M[c].name in M[M[c].parent.value].subs
              && M[M[c].parent.value].subs[M[c].name] == c
    {
      if c != r {
        assert N[c].parent.Some?;
      }
    }
  }

  /** The ancestor sets after linking, from the facts `LinkFacts` gives. */
  lemma LinkParents(N: map<NodeId, Node>, A: map<NodeId, set<NodeId>>, b: NodeId, r: NodeId)
    requires Ancestry(N, A) && b in N && r in N && r != b && N[r].parent.None? && r !in A[b]
    requires forall c | c in N && N[c].parent.Some? :: N[c].parent.value != r
    ensures var M, A1 := Link(N, b, r), LinkAncestry(A, b, r);
      forall c | c in M && M[c].parent.Some? :: M[c].parent.value in M && A1[c] == {M[c].parent.value} + A1[M[c].parent.value]
  {
    var M, A1 := Link(N, b, r), LinkAncestry(A, b, r);
    forall c | c in M && M[c].parent.Some?
      ensures M[c].parent.value in M && A1[c] == {M[c].parent.value} + A1[M[c].parent.value]
    {
      if c != r {
        assert M[c].parent == N[c].parent;
      }
    }
  }

  lemma LinkAncestryValid(N: map<NodeId, Node>, A: map<NodeId, set<NodeId>>, b: NodeId, r: NodeId)
    requires Shape(N, A) && Attachable(N, b, r)
    ensures Ancestry(Link(N, b, r), LinkAncestry(A, b, r))
  {
    var M := Link(N, b, r);
    var A1 := LinkAncestry(A, b, r);
    LinkFacts(N, A, b, r);
    LinkParents(N, A, b, r);
    forall c | c in M
      ensures A1[c] <= M.Keys && c !in A1[c]
    {
      if c != r {
        assert A1[c] == A[c];
      }
    }
    forall c | c in M && M[c].parent.None?
      ensures A1[c] == {}
    {
      assert c != r;
      assert M[c].parent == N[c].parent;
    }
  }

  lemma LinkShape(N: map<NodeId, Node>, A: map<NodeId, set<NodeId>>, b: NodeId, r: NodeId)
    requires Shape(N, A) && Attachable(N, b, r)
    ensures Shape(Link(N, b, r), LinkAncestry(A, b, r))
  {
    var M := Link(N, b, r);
    LinkFacts(N, A, b, r);
    LinkAgree(N, A, b, r);
    LinkAncestryValid(N, A, b, r);
    forall c | c in M && M[c].parent.Some?
      ensures IsSegment(M[c].name)
    {
      if c != r {
        assert N[c].parent.Some?;
      }
    }
  }

  /** The nodes below each node after linking: `r` joins exactly the sets of
      `b` and its ancestors. */
  lemma LinkDescendants(N: map<NodeId, Node>, A: map<NodeId, set<NodeId>>, b: NodeId, r: NodeId, n: NodeId)
    requires Shape(N, A) && Attachable(N, b, r) && n in N
    ensures Desc(LinkAncestry(A, b, r), n) == Desc(A, n) + (if n == b || n in A[b] then {r} else {})
    ensures r !in Desc(A, n)
  {
    assert A[r] == {};
  }

  lemma AttachCount(N: map<NodeId, Node>, A: map<NodeId, set<NodeId>>, b: NodeId, r: NodeId, n: NodeId)
    requires Shape(N, A) && Attachable(N, b, r) && n in N && CountOk(N, A, n)
    ensures Bump(Link(N, b, r), {b} + A[b], 1)[n].total == |Desc(LinkAncestry(A, b, r), n)|
  {
    LinkDescendants(N, A, b, r, n);
    assert Link(N, b, r)[n].total == N[n].total;
    assert n == b || n in A[b] <==> n in {b} + A[b];
  }

  /** Linking a leaf under `b` and then adding one to the counts of `b` and
      of its ancestors keeps the tree valid. */
  lemma AttachValid(N: map<NodeId, Node>, A: map<NodeId, set<NodeId>>, b: NodeId, r: NodeId)
    requires Valid(N, A) && Attachable(N, b, r)
    ensures Valid(Bump(Link(N, b, r), {b} + A[b], 1), LinkAncestry(A, b, r))
  {
    var A1 := LinkAncestry(A, b, r);
    var M := Bump(Link(N, b, r), {b} + A[b], 1);
    LinkShape(N, A, b, r);
    BumpKeepsShape(Link(N, b, r), A1, {b} + A[b], 1);
    forall n | n in M
      ensures CountOk(M, A1, n)
    {
      assert CountOk(N, A, n);
      AttachCount(N, A, b, r, n);
    }
  }

  /** `M` keeps every node of `N` with its name, hidden flag, attributes and
      kind. */
  ghost predicate SameLabels(N: map<NodeId, Node>, M: map<NodeId, Node>)
  {
    forall x | x in N :: x in M && M[x].name == N[x].name && M[x].hidden == N[x].hidden
      && M[x].attributes == N[x].attributes && M[x].kind == N[x].kind
  }

  /** Attaching and counting change no labels, and no parent but that of the
      attached node. */
  lemma AttachLabels(N: map<NodeId, Node>, b: NodeId, r: NodeId, S: set<NodeId>)
    requires b in N && r in N
    ensures SameLabels(N, Bump(Link(N, b, r), S, 1))
    ensures forall x | x in N && x != r :: Bump(Link(N, b, r), S, 1)[x].parent == N[x].parent
  {
  }

  /** `parent.subResources().remove(resource.name); resource.parent = null`. */
  function Unlink(N: map<NodeId, Node>, r: NodeId): (M: map<NodeId, Node>)
    requires r in N && N[r].parent.Some? && N[r].parent.value in N
    ensures M.Keys == N.Keys
  {
    var q := N[r].parent.value;
    var N1 := N[q := N[q].(subs := N[q].subs - {N[r].name})];
    N1[r := N1[r].(parent := None)]
  }

  /** Below a detached node, the ancestors above it are forgotten. */
  function UnlinkAncestry(A: map<NodeId, set<NodeId>>, r: NodeId): (A1: map<NodeId, set<NodeId>>)
    requires r in A
    ensures A1.Keys == A.Keys
  {
    map x | x in A :: if x == r || r in A[x] then A[x] - A[r] else A[x]
  }

  lemma UnlinkFacts(N: map<NodeId, Node>, A: map<NodeId, set<NodeId>>, r: NodeId)
    requires Shape(N, A) && r in N && N[r].parent.Some?
    ensures var q := N[r].parent.value;
      && q in N && q != r
      && Unlink(N, r)[r] == N[r].(parent := None)
      && Unlink(N, r)[q] == N[q].(subs := N[q].subs - {N[r].name})
      && (forall x | x in N && x != q && x != r :: Unlink(N, r)[x] == N[x])
      && N[q].subs[N[r].name] == r
  {
  }

  lemma UnlinkAgree(N: map<NodeId, Node>, A: map<NodeId, set<NodeId>>, r: NodeId)
    requires Shape(N, A) && r in N && N[r].parent.Some?
    ensures ChildrenAgree(Unlink(N, r))
  {
    var M := Unlink(N, r);
    var q := N[r].parent.value;
    UnlinkFacts(N, A, r);
    forall n, k | n in M && k in M[n].subs
      ensures M[n].subs[k] in M && M[M[n].subs[k]].parent == Some(n) && M[M[n].subs[k]].name == k
    {
      assert k in N[n].subs;
    }
    forall c | c in M && M[c].parent.Some?
      ensures M[c].parent.value in M && M[c].name in M[M[c].parent.value].subs
              && M[M[c].parent.value].subs[M[c].name] == c
    {
      assert N[c].parent.Some?;
    }
  }

  lemma RemoveAbove(x: NodeId, S: set<NodeId>, T: set<NodeId>)
    requires x !in T
    ensures ({x} + S) - T == {x} + (S - T)
  {
  }

  lemma UnlinkAncestorsOf(N: map<NodeId, Node>, A: map<NodeId, set<NodeId>>, r: NodeId, c: NodeId, p: NodeId)
    requires Ancestry(N, A) && r in N && c in N && c != r && N[c].parent == Some(p)
    ensures UnlinkAncestry(A, r)[c] == {p} + UnlinkAncestry(A, r)[p]
  {
    var A1 := UnlinkAncestry(A, r);
    assert A[c] == {p} + A[p];
    if r in A[c] {
      assert A1[c] == A[c] - A[r];
      if p == r {
        RemoveAbove(r, A[r], A[r]);
        assert A1[p] == {};
      } else {
        assert r in A[p];
        assert p !in A[r] by {
          AncestorsChain(N, A, r);
        }
        RemoveAbove(p, A[p], A[r]);
        assert A1[p] == A[p] - A[r];
      }
    } else {
      assert A1[c] == A[c] && A1[p] == A[p];
    }
  }

  lemma UnlinkAncestryValid(N: map<NodeId, Node>, A: map<NodeId, set<NodeId>>, r: NodeId)
    requires Shape(N, A) && r in N && N[r].parent.Some?
    ensures Ancestry(Unlink(N, r), UnlinkAncestry(A, r))
  {
    var M := Unlink(N, r);
    var A1 := UnlinkAncestry(A, r);
    UnlinkFacts(N, A, r);
    forall c | c in M
      ensures A1[c] <= M.Keys && c !in A1[c]
      ensures M[c].parent.None? ==> A1[c] == {}
    {
    }
    forall c | c in M && M[c].parent.Some?
      ensures M[c].parent.value in M && A1[c] == {M[c].parent.value} + A1[M[c].parent.value]
    {
      UnlinkAncestorsOf(N, A, r, c, N[c].parent.value);
    }
  }

  lemma UnlinkShape(N: map<NodeId, Node>, A: map<NodeId, set<NodeId>>, r: NodeId)
    requires Shape(N, A) && r in N && N[r].parent.Some?
    ensures Shape(Unlink(N, r), UnlinkAncestry(A, r))
  {
    var M := Unlink(N, r);
    UnlinkFacts(N, A, r);
    UnlinkAgree(N, A, r);
    UnlinkAncestryValid(N, A, r);
    forall c | c in M && M[c].parent.Some?
      ensures IsSegment(M[c].name)
    {
      assert N[c].parent.Some?;
    }
  }

  /** The subtree of `r`: `r` and the nodes below it. */
  ghost function Subtree(A: map<NodeId, set<NodeId>>, r: NodeId): set<NodeId>
  {
    {r} + Desc(A, r)
  }

  /** After unlinking, the ancestors of `r` lose its subtree; every other node
      keeps the nodes below it. */
  lemma UnlinkDescendants(N: map<NodeId, Node>, A: map<NodeId, set<NodeId>>, r: NodeId, n: NodeId)
    requires Ancestry(N, A) && r in N && n in N
    ensures n in A[r] ==> Subtree(A, r) <= Desc(A, n)
    ensures Desc(UnlinkAncestry(A, r), n) == if n in A[r] then Desc(A, n) - Subtree(A, r) else Desc(A, n)
  {
    var A1 := UnlinkAncestry(A, r);
    forall x | x in A && r in A[x]
      ensures A[r] <= A[x]
    {
      AncestorsChain(N, A, x);
    }
    forall x
      ensures x in Desc(A1, n) <==> x in (if n in A[r] then Desc(A, n) - Subtree(A, r) else Desc(A, n))
    {
      if x in A && (x == r || r in A[x]) {
        assert A1[x] == A[x] - A[r];
      }
    }
  }

  lemma CardDifference(X: set<NodeId>, T: set<NodeId>)
    requires T <= X
    ensures |X - T| == |X| - |T|
  {
    assert X == (X - T) + T;
    assert (X - T) * T == {};
  }

  lemma DetachCount(N: map<NodeId, Node>, A: map<NodeId, set<NodeId>>, r: NodeId, n: NodeId)
    requires Ancestry(N, A) && r in N && n in N && N[r].parent.Some? && N[r].parent.value in N
    requires CountOk(N, A, n) && CountOk(N, A, r)
    ensures Bump(Unlink(N, r), A[r], -(1 + N[r].total))[n].total == |Desc(UnlinkAncestry(A, r), n)|
  {
    UnlinkDescendants(N, A, r, n);
    assert Unlink(N, r)[n].total == N[n].total;
    assert r !in Desc(A, r);
    assert |Subtree(A, r)| == 1 + N[r].total;
    if n in A[r] {
      CardDifference(Desc(A, n), Subtree(A, r));
    }
  }

  lemma DetachShape(N: map<NodeId, Node>, A: map<NodeId, set<NodeId>>, r: NodeId, delta: int)
    requires Shape(N, A) && r in N && N[r].parent.Some?
    ensures Shape(Bump(Unlink(N, r), A[r], delta), UnlinkAncestry(A, r))
  {
    UnlinkShape(N, A, r);
    BumpKeepsShape(Unlink(N, r), UnlinkAncestry(A, r), A[r], delta);
  }

  lemma DetachCounted(N: map<NodeId, Node>, A: map<NodeId, set<NodeId>>, r: NodeId)
    requires Valid(N, A) && r in N && N[r].parent.Some?
    ensures Counted(Bump(Unlink(N, r), A[r], -(1 + N[r].total)), UnlinkAncestry(A, r))
  {
    var M := Bump(Unlink(N, r), A[r], -(1 + N[r].total));
    forall n | n in M
      ensures CountOk(M, UnlinkAncestry(A, r), n)
    {
      assert CountOk(N, A, n) && CountOk(N, A, r);
      DetachCount(N, A, r, n);
    }
  }

  /** Unlinking `r` from its parent and then subtracting the size of its
      subtree from the counts of its former ancestors keeps the tree valid. */
  lemma DetachValid(N: map<NodeId, Node>, A: map<NodeId, set<NodeId>>, r: NodeId)
    requires Valid(N, A) && r in N && N[r].parent.Some?
    ensures Valid(Bump(Unlink(N, r), A[r], -(1 + N[r].total)), UnlinkAncestry(A, r))
  {
    DetachShape(N, A, r, -(1 + N[r].total));
    DetachCounted(N, A, r);
  }
  /** Before `removeSubResource` unlinks `r`: the ancestors of its parent
      `q` do not change, and the counts to lower are those of `q` and of the
      nodes above it. */
  lemma DetachPlan(N: map<NodeId, Node>, A: map<NodeId, set<NodeId>>, r: NodeId)
    requires Shape(N, A) && r in N && N[r].parent.Some?
    ensures var q := N[r].parent.value; var A1 := UnlinkAncestry(A, r);
      && q in N && q != r && Ancestry(Unlink(N, r), A1) && A1[q] == A[q] && {q} + A1[q] == A[r]
  {
    UnlinkAncestryValid(N, A, r);
    AncestorsChain(N, A, r);
  }

  /** `M` and `A1` are what is left of `N` and `A` once `r` is unlinked
      from its parent and the counts of its former ancestors are lowered by
      the size of its subtree. */
  ghost predicate Detached(N: map<NodeId, Node>, A: map<NodeId, set<NodeId>>, r: NodeId,
                           M: map<NodeId, Node>, A1: map<NodeId, set<NodeId>>)
  {
    && r in N && r in A && N[r].parent.Some? && N[r].parent.value in N
    && M == Bump(Unlink(N, r), A[r], -(1 + N[r].total)) && A1 == UnlinkAncestry(A, r)
  }

  /** Halfway through `removeSubResource`: once `r` is unlinked, the tree
      above its former parent can be climbed. */
  lemma DetachStart(N: map<NodeId, Node>, A: map<NodeId, set<NodeId>>, r: NodeId,
                    M: map<NodeId, Node>, A1: map<NodeId, set<NodeId>>)
    requires Valid(N, A) && r in N && N[r].parent.Some? && N[r].parent.value in N
    requires M == Unlink(N, r) && A1 == UnlinkAncestry(A, r)
    ensures N[r].parent.value in M && Ancestry(M, A1)
    ensures {N[r].parent.value} + A1[N[r].parent.value] == A[r]
  {
    DetachPlan(N, A, r);
  }

  /** After `removeSubResource` has lowered the counts above the former
      parent of `r`: the detachment is complete and the forest valid. */
  lemma DetachDone(N: map<NodeId, Node>, A: map<NodeId, set<NodeId>>, r: NodeId,
                   M: map<NodeId, Node>, A1: map<NodeId, set<NodeId>>)
    requires Valid(N, A) && r in N && N[r].parent.Some? && N[r].parent.value in N
    requires A1 == UnlinkAncestry(A, r)
    requires M == Bump(Unlink(N, r), A[r], -(1 + N[r].total))
    ensures Detached(N, A, r, M, A1) && Valid(M, A1) && M.Keys == N.Keys
  {
    DetachValid(N, A, r);
  }

  /** Counting changes nothing but counts. */
  lemma BumpAtNode(N: map<NodeId, Node>, S: set<NodeId>, delta: int, x: NodeId)
    requires x in N
    ensures Bump(N, S, delta)[x] == if x in S then N[x].(total := N[x].total + delta) else N[x]
  {
  }

  /** What removing `r` does to the links: the child map of its parent loses
      the entry for `r` and no longer names it, and `r` has no parent but
      keeps its children. */
  lemma DetachLinks(N: map<NodeId, Node>, A: map<NodeId, set<NodeId>>, r: NodeId, delta: int)
    requires Shape(N, A) && r in N && N[r].parent.Some?
    ensures var M := Bump(Unlink(N, r), A[r], delta); var q := N[r].parent.value;
      && q in M && q in A[r] && r !in M[q].subs.Values && M[q].subs.Keys == N[q].subs.Keys - {N[r].name}
      && M[r].parent.None? && M[r].subs == N[r].subs && M[r].total == N[r].total
  {
    var q := N[r].parent.value;
    UnlinkFacts(N, A, r);
    BumpAtNode(Unlink(N, r), A[r], delta, q);
    BumpAtNode(Unlink(N, r), A[r], delta, r);
    forall k | k in N[q].subs && k != N[r].name
      ensures N[q].subs[k] != r
    {
      assert N[N[q].subs[k]].name == k;
    }
  }

  /** What removing `r` does to the counts: the count of every former
      ancestor falls by the size of the subtree of `r`, and every other node
      but `r` is left as it was. */
  lemma DetachTotals(N: map<NodeId, Node>, A: map<NodeId, set<NodeId>>, r: NodeId)
    requires Shape(N, A) && r in N && N[r].parent.Some? && CountOk(N, A, r)
    ensures var M := Bump(Unlink(N, r), A[r], -(1 + N[r].total));
      && (forall x | x in A[r] :: M[x].total == N[x].total - |Subtree(A, r)|)
      && (forall x | x in N && x != r && x !in A[r] :: M[x] == N[x])
  {
    var U, delta := Unlink(N, r), -(1 + N[r].total);
    UnlinkFacts(N, A, r);
    assert |Subtree(A, r)| == 1 + N[r].total by {
      assert r !in Desc(A, r);
    }
    forall x | x in A[r]
      ensures Bump(U, A[r], delta)[x].total == N[x].total - |Subtree(A, r)|
    {
      assert U[x].total == N[x].total;
    }
    forall x | x in N && x != r && x !in A[r]
      ensures Bump(U, A[r], delta)[x] == N[x]
    {
      BumpAtNode(U, A[r], delta, x);
    }
  }

  /** No name of one segment missing from the child map of `q` resolves
      below `q`. */
  lemma MissingChild(N: map<NodeId, Node>, A: map<NodeId, set<NodeId>>, q: NodeId, name: string)
    requires Shape(N, A) && q in N && IsSegment(name) && name !in N[q].subs
    ensures GetResource(N, A, q, Some(name), false) == None
  {
    assert SplitFirst(name) == (name, None);
  }

  /** After removing `r`, its name no longer resolves below its former
      parent. */
  lemma DetachUnresolvable(N: map<NodeId, Node>, A: map<NodeId, set<NodeId>>, r: NodeId, delta: int)
    requires Shape(N, A) && r in N && N[r].parent.Some?
    ensures var M := Bump(Unlink(N, r), A[r], delta); var q := N[r].parent.value;
      q in M && Shape(M, UnlinkAncestry(A, r)) && GetResource(M, UnlinkAncestry(A, r), q, Some(N[r].name), false) == None
  {
    DetachShape(N, A, r, delta);
    DetachLinks(N, A, r, delta);
    MissingChild(Bump(Unlink(N, r), A[r], delta), UnlinkAncestry(A, r), N[r].parent.value, N[r].name);
  }

  // ------------------------------------------------------------- replacing

  /** `r` can take the place of `b`: `b` has a parent, `r` is a fresh leaf. */
  ghost predicate Replaceable(N: map<NodeId, Node>, b: NodeId, r: NodeId)
  {
    b in N && r in N && r != b && N[b].parent.Some? && N[r].parent.None? && N[r].subs == map[]
  }

  /** The children of `b` pointed at `r`. */
  function Reparented(N: map<NodeId, Node>, b: NodeId, r: NodeId): (M: map<NodeId, Node>)
    ensures M.Keys == N.Keys
  {
    map x | x in N :: if N[x].parent == Some(b) then N[x].(parent := Some(r)) else N[x]
  }

  /** `add` when a node already sits at the resource's path: the resource
      takes the node's children (each reparented), its name, its slot in the
      parent's map and its count; the old node is left detached and empty. */
  function Replaced(N: map<NodeId, Node>, b: NodeId, r: NodeId): (M: map<NodeId, Node>)
    requires b in N && r in N && N[b].parent.Some? && N[b].parent.value in N
    ensures M.Keys == N.Keys
  {
    var q := N[b].parent.value;
    Reparented(N, b, r)
      [q := N[q].(subs := N[q].subs[N[b].name := r])]
      [r := N[r].(name := N[b].name, parent := N[b].parent, subs := N[b].subs, total := N[b].total)]
      [b := N[b].(parent := None, subs := map[], total := 0)]
  }

  function ReplaceAncestry(A: map<NodeId, set<NodeId>>, b: NodeId, r: NodeId): (A1: map<NodeId, set<NodeId>>)
    requires b in A && r in A
    ensures A1.Keys == A.Keys
  {
    (map x | x in A :: if b in A[x] then A[x] - {b} + {r} else A[x])[r := A[b]][b := {}]
  }

  lemma ReplacedFacts(N: map<NodeId, Node>, A: map<NodeId, set<NodeId>>, b: NodeId, r: NodeId)
    requires Shape(N, A) && Replaceable(N, b, r)
    ensures var q := N[b].parent.value;
      && q in N && q != r && q != b && N[q].subs[N[b].name] == b
      && N[q].parent != Some(b) && q in A[b]
      && (forall c | c in N && N[c].parent.Some? :: N[c].parent.value != r)
      && r !in A[b] && b !in A[b]
      && Replaced(N, b, r)[r] == N[r].(name := N[b].name, parent := N[b].parent, subs := N[b].subs, total := N[b].total)
      && Replaced(N, b, r)[b] == N[b].(parent := None, subs := map[], total := 0)
      && Replaced(N, b, r)[q] == N[q].(subs := N[q].subs[N[b].name := r])
      && (forall x | x in N && x != r && x != b && x != q && N[x].parent == Some(b) ::
            Replaced(N, b, r)[x] == N[x].(parent := Some(r)))
      && (forall x | x in N && x != r && x != b && x != q && N[x].parent != Some(b) ::
            Replaced(N, b, r)[x] == N[x])
  {
    NotBelowLeaf(N, A, r, b);
    forall c | c in N && N[c].parent.Some?
      ensures N[c].parent.value != r
    {
      assert N[N[c].parent.value].subs[N[c].name] == c;
    }
  }

  lemma ReplaceAncestryFacts(A: map<NodeId, set<NodeId>>, b: NodeId, r: NodeId)
    requires b in A && r in A && b != r
    ensures ReplaceAncestry(A, b, r)[r] == A[b]
    ensures ReplaceAncestry(A, b, r)[b] == {}
    ensures forall x | x in A && x != r && x != b && b in A[x] :: ReplaceAncestry(A, b, r)[x] == A[x] - {b} + {r}
    ensures forall x | x in A && x != r && x != b && b !in A[x] :: ReplaceAncestry(A, b, r)[x] == A[x]
  {
  }

  lemma ReplaceDownLinks(N: map<NodeId, Node>, A: map<NodeId, set<NodeId>>, b: NodeId, r: NodeId)
    requires Shape(N, A) && Replaceable(N, b, r)
    ensures var M := Replaced(N, b, r);
      forall n, k | n in M && k in M[n].subs ::
        M[n].subs[k] in M && M[M[n].subs[k]].parent == Some(n) && M[M[n].subs[k]].name == k
  {
    var M := Replaced(N, b, r);
    forall n, k | n in M && k in M[n].subs
      ensures M[n].subs[k] in M && M[M[n].subs[k]].parent == Some(n) && M[M[n].subs[k]].name == k
    {
      ReplaceDownLink(N, A, b, r, n, k);
    }
  }

  /** One entry of a child map after replacing. */
  lemma ReplaceDownLink(N: map<NodeId, Node>, A: map<NodeId, set<NodeId>>, b: NodeId, r: NodeId, n: NodeId, k: string)
    requires Shape(N, A) && Replaceable(N, b, r)
    requires n in Replaced(N, b, r) && k in Replaced(N, b, r)[n].subs
    ensures var M := Replaced(N, b, r);
      M[n].subs[k] in M && M[M[n].subs[k]].parent == Some(n) && M[M[n].subs[k]].name == k
  {
    var M := Replaced(N, b, r);
    var q := N[b].parent.value;
    var bn := N[b].name;
    ReplacedFacts(N, A, b, r);
    if n == r {
      var c := N[b].subs[k];
      assert M[n].subs[k] == c;
      assert N[c].parent == Some(b) && N[c].name == k;
      assert c != r && c != b && c != q;
      assert M[c] == N[c].(parent := Some(r));
    } else if n == q && k == bn {
      assert M[n].subs[k] == r;
      assert M[r].parent == Some(q) && M[r].name == bn;
    } else {
      assert n != b;
      assert M[n].subs == N[n].subs || n == q;
      assert k in N[n].subs;
      var c := N[n].subs[k];
      assert M[n].subs[k] == c;
      assert N[c].parent == Some(n) && N[c].name == k;
      assert c != r && c != b;
      assert M[c].parent == N[c].parent && M[c].name == N[c].name;
    }
  }

  lemma ReplaceUpLinks(N: map<NodeId, Node>, A: map<NodeId, set<NodeId>>, b: NodeId, r: NodeId)
    requires Shape(N, A) && Replaceable(N, b, r)
    ensures var M := Replaced(N, b, r);
      forall c | c in M && M[c].parent.Some? ::
        M[c].parent.value in M && M[c].name in M[M[c].parent.value].subs
        && M[M[c].parent.value].subs[M[c].name] == c
  {
    var M := Replaced(N, b, r);
    var q := N[b].parent.value;
    var bn := N[b].name;
    ReplacedFacts(N, A, b, r);
    forall c | c in M && M[c].parent.Some?
      ensures M[c].parent.value in M && M[c].name in M[M[c].parent.value].subs
              && M[M[c].parent.value].subs[M[c].name] == c
    {
      if c != r {
        assert N[c].parent.Some?;
        var p := N[c].parent.value;
        if p == q && c != b {
          assert N[c].name != bn;
        }
      }
    }
  }

  lemma ReplaceAncestorsOfResource(N: map<NodeId, Node>, A: map<NodeId, set<NodeId>>, b: NodeId, r: NodeId)
    requires Ancestry(N, A) && b in N && r in N && r != b && N[b].parent.Some? && r !in A[b]
    ensures var q := N[b].parent.value;
      q in N && ReplaceAncestry(A, b, r)[r] == {q} + ReplaceAncestry(A, b, r)[q]
  {
    var q := N[b].parent.value;
    ReplaceAncestryFacts(A, b, r);
    assert A[b] == {q} + A[q];
    assert b !in A[q] by {
      AncestorsChain(N, A, b);
    }
  }

  lemma ReplaceAncestorsOfOther(N: map<NodeId, Node>, A: map<NodeId, set<NodeId>>, b: NodeId, r: NodeId, c: NodeId, p: NodeId)
    requires Ancestry(N, A) && b in N && r in N && r != b && N[r].parent.None?
    requires c in N && c != r && c != b && N[c].parent == Some(p) && p != r
    ensures var p' := if p == b then r else p;
      ReplaceAncestry(A, b, r)[c] == {p'} + ReplaceAncestry(A, b, r)[p']
  {
    ReplaceAncestryFacts(A, b, r);
    assert A[c] == {p} + A[p];
    if p == b {
      assert ({b} + A[b]) - {b} == A[b];
    } else if b in A[c] {
      assert b in A[p];
      RemoveAbove(p, A[p], {b});
    }
  }

  lemma ReplaceAncestorSets(N: map<NodeId, Node>, A: map<NodeId, set<NodeId>>, b: NodeId, r: NodeId)
    requires Shape(N, A) && Replaceable(N, b, r)
    ensures var A1 := ReplaceAncestry(A, b, r);
      forall c {:trigger A1[c]} | c in N :: A1[c] <= N.Keys && c !in A1[c]
  {
    NotBelowLeaf(N, A, r, b);
    ReplaceAncestryFacts(A, b, r);
  }

  lemma ReplaceRoots(N: map<NodeId, Node>, A: map<NodeId, set<NodeId>>, b: NodeId, r: NodeId)
    requires Shape(N, A) && Replaceable(N, b, r)
    ensures var M := Replaced(N, b, r);
      forall c {:trigger M[c].parent} | c in M && M[c].parent.None? :: ReplaceAncestry(A, b, r)[c] == {}
  {
    var M := Replaced(N, b, r);
    ReplacedFacts(N, A, b, r);
    ReplaceAncestryFacts(A, b, r);
    forall c | c in M && M[c].parent.None?
      ensures ReplaceAncestry(A, b, r)[c] == {}
    {
      if c != b {
        assert N[c].parent.None?;
      }
    }
  }

  lemma ReplaceParents(N: map<NodeId, Node>, A: map<NodeId, set<NodeId>>, b: NodeId, r: NodeId)
    requires Shape(N, A) && Replaceable(N, b, r)
    ensures var M := Replaced(N, b, r);
      var A1 := ReplaceAncestry(A, b, r);
      forall c {:trigger M[c].parent} | c in M && M[c].parent.Some? ::
        M[c].parent.value in M && A1[c] == {M[c].parent.value} + A1[M[c].parent.value]
  {
    var M := Replaced(N, b, r);
    var A1 := ReplaceAncestry(A, b, r);
    ReplacedFacts(N, A, b, r);
    forall c | c in M && M[c].parent.Some?
      ensures M[c].parent.value in M && A1[c] == {M[c].parent.value} + A1[M[c].parent.value]
    {
      if c == r {
        ReplaceAncestorsOfResource(N, A, b, r);
      } else {
        ReplaceAncestorsOfOther(N, A, b, r, c, N[c].parent.value);
      }
    }
  }

  lemma ReplaceAncestryValid(N: map<NodeId, Node>, A: map<NodeId, set<NodeId>>, b: NodeId, r: NodeId)
    requires Shape(N, A) && Replaceable(N, b, r)
    ensures Ancestry(Replaced(N, b, r), ReplaceAncestry(A, b, r))
  {
    ReplaceAncestorSets(N, A, b, r);
    ReplaceRoots(N, A, b, r);
    ReplaceParents(N, A, b, r);
  }

  lemma ReplaceSegmented(N: map<NodeId, Node>, A: map<NodeId, set<NodeId>>, b: NodeId, r: NodeId)
    requires Shape(N, A) && Replaceable(N, b, r)
    ensures Segmented(Replaced(N, b, r))
  {
    var M := Replaced(N, b, r);
    ReplacedFacts(N, A, b, r);
    forall c | c in M && M[c].parent.Some?
      ensures IsSegment(M[c].name)
    {
      if c != r {
        assert N[c].parent.Some?;
      }
    }
  }

  lemma ReplaceShape(N: map<NodeId, Node>, A: map<NodeId, set<NodeId>>, b: NodeId, r: NodeId)
    requires Shape(N, A) && Replaceable(N, b, r)
    ensures Shape(Replaced(N, b, r), ReplaceAncestry(A, b, r))
  {
    ReplaceDownLinks(N, A, b, r);
    ReplaceUpLinks(N, A, b, r);
    ReplaceAncestryValid(N, A, b, r);
    ReplaceSegmented(N, A, b, r);
  }
  lemma ReplaceDescendants(N: map<NodeId, Node>, A: map<NodeId, set<NodeId>>, b: NodeId, r: NodeId, n: NodeId)
    requires Ancestry(N, A) && b in N && r in N && b != r && n in N
    requires N[r].parent.None? && Desc(A, r) == {}
    ensures n in A[b] ==> b in Desc(A, n) && r !in Desc(A, n)
    ensures Desc(ReplaceAncestry(A, b, r), n) ==
      if n == r then Desc(A, b)
      else if n == b then {}
      else if n in A[b] then Desc(A, n) - {b} + {r}
      else Desc(A, n)
  {
    var A1 := ReplaceAncestry(A, b, r);
    ReplaceAncestryFacts(A, b, r);
    if n in A[b] {
      assert b in Desc(A, n);
    }
    var R := if n == r then Desc(A, b)
      else if n == b then {}
      else if n in A[b] then Desc(A, n) - {b} + {r}
      else Desc(A, n);
    forall x
      ensures x in Desc(A1, n) <==> x in R
    {
      if x in A {
        if x == r {
          assert A1[x] == A[b];
        } else if x == b {
          assert A1[x] == {};
        } else if b in A[x] {
          assert A1[x] == A[x] - {b} + {r};
          AncestorsChain(N, A, x);
        } else {
          assert A1[x] == A[x];
        }
      }
    }
  }

  lemma ReplaceCount(N: map<NodeId, Node>, A: map<NodeId, set<NodeId>>, b: NodeId, r: NodeId, n: NodeId)
    requires Valid(N, A) && Replaceable(N, b, r) && n in N
    ensures CountOk(Replaced(N, b, r), ReplaceAncestry(A, b, r), n)
  {
    ReplacedFacts(N, A, b, r);
    LeafHasNoDescendants(N, A, r);
    ReplaceDescendants(N, A, b, r, n);
    assert CountOk(N, A, n) && CountOk(N, A, b);
    if n != r && n != b && n in A[b] {
      assert Desc(A, n) - {b} + {r} == (Desc(A, n) - {b}) + {r};
      assert |Desc(A, n) - {b}| == |Desc(A, n)| - 1;
    }
  }

  /** Replacing keeps the tree valid, with no count changed above the slot. */
  lemma ReplaceValid(N: map<NodeId, Node>, A: map<NodeId, set<NodeId>>, b: NodeId, r: NodeId)
    requires Valid(N, A) && Replaceable(N, b, r)
    ensures Valid(Replaced(N, b, r), ReplaceAncestry(A, b, r))
  {
    ReplaceShape(N, A, b, r);
    forall n | n in Replaced(N, b, r)
      ensures CountOk(Replaced(N, b, r), ReplaceAncestry(A, b, r), n)
    {
      ReplaceCount(N, A, b, r, n);
    }
  }

  lemma ReplaceValidAt(N: map<NodeId, Node>, A: map<NodeId, set<NodeId>>, b: NodeId, r: NodeId,
                       M: map<NodeId, Node>, A1: map<NodeId, set<NodeId>>)
    requires Valid(N, A) && Replaceable(N, b, r)
    requires M == Replaced(N, b, r) && A1 == ReplaceAncestry(A, b, r)
    ensures Valid(M, A1) && M.Keys == N.Keys
  {
    ReplaceValid(N, A, b, r);
  }

  /** The loop of the replace case part way: the children of `b` filed
      under the names in `K` point to `r`, and `r` holds them. */
  function Moving(N: map<NodeId, Node>, b: NodeId, r: NodeId, K: set<string>): (M: map<NodeId, Node>)
    requires b in N && r in N
    ensures M.Keys == N.Keys
  {
    var kids := N[b].subs;
    (map x | x in N :: if N[x].parent == Some(b) && N[x].name in K then N[x].(parent := Some(r)) else N[x])
      [r := N[r].(subs := Restrict(kids, K))]
  }

  /** The links between `b` and its children agree. */
  ghost predicate ChildrenOf(N: map<NodeId, Node>, b: NodeId)
    requires b in N
  {
    && (forall k | k in N[b].subs ::
          N[b].subs[k] in N && N[N[b].subs[k]].parent == Some(b) && N[N[b].subs[k]].name == k)
    && (forall x | x in N && N[x].parent == Some(b) :: N[x].name in N[b].subs && N[b].subs[N[x].name] == x)
  }

  lemma AgreeChildrenOf(N: map<NodeId, Node>, b: NodeId)
    requires ChildrenAgree(N) && b in N
    ensures ChildrenOf(N, b)
  {
  }

  /** What the replace loop needs to know about `b`, its parent and `r`. */
  lemma ReplacePrep(N: map<NodeId, Node>, A: map<NodeId, set<NodeId>>, b: NodeId, r: NodeId)
    requires Shape(N, A) && Replaceable(N, b, r)
    ensures ChildrenOf(N, b)
    ensures var q := N[b].parent.value; q in N && q != r && q != b && N[q].parent != Some(b)
  {
    ReplacedFacts(N, A, b, r);
  }

  /** Before the replace loop nothing has moved. */
  lemma MovingNone(N: map<NodeId, Node>, b: NodeId, r: NodeId)
    requires b in N && r in N && N[r].subs == map[]
    ensures Moving(N, b, r, {}) == N
  {
    var M := Moving(N, b, r, {});
    assert M[r] == N[r];
    assert forall x | x in N :: M[x] == N[x];
  }

  /** The entries of `kids` under the names in `K`. */
  function Restrict(kids: map<string, NodeId>, K: set<string>): (m: map<string, NodeId>)
    ensures m.Keys == K * kids.Keys
    ensures forall x | x in m :: m[x] == kids[x]
  {
    map x | x in K && x in kids :: kids[x]
  }

  lemma RestrictOneMore(kids: map<string, NodeId>, K: set<string>, k: string)
    requires k in kids
    ensures Restrict(kids, K)[k := kids[k]] == Restrict(kids, K + {k})
  {
  }

  /** Moving one more child: the node moved and the new parent's map. */
  lemma MovingOneAt(N: map<NodeId, Node>, b: NodeId, r: NodeId, K: set<string>, k: string)
    requires b in N && r in N && ChildrenOf(N, b) && N[r].parent.None?
    requires k in N[b].subs && k !in K
    ensures var M := Moving(N, b, r, K); var L := Moving(N, b, r, K + {k}); var c := N[b].subs[k];
      && c in N && c != r && M[c].(parent := Some(r)) == L[c]
      && M[r].(subs := M[r].subs[k := c]) == L[r]
  {
    RestrictOneMore(N[b].subs, K, k);
  }

  /** Moving one more child leaves every other node as it was. */
  lemma MovingOneElsewhere(N: map<NodeId, Node>, b: NodeId, r: NodeId, K: set<string>, k: string)
    requires b in N && r in N && ChildrenOf(N, b)
    requires k in N[b].subs && k !in K
    ensures var M := Moving(N, b, r, K); var L := Moving(N, b, r, K + {k}); var c := N[b].subs[k];
      forall x | x in N && x != r && x != c :: M[x] == L[x]
  {
  }

  /** Moving one more child. */
  lemma MovingStep(N: map<NodeId, Node>, b: NodeId, r: NodeId, K: set<string>, k: string)
    requires b in N && r in N && ChildrenOf(N, b) && N[r].parent.None?
    requires k in N[b].subs && k !in K
    ensures var M := Moving(N, b, r, K); var c := N[b].subs[k];
      && c in N && c != r
      && var M0 := M[c := M[c].(parent := Some(r))];
         M0[r := M0[r].(subs := M0[r].subs[k := c])] == Moving(N, b, r, K + {k})
  {
    MovingOneAt(N, b, r, K, k);
    MovingOneElsewhere(N, b, r, K, k);
    var c := N[b].subs[k];
    var M := Moving(N, b, r, K);
    var L := Moving(N, b, r, K + {k});
    var M0 := M[c := M[c].(parent := Some(r))];
    var M1 := M0[r := M0[r].(subs := M0[r].subs[k := c])];
    assert M1.Keys == L.Keys;
    assert forall x | x in M1 :: M1[x] == L[x];
  }

  /** Once every child has moved, the children of `b` all point to `r`,
      which holds them. */
  lemma MovingAll(N: map<NodeId, Node>, b: NodeId, r: NodeId)
    requires b in N && r in N && ChildrenOf(N, b) && N[r].parent.None?
    ensures Moving(N, b, r, N[b].subs.Keys) == Reparented(N, b, r)[r := N[r].(subs := N[b].subs)]
  {
    var M := Moving(N, b, r, N[b].subs.Keys);
    var L := Reparented(N, b, r)[r := N[r].(subs := N[b].subs)];
    assert M[r] == L[r];
    forall x | x in N && x != r
      ensures M[x] == L[x]
    {
    }
  }

  /** The assignments that end the replace case: `r` takes the name, the
      parent, the slot and the count of `b`, and `b` is cleared. */
  function Finish(M: map<NodeId, Node>, b: NodeId, r: NodeId, q: NodeId): (M': map<NodeId, Node>)
    requires b in M && r in M && q in M
    ensures M'.Keys == M.Keys
  {
    M[q := M[q].(subs := M[q].subs[M[b].name := r])]
     [r := M[r].(name := M[b].name, parent := M[b].parent, total := M[b].total)]
     [b := M[b].(parent := None, subs := map[], total := 0)]
  }

  /** Moving every child and finishing gives `Replaced`. */
  lemma MovingDone(N: map<NodeId, Node>, b: NodeId, r: NodeId, q: NodeId)
    requires b in N && r in N && q in N && ChildrenOf(N, b) && r != b
    requires N[r].parent.None? && N[b].parent == Some(q) && q != r && q != b && N[q].parent != Some(b)
    ensures Finish(Moving(N, b, r, N[b].subs.Keys), b, r, q) == Replaced(N, b, r)
  {
    MovingAll(N, b, r);
  }
}
