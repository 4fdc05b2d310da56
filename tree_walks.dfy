/** How the updates of `TreeUpdates` affect resolution by name: the walks
    that `getResource` performs, and the fields that play no part in the
    tree's shape. */
module TreeWalks {
  import opened Wrappers
  import opened Text
  import opened ResourceForest
  import opened TreeUpdates

  /** A walk of at least one step ends strictly below where it started. */
  lemma {:induction false} WalkBelow(N: map<NodeId, Node>, A: map<NodeId, set<NodeId>>, n: NodeId, s: seq<string>)
    requires Shape(N, A) && n in N && |s| >= 1 && Walk(N, n, s).Some?
    ensures n in A[Walk(N, n, s).value]
    decreases |s|
  {
    var c := N[n].subs[s[0]];
    assert N[c].parent == Some(n);
    if |s| > 1 {
      WalkBelow(N, A, c, s[1..]);
      AncestorsChain(N, A, Walk(N, n, s).value);
    }
  }

  /** A walk reads only the child maps of the nodes above where it ends, so
      it is not disturbed by changes anywhere else. */
  lemma {:induction false} WalkKeep(N: map<NodeId, Node>, A: map<NodeId, set<NodeId>>, M: map<NodeId, Node>,
                                    n: NodeId, s: seq<string>)
    requires Shape(N, A) && n in N && Walk(N, n, s).Some?
    requires Closed(M) && n in M
    requires forall x | x in A[Walk(N, n, s).value] :: x in M && M[x].subs == N[x].subs
    ensures Walk(M, n, s) == Walk(N, n, s)
    decreases |s|
  {
    if s != [] {
      WalkBelow(N, A, n, s);
      WalkKeep(N, A, M, N[n].subs[s[0]], s[1..]);
    }
  }

  /** The last step of a walk leaves from the parent of where it ends. */
  lemma WalkLastStep(N: map<NodeId, Node>, A: map<NodeId, set<NodeId>>, n: NodeId, s: seq<string>)
    requires Shape(N, A) && n in N && |s| >= 1 && Walk(N, n, s).Some?
    ensures var m := Walk(N, n, s).value;
      && N[m].parent.Some? && N[m].name == s[|s| - 1]
      && Walk(N, n, s[..|s| - 1]) == N[m].parent
  {
    var pre := s[..|s| - 1];
    assert s == pre + [s[|s| - 1]];
    WalkSnoc(N, n, pre, s[|s| - 1]);
  }

  /** Renaming a node without a parent changes nothing else in the tree. */
  lemma RenameDetached(N: map<NodeId, Node>, A: map<NodeId, set<NodeId>>, r: NodeId, name: string)
    requires Valid(N, A) && r in N && N[r].parent.None?
    ensures Valid(N[r := N[r].(name := name)], A)
  {
    var M := N[r := N[r].(name := name)];
    forall n, k | n in M && k in M[n].subs
      ensures M[n].subs[k] != r
    {
      assert N[N[n].subs[k]].parent == Some(n);
    }
    assert ChildrenAgree(M);
    forall n | n in M
      ensures CountOk(M, A, n)
    {
      assert CountOk(N, A, n);
    }
  }

  /** Changing only the fields that play no part in the tree (the hidden flag,
      the attributes) keeps it valid. */
  lemma RelabelValid(N: map<NodeId, Node>, A: map<NodeId, set<NodeId>>, n: NodeId, v: Node)
    requires Valid(N, A) && n in N
    requires v.name == N[n].name && v.parent == N[n].parent && v.subs == N[n].subs && v.total == N[n].total
    ensures Valid(N[n := v], A)
  {
    var M := N[n := v];
    SameLinksShape(N, M, A);
    forall x | x in M
      ensures CountOk(M, A, x)
    {
      assert CountOk(N, A, x);
    }
  }

  /** A new resource object is a tree of its own. */
  lemma NewLeafValid(N: map<NodeId, Node>, A: map<NodeId, set<NodeId>>, id: NodeId, v: Node)
    requires Valid(N, A) && id !in N
    requires v.parent.None? && v.subs == map[] && v.total == 0
    ensures Valid(N[id := v], A[id := {}])
  {
    var M, A1 := N[id := v], A[id := {}];
    NewLeafShape(N, A, id, v);
    forall x | x in M
      ensures CountOk(M, A1, x)
    {
      if x == id {
        assert Desc(A1, x) == {};
      } else {
        assert Desc(A1, x) == Desc(A, x);
        assert CountOk(N, A, x);
      }
    }
  }

  lemma NewLeafShape(N: map<NodeId, Node>, A: map<NodeId, set<NodeId>>, id: NodeId, v: Node)
    requires Shape(N, A) && id !in N
    requires v.parent.None? && v.subs == map[]
    ensures Shape(N[id := v], A[id := {}])
  {
    var M, A1 := N[id := v], A[id := {}];
    forall n, k | n in M && k in M[n].subs
      ensures M[n].subs[k] in N && M[M[n].subs[k]] == N[N[n].subs[k]]
    {
      assert n != id;
    }
    assert ChildrenAgree(M);
    forall c | c in M && c != id
      ensures A1[c] == A[c] && M[c] == N[c]
    {
    }
    assert Ancestry(M, A1);
  }

  /** A new resource keeps every walk that was possible before. */
  lemma NewLeafKeepsWalk(N: map<NodeId, Node>, A: map<NodeId, set<NodeId>>, id: NodeId, v: Node,
                         n: NodeId, s: seq<string>)
    requires Shape(N, A) && id !in N && n in N && Walk(N, n, s).Some? && v.subs == map[]
    ensures Walk(N[id := v], n, s) == Walk(N, n, s)
  {
    WalkKeep(N, A, N[id := v], n, s);
  }

  /** Attaching and counting touch only the child map of the new parent. */
  lemma AttachedSubs(N: map<NodeId, Node>, A: map<NodeId, set<NodeId>>, b: NodeId, r: NodeId)
    requires Shape(N, A) && Attachable(N, b, r)
    ensures var M := Bump(Link(N, b, r), {b} + A[b], 1);
      && Closed(M) && M.Keys == N.Keys
      && M[b].subs == N[b].subs[N[r].name := r]
      && forall x | x in N && x != b :: M[x].subs == N[x].subs
  {
    LinkFacts(N, A, b, r);
    LinkShape(N, A, b, r);
    BumpKeepsShape(Link(N, b, r), LinkAncestry(A, b, r), {b} + A[b], 1);
  }

  /** Attaching `r` under the end `b` of a walk, then counting it, extends the
      walk by the name of `r`. */
  lemma AttachExtendsWalk(N: map<NodeId, Node>, A: map<NodeId, set<NodeId>>, b: NodeId, r: NodeId,
                          n: NodeId, s: seq<string>)
    requires Shape(N, A) && Attachable(N, b, r) && n in N && Walk(N, n, s) == Some(b)
    ensures var M := Bump(Link(N, b, r), {b} + A[b], 1);
      Closed(M) && n in M && Walk(M, n, s + [N[r].name]) == Some(r) && Walk(M, n, s) == Some(b)
  {
    var M := Bump(Link(N, b, r), {b} + A[b], 1);
    AttachedSubs(N, A, b, r);
    WalkKeep(N, A, M, n, s);
    WalkSnoc(M, n, s, N[r].name);
  }

  /** A replacement touches only the child maps of the old node, of its
      parent and of the resource. */
  lemma ReplacedSubs(N: map<NodeId, Node>, A: map<NodeId, set<NodeId>>, b: NodeId, r: NodeId)
    requires Shape(N, A) && Replaceable(N, b, r)
    ensures var M := Replaced(N, b, r); var q := N[b].parent.value;
      && Closed(M) && M.Keys == N.Keys && q in N
      && M[q].subs == N[q].subs[N[b].name := r]
      && forall x | x in N && x != q && x != r && x != b :: M[x].subs == N[x].subs
  {
    ReplacedFacts(N, A, b, r);
    ReplaceShape(N, A, b, r);
  }

  /** Neither the node being replaced nor the detached resource lies above
      the parent of the node being replaced. */
  lemma ReplaceAbove(N: map<NodeId, Node>, A: map<NodeId, set<NodeId>>, b: NodeId, r: NodeId)
    requires Shape(N, A) && Replaceable(N, b, r)
    ensures var q := N[b].parent.value;
      q in N && q != r && forall x | x in A[q] :: x != q && x != r && x != b
  {
    var q := N[b].parent.value;
    NotBelowLeaf(N, A, r, q);
    AncestorsChain(N, A, b);
    assert N[q].subs[N[b].name] == b;
  }

  /** After a replacement, the walk that led to the old node leads to the
      resource that took its place. */
  lemma ReplaceRedirectsWalk(N: map<NodeId, Node>, A: map<NodeId, set<NodeId>>, b: NodeId, r: NodeId,
                             n: NodeId, s: seq<string>)
    requires Shape(N, A) && Replaceable(N, b, r) && n in N && |s| >= 1 && Walk(N, n, s) == Some(b)
    ensures var M := Replaced(N, b, r); Closed(M) && n in M && Walk(M, n, s) == Some(r)
  {
    var M := Replaced(N, b, r);
    var pre := s[..|s| - 1];
    WalkLastStep(N, A, n, s);
    ReplacedSubs(N, A, b, r);
    ReplaceAbove(N, A, b, r);
    WalkKeep(N, A, M, n, pre);
    WalkSnoc(M, n, pre, s[|s| - 1]);
    TakeOneMore(s, |s| - 1);
  }

  /** A new node is a leaf that can be attached wherever its name is free. */
  lemma NewLeafAttachable(N: map<NodeId, Node>, A: map<NodeId, set<NodeId>>, cur: NodeId, sub: NodeId, v: Node)
    requires Shape(N, A) && cur in N && sub !in N
    requires v.parent.None? && v.subs == map[] && IsSegment(v.name) && v.name !in N[cur].subs
    ensures Shape(N[sub := v], A[sub := {}]) && Attachable(N[sub := v], cur, sub)
  {
    var N1, A1 := N[sub := v], A[sub := {}];
    assert ChildrenAgree(N1) && Ancestry(N1, A1) && Segmented(N1);
  }

  /** A new node `sub` made and attached below the end `cur` of a walk: the
      walk continues to it, and it has no children. */
  lemma NewChildExtendsWalk(N: map<NodeId, Node>, A: map<NodeId, set<NodeId>>, cur: NodeId, sub: NodeId, v: Node,
                            top: NodeId, path: seq<string>)
    requires Shape(N, A) && cur in N && sub !in N && top in N && Walk(N, top, path) == Some(cur)
    requires v.parent.None? && v.subs == map[] && IsSegment(v.name) && v.name !in N[cur].subs
    ensures var M := Bump(Link(N[sub := v], cur, sub), {cur} + A[cur], 1);
      Closed(M) && Walk(M, top, path + [v.name]) == Some(sub) && M[sub].subs == map[]
  {
    var N1, A1 := N[sub := v], A[sub := {}];
    NewLeafAttachable(N, A, cur, sub, v);
    NewLeafKeepsWalk(N, A, sub, v, top, path);
    AttachExtendsWalk(N1, A1, cur, sub, top, path);
    AttachedSubs(N1, A1, cur, sub);
  }

  /** A new node `sub` made and attached below `cur` keeps its labels, and
      every node neither `cur` nor above it is left as it was. */
  lemma NewChildKeeps(N: map<NodeId, Node>, cur: NodeId, sub: NodeId, v: Node, S: set<NodeId>)
    requires cur in N && sub !in N
    ensures var M := Bump(Link(N[sub := v], cur, sub), S, 1);
      && N.Keys <= M.Keys && sub in M && SameLabels(N, M) && M[sub].hidden == v.hidden
      && forall x | x in N && x != cur && x !in S :: M[x] == N[x]
  {
    AttachLabels(N[sub := v], cur, sub, S);
  }

  /** A new node `sub` made and attached below `cur` is the one node added,
      and it keeps its kind. */
  lemma NewChildGrows(N: map<NodeId, Node>, cur: NodeId, sub: NodeId, v: Node, S: set<NodeId>)
    requires cur in N && sub !in N
    ensures var M := Bump(Link(N[sub := v], cur, sub), S, 1);
      M.Keys == N.Keys + {sub} && M[sub].kind == v.kind
  {
  }

  /** `M` keeps every child link of `N`. */
  ghost predicate KeepsLinks(N: map<NodeId, Node>, M: map<NodeId, Node>)
  {
    forall x, s | x in N && s in N[x].subs :: x in M && s in M[x].subs && M[x].subs[s] == N[x].subs[s]
  }

  /** A tree that keeps every child link resolves every path that resolved
      before to the same node. */
  lemma {:induction false} KeepsLinksWalk(N: map<NodeId, Node>, M: map<NodeId, Node>, n: NodeId, s: seq<string>)
    requires Closed(N) && Closed(M) && N.Keys <= M.Keys && KeepsLinks(N, M) && n in N && Walk(N, n, s).Some?
    ensures Walk(M, n, s) == Walk(N, n, s)
    decreases |s|
  {
    if s != [] {
      KeepsLinksWalk(N, M, N[n].subs[s[0]], s[1..]);
    }
  }

  /** Attaching a resource, and creating one to attach, keep every child
      link there was. */
  lemma NewChildLinks(N: map<NodeId, Node>, A: map<NodeId, set<NodeId>>, cur: NodeId, sub: NodeId, v: Node)
    requires Shape(N, A) && cur in N && sub !in N
    requires v.parent.None? && v.subs == map[] && IsSegment(v.name) && v.name !in N[cur].subs
    ensures var M := Bump(Link(N[sub := v], cur, sub), {cur} + A[cur], 1);
      KeepsLinks(N, M)
  {
    var N1, A1 := N[sub := v], A[sub := {}];
    NewLeafAttachable(N, A, cur, sub, v);
    AttachedSubs(N1, A1, cur, sub);
    var M := Bump(Link(N1, cur, sub), {cur} + A1[cur], 1);
    OneMoreLink(N1, M, cur, v.name, sub);
    KeepsLinksTrans(N, N1, M);
  }

  /** Keeping every label is transitive. */
  lemma SameLabelsTrans(N: map<NodeId, Node>, N1: map<NodeId, Node>, M: map<NodeId, Node>)
    requires SameLabels(N, N1) && SameLabels(N1, M)
    ensures SameLabels(N, M)
  {
  }

  /** Keeping every child link is transitive. */
  lemma KeepsLinksTrans(N: map<NodeId, Node>, N1: map<NodeId, Node>, M: map<NodeId, Node>)
    requires KeepsLinks(N, N1) && KeepsLinks(N1, M)
    ensures KeepsLinks(N, M)
  {
  }

  /** A tree in which one node gained a child under a name not used yet, and
      no other child map changed, keeps every child link. */
  lemma OneMoreLink(N: map<NodeId, Node>, M: map<NodeId, Node>, cur: NodeId, seg: string, sub: NodeId)
    requires N.Keys <= M.Keys && cur in N && seg !in N[cur].subs && M[cur].subs == N[cur].subs[seg := sub]
    requires forall x | x in N && x != cur :: M[x].subs == N[x].subs
    ensures KeepsLinks(N, M)
  {
  }

  /** Where a node of the tree stands once `r` has taken the place of `b`. */
  function Redirect(b: NodeId, r: NodeId, x: NodeId): NodeId
  {
    if x == b then r else x
  }

  /** One step of a walk across a replacement: a child of `x` is, redirected,
      the child of `x` redirected. */
  lemma ReplaceRedirectsChild(N: map<NodeId, Node>, A: map<NodeId, set<NodeId>>, b: NodeId, r: NodeId,
                              x: NodeId, seg: string)
    requires Shape(N, A) && Replaceable(N, b, r) && x in N && x != r && seg in N[x].subs
    ensures var M := Replaced(N, b, r); var y := Redirect(b, r, x);
      && y in M && seg in M[y].subs && N[x].subs[seg] != r
      && M[y].subs[seg] == Redirect(b, r, N[x].subs[seg])
  {
    ReplacedFacts(N, A, b, r);
    ReplacedSubs(N, A, b, r);
    var q := N[b].parent.value;
    var c := N[x].subs[seg];
    assert N[c].parent == Some(x) && N[c].name == seg;
    if x == b {
      assert c != b by { assert A[c] == {b} + A[b]; }
    } else if x == q {
      assert seg != N[b].name ==> c != b;
    } else {
      assert c != b;
    }
  }

  /** Every path that resolved before a replacement resolves after it, from
      where its start now stands, to where its end now stands: the resource
      for the replaced node, every other node for itself. */
  lemma {:induction false} ReplaceRedirectsAll(N: map<NodeId, Node>, A: map<NodeId, set<NodeId>>, b: NodeId,
                                               r: NodeId, x: NodeId, s: seq<string>)
    requires Shape(N, A) && Replaceable(N, b, r) && x in N && x != r && Walk(N, x, s).Some?
    ensures var M := Replaced(N, b, r);
      && Closed(M) && Redirect(b, r, x) in M
      && Walk(M, Redirect(b, r, x), s) == Some(Redirect(b, r, Walk(N, x, s).value))
    decreases |s|
  {
    ReplacedSubs(N, A, b, r);
    if s != [] {
      ReplaceRedirectsChild(N, A, b, r, x, s[0]);
      ReplaceRedirectsAll(N, A, b, r, N[x].subs[s[0]], s[1..]);
    }
  }

  /** A replacement changes no node's name, hidden flag, attributes or kind,
      except that the resource takes the name of the node it replaces. */
  lemma ReplacedKeepsLabels(N: map<NodeId, Node>, b: NodeId, r: NodeId)
    requires b in N && r in N && r != b && N[b].parent.Some? && N[b].parent.value in N
    ensures var M := Replaced(N, b, r);
      && SameLabels(N - {r}, M) && SameLabels(map[r := N[r].(name := N[b].name)], M)
  {
  }

  /** Attaching a resource keeps every child link there was. */
  lemma AttachKeepsLinks(N: map<NodeId, Node>, A: map<NodeId, set<NodeId>>, b: NodeId, r: NodeId)
    requires Shape(N, A) && Attachable(N, b, r)
    ensures KeepsLinks(N, Bump(Link(N, b, r), {b} + A[b], 1))
  {
    AttachedSubs(N, A, b, r);
    OneMoreLink(N, Bump(Link(N, b, r), {b} + A[b], 1), b, N[r].name, r);
  }

  /** Renaming a node leaves every walk where it was. */
  lemma {:induction false} LocateRenamed(N: map<NodeId, Node>, r: NodeId, name: string, n: NodeId, segs: seq<string>)
    requires Closed(N) && n in N && r in N
    ensures Closed(N[r := N[r].(name := name)])
    ensures Locate(N[r := N[r].(name := name)], n, segs) == Locate(N, n, segs)
    decreases |segs|
  {
    if segs != [] && segs[0] in N[n].subs {
      LocateRenamed(N, r, name, N[n].subs[segs[0]], segs[1..]);
    }
  }

  /** The replace case does not read the resource's own name. */
  lemma ReplacedRenamed(N: map<NodeId, Node>, A: map<NodeId, set<NodeId>>, b: NodeId, r: NodeId, name: string)
    requires Shape(N, A) && Replaceable(N, b, r)
    ensures Replaced(N[r := N[r].(name := name)], b, r) == Replaced(N, b, r)
  {
    ReplacedFacts(N, A, b, r);
    RenamedBeforeReplace(N, b, r, name);
  }

  /** `ReplacedRenamed` once the parent of `b` is known to differ from `r`. */
  lemma RenamedBeforeReplace(N: map<NodeId, Node>, b: NodeId, r: NodeId, name: string)
    requires Replaceable(N, b, r) && N[b].parent.value in N && N[b].parent.value != r
    ensures Replaced(N[r := N[r].(name := name)], b, r) == Replaced(N, b, r)
  {
    var q := N[b].parent.value;
    var N1 := N[r := N[r].(name := name)];
    var M1, M := Replaced(N1, b, r), Replaced(N, b, r);
    forall x | x in N
      ensures M1[x] == M[x]
    {
      if x != b && x != r && x != q {
        assert M1[x] == Reparented(N1, b, r)[x] && M[x] == Reparented(N, b, r)[x];
      }
    }
  }

  /** Walking `s + t` is walking `s`, then `t` from where `s` ends. */
  lemma {:induction false} WalkAppend(N: map<NodeId, Node>, n: NodeId, s: seq<string>, t: seq<string>)
    requires Closed(N) && n in N && Walk(N, n, s).Some?
    ensures Walk(N, n, s + t) == Walk(N, Walk(N, n, s).value, t)
    decreases |s|
  {
    if s != [] {
      assert (s + t)[0] == s[0] && (s + t)[1..] == s[1..] + t;
      WalkAppend(N, N[n].subs[s[0]], s[1..], t);
    } else {
      assert s + t == t;
    }
  }

  /** In a tree, two different prefixes of a path never lead to the same
      node: the longer one ends strictly below the shorter one. */
  lemma PrefixWalksDistinct(N: map<NodeId, Node>, A: map<NodeId, set<NodeId>>, top: NodeId, segs: seq<string>,
                            j1: nat, j2: nat)
    requires Shape(N, A) && top in N && j1 < j2 <= |segs| && Walk(N, top, segs[..j2]).Some?
    ensures Walk(N, top, segs[..j1]) != Walk(N, top, segs[..j2])
  {
    assert segs[..j2] == segs[..j1] + segs[j1..j2];
    WalkPrefix(N, top, segs[..j1], segs[j1..j2]);
    var w1 := Walk(N, top, segs[..j1]).value;
    WalkAppend(N, top, segs[..j1], segs[j1..j2]);
    WalkBelow(N, A, w1, segs[j1..j2]);
    assert w1 in A[Walk(N, top, segs[..j2]).value];
  }

  /** A walk that gets through `s + t` gets through `s`. */
  lemma {:induction false} WalkPrefix(N: map<NodeId, Node>, n: NodeId, s: seq<string>, t: seq<string>)
    requires Closed(N) && n in N && Walk(N, n, s + t).Some?
    ensures Walk(N, n, s).Some?
    decreases |s|
  {
    if s != [] {
      assert (s + t)[0] == s[0] && (s + t)[1..] == s[1..] + t;
      WalkPrefix(N, N[n].subs[s[0]], s[1..], t);
    }
  }
}
