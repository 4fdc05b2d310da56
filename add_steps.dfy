/** The steps of `Resource.add` (pycolo/endpoint/Resource.py) on values:
    how the name of the resource is read, what resolving it finds, and what
    each stage leaves behind. */
module AddSteps {
  import opened Wrappers
  import opened Text
  import opened ResourceForest
  import opened TreeUpdates
  import opened TreeWalks

  /** The name left once the leading "/" characters are gone. */
  function StripSlashes(s: string): (r: string)
    ensures |r| <= |s| && r == s[|s| - |r|..]
    ensures r == "" || r[0] != '/'
    ensures forall i | 0 <= i < |s| - |r| :: s[i] == '/'
  {
    if |s| > 0 && s[0] == '/' then StripSlashes(s[1..]) else s
  }

  /** A name `add` can place: after the leading "/" characters, one or more
      non-empty segments separated by single "/" characters. */
  predicate Compound(name: string)
  {
    forall i | 0 <= i < |Split(StripSlashes(name), '/')| :: IsSegment(Split(StripSlashes(name), '/')[i])
  }

  /** What `add` is given: a resource on its own (no parent, no children),
      other than the resource it is added to, with a compound name. */
  ghost predicate Addable(N: map<NodeId, Node>, self: NodeId, res: NodeId)
  {
    res in N && res != self && N[res].parent.None? && N[res].subs == map[] && Compound(N[res].name)
  }

  /** A new hidden resource `LocalResource(seg)` or `RemoteResource(seg)`
      as the split case of `add` creates it. */
  function HiddenNode(seg: string, kind: Kind): (v: Node)
    ensures v.parent.None? && v.subs == map[] && v.total == 0 && v.hidden && v.attributes == []
  {
    Node(seg, None, map[], true, 0, [], kind)
  }

  /** Resolving the stripped name of the resource below `self`
      (`self.getResource(name, true)`) finds the node `Locate` reaches; when
      every segment resolves, that node has a parent and the resource can take
      its place; otherwise the first missing segment is free below it. */
  lemma AddPlan(N: map<NodeId, Node>, A: map<NodeId, set<NodeId>>, self: NodeId, res: NodeId, name: string)
    requires Shape(N, A) && self in N && res in N && res != self && N[res].parent.None? && N[res].subs == map[]
    requires Compound(name) && StripSlashes(name) == name
    ensures var segs := Split(name, '/'); var loc := Locate(N, self, segs);
      && (forall i | 0 <= i < |segs| :: IsSegment(segs[i])) && Interleave(segs, '/') == name
      && GetResource(N, A, self, Some(name), true) == Some(loc.0) && loc.0 != res
      && (loc.1 == |segs| ==> Replaceable(N, loc.0, res) && Walk(N, self, segs) == Some(loc.0))
  {
    var segs := Split(name, '/');
    InterleaveSplit(name, '/');
    GetResourceSegments(N, A, self, segs, true);
    var loc := Locate(N, self, segs);
    if loc.1 > 0 {
      WalkBelow(N, A, self, segs[..loc.1]);
    }
    if loc.1 == |segs| {
      assert segs[..loc.1] == segs;
    }
  }

  /** Where the middle-segment loop of `add` stands: `path` leads from `top`
      to `cur`, under which `free` is not used yet; the detached resource
      `res` is still `R`; every node not in `O` (the nodes there were before)
      is hidden. */
  ghost predicate MiddleReached(N: map<NodeId, Node>, O: set<NodeId>, top: NodeId, path: seq<string>,
                                cur: NodeId, free: string, res: NodeId, R: Node)
  {
    && Closed(N) && top in N && cur in N && res in N && cur != res && O <= N.Keys
    && Walk(N, top, path) == Some(cur) && free !in N[cur].subs && N[res] == R
    && forall x | x in N && x !in O :: N[x].hidden
  }

  /** Where the middle-segment loop starts: the resource, renamed to the
      last segment, is still detached, and the resolved segments lead to
      `base`. */
  lemma SplitStart(N: map<NodeId, Node>, A: map<NodeId, set<NodeId>>, top: NodeId, segs: seq<string>,
                   base: NodeId, k: nat, res: NodeId, name: string)
    requires Shape(N, A) && top in N && base in N && res in N && res != base && N[res].parent.None?
    requires k < |segs| && Walk(N, top, segs[..k]) == Some(base) && segs[k] !in N[base].subs
    ensures var M := N[res := N[res].(name := name)];
      MiddleReached(M, N.Keys, top, segs[..k], base, segs[k], res, M[res])
  {
    var M := N[res := N[res].(name := name)];
    WalkKeep(N, A, M, top, segs[..k]);
  }

  /** One pass of the middle-segment loop: the walk continues to the new
      hidden node, under which nothing is used yet, and the detached resource
      is untouched. */
  lemma MiddleStep(N: map<NodeId, Node>, A: map<NodeId, set<NodeId>>, O: set<NodeId>, top: NodeId,
                   path: seq<string>, cur: NodeId, seg: string, res: NodeId, R: Node, sub: NodeId, next: string)
    requires Shape(N, A) && MiddleReached(N, O, top, path, cur, seg, res, R)
    requires IsSegment(seg) && sub !in N && R.subs == map[]
    ensures MiddleReached(Bump(Link(N[sub := HiddenNode(seg, N[cur].kind)], cur, sub), {cur} + A[cur], 1),
                          O, top, path + [seg], sub, next, res, R)
  {
    var v := HiddenNode(seg, N[cur].kind);
    NewChildExtendsWalk(N, A, cur, sub, v, top, path);
    NewChildKeeps(N, cur, sub, v, {cur} + A[cur]);
    NotBelowLeaf(N, A, res, cur);
    var M := Bump(Link(N[sub := v], cur, sub), {cur} + A[cur], 1);
    assert M[res] == R;
    forall x | x in M && x !in O
      ensures M[x].hidden
    {
      if x != sub {
        assert x in N && M[x].hidden == N[x].hidden;
      }
    }
  }

  /** Where `add` ends: `segs` leads from `top` to `res`, every node of `O`
      (the nodes there were before) is still there, and every other node is
      hidden. */
  ghost predicate WalkedTo(N: map<NodeId, Node>, O: set<NodeId>, top: NodeId, segs: seq<string>, res: NodeId)
  {
    Closed(N) && top in N && O <= N.Keys && Walk(N, top, segs) == Some(res)
    && forall x | x in N && x !in O :: N[x].hidden
  }

  /** The last step of the split case: the resource, named by the last
      segment, is filed below the last middle node. */
  lemma LastStep(N: map<NodeId, Node>, A: map<NodeId, set<NodeId>>, O: set<NodeId>, top: NodeId,
                 segs: seq<string>, i: nat, cur: NodeId, res: NodeId, R: Node)
    requires Shape(N, A) && i + 1 == |segs| && IsSegment(segs[i])
    requires MiddleReached(N, O, top, segs[..i], cur, segs[i], res, R)
    requires R.parent.None? && R.subs == map[] && R.name == segs[i]
    ensures Attachable(N, cur, res)
    ensures WalkedTo(Bump(Link(N, cur, res), {cur} + A[cur], 1), O, top, segs, res)
  {
    AttachExtendsWalk(N, A, cur, res, top, segs[..i]);
    AttachedSubs(N, A, cur, res);
    AttachLabels(N, cur, res, {cur} + A[cur]);
    TakeOneMore(segs, i);
  }

  /** The replace case: the walk that led to the node replaced leads to the
      resource, and no node is added. */
  lemma ReplaceStep(N: map<NodeId, Node>, A: map<NodeId, set<NodeId>>, b: NodeId, r: NodeId,
                    top: NodeId, segs: seq<string>)
    requires Shape(N, A) && Replaceable(N, b, r) && top in N && |segs| >= 1 && Walk(N, top, segs) == Some(b)
    ensures WalkedTo(Replaced(N, b, r), N.Keys, top, segs, r)
  {
    ReplaceRedirectsWalk(N, A, b, r, top, segs);
    ReplacedSubs(N, A, b, r);
  }

  /** Where `add` ends, read through `getResource`: the name resolves to the
      resource. */
  lemma WalkedToResolves(N: map<NodeId, Node>, A: map<NodeId, set<NodeId>>, O: set<NodeId>, top: NodeId,
                         segs: seq<string>, res: NodeId)
    requires Shape(N, A) && WalkedTo(N, O, top, segs, res)
    requires |segs| >= 1 && forall i | 0 <= i < |segs| :: IsSegment(segs[i])
    ensures GetResource(N, A, top, Some(Interleave(segs, '/')), false) == Some(res)
  {
    GetResourceSegments(N, A, top, segs, false);
  }

  /** How the split case of `add` has grown the tree `N0` into `M` once the
      segments `segs[k..i]` are created below the node `segs[..k]` leads to
      from `top`: every node of `N0` keeps its labels and its child links;
      each `segs[..j]` with `k <= j <= i` leads to a node of kind `K`, a new
      one when `j > k`; and there are as many new nodes as such `j` (which,
      in a tree, lead to different nodes: `PrefixWalksDistinct`). */
  ghost predicate Grown(N0: map<NodeId, Node>, M: map<NodeId, Node>, top: NodeId, segs: seq<string>,
                        k: nat, i: nat, K: Kind)
  {
    && N0.Keys <= M.Keys && Closed(M) && top in M && k <= i <= |segs|
    && SameLabels(N0, M) && KeepsLinks(N0, M) && |M.Keys - N0.Keys| == i - k
    && GrownWalks(N0, M, top, segs, k, i, K)
  }

  /** The walks part of `Grown`. */
  ghost predicate GrownWalks(N0: map<NodeId, Node>, M: map<NodeId, Node>, top: NodeId, segs: seq<string>,
                             k: nat, i: nat, K: Kind)
  {
    && Closed(M) && top in M && k <= i <= |segs|
    && (forall j | k <= j <= i ::
          && Walk(M, top, segs[..j]).Some? && M[Walk(M, top, segs[..j]).value].kind == K
          && (j > k ==> Walk(M, top, segs[..j]).value !in N0))
  }

  /** Before the first segment is created nothing has grown. */
  lemma GrownStart(N0: map<NodeId, Node>, top: NodeId, segs: seq<string>, k: nat, base: NodeId)
    requires Closed(N0) && top in N0 && k <= |segs| && Walk(N0, top, segs[..k]) == Some(base)
    ensures Grown(N0, N0, top, segs, k, k, N0[base].kind)
  {
    assert N0.Keys - N0.Keys == {};
  }

  /** Creating the node for `segs[i]` grows the tree by one segment. */
  lemma GrowStep(N0: map<NodeId, Node>, N: map<NodeId, Node>, M: map<NodeId, Node>, top: NodeId,
                 segs: seq<string>, k: nat, i: nat, K: Kind, sub: NodeId)
    requires Grown(N0, N, top, segs, k, i, K) && i < |segs|
    requires Closed(M) && M.Keys == N.Keys + {sub} && sub !in N && SameLabels(N, M) && KeepsLinks(N, M)
    requires Walk(M, top, segs[..i + 1]) == Some(sub) && M[sub].kind == K
    ensures Grown(N0, M, top, segs, k, i + 1, K)
  {
    GrowWalks(N0, N, M, top, segs, k, i, K, sub);
    KeepsLinksTrans(N0, N, M);
    SameLabelsTrans(N0, N, M);
    GrowOne(N0.Keys, N.Keys, sub);
  }

  /** The walks of `Grown` after one more segment. */
  lemma GrowWalks(N0: map<NodeId, Node>, N: map<NodeId, Node>, M: map<NodeId, Node>, top: NodeId,
                  segs: seq<string>, k: nat, i: nat, K: Kind, sub: NodeId)
    requires GrownWalks(N0, N, top, segs, k, i, K) && N0.Keys <= N.Keys && i < |segs|
    requires Closed(M) && N.Keys <= M.Keys && sub !in N && SameLabels(N, M) && KeepsLinks(N, M)
    requires Walk(M, top, segs[..i + 1]) == Some(sub) && M[sub].kind == K
    ensures GrownWalks(N0, M, top, segs, k, i + 1, K)
  {
    forall j | k <= j <= i + 1
      ensures Walk(M, top, segs[..j]).Some? && M[Walk(M, top, segs[..j]).value].kind == K
      ensures j > k ==> Walk(M, top, segs[..j]).value !in N0
    {
      if j <= i {
        GrowWalkKept(N0, N, M, top, segs, k, i, K, j);
      } else {
        assert segs[..j] == segs[..i + 1];
      }
    }
  }

  /** A walk of `Grown` that resolved before one more segment is created
      still resolves, to the same node. */
  lemma GrowWalkKept(N0: map<NodeId, Node>, N: map<NodeId, Node>, M: map<NodeId, Node>, top: NodeId,
                     segs: seq<string>, k: nat, i: nat, K: Kind, j: nat)
    requires GrownWalks(N0, N, top, segs, k, i, K) && k <= j <= i
    requires Closed(M) && N.Keys <= M.Keys && SameLabels(N, M) && KeepsLinks(N, M)
    ensures Walk(M, top, segs[..j]) == Walk(N, top, segs[..j])
    ensures Walk(M, top, segs[..j]).Some? && M[Walk(M, top, segs[..j]).value].kind == K
    ensures j > k ==> Walk(M, top, segs[..j]).value !in N0
  {
    KeepsLinksWalk(N, M, top, segs[..j]);
  }

  /** One more key outside the old ones. */
  lemma GrowOne(O: set<NodeId>, S: set<NodeId>, sub: NodeId)
    requires sub !in S && O <= S
    ensures |(S + {sub}) - O| == |S - O| + 1
  {
    assert (S + {sub}) - O == (S - O) + {sub};
  }

  /** Filing the resource itself grows nothing and keeps what has grown. */
  lemma GrownKeep(N0: map<NodeId, Node>, N: map<NodeId, Node>, M: map<NodeId, Node>, top: NodeId,
                  segs: seq<string>, k: nat, i: nat, K: Kind)
    requires Grown(N0, N, top, segs, k, i, K)
    requires Closed(M) && M.Keys == N.Keys && SameLabels(N, M) && KeepsLinks(N, M)
    ensures Grown(N0, M, top, segs, k, i, K)
  {
    forall j | k <= j <= i
      ensures Walk(M, top, segs[..j]) == Walk(N, top, segs[..j])
    {
      KeepsLinksWalk(N, M, top, segs[..j]);
    }
    KeepsLinksTrans(N0, N, M);
  }

  /** The last step of the split case keeps what has grown. */
  lemma LastGrown(N0: map<NodeId, Node>, N: map<NodeId, Node>, A: map<NodeId, set<NodeId>>, top: NodeId,
                  segs: seq<string>, k: nat, i: nat, K: Kind, cur: NodeId, res: NodeId, R: Node)
    requires Shape(N, A) && i + 1 == |segs| && IsSegment(segs[i])
    requires MiddleReached(N, N0.Keys, top, segs[..i], cur, segs[i], res, R) && Grown(N0, N, top, segs, k, i, K)
    requires R.parent.None? && R.subs == map[] && R.name == segs[i]
    ensures Attachable(N, cur, res)
    ensures var M := Bump(Link(N, cur, res), {cur} + A[cur], 1);
      WalkedTo(M, N0.Keys, top, segs, res) && Grown(N0, M, top, segs, k, i, K)
  {
    LastStep(N, A, N0.Keys, top, segs, i, cur, res, R);
    var M := Bump(Link(N, cur, res), {cur} + A[cur], 1);
    AttachLabels(N, cur, res, {cur} + A[cur]);
    AttachKeepsLinks(N, A, cur, res);
    GrownKeep(N0, N, M, top, segs, k, i, K);
  }

  /** Filing `c` below `cur` and moving counts: only the parent of `c` and
      the child map of `cur` change, and `cur` gains just the name of `c`. */
  lemma LinkFrame(N: map<NodeId, Node>, M: map<NodeId, Node>, cur: NodeId, c: NodeId, S: set<NodeId>)
    requires cur in N && c in N && cur != c && M == Bump(Link(N, cur, c), S, 1)
    ensures LinkedBelow(N, M, cur, c) && SameLabels(N, M)
  {
    AttachLabels(N, cur, c, S);
  }

  /** `LinkFrame` for a node `sub` created with the value `v` and filed at
      once. */
  lemma NewLinkFrame(N: map<NodeId, Node>, v: Node, M: map<NodeId, Node>, cur: NodeId, sub: NodeId, S: set<NodeId>)
    requires cur in N && sub !in N && M == Bump(Link(N[sub := v], cur, sub), S, 1)
    ensures LinkedBelow(N[sub := v], M, cur, sub) && SameLabels(N[sub := v], M)
  {
    LinkFrame(N[sub := v], M, cur, sub, S);
  }

  /** `M` is `N` with `c` filed below `cur`, as far as parents and child
      maps go. */
  ghost predicate LinkedBelow(N: map<NodeId, Node>, M: map<NodeId, Node>, cur: NodeId, c: NodeId)
  {
    && M.Keys == N.Keys && cur in N && c in N && cur != c
    && (forall x | x in N && x != c :: M[x].parent == N[x].parent)
    && (forall x | x in N && x != cur :: M[x].subs == N[x].subs)
    && M[cur].subs == N[cur].subs[N[c].name := c]
  }

  /** The frame of the split case of `add`, from the tree `N0` to `M`, with
      `res` the resource, `base` the deepest node found and `seg` the first
      segment missing below it: no old node but `res` changes parent, no old
      node but `base` changes children, `base` gains exactly `seg`, and every
      new node is hidden, has no attributes and has exactly one child. With `Grown` and the tree invariant it
      leaves no other tree than the one `add` builds. */
  ghost predicate SplitFrame(N0: map<NodeId, Node>, M: map<NodeId, Node>, res: NodeId, base: NodeId, seg: string)
  {
    && N0.Keys <= M.Keys && base in N0
    && (forall x | x in N0 && x != res :: M[x].parent == N0[x].parent)
    && (forall x | x in N0 && x != base :: M[x].subs == N0[x].subs)
    && M[base].subs.Keys == N0[base].subs.Keys + {seg}
    && (forall x | x in M && x !in N0 :: |M[x].subs| == 1)
    && FreshBare(N0, M)
  }

  /** Every node of `M` that `N0` lacks is hidden and has no attributes, as a
      resource created with `hidden` set and an empty attribute set is. */
  ghost predicate FreshBare(N0: map<NodeId, Node>, M: map<NodeId, Node>)
  {
    forall x | x in M && x !in N0 :: M[x].attributes == [] && M[x].hidden
  }

  /** A step that keeps every label keeps the new nodes bare. */
  lemma FreshLabels(N0: map<NodeId, Node>, X: map<NodeId, Node>, M: map<NodeId, Node>)
    requires FreshBare(N0, X) && SameLabels(X, M) && M.Keys == X.Keys
    ensures FreshBare(N0, M)
  {
  }

  /** The frame while the middle segments are inserted: `cur` is the node
      reached so far, `base` itself before the first pass (`i == k`) and a
      new node after it, and `cur` has no child yet when it is new. */
  ghost predicate Framed(N0: map<NodeId, Node>, M: map<NodeId, Node>, res: NodeId, base: NodeId, seg: string,
                         k: nat, i: nat, cur: NodeId)
  {
    && N0.Keys <= M.Keys && base in N0 && res in N0 && cur in M
    && (if i == k then cur == base else cur !in N0)
    && (forall x | x in N0 && x != res :: M[x].parent == N0[x].parent)
    && (forall x | x in N0 && x != base :: M[x].subs == N0[x].subs)
    && M[base].subs.Keys == N0[base].subs.Keys + (if i == k then {} else {seg})
    && (forall x | x in M && x !in N0 && x != cur :: |M[x].subs| == 1)
    && (cur !in N0 ==> M[cur].subs == map[])
    && FreshBare(N0, M)
  }

  /** Before the first pass nothing has moved. */
  lemma FramedStart(N0: map<NodeId, Node>, res: NodeId, base: NodeId, seg: string, k: nat)
    requires base in N0 && res in N0
    ensures Framed(N0, N0, res, base, seg, k, k, base)
  {
  }

  /** One pass: the new node `sub`, with no children, is filed below `cur`
      under the segment `v.name`, which is `seg` on the first pass. */
  lemma FramedStep(N0: map<NodeId, Node>, N: map<NodeId, Node>, M: map<NodeId, Node>, res: NodeId, base: NodeId,
                   seg: string, k: nat, i: nat, cur: NodeId, sub: NodeId, v: Node)
    requires Framed(N0, N, res, base, seg, k, i, cur) && k <= i
    requires sub !in N && v.subs == map[] && v.attributes == [] && v.hidden && (i == k ==> v.name == seg)
    requires LinkedBelow(N[sub := v], M, cur, sub) && SameLabels(N[sub := v], M)
    ensures Framed(N0, M, res, base, seg, k, i + 1, sub)
  {
    var X := N[sub := v];
    NewNodeFrame(N0, N, X, res, base, sub, v);
    FreshLabels(N0, X, M);
    FrameParents(N0, X, M, res, cur, sub);
    FrameSubs(N0, X, M, base, cur, sub);
    FrameNew(N0, X, M, cur, sub);
    if i == k {
      assert M[base].subs == N[base].subs[seg := sub];
    }
  }

  /** Adding the node `sub` outside `N0` keeps the frame clauses about the
      nodes of `N0`. */
  lemma NewNodeFrame(N0: map<NodeId, Node>, N: map<NodeId, Node>, X: map<NodeId, Node>, res: NodeId, base: NodeId,
                     sub: NodeId, v: Node)
    requires N0.Keys <= N.Keys && sub !in N && X == N[sub := v]
    requires forall x | x in N0 && x != res :: N[x].parent == N0[x].parent
    requires forall x | x in N0 && x != base :: N[x].subs == N0[x].subs
    requires FreshBare(N0, N) && v.attributes == [] && v.hidden
    ensures forall x | x in N0 && x != res :: X[x].parent == N0[x].parent
    ensures forall x | x in N0 && x != base :: X[x].subs == N0[x].subs
    ensures forall x | x in N0 :: X[x] == N[x]
    ensures FreshBare(N0, X)
  {
  }

  /** Filing `c` keeps the parent of every old node but `res`. */
  lemma FrameParents(N0: map<NodeId, Node>, X: map<NodeId, Node>, M: map<NodeId, Node>, res: NodeId,
                     cur: NodeId, c: NodeId)
    requires LinkedBelow(X, M, cur, c) && N0.Keys <= X.Keys && (c == res || c !in N0)
    requires forall x | x in N0 && x != res :: X[x].parent == N0[x].parent
    ensures forall x | x in N0 && x != res :: M[x].parent == N0[x].parent
  {
  }

  /** Filing `c` below `cur`, which is `base` or new, keeps the children of
      every old node but `base`. */
  lemma FrameSubs(N0: map<NodeId, Node>, X: map<NodeId, Node>, M: map<NodeId, Node>, base: NodeId,
                  cur: NodeId, c: NodeId)
    requires LinkedBelow(X, M, cur, c) && N0.Keys <= X.Keys && base in N0 && (cur == base || cur !in N0)
    requires forall x | x in N0 && x != base :: X[x].subs == N0[x].subs
    ensures forall x | x in N0 && x != base :: M[x].subs == N0[x].subs
    ensures cur != base ==> M[base].subs == X[base].subs
  {
  }

  /** Filing `c` below `cur`, childless when new, leaves every new node
      but `c` with exactly one child, and `c` with the children it had. */
  lemma FrameNew(N0: map<NodeId, Node>, X: map<NodeId, Node>, M: map<NodeId, Node>, cur: NodeId, c: NodeId)
    requires LinkedBelow(X, M, cur, c)
    requires forall x | x in X && x !in N0 && x != cur && x != c :: |X[x].subs| == 1
    requires cur !in N0 ==> X[cur].subs == map[]
    ensures forall x | x in M && x !in N0 && x != c :: |M[x].subs| == 1
    ensures M[c].subs == X[c].subs
  {
    if cur !in N0 {
      assert M[cur].subs == map[X[c].name := c];
    }
  }

  /** Filing the resource below the last node reached completes the frame;
      on the first pass `cur` is `base` and the resource is named `seg`. */
  lemma FramedLast(N0: map<NodeId, Node>, N: map<NodeId, Node>, M: map<NodeId, Node>, res: NodeId, base: NodeId,
                   seg: string, k: nat, i: nat, cur: NodeId)
    requires Framed(N0, N, res, base, seg, k, i, cur) && res != cur && (i == k ==> N[res].name == seg)
    requires LinkedBelow(N, M, cur, res) && SameLabels(N, M)
    ensures SplitFrame(N0, M, res, base, seg)
  {
    FreshLabels(N0, N, M);
    FrameParents(N0, N, M, res, cur, res);
    FrameSubs(N0, N, M, base, cur, res);
    FrameNew(N0, N, M, cur, res);
    if i == k {
      assert M[base].subs == N[base].subs[seg := res];
    }
  }

  /** `SplitFrame` read with equal arguments. */
  lemma SplitFrameSame(N0: map<NodeId, Node>, M: map<NodeId, Node>, res: NodeId, base: NodeId, seg: string,
                       N0': map<NodeId, Node>, base': NodeId, seg': string)
    requires SplitFrame(N0, M, res, base, seg) && N0' == N0 && base' == base && seg' == seg
    ensures SplitFrame(N0', M, res, base', seg')
  {
  }

  /** Renaming twice is renaming once, to the second name. */
  lemma RenamedTwice(N: map<NodeId, Node>, r: NodeId, a: string, b: string)
    requires r in N
    ensures var N1 := N[r := N[r].(name := a)]; N1[r := N1[r].(name := b)] == N[r := N[r].(name := b)]
  {
  }

  /** `Grown` read with equal arguments. */
  lemma GrownSame(N0: map<NodeId, Node>, M: map<NodeId, Node>, top: NodeId, segs: seq<string>, k: nat, i: nat,
                  K: Kind, N0': map<NodeId, Node>, segs': seq<string>, k': nat, K': Kind)
    requires Grown(N0, M, top, segs, k, i, K) && N0' == N0 && segs' == segs && k' == k && K' == K
    ensures Grown(N0', M, top, segs', k', i, K')
  {
  }

  /** What `add` makes of the tree `N0` when the resource `res`, on its own,
      is added below `self`, `segs` being the segments of its name once the
      leading "/" characters are gone: when every segment resolves, the
      resource takes the place of the node found; otherwise the tree grows
      from `N0`, with the resource renamed to the last segment, by one new
      resource for each segment from the first missing one up to the last
      but one, each of the kind of the deepest node found. */
  ghost predicate AddOutcome(N0: map<NodeId, Node>, M: map<NodeId, Node>, self: NodeId, res: NodeId,
                             segs: seq<string>)
    requires ChildrenAgree(N0) && self in N0 && res in N0 && |segs| >= 1
  {
    var loc := Locate(N0, self, segs);
    && (loc.1 == |segs| ==> Replaceable(N0, loc.0, res) && M == Replaced(N0, loc.0, res))
    && (loc.1 < |segs| ==>
          && Grown(N0[res := N0[res].(name := segs[|segs| - 1])], M, self, segs, loc.1, |segs| - 1, N0[loc.0].kind)
          && SplitFrame(N0[res := N0[res].(name := segs[|segs| - 1])], M, res, loc.0, segs[loc.1]))
  }

  /** `AddOutcome` read with equal segments. */
  lemma AddOutcomeSame(N0: map<NodeId, Node>, M: map<NodeId, Node>, self: NodeId, res: NodeId,
                       segs: seq<string>, segs': seq<string>)
    requires ChildrenAgree(N0) && self in N0 && res in N0 && |segs| >= 1
    requires AddOutcome(N0, M, self, res, segs) && segs' == segs
    ensures AddOutcome(N0, M, self, res, segs')
  {
  }

  /** The replace case meets `AddOutcome`. */
  lemma ReplaceOutcome(N0: map<NodeId, Node>, M: map<NodeId, Node>, self: NodeId, res: NodeId, segs: seq<string>,
                       base: NodeId)
    requires ChildrenAgree(N0) && self in N0 && res in N0 && |segs| >= 1
    requires Locate(N0, self, segs) == (base, |segs|) && Replaceable(N0, base, res) && M == Replaced(N0, base, res)
    ensures AddOutcome(N0, M, self, res, segs)
  {
  }

  /** The split case meets `AddOutcome`: `N1` is `N0` with the resource
      renamed to `name`, from which the split case grew the tree. */
  lemma SplitOutcome(N0: map<NodeId, Node>, N1: map<NodeId, Node>, M: map<NodeId, Node>, self: NodeId, res: NodeId,
                     name: string, segs: seq<string>, base: NodeId, k: nat)
    requires ChildrenAgree(N0) && self in N0 && res in N0 && base in N0 && res != base
    requires N1 == N0[res := N0[res].(name := name)]
    requires Locate(N0, self, segs) == (base, k) && k < |segs|
    requires Grown(N1[res := N1[res].(name := segs[|segs| - 1])], M, self, segs, k, |segs| - 1, N1[base].kind)
    requires SplitFrame(N1[res := N1[res].(name := segs[|segs| - 1])], M, res, base, segs[k])
    ensures AddOutcome(N0, M, self, res, segs)
  {
    RenamedTwice(N0, res, name, segs[|segs| - 1]);
    GrownSame(N1[res := N1[res].(name := segs[|segs| - 1])], M, self, segs, k, |segs| - 1, N1[base].kind,
              N0[res := N0[res].(name := segs[|segs| - 1])], segs, k, N0[base].kind);
    SplitFrameSame(N1[res := N1[res].(name := segs[|segs| - 1])], M, res, base, segs[k],
                   N0[res := N0[res].(name := segs[|segs| - 1])], base, segs[k]);
  }
}
