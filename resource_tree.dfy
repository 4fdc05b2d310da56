/** pycolo's `Resource` objects (pycolo/endpoint/Resource.py) and the
    operations that change them in place. The objects live in one heap of
    nodes addressed by `NodeId`; a method that `Resource` runs on a resource
    `self` takes its identifier. */
module ResourceTree {
  import opened Wrappers
  import opened Text
  import opened ResourceForest
  import opened TreeUpdates
  import opened TreeWalks
  import opened AddSteps
  import LinkAttributes

  /** `add(None)` raises a NullPointerException. */
  datatype AddError = NullPointer

  /** The `while p != None` loop of `add` and `removeSubResource` on the
      nodes: adds `delta` to the count of `q` and of every node above it. */
  method Climb(N: map<NodeId, Node>, ghost A: map<NodeId, set<NodeId>>, q: NodeId, delta: int)
    returns (M: map<NodeId, Node>)
    requires q in N && Ancestry(N, A)
    ensures M == Bump(N, {q} + A[q], delta)
  {
    M := N;
    var p: Option<NodeId> := Some(q);
    while p.Some?
      invariant p.Some? ==> p.value in N && (p.value == q || p.value in A[q])
      invariant M == Bump(N, ({q} + A[q]) - Pending(A, p), delta)
      decreases if p.Some? then |A[p.value]| + 1 else 0
    {
      var x := p.value;
      ClimbStep(N, A, q, x);
      BumpOne(N, ({q} + A[q]) - Pending(A, p), x, delta);
      M := BumpAt(M, x, delta);
      p := M[x].parent;
    }
    assert ({q} + A[q]) - Pending(A, p) == {q} + A[q];
  }

  /** The replace loop of `add` has moved every child of `b` but those under
      `keys`. */
  ghost predicate MovedBut(N: map<NodeId, Node>, M: map<NodeId, Node>, b: NodeId, r: NodeId, keys: set<string>)
  {
    b in N && r in N && keys <= N[b].subs.Keys && M == Moving(N, b, r, N[b].subs.Keys - keys)
  }

  /** One pass of the replace loop of `add`: `r.parent = resource` and
      `resource.subResources().put(r.name, r)` for the child under `k`. */
  method MoveChild(ghost N: map<NodeId, Node>, M: map<NodeId, Node>, b: NodeId, r: NodeId,
                   kids: map<string, NodeId>, ghost keys: set<string>, k: string)
    returns (M': map<NodeId, Node>)
    requires b in N && r in N && ChildrenOf(N, b) && N[r].parent.None? && kids == N[b].subs
    requires MovedBut(N, M, b, r, keys) && k in keys
    ensures MovedBut(N, M', b, r, keys - {k})
  {
    MovingStep(N, b, r, kids.Keys - keys, k);
    var c := kids[k];
    M' := M[c := M[c].(parent := Some(r))];
    M' := M'[r := M'[r].(subs := M'[r].subs[k := c])];
    assert kids.Keys - (keys - {k}) == (kids.Keys - keys) + {k};
  }

  /** The loop of the replace case of `add` on the nodes: each child of `b`
      is pointed at `r` and filed in `r`'s map under its name. */
  method MoveAll(N: map<NodeId, Node>, b: NodeId, r: NodeId) returns (M: map<NodeId, Node>)
    requires b in N && r in N && ChildrenOf(N, b)
    requires N[r].parent.None? && N[r].subs == map[]
    ensures M == Moving(N, b, r, N[b].subs.Keys)
  {
    MovingNone(N, b, r);
    M := N;
    var kids := N[b].subs;
    var keys := kids.Keys;
    assert kids.Keys - keys == {};
    while keys != {}
      invariant MovedBut(N, M, b, r, keys)
      decreases |keys|
    {
      var k :| k in keys;
      M := MoveChild(N, M, b, r, kids, keys, k);
      keys := keys - {k};
    }
    assert kids.Keys - keys == kids.Keys;
  }

  class ResourceHeap {
    var nodes: map<NodeId, Node>
    ghost var anc: map<NodeId, set<NodeId>>
    var next: NodeId

    ghost predicate Valid()
      reads this
    {
      ResourceForest.Valid(nodes, anc) && forall x | x in nodes :: x < next
    }

    constructor ()
      ensures Valid() && nodes == map[]
    {
      nodes := map[];
      anc := map[];
      next := 0;
    }

    /** `Resource(identifier, hidden)` of the given kind: a node on its own,
        with the name as given, no attributes and a count of 0. */
    method NewResource(name: string, hidden: bool, kind: Kind) returns (id: NodeId)
      requires Valid()
      modifies this
      ensures Valid() && id !in old(nodes)
      ensures nodes == old(nodes)[id := Node(name, None, map[], hidden, 0, [], kind)]
      ensures anc == old(anc)[id := {}]
    {
      var v := Node(name, None, map[], hidden, 0, [], kind);
      NewLeafValid(nodes, anc, next, v);
      id := next;
      nodes := nodes[id := v];
      anc := anc[id := {}];
      next := next + 1;
    }

    /** The `while p != None` loop of `add` and `removeSubResource`. */
    method AdjustCounts(q: NodeId, delta: int, ghost S: set<NodeId>)
      requires q in nodes && Ancestry(nodes, anc) && S == {q} + anc[q]
      modifies this
      ensures anc == old(anc) && next == old(next)
      ensures nodes == Bump(old(nodes), S, delta)
    {
      nodes := Climb(nodes, anc, q, delta);
    }

    /** `base.add(sub)` for a new node `r` whose name is one segment free
        under `b` (and the last step of a split `add`): `r` is filed under
        `b` and the counts of `b` and of its ancestors rise by one. */
    method AttachLeaf(b: NodeId, r: NodeId)
      requires Valid() && Attachable(nodes, b, r)
      modifies this
      ensures Valid()
      ensures nodes == Bump(Link(old(nodes), b, r), {b} + old(anc)[b], 1)
      ensures anc == LinkAncestry(old(anc), b, r) && next == old(next)
    {
      ghost var N0, A0 := nodes, anc;
      AttachValid(N0, A0, b, r);
      LinkShape(N0, A0, b, r);
      LinkNode(b, r);
      AdjustCounts(b, 1, {b} + A0[b]);
    }

    /** `resource.parent = base; base.subResources().put(resource.name, resource)`. */
    method LinkNode(b: NodeId, r: NodeId)
      requires b in nodes && r in nodes && b in anc
      modifies this
      ensures nodes == Link(old(nodes), b, r) && anc == LinkAncestry(old(anc), b, r)
      ensures next == old(next)
    {
      var base := nodes[b];
      nodes := nodes[b := base.(subs := base.subs[nodes[r].name := r])];
      nodes := nodes[r := nodes[r].(parent := Some(b))];
      anc := anc[r := {b} + anc[b]];
    }
 
    /** The loop of the replace case: each child of `b` is pointed at `r`
        and filed in `r`'s map under its name. */
    method MoveChildren(b: NodeId, r: NodeId)
      requires b in nodes && r in nodes && ChildrenOf(nodes, b)
      requires nodes[r].parent.None? && nodes[r].subs == map[]
      modifies this
      ensures nodes == Moving(old(nodes), b, r, old(nodes)[b].subs.Keys)
      ensures anc == old(anc) && next == old(next)
    {
      nodes := MoveAll(nodes, b, r);
    }

    /** The child links of the replace case of `add`, corrected: every child
        of `b` is reparented to `r` and filed in `r`'s map, `r` takes `b`'s
        slot in the parent's map together with `b`'s name and count, and `b`
        is left detached and empty. */
    method ReplaceLinks(b: NodeId, r: NodeId, ghost A: map<NodeId, set<NodeId>>)
      requires Shape(nodes, A) && Replaceable(nodes, b, r)
      modifies this
      ensures nodes == Replaced(old(nodes), b, r)
      ensures anc == old(anc) && next == old(next)
    {
      ghost var N0 := nodes;
      ReplacePrep(N0, A, b, r);
      MoveChildren(b, r);
      var q := nodes[b].parent.value;
      MovingDone(N0, b, r, q);
      nodes := Finish(nodes, b, r, q);
    }

    /** The replace case of `add`, corrected. The counts above `b` are left
        alone: the tree has as many nodes as before. */
    method ReplaceWith(b: NodeId, r: NodeId)
      requires Valid() && Replaceable(nodes, b, r)
      modifies this
      ensures Valid()
      ensures nodes == Replaced(old(nodes), b, r)
      ensures anc == ReplaceAncestry(old(anc), b, r) && next == old(next)
    {
      ghost var N0, A0 := nodes, anc;
      ReplaceLinks(b, r, anc);
      Reanchor(N0, A0, b, r);
    }

    /** The ancestry after the links of the replace case have been set. */
    method Reanchor(ghost N0: map<NodeId, Node>, ghost A0: map<NodeId, set<NodeId>>, b: NodeId, r: NodeId)
      requires ResourceForest.Valid(N0, A0) && Replaceable(N0, b, r) && forall x | x in N0 :: x < next
      requires nodes == Replaced(N0, b, r) && anc == A0
      modifies this
      ensures Valid() && nodes == old(nodes) && next == old(next)
      ensures anc == ReplaceAncestry(A0, b, r)
    {
      ReplaceValidAt(N0, A0, b, r, nodes, ReplaceAncestry(A0, b, r));
      anc := ReplaceAncestry(A0, b, r);
    }

    /** `resource.setName(name)` on a resource that has no parent. */
    method Rename(r: NodeId, name: string)
      requires Valid() && r in nodes && nodes[r].parent.None?
      modifies this
      ensures Valid()
      ensures nodes == old(nodes)[r := old(nodes)[r].(name := name)]
      ensures anc == old(anc) && next == old(next)
    {
      RenameDetached(nodes, anc, r, name);
      nodes := nodes[r := nodes[r].(name := name)];
    }

    /** One pass of the loop that inserts the middle segments of a split
        `add`: a new hidden resource of the kind of `cur`, named `seg`, is
        added below `cur`. */
    method AttachHidden(cur: NodeId, seg: string) returns (sub: NodeId)
      requires Valid() && cur in nodes && IsSegment(seg) && seg !in nodes[cur].subs
      modifies this
      ensures Valid() && sub !in old(nodes)
      ensures nodes == Bump(Link(old(nodes)[sub := HiddenNode(seg, old(nodes)[cur].kind)], cur, sub),
                            {cur} + old(anc)[cur], 1)
    {
      ghost var N0, A0 := nodes, anc;
      sub := NewResource(seg, true, nodes[cur].kind);
      NewLeafAttachable(N0, A0, cur, sub, nodes[sub]);
      AttachLeaf(cur, sub);
    }

    /** The loop of the split case of `add` that inserts the middle
        segments: from `base`, reached by `segs[..k]`, a new hidden resource
        is added for each of `segs[k..|segs| - 1]`, each below the one before.
        The loop stops before the last segment, which names `res` itself.
        The detached resource `res` is left as it is. */
    method InsertMiddle(self: NodeId, segs: seq<string>, base: NodeId, k: nat, res: NodeId, ghost K: Kind)
      returns (cur: NodeId, i: nat)
      requires forall i | 0 <= i < |segs| :: IsSegment(segs[i])
      requires res in nodes && nodes[res].subs == map[]
      requires InsertedUpTo(nodes, self, segs, k, K, k, base, res, nodes[res])
      requires k < |segs| && Framed(nodes, nodes, res, base, segs[k], k, k, base)
      modifies this
      ensures i == |segs| - 1 && InsertedUpTo(old(nodes), self, segs, k, K, i, cur, res, old(nodes)[res])
      ensures Framed(old(nodes), nodes, res, base, segs[k], k, i, cur)
    {
      ghost var N0, R := nodes, nodes[res];
      cur, i := base, k;
      while i < |segs| - 1
        invariant k <= i <= |segs| - 1
        invariant InsertedUpTo(N0, self, segs, k, K, i, cur, res, R)
        invariant Framed(N0, nodes, res, base, segs[k], k, i, cur)
      {
        ghost var N1, A1 := nodes, anc;
        ghost var v := HiddenNode(segs[i], N1[cur].kind);
        var sub, j := InsertOne(self, segs, i, cur, res, N0, k, K, R);
        NewLinkFrame(N1, v, nodes, cur, sub, {cur} + A1[cur]);
        FramedStep(N0, N1, nodes, res, base, segs[k], k, i, cur, sub, v);
        cur, i := sub, j;
      }
    }

    /** The state of that loop: the tree is valid, `segs[..i]` leads from
        `self` to `cur`, below which `segs[i]` is still free, and the tree has
        grown from `N0` by the resources for `segs[k..i]`. */
    ghost predicate InsertedUpTo(N0: map<NodeId, Node>, self: NodeId, segs: seq<string>, k: nat, K: Kind,
                                 i: nat, cur: NodeId, res: NodeId, R: Node)
      reads this
    {
      && i < |segs| && Valid() && MiddleReached(nodes, N0.Keys, self, segs[..i], cur, segs[i], res, R)
      && Grown(N0, nodes, self, segs, k, i, K)
    }

    /** One pass of that loop: the resource for `segs[i]` is created below
        `cur`, the node `segs[..i]` leads to. */
    method InsertOne(self: NodeId, segs: seq<string>, i: nat, cur: NodeId, res: NodeId,
                     ghost N0: map<NodeId, Node>, ghost k: nat, ghost K: Kind, ghost R: Node)
      returns (sub: NodeId, j: nat)
      requires i < |segs| - 1 && IsSegment(segs[i]) && R.subs == map[]
      requires InsertedUpTo(N0, self, segs, k, K, i, cur, res, R)
      modifies this
      ensures j == i + 1 && InsertedUpTo(N0, self, segs, k, K, j, sub, res, R)
      ensures sub !in old(nodes)
      ensures nodes == Bump(Link(old(nodes)[sub := HiddenNode(segs[i], old(nodes)[cur].kind)], cur, sub),
                            {cur} + old(anc)[cur], 1)
    {
      j := i + 1;
      ghost var N1, A1 := nodes, anc;
      ghost var v := HiddenNode(segs[i], N1[cur].kind);
      assert N1[cur].kind == K;
      sub := AttachHidden(cur, segs[i]);
      MiddleStep(N1, A1, N0.Keys, self, segs[..i], cur, segs[i], res, R, sub, segs[i + 1]);
      TakeOneMore(segs, i);
      NewChildKeeps(N1, cur, sub, v, {cur} + A1[cur]);
      NewChildGrows(N1, cur, sub, v, {cur} + A1[cur]);
      NewChildLinks(N1, A1, cur, sub, v);
      GrowStep(N0, N1, nodes, self, segs, k, i, K, sub);
    }

    /** The split case of `add`: `res` is renamed to the last segment, the
        segments that do not resolve yet are inserted, and `res` is filed
        below the last of them. */
    method SplitCompound(self: NodeId, res: NodeId, segs: seq<string>, base: NodeId, k: nat)
      requires Valid() && self in nodes && res in nodes && base in nodes && res != base
      requires nodes[res].parent.None? && nodes[res].subs == map[]
      requires forall i | 0 <= i < |segs| :: IsSegment(segs[i])
      requires k < |segs| && Walk(nodes, self, segs[..k]) == Some(base) && segs[k] !in nodes[base].subs
      modifies this
      ensures Valid() && WalkedTo(nodes, old(nodes).Keys, self, segs, res)
      ensures Grown(old(nodes)[res := old(nodes)[res].(name := segs[|segs| - 1])], nodes, self, segs, k,
                    |segs| - 1, old(nodes)[base].kind)
      ensures SplitFrame(old(nodes)[res := old(nodes)[res].(name := segs[|segs| - 1])], nodes, res, base, segs[k])
    {
      BeginSplit(self, res, segs, base, k);
      ghost var N1, R := nodes, nodes[res];
      var cur, i := InsertMiddle(self, segs, base, k, res, N1[base].kind);
      AttachLast(self, segs, cur, res, N1, k, i, N1[base].kind, R, base);
    }

    /** The first step of the split case: `res` takes the last segment as
        its name. */
    method BeginSplit(self: NodeId, res: NodeId, segs: seq<string>, base: NodeId, k: nat)
      requires Valid() && self in nodes && res in nodes && base in nodes && res != base
      requires nodes[res].parent.None? && nodes[res].subs == map[]
      requires k < |segs| && Walk(nodes, self, segs[..k]) == Some(base) && segs[k] !in nodes[base].subs
      modifies this
      ensures nodes == old(nodes)[res := old(nodes)[res].(name := segs[|segs| - 1])]
      ensures InsertedUpTo(nodes, self, segs, k, nodes[base].kind, k, base, res, nodes[res])
      ensures Framed(nodes, nodes, res, base, segs[k], k, k, base)
    {
      SplitStart(nodes, anc, self, segs, base, k, res, segs[|segs| - 1]);
      Rename(res, segs[|segs| - 1]);
      GrownStart(nodes, self, segs, k, base);
      FramedStart(nodes, res, base, segs[k], k);
    }

    /** The last step of the split case: `res`, named by the last segment,
        is filed below the node the other segments lead to. */
    method AttachLast(self: NodeId, segs: seq<string>, cur: NodeId, res: NodeId,
                      ghost N0: map<NodeId, Node>, ghost k: nat, ghost i: nat, ghost K: Kind, ghost R: Node,
                      ghost base: NodeId)
      requires |segs| >= 1 && IsSegment(segs[|segs| - 1]) && i == |segs| - 1
      requires InsertedUpTo(N0, self, segs, k, K, i, cur, res, R)
      requires R.parent.None? && R.subs == map[] && R.name == segs[|segs| - 1]
      requires k <= i && Framed(N0, nodes, res, base, segs[k], k, i, cur)
      modifies this
      ensures Valid() && WalkedTo(nodes, N0.Keys, self, segs, res)
      ensures Grown(N0, nodes, self, segs, k, i, K)
      ensures SplitFrame(N0, nodes, res, base, segs[k])
    {
      ghost var N1, A1 := nodes, anc;
      LastGrown(N0, nodes, anc, self, segs, k, i, K, cur, res, R);
      AttachLeaf(cur, res);
      LinkFrame(N1, nodes, cur, res, {cur} + A1[cur]);
      FramedLast(N0, N1, nodes, res, base, segs[k], k, i, cur);
    }

    /** The rest of `add`, once the resource `res` has lost the leading "/"
        characters of its name: the name is resolved below `self`; when it
        resolves all the way `res` takes the place of the node found,
        otherwise the missing segments are created and `res` is filed below
        the last of them. `N0` is the tree before the renaming. */
    method Place(self: NodeId, res: NodeId, ghost N0: map<NodeId, Node>)
      requires Valid() && ResourceForest.Valid(N0, anc) && self in N0 && Addable(N0, self, res)
      requires nodes == N0[res := N0[res].(name := StripSlashes(N0[res].name))]
      modifies this
      ensures Valid() && WalkedTo(nodes, N0.Keys, self, Split(StripSlashes(N0[res].name), '/'), res)
      ensures GetResource(nodes, anc, self, Some(StripSlashes(N0[res].name)), false) == Some(res)
      ensures AddOutcome(N0, nodes, self, res, Split(StripSlashes(N0[res].name), '/'))
    {
      var name := nodes[res].name;
      var segs := Split(name, '/');
      AddPlan(nodes, anc, self, res, name);
      var base := GetResource(nodes, anc, self, Some(name), true).value;
      var k := Locate(nodes, self, segs).1;
      LocateRenamed(N0, res, name, self, segs);
      if k == |segs| {
        PlaceReplace(self, res, segs, base, N0, name);
      } else {
        PlaceSplit(self, res, segs, base, k, N0, name);
      }
      WalkedToResolves(nodes, anc, N0.Keys, self, segs, res);
      AddOutcomeSame(N0, nodes, self, res, segs, Split(StripSlashes(N0[res].name), '/'));
    }

    /** The replace case of `Place`. */
    method PlaceReplace(self: NodeId, res: NodeId, segs: seq<string>, base: NodeId,
                        ghost N0: map<NodeId, Node>, ghost name: string)
      requires Valid() && Shape(N0, anc) && self in N0 && res in N0 && |segs| >= 1
      requires nodes == N0[res := N0[res].(name := name)]
      requires Replaceable(nodes, base, res) && Walk(nodes, self, segs) == Some(base)
      requires Locate(N0, self, segs) == (base, |segs|)
      modifies this
      ensures Valid() && WalkedTo(nodes, N0.Keys, self, segs, res) && AddOutcome(N0, nodes, self, res, segs)
    {
      ReplacedRenamed(N0, anc, base, res, name);
      ReplaceStep(nodes, anc, base, res, self, segs);
      ReplaceWith(base, res);
      ReplaceOutcome(N0, nodes, self, res, segs, base);
    }

    /** The split case of `Place`. */
    method PlaceSplit(self: NodeId, res: NodeId, segs: seq<string>, base: NodeId, k: nat,
                      ghost N0: map<NodeId, Node>, ghost name: string)
      requires Valid() && ChildrenAgree(N0) && self in N0 && res in N0 && base in N0 && res != base
      requires nodes == N0[res := N0[res].(name := name)]
      requires N0[res].parent.None? && N0[res].subs == map[]
      requires forall i | 0 <= i < |segs| :: IsSegment(segs[i])
      requires k < |segs| && Walk(nodes, self, segs[..k]) == Some(base) && segs[k] !in nodes[base].subs
      requires Locate(N0, self, segs) == (base, k)
      modifies this
      ensures Valid() && WalkedTo(nodes, N0.Keys, self, segs, res) && AddOutcome(N0, nodes, self, res, segs)
    {
      ghost var N1 := nodes;
      SplitCompound(self, res, segs, base, k);
      SplitOutcome(N0, N1, nodes, self, res, name, segs, base, k);
    }

    /** `add(resource)`: None is refused; otherwise the leading "/" characters
        are stripped from the resource's name and the rest of the name is
        resolved below `self`. When it resolves all the way the resource takes
        the place of the node found; otherwise the missing segments are
        created as hidden resources and the resource is filed below the last
        one. Either way the name then resolves to the resource. */
    method Add(self: NodeId, resource: Option<NodeId>) returns (outcome: Result<(), AddError>)
      requires Valid() && self in nodes
      requires resource.Some? ==> Addable(nodes, self, resource.value)
      modifies this
      ensures Valid()
      ensures resource.None? ==> outcome == Err(NullPointer) && nodes == old(nodes) && anc == old(anc)
      ensures resource.Some? ==>
        && outcome == Ok(()) && old(nodes).Keys <= nodes.Keys
        && GetResource(nodes, anc, self, Some(StripSlashes(old(nodes)[resource.value].name)), false) == resource
        && forall x | x in nodes && x !in old(nodes) :: nodes[x].hidden
      ensures resource.Some? ==>
        AddOutcome(old(nodes), nodes, self, resource.value, Split(StripSlashes(old(nodes)[resource.value].name), '/'))
    {
      if resource.None? {
        return Err(NullPointer);
      }
      var res := resource.value;
      var name := nodes[res].name;
      while |name| > 0 && name[0] == '/'
        invariant StripSlashes(name) == StripSlashes(old(nodes)[res].name)
      {
        name := name[1..];
      }
      Rename(res, name);
      Place(self, res, old(nodes));
      outcome := Ok(());
    }

    /** `subResources().remove(name)`, applied to the map of the parent of
        `r` rather than that of `self`, and `resource.parent = None`: `r`
        leaves its parent's child map and has no parent any more. */
    method UnlinkNode(r: NodeId)
      requires r in nodes && r in anc && nodes[r].parent.Some? && nodes[r].parent.value in nodes
      modifies this
      ensures nodes == Unlink(old(nodes), r) && anc == UnlinkAncestry(old(anc), r)
      ensures next == old(next)
    {
      var q := nodes[r].parent.value;
      var parent := nodes[q];
      nodes := nodes[q := parent.(subs := parent.subs - {nodes[r].name})];
      nodes := nodes[r := nodes[r].(parent := None)];
      anc := UnlinkAncestry(anc, r);
    }

    /** The `while p != None` loop of `removeSubResource`, after `r` has been
        unlinked from its parent `q`: the counts of `q` and of every node
        above it fall by `size`, the size of the subtree of `r`. */
    method LowerCounts(ghost N0: map<NodeId, Node>, ghost A0: map<NodeId, set<NodeId>>, r: NodeId, q: NodeId, size: int)
      requires r in N0 && N0[r].parent.Some? && N0[r].parent.value in N0 && r in A0
      requires nodes == Unlink(N0, r) && q in nodes && Ancestry(nodes, anc)
      requires {q} + anc[q] == A0[r] && size == 1 + N0[r].total
      modifies this
      ensures nodes == Bump(Unlink(N0, r), A0[r], -(1 + N0[r].total))
      ensures anc == old(anc) && next == old(next)
    {
      AdjustCounts(q, -size, A0[r]);
    }

    /** Unlinks `r` from its parent and lowers the count of the parent and of
        every node above it by the size of the subtree of `r`. */
    method Detach(r: NodeId)
      requires Valid() && r in nodes && nodes[r].parent.Some?
      modifies this
      ensures Valid() && next == old(next)
      ensures Detached(old(nodes), old(anc), r, nodes, anc)
    {
      ghost var N0, A0 := nodes, anc;
      var q := nodes[r].parent.value;
      var size := 1 + nodes[r].total;
      UnlinkNode(r);
      DetachStart(N0, A0, r, nodes, anc);
      LowerCounts(N0, A0, r, q, size);
      DetachDone(N0, A0, r, nodes, anc);
    }

    /** `removeSubResource(resource)` on `self`, corrected: a resource that
        lies below `self`, directly or not, is detached from its own parent,
        keeping its own subtree, and the count of every former ancestor falls
        by the size of that subtree. None, and any resource not below `self`,
        leave the tree alone. */
    method RemoveSubResource(self: NodeId, resource: Option<NodeId>)
      requires Valid() && self in nodes && (resource.Some? ==> resource.value in nodes)
      modifies this
      ensures Valid() && next == old(next)
      ensures resource.None? || self !in old(anc)[resource.value] ==>
        nodes == old(nodes) && anc == old(anc)
      ensures resource.Some? && self in old(anc)[resource.value] ==>
        Detached(old(nodes), old(anc), resource.value, nodes, anc)
    {
      if resource.Some? {
        var below := IsBelow(self, resource.value);
        if below {
          Detach(resource.value);
        }
      }
    }

    /** Whether `r` lies below `self`: the parent pointers are followed up
        from `r` until `self` or a root is met. */
    method IsBelow(self: NodeId, r: NodeId) returns (below: bool)
      requires Valid() && self in nodes && r in nodes
      ensures below <==> self in anc[r]
      ensures below ==> nodes[r].parent.Some?
    {
      var cur := nodes[r].parent;
      while cur.Some? && cur.value != self
        invariant cur.Some? ==> cur.value in nodes && nodes[r].parent.Some?
        invariant self in anc[r] <==> cur.Some? && (cur.value == self || self in anc[cur.value])
        decreases if cur.Some? then 1 + |anc[cur.value]| else 0
      {
        var c := cur.value;
        cur := nodes[c].parent;
        if cur.Some? {
          assert anc[c] == {cur.value} + anc[cur.value] && cur.value !in anc[cur.value];
        }
      }
      below := cur.Some?;
    }

    /** `remove()`: `self.parent.removeSubResource(self)` when there is a
        parent; a root is left alone. */
    method Remove(self: NodeId)
      requires Valid() && self in nodes
      modifies this
      ensures Valid() && next == old(next)
      ensures old(nodes)[self].parent.None? ==> nodes == old(nodes) && anc == old(anc)
      ensures old(nodes)[self].parent.Some? ==> Detached(old(nodes), old(anc), self, nodes, anc)
    {
      if nodes[self].parent.Some? {
        var p := nodes[self].parent.value;
        assert p in anc[self];
        RemoveSubResource(p, Some(self));
      }
    }

    /** `removeSubResource(path)`: the resource the path resolves to from
        `self` (`getResource(path)`) is removed from `self`; a path that
        resolves to nothing changes nothing. */
    method RemoveSubResourcePath(self: NodeId, path: string) returns (ghost target: Option<NodeId>)
      requires Valid() && self in nodes
      modifies this
      ensures Valid() && next == old(next)
      ensures target == GetResource(old(nodes), old(anc), self, Some(path), false)
      ensures target.None? || self !in old(anc)[target.value] ==>
        nodes == old(nodes) && anc == old(anc)
      ensures target.Some? && self in old(anc)[target.value] ==>
        Detached(old(nodes), old(anc), target.value, nodes, anc)
    {
      var found := GetResource(nodes, anc, self, Some(path), false);
      target := found;
      RemoveSubResource(self, found);
    }

    /** `isHidden(change)`: the hidden flag of `self` becomes `change`;
        nothing else changes. */
    method SetHidden(self: NodeId, change: bool)
      requires Valid() && self in nodes
      modifies this
      ensures Valid() && anc == old(anc) && next == old(next)
      ensures nodes == old(nodes)[self := old(nodes)[self].(hidden := change)]
    {
      RelabelValid(nodes, anc, self, nodes[self].(hidden := change));
      nodes := nodes[self := nodes[self].(hidden := change)];
    }

    /** Replaces the attributes of `self`; the tree is untouched. */
    method SetAttributes(self: NodeId, attrs: seq<LinkAttribute>)
      requires Valid() && self in nodes
      modifies this
      ensures Valid() && anc == old(anc) && next == old(next)
      ensures nodes == old(nodes)[self := old(nodes)[self].(attributes := attrs)]
    {
      RelabelValid(nodes, anc, self, nodes[self].(attributes := attrs));
      nodes := nodes[self := nodes[self].(attributes := attrs)];
    }

    /** `setAttribute(attrib)`: `attrib` joins the attributes of `self`; the
        result says whether it was not there yet. */
    method SetAttribute(self: NodeId, attrib: LinkAttribute) returns (added: bool)
      requires Valid() && self in nodes
      modifies this
      ensures Valid() && anc == old(anc) && next == old(next)
      ensures added <==> attrib !in old(nodes)[self].attributes
      ensures nodes == old(nodes)[self := old(nodes)[self].(attributes := nodes[self].attributes)]
      ensures forall a :: a in nodes[self].attributes <==> a in old(nodes)[self].attributes || a == attrib
    {
      var r := LinkAttributes.AddAttribute(nodes[self].attributes, attrib);
      SetAttributes(self, r.0);
      added := r.1;
    }

    /** `clearAttribute(name)`: every attribute of `self` called `name` is
        removed and those of other names are kept; the result says whether
        there was one. */
    method ClearAttribute(self: NodeId, name: string) returns (cleared: bool)
      requires Valid() && self in nodes
      modifies this
      ensures Valid() && anc == old(anc) && next == old(next)
      ensures cleared <==> exists a | a in old(nodes)[self].attributes :: a.name == name
      ensures nodes == old(nodes)[self := old(nodes)[self].(attributes := nodes[self].attributes)]
      ensures nodes[self].attributes == LinkAttributes.Without(old(nodes)[self].attributes, name)
    {
      var rest;
      rest, cleared := LinkAttributes.ClearNamed(nodes[self].attributes, name);
      SetAttributes(self, rest);
    }

    /** `setTitle(title)`: `self` ends up with exactly one title, `title`,
        and keeps its other attributes. */
    method SetTitle(self: NodeId, title: string)
      requires Valid() && self in nodes
      modifies this
      ensures Valid() && anc == old(anc) && next == old(next)
      ensures nodes == old(nodes)[self := old(nodes)[self].(attributes := nodes[self].attributes)]
      ensures LinkAttributes.GetTitle(nodes[self].attributes) == Some(title)
      ensures LinkAttributes.Named(nodes[self].attributes, LinkAttributes.TITLE)
        == [LinkAttribute(LinkAttributes.TITLE, StringValue(title))]
      ensures LinkAttributes.Without(nodes[self].attributes, LinkAttributes.TITLE)
        == LinkAttributes.Without(old(nodes)[self].attributes, LinkAttributes.TITLE)
    {
      var attrs := LinkAttributes.SetTitle(nodes[self].attributes, title);
      SetAttributes(self, attrs);
    }

    /** `isObservable(observable)`: `self` is observable afterwards exactly
        when `observable` holds, and keeps its other attributes. */
    method SetObservable(self: NodeId, observable: bool)
      requires Valid() && self in nodes
      modifies this
      ensures Valid() && anc == old(anc) && next == old(next)
      ensures nodes == old(nodes)[self := old(nodes)[self].(attributes := nodes[self].attributes)]
      ensures LinkAttributes.IsObservable(nodes[self].attributes) == observable
      ensures LinkAttributes.Without(nodes[self].attributes, LinkAttributes.OBSERVABLE)
        == LinkAttributes.Without(old(nodes)[self].attributes, LinkAttributes.OBSERVABLE)
    {
      var attrs := LinkAttributes.SetObservable(nodes[self].attributes, observable);
      SetAttributes(self, attrs);
    }
  }
}
