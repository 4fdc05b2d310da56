/** Two places where `Resource` (pycolo/endpoint/Resource.py) leaves the
    tree inconsistent as written: the replace case of `add` and
    `removeSubResource`. Each is modelled here as written, next to an input
    that shows the inconsistency; the rest of the model uses the corrected
    operations (`TreeUpdates.Replaced`, `TreeUpdates.Detached`). */
module ResourceFindings {
  import opened Wrappers
  import opened ResourceForest
  import opened TreeUpdates

  /** The replace case of `add` as written: the children of `b` point at `r`
      and are filed in `r`'s map, `r` takes `b`'s parent and is filed in the
      parent's map under `b`'s name, and the counts of the parent and of
      every node above it rise by one. `b` keeps its parent pointer and its
      child map, and `r` keeps its own name and a count of 0. */
  ghost function ReplaceAsWritten(N: map<NodeId, Node>, A: map<NodeId, set<NodeId>>, b: NodeId, r: NodeId)
    : (M: map<NodeId, Node>)
    requires b in N && r in N && N[b].parent.Some? && N[b].parent.value in N && N[b].parent.value in A
    ensures M.Keys == N.Keys
    ensures N[b].name in M[N[b].parent.value].subs && M[N[b].parent.value].subs[N[b].name] == r
  {
    var q := N[b].parent.value;
    var M1 := Reparented(N, b, r);
    var M2 := M1[r := M1[r].(subs := N[r].subs + N[b].subs, parent := N[b].parent)];
    var M3 := M2[q := M2[q].(subs := M2[q].subs[N[b].name := r])];
    Bump(M3, {q} + A[q], 1)
  }

  /** A root `0` with one child `1` named "a", and a new resource `2` also
      named "a". */
  function ReplaceInput(): (N: map<NodeId, Node>)
    ensures N.Keys == {0, 1, 2}
  {
    map[0 := Node("", None, map["a" := 1], false, 1, [], Local),
        1 := Node("a", Some(0), map[], false, 0, [], Local),
        2 := Node("a", None, map[], false, 0, [], Local)]
  }

  function ReplaceAncestors(): map<NodeId, set<NodeId>>
  {
    map[0 := {}, 1 := {0}, 2 := {}]
  }

  /** The input is a valid tree in which `2` may replace `1`. */
  lemma ReplaceInputValid()
    ensures Valid(ReplaceInput(), ReplaceAncestors()) && Replaceable(ReplaceInput(), 1, 2)
  {
    var N, A := ReplaceInput(), ReplaceAncestors();
    ReplaceInputShape();
    assert Desc(A, 0) == {1};
    assert Desc(A, 1) == {} && Desc(A, 2) == {};
    assert CountOk(N, A, 0) && CountOk(N, A, 1) && CountOk(N, A, 2);
  }

  lemma ReplaceInputShape()
    ensures Shape(ReplaceInput(), ReplaceAncestors())
  {
    ReplaceInputLinks();
    assert Ancestry(ReplaceInput(), ReplaceAncestors());
  }

  lemma ReplaceInputLinks()
    ensures ChildrenAgree(ReplaceInput()) && Segmented(ReplaceInput())
  {
    var N := ReplaceInput();
    assert Closed(N);
  }

  /** Adding `2` to `0` replaces `1`. As written, `1` still names `0` as its
      parent although `0` files `2` under "a", so parent pointers and child
      maps disagree, and the count of `0` rises to 2 although `0` has a single
      child and that child is a leaf. */
  lemma ReplaceAsWrittenBreaksTree()
    ensures var M := ReplaceAsWritten(ReplaceInput(), ReplaceAncestors(), 1, 2);
      && M[1].parent == Some(0) && M[0].subs == map["a" := 2] && !ChildrenAgree(M)
      && M[2].subs == map[] && M[0].total == 2
  {
    var N, A := ReplaceInput(), ReplaceAncestors();
    var M := ReplaceAsWritten(N, A, 1, 2);
    assert M[0] == N[0].(subs := map["a" := 2], total := 2);
    assert M[1] == N[1];
    assert M[2].subs == map[];
    assert M[0].subs["a"] == 2;
  }

  /** On the same input the corrected replace leaves a valid tree in which
      `0` counts one resource. */
  lemma ReplaceCorrectedKeepsTree()
    ensures var M := Replaced(ReplaceInput(), 1, 2);
      && Valid(M, ReplaceAncestry(ReplaceAncestors(), 1, 2)) && M[0].total == 1
  {
    ReplaceInputValid();
    ReplaceValid(ReplaceInput(), ReplaceAncestors(), 1, 2);
  }

  /** A root `0`, its child `1` named "x" and its child `2` named "a", and a
      new resource `3` named "x/a", as `add` receives it from the root. */
  function RenameInput(): (N: map<NodeId, Node>)
    ensures N.Keys == {0, 1, 2, 3}
  {
    map[0 := Node("", None, map["x" := 1], false, 2, [], Local),
        1 := Node("x", Some(0), map["a" := 2], false, 1, [], Local),
        2 := Node("a", Some(1), map[], false, 0, [], Local),
        3 := Node("x/a", None, map[], false, 0, [], Local)]
  }

  function RenameAncestors(): map<NodeId, set<NodeId>>
  {
    map[0 := {}, 1 := {0}, 2 := {0, 1}, 3 := {}]
  }

  /** Adding "x/a" where "x/a" exists, as written: `1` files `3` under "a",
      but `3` keeps the name "x/a", so a child map and the name of the child
      it files disagree. */
  lemma ReplaceAsWrittenKeepsName()
    ensures var M := ReplaceAsWritten(RenameInput(), RenameAncestors(), 2, 3);
      && M[1].subs["a"] == 3 && M[3].name == "x/a" && !ChildrenAgree(M)
  {
    var N := RenameInput();
    var M := ReplaceAsWritten(N, RenameAncestors(), 2, 3);
    assert M[3].name == N[3].name;
    assert M[M[1].subs["a"]].name != "a";
  }

  /** On the same input the corrected replace gives `3` the name "a" it is
      filed under, below `1`, and parent pointers and child maps agree. */
  lemma ReplaceCorrectedTakesName()
    ensures var M := Replaced(RenameInput(), 2, 3);
      && M[1].subs["a"] == 3 && M[3].name == "a" && M[3].parent == Some(1) && ChildrenAgree(M)
  {
    var N := RenameInput();
    var M := Replaced(N, 2, 3);
    assert M[2] == N[2].(parent := None) && M[3] == Node("a", Some(1), map[], false, 0, [], Local);
    assert M[0] == N[0] && M[1] == N[1].(subs := map["a" := 3]);
    assert M == RenamedByReplace();
    RenamedByReplaceLinks();
  }

  /** The tree after the corrected replace of `2` by `3`. */
  function RenamedByReplace(): map<NodeId, Node>
  {
    map[0 := Node("", None, map["x" := 1], false, 2, [], Local),
        1 := Node("x", Some(0), map["a" := 3], false, 1, [], Local),
        2 := Node("a", None, map[], false, 0, [], Local),
        3 := Node("a", Some(1), map[], false, 0, [], Local)]
  }

  lemma RenamedByReplaceLinks()
    ensures ChildrenAgree(RenamedByReplace())
  {
    assert Closed(RenamedByReplace());
  }

  /** `removeSubResource(resource)` called on `self`, as written: the name
      of `resource` leaves the child map of `self`, the counts of `self` and
      of every node above it fall by one, and `resource` loses its parent.
      (The loop variable is read before it is set; it is taken to start at
      `self`.) */
  ghost function RemoveSubResourceAsWritten(N: map<NodeId, Node>, A: map<NodeId, set<NodeId>>, self: NodeId, c: NodeId)
    : (M: map<NodeId, Node>)
    requires self in N && self in A && c in N
    ensures M.Keys == N.Keys
    ensures M[c].parent.None?
    ensures N[c].name !in M[self].subs
  {
    var M1 := N[self := N[self].(subs := N[self].subs - {N[c].name})];
    var M2 := Bump(M1, {self} + A[self], -1);
    M2[c := M2[c].(parent := None)]
  }

  /** A chain `0`, `1` named "a", `2` named "b". */
  function RemoveInput(): (N: map<NodeId, Node>)
    ensures N.Keys == {0, 1, 2}
  {
    map[0 := Node("", None, map["a" := 1], false, 2, [], Local),
        1 := Node("a", Some(0), map["b" := 2], false, 1, [], Local),
        2 := Node("b", Some(1), map[], false, 0, [], Local)]
  }

  function RemoveAncestors(): map<NodeId, set<NodeId>>
  {
    map[0 := {}, 1 := {0}, 2 := {0, 1}]
  }

  /** The chain is a valid tree. */
  lemma RemoveInputValid()
    ensures Valid(RemoveInput(), RemoveAncestors())
  {
    var N, A := RemoveInput(), RemoveAncestors();
    RemoveInputShape();
    assert Desc(A, 0) == {1, 2};
    assert Desc(A, 1) == {2} && Desc(A, 2) == {};
    assert CountOk(N, A, 0) && CountOk(N, A, 1) && CountOk(N, A, 2);
  }

  lemma RemoveInputShape()
    ensures Shape(RemoveInput(), RemoveAncestors())
  {
    RemoveInputLinks();
    assert Ancestry(RemoveInput(), RemoveAncestors());
  }

  lemma RemoveInputLinks()
    ensures ChildrenAgree(RemoveInput()) && Segmented(RemoveInput())
  {
    var N := RemoveInput();
    assert Closed(N);
  }

  /** Removing `1` from `0` as written leaves `0` without children but
      still counting one resource below it, so no ancestry makes the result
      a valid tree. */
  lemma RemoveSubResourceAsWrittenMiscounts()
    ensures var M := RemoveSubResourceAsWritten(RemoveInput(), RemoveAncestors(), 0, 1);
      && M[0].subs == map[] && M[0].total == 1
      && forall A1 | Shape(M, A1) :: !Valid(M, A1)
  {
    var N, A := RemoveInput(), RemoveAncestors();
    var M := RemoveSubResourceAsWritten(N, A, 0, 1);
    assert M[0] == N[0].(subs := map[], total := 1);
    forall A1 | Shape(M, A1)
      ensures !Valid(M, A1)
    {
      LeafHasNoDescendants(M, A1, 0);
      assert !CountOk(M, A1, 0);
    }
  }

  /** On the same input the corrected removal lowers the count of `0` by
      the size of the subtree of `1`, to 0, and leaves a valid tree. */
  lemma RemoveCorrectedKeepsCount()
    ensures var N, A := RemoveInput(), RemoveAncestors();
      && var C := Bump(Unlink(N, 1), A[1], -(1 + N[1].total));
      && Valid(C, UnlinkAncestry(A, 1)) && C[0].subs == map[] && C[0].total == 0
  {
    var N, A := RemoveInput(), RemoveAncestors();
    RemoveInputValid();
    DetachValid(N, A, 1);
    var C := Bump(Unlink(N, 1), A[1], -(1 + N[1].total));
    assert C[0] == N[0].(subs := map[], total := 0);
  }

  /** Removing `2` (the resource "a/b" resolves to) from the root `0`, as
      `removeSubResource("a/b")` does, as written: the name "b" is looked up
      in the root's own map, where it is not, so `1` still files `2` under
      "b" although `2` no longer names a parent. */
  lemma RemoveSubResourceAsWrittenWrongMap()
    ensures var M := RemoveSubResourceAsWritten(RemoveInput(), RemoveAncestors(), 0, 2);
      && M[0].subs == map["a" := 1] && M[1].subs == map["b" := 2] && M[2].parent.None?
      && !ChildrenAgree(M)
  {
    var N, A := RemoveInput(), RemoveAncestors();
    var M := RemoveSubResourceAsWritten(N, A, 0, 2);
    assert M[0] == N[0].(total := 1);
    assert M[1] == N[1];
    assert M[1].subs["b"] == 2 && M[2].parent != Some(1);
  }

  /** On the same input the corrected removal takes `2` out of the map of
      its own parent `1`, lowers the counts of `1` and `0` by one, and leaves
      parent pointers and child maps in agreement. */
  lemma RemoveCorrectedIndirect()
    ensures var N, A := RemoveInput(), RemoveAncestors();
      && var C := Bump(Unlink(N, 2), A[2], -(1 + N[2].total));
      && ChildrenAgree(C) && C[1].subs == map[] && C[0].subs == map["a" := 1] && C[2].parent.None?
      && C[1].total == 0 && C[0].total == 1
  {
    RemoveIndirectNodes();
    var C := Bump(Unlink(RemoveInput(), 2), RemoveAncestors()[2], -1);
    assert C == RemovedIndirect();
    RemovedIndirectLinks();
  }

  /** The chain after the corrected removal of `2`. */
  function RemovedIndirect(): map<NodeId, Node>
  {
    map[0 := Node("", None, map["a" := 1], false, 1, [], Local),
        1 := Node("a", Some(0), map[], false, 0, [], Local),
        2 := Node("b", None, map[], false, 0, [], Local)]
  }

  lemma RemovedIndirectLinks()
    ensures ChildrenAgree(RemovedIndirect())
  {
    assert Closed(RemovedIndirect());
  }

  lemma RemoveIndirectNodes()
    ensures var N := RemoveInput();
      var C := Bump(Unlink(N, 2), RemoveAncestors()[2], -(1 + N[2].total));
      C.Keys == {0, 1, 2} && C[2] == N[2].(parent := None)
      && C[1] == N[1].(subs := map[], total := 0) && C[0] == N[0].(total := 1)
  {
    var N := RemoveInput();
    var U := Unlink(N, 2);
    assert U[1] == N[1].(subs := map[]) && U[0] == N[0] && U[2] == N[2].(parent := None);
    BumpAtNode(U, {0, 1}, -1, 1);
    BumpAtNode(U, {0, 1}, -1, 0);
    BumpAtNode(U, {0, 1}, -1, 2);
  }
}
