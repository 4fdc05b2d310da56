/** The value-level view of pycolo's resource tree (pycolo/endpoint/Resource.py).
    Every Resource object lives in one arena, a map from identifiers to nodes;
    a node holds the fields the Resource class keeps (name, parent, the child
    map keyed by name, the hidden flag, the running descendant count, the link
    attributes) and whether it is a LocalResource or a RemoteResource. The
    ghost map `A` gives every node the set of its ancestors; it is what makes
    walks up the parent pointers terminate and lets the descendant count be
    stated. */
module ResourceForest {
  import opened Wrappers
  import opened Text

  type NodeId = nat

  /** LocalResource (server side) or RemoteResource (discovered on a peer). */
  datatype Kind = Local | Remote

  /** The value of a CoRE Link Format attribute (section 3 of RFC 6690);
      "obs" (RFC 7641) carries none. */
  datatype AttributeValue = NoValue | StringValue(s: string) | IntValue(i: int)

  datatype LinkAttribute = LinkAttribute(name: string, value: AttributeValue)

  datatype Node = Node(
    name: string,
    parent: Option<NodeId>,
    subs: map<string, NodeId>,
    hidden: bool,
    total: int,
    attributes: seq<LinkAttribute>,
    kind: Kind)

  /** A name that may stand below a parent: one non-empty path segment. */
  predicate IsSegment(s: string)
  {
    s != "" && '/' !in s
  }

  /** Child maps only name nodes of the arena. */
  ghost predicate Closed(N: map<NodeId, Node>)
  {
    forall n, k | n in N && k in N[n].subs :: N[n].subs[k] in N
  }

  /** Child maps and parent pointers agree: a child is filed under its own
      name in its parent's map, and everything in a child map points back. */
  ghost predicate ChildrenAgree(N: map<NodeId, Node>)
  {
    && Closed(N)
    && (forall n, k | n in N && k in N[n].subs ::
          N[N[n].subs[k]].parent == Some(n) && N[N[n].subs[k]].name == k)
    && (forall c {:trigger N[c].parent} | c in N && N[c].parent.Some? ::
          N[c].parent.value in N && N[c].name in N[N[c].parent.value].subs
          && N[N[c].parent.value].subs[N[c].name] == c)
  }

  /** `A[c]` is the set of strict ancestors of `c`: empty for a node without a
      parent, the parent and its ancestors otherwise, and never `c` itself. */
  ghost predicate Ancestry(N: map<NodeId, Node>, A: map<NodeId, set<NodeId>>)
  {
    && A.Keys == N.Keys
    && (forall c {:trigger A[c]} | c in N :: A[c] <= N.Keys && c !in A[c])
    && (forall c {:trigger N[c].parent} | c in N && N[c].parent.None? :: A[c] == {})
    && (forall c {:trigger N[c].parent} | c in N && N[c].parent.Some? ::
          N[c].parent.value in N && A[c] == {N[c].parent.value} + A[N[c].parent.value])
  }

  /** Every node below a parent has a one-segment name. */
  ghost predicate Segmented(N: map<NodeId, Node>)
  {
    forall c {:trigger N[c].name} | c in N && N[c].parent.Some? :: IsSegment(N[c].name)
  }

  ghost predicate Shape(N: map<NodeId, Node>, A: map<NodeId, set<NodeId>>)
  {
    Ancestry(N, A) && ChildrenAgree(N) && Segmented(N)
  }

  /** The nodes below `n`. */
  ghost function Desc(A: map<NodeId, set<NodeId>>, n: NodeId): set<NodeId>
  {
    set x | x in A && n in A[x]
  }

  /** `totalSubResourceCount` of every node is the number of nodes below it. */
  ghost predicate Counted(N: map<NodeId, Node>, A: map<NodeId, set<NodeId>>)
  {
    forall n {:trigger CountOk(N, A, n)} | n in N :: CountOk(N, A, n)
  }

  ghost predicate CountOk(N: map<NodeId, Node>, A: map<NodeId, set<NodeId>>, n: NodeId)
    requires n in N
  {
    N[n].total == |Desc(A, n)|
  }

  ghost predicate Valid(N: map<NodeId, Node>, A: map<NodeId, set<NodeId>>)
  {
    Shape(N, A) && Counted(N, A)
  }

  /** Ancestor sets are closed upwards and totally ordered: the ancestors of a
      node form one chain. */
  lemma {:induction false} AncestorsChain(N: map<NodeId, Node>, A: map<NodeId, set<NodeId>>, c: NodeId)
    requires Ancestry(N, A) && c in N
    ensures forall a | a in A[c] :: A[a] <= A[c]
    ensures forall a, b | a in A[c] && b in A[c] :: a == b || a in A[b] || b in A[a]
    decreases |A[c]|
  {
    if N[c].parent.Some? {
      var p := N[c].parent.value;
      assert |A[c]| == |A[p]| + 1;
      AncestorsChain(N, A, p);
    }
  }

  /** Whatever lies at or below a child of `n` lies below `n`. */
  lemma BelowChild(N: map<NodeId, Node>, A: map<NodeId, set<NodeId>>, n: NodeId, c: NodeId, r: Option<NodeId>, when: bool)
    requires Ancestry(N, A) && n in N && c in N && N[c].parent == Some(n)
    requires when && r.Some? ==> r.value in N && (r.value == c || c in A[r.value])
    ensures when && r.Some? ==> n in A[r.value]
  {
    if when && r.Some? && r.value != c {
      AncestorsChain(N, A, r.value);
    }
  }

  /** The root above `n` (`getResource` climbs parents for an absolute path). */
  function Root(N: map<NodeId, Node>, ghost A: map<NodeId, set<NodeId>>, n: NodeId): (r: NodeId)
    requires Ancestry(N, A) && n in N
    ensures r in N && N[r].parent.None? && (r == n || r in A[n])
    decreases |A[n]|
  {
    match N[n].parent
    case None => n
    case Some(p) =>
      assert |A[n]| == |A[p]| + 1;
      Root(N, A, p)
  }

  /** The names from the root down to `x`. */
  function Chain(N: map<NodeId, Node>, ghost A: map<NodeId, set<NodeId>>, x: NodeId): (r: seq<string>)
    requires Shape(N, A) && x in N
    ensures |r| == |A[x]| + 1 && r[|r| - 1] == N[x].name
    ensures r[0] == N[Root(N, A, x)].name
    ensures forall i | 1 <= i < |r| :: IsSegment(r[i])
    decreases |A[x]|
  {
    match N[x].parent
    case None => [N[x].name]
    case Some(p) =>
      assert |A[x]| == |A[p]| + 1;
      Chain(N, A, p) + [N[x].name]
  }

  /** `getPath()`: a root renders as its name followed by "/", any other node
      as the names from the root down to it joined by "/". */
  function PathOf(N: map<NodeId, Node>, ghost A: map<NodeId, set<NodeId>>, x: NodeId): string
    requires Shape(N, A) && x in N
  {
    if N[x].parent.None? then N[x].name + "/" else Interleave(Chain(N, A, x), '/')
  }

  /** `compareTo`: resources are ordered by their paths. */
  function CompareTo(N: map<NodeId, Node>, ghost A: map<NodeId, set<NodeId>>, a: NodeId, b: NodeId): (r: int)
    requires Shape(N, A) && a in N && b in N
    ensures r == 0 <==> PathOf(N, A, a) == PathOf(N, A, b)
    ensures r == -Compare(PathOf(N, A, b), PathOf(N, A, a))
  {
    CompareZero(PathOf(N, A, a), PathOf(N, A, b));
    CompareAntisymmetric(PathOf(N, A, a), PathOf(N, A, b));
    Compare(PathOf(N, A, a), PathOf(N, A, b))
  }

  /** A path that does not start with "/" and has no doubled "/". */
  predicate Relative(s: string)
  {
    forall i | 0 <= i < |s| :: s[i] == '/' ==> i > 0 && s[i - 1] != '/'
  }

  /** The part of a path before its first "/" and, when there is one, the
      part after it. */
  function SplitFirst(s: string): (r: (string, Option<string>))
    ensures '/' !in r.0
    ensures r.1.None? ==> r.0 == s
    ensures r.1.Some? ==> s == r.0 + "/" + r.1.value
    ensures r.1.Some? && Relative(s) ==> Relative(r.1.value)
  {
    match IndexOf(s, '/')
    case None => (s, None)
    case Some(pos) =>
      var t := s[pos + 1..];
      assert s == s[..pos] + "/" + t;
      assert Relative(s) ==> Relative(t) by {
        if Relative(s) {
          forall j | 0 <= j < |t| && t[j] == '/'
            ensures j > 0 && t[j - 1] != '/'
          {
            assert s[pos + 1 + j] == '/';
          }
        }
      }
      (s[..pos], Some(t))
  }

  /** Follows child links by exact names; None as soon as one is missing. */
  function Walk(N: map<NodeId, Node>, n: NodeId, segs: seq<string>): (r: Option<NodeId>)
    requires Closed(N) && n in N
    ensures r.Some? ==> r.value in N
    decreases |segs|
  {
    if segs == [] then Some(n)
    else if segs[0] in N[n].subs then Walk(N, N[n].subs[segs[0]], segs[1..])
    else None
  }

  /** The deepest node reachable along `segs` and how many segments that took. */
  function Locate(N: map<NodeId, Node>, n: NodeId, segs: seq<string>): (r: (NodeId, nat))
    requires Closed(N) && n in N
    ensures r.0 in N && r.1 <= |segs|
    ensures Walk(N, n, segs[..r.1]) == Some(r.0)
    ensures r.1 < |segs| ==> segs[r.1] !in N[r.0].subs
    decreases |segs|
  {
    if segs == [] then (n, 0)
    else if segs[0] in N[n].subs then
      var r := Locate(N, N[n].subs[segs[0]], segs[1..]);
      assert segs[..r.1 + 1][1..] == segs[1..][..r.1];
      (r.0, r.1 + 1)
    else (n, 0)
  }

  /** `getResource(path, last)`: no path names the node itself; a path that
      starts with "/" is resolved from the root ("/" alone is the root);
      otherwise the part before the first "/" names a child, in which the rest
      is resolved; a missing child gives the node reached so far when `last`
      is set and None otherwise. The result is always in the same tree, and a
      relative path never leads above the start (a doubled "/" inside a path
      restarts the resolution at the root). */
  function GetResource(N: map<NodeId, Node>, ghost A: map<NodeId, set<NodeId>>,
                       n: NodeId, path: Option<string>, last: bool): (r: Option<NodeId>)
    requires Shape(N, A) && n in N
    ensures path.None? ==> r == Some(n)
    ensures last ==> r.Some?
    ensures r.Some? ==> r.value in N && Root(N, A, r.value) == Root(N, A, n)
    ensures r.Some? && path.Some? && Relative(path.value) ==> r.value == n || n in A[r.value]
    decreases if path.Some? then |path.value| + 1 else 0
  {
    if path.None? then Some(n)
    else if |path.value| > 0 && path.value[0] == '/' then
      var root := Root(N, A, n);
      var rest := if path.value == "/" then None else Some(path.value[1..]);
      GetResource(N, A, root, rest, last)
    else
      var (head, tail) := SplitFirst(path.value);
      if head in N[n].subs then
        var c := N[n].subs[head];
        var r := GetResource(N, A, c, tail, last);
        BelowChild(N, A, n, c, r, Relative(path.value));
        r
      else if last then Some(n)
      else None
  }
  lemma {:induction false} WalkSnoc(N: map<NodeId, Node>, n: NodeId, segs: seq<string>, k: string)
    requires Closed(N) && n in N
    ensures Walk(N, n, segs + [k]) ==
      match Walk(N, n, segs)
      case None => None
      case Some(m) => if k in N[m].subs then Some(N[m].subs[k]) else None
    decreases |segs|
  {
    if segs == [] {
      assert segs + [k] == [k] && [k][1..] == [];
    } else {
      assert (segs + [k])[1..] == segs[1..] + [k];
      if segs[0] in N[n].subs {
        WalkSnoc(N, N[n].subs[segs[0]], segs[1..], k);
      }
    }
  }

  /** A relative path of segments resolves like following the child links:
      to the node at its end, or, on a miss, to None or (with `last`) to the
      deepest node reached. */
  lemma {:induction false} GetResourceSegments(N: map<NodeId, Node>, A: map<NodeId, set<NodeId>>,
                                               n: NodeId, segs: seq<string>, last: bool)
    requires Shape(N, A) && n in N
    requires |segs| >= 1 && forall i | 0 <= i < |segs| :: IsSegment(segs[i])
    ensures GetResource(N, A, n, Some(Interleave(segs, '/')), last) ==
      if last then Some(Locate(N, n, segs).0) else Walk(N, n, segs)
    decreases |segs|
  {
    var s := Interleave(segs, '/');
    if |segs| == 1 {
      assert s == segs[0];
      assert SplitFirst(s) == (segs[0], None);
    } else {
      InterleaveCons(segs, '/');
      IndexOfAfter(segs[0], Interleave(segs[1..], '/'), '/');
      assert SplitFirst(s) == (segs[0], Some(Interleave(segs[1..], '/')));
      if segs[0] in N[n].subs {
        GetResourceSegments(N, A, N[n].subs[segs[0]], segs[1..], last);
      }
    }
    assert s[0] == segs[0][0];
  }

  /** Following the names below the root leads back to the node. */
  lemma {:induction false} WalkChain(N: map<NodeId, Node>, A: map<NodeId, set<NodeId>>, x: NodeId)
    requires Shape(N, A) && x in N
    ensures Walk(N, Root(N, A, x), Chain(N, A, x)[1..]) == Some(x)
    decreases |A[x]|
  {
    match N[x].parent
    case None =>
    case Some(p) =>
      assert |A[x]| == |A[p]| + 1;
      WalkChain(N, A, p);
      assert Chain(N, A, x)[1..] == Chain(N, A, p)[1..] + [N[x].name];
      WalkSnoc(N, Root(N, A, p), Chain(N, A, p)[1..], N[x].name);
  }

  /** Below an unnamed root, a path is "/" followed by the names under the
      root joined by "/". */
  lemma AbsolutePath(N: map<NodeId, Node>, A: map<NodeId, set<NodeId>>, x: NodeId)
    requires Shape(N, A) && x in N && N[x].parent.Some? && N[Root(N, A, x)].name == ""
    ensures var p := PathOf(N, A, x); var below := Chain(N, A, x)[1..];
      && |below| >= 1 && |p| > 1 && p[0] == '/' && p[1..] == Interleave(below, '/')
  {
    var c := Chain(N, A, x);
    assert |c| >= 2 && c[0] == "";
    var rest := Interleave(c[1..], '/');
    InterleaveCons(c, '/');
    var p := PathOf(N, A, x);
    assert p == Interleave(c, '/');
    assert Interleave(c, '/') == [] + ['/'] + rest;
    assert |c[1..][0]| > 0;
  }

  /** Resolving the path of a node from anywhere in its tree finds the node
      again, when the root is unnamed (a server's root is ""). */
  lemma PathRoundTrip(N: map<NodeId, Node>, A: map<NodeId, set<NodeId>>, x: NodeId, y: NodeId)
    requires Shape(N, A) && x in N && y in N
    requires Root(N, A, y) == Root(N, A, x) && N[Root(N, A, x)].name == ""
    ensures GetResource(N, A, y, Some(PathOf(N, A, x)), false) == Some(x)
  {
    var R := Root(N, A, x);
    if N[x].parent.Some? {
      var below := Chain(N, A, x)[1..];
      var p := PathOf(N, A, x);
      AbsolutePath(N, A, x);
      assert GetResource(N, A, y, Some(p), false) == GetResource(N, A, R, Some(p[1..]), false);
      GetResourceSegments(N, A, R, below, false);
      WalkChain(N, A, x);
    }
  }
}
