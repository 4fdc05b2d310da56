/** The paths `Resource.getPath` renders (pycolo/endpoint/Resource.py), the
    order `compareTo` puts resources in, and the sorted set `getSubResources`
    builds with it. */
module TreeOrder {
  import opened Wrappers
  import opened Text
  import opened ResourceForest

  /** The names from the root down to a node are those down to its parent,
      then its own. */
  lemma ChainStep(N: map<NodeId, Node>, A: map<NodeId, set<NodeId>>, b: NodeId, tail: seq<string>)
    requires Shape(N, A) && b in N
    ensures N[b].parent.None? ==> Chain(N, A, b) + tail == [N[b].name] + tail
    ensures N[b].parent.Some? ==>
      N[b].parent.value in N && Chain(N, A, b) + tail == Chain(N, A, N[b].parent.value) + ([N[b].name] + tail)
  {
  }

  /** `getPath()`: the names from the node up to the root are put in front of
      one another, separated by "/"; a node without a parent renders as its
      name followed by "/". */
  method GetPath(N: map<NodeId, Node>, ghost A: map<NodeId, set<NodeId>>, x: NodeId) returns (path: string)
    requires Shape(N, A) && x in N
    ensures path == PathOf(N, A, x)
  {
    path := N[x].name;
    var base := N[x].parent;
    if base.Some? {
      ghost var tail := [N[x].name];
      ChainStep(N, A, x, []);
      while base.Some?
        invariant |tail| >= 1 && path == Interleave(tail, '/')
        invariant base.Some? ==> base.value in N && Chain(N, A, x) == Chain(N, A, base.value) + tail
        invariant base.None? ==> Chain(N, A, x) == tail
        decreases if base.Some? then |A[base.value]| + 1 else 0
      {
        var b := base.value;
        ChainStep(N, A, b, tail);
        InterleaveFront(N[b].name, tail, '/');
        path := N[b].name + "/" + path;
        tail := [N[b].name] + tail;
        base := N[b].parent;
        assert base.Some? ==> |A[b]| == |A[base.value]| + 1;
      }
    } else {
      path := path + "/";
    }
  }

  /** The path of a node with a parent is the path of the parent, a "/" and
      the node's name. */
  lemma ChildPath(N: map<NodeId, Node>, A: map<NodeId, set<NodeId>>, n: NodeId, c: NodeId)
    requires Shape(N, A) && n in N && c in N && N[c].parent == Some(n)
    ensures PathOf(N, A, c) == Interleave(Chain(N, A, n), '/') + "/" + N[c].name
  {
    assert Chain(N, A, c) == Chain(N, A, n) + [N[c].name];
    InterleaveSnoc(Chain(N, A, n), N[c].name, '/');
  }

  /** Two children of one node compare as their names do: `getSubResources`
      lists the children in the order of their names, and no two of them
      share a path. */
  lemma SiblingOrder(N: map<NodeId, Node>, A: map<NodeId, set<NodeId>>, n: NodeId, a: NodeId, b: NodeId)
    requires Shape(N, A) && n in N && a in N && b in N && N[a].parent == Some(n) && N[b].parent == Some(n)
    ensures CompareTo(N, A, a, b) == Compare(N[a].name, N[b].name)
    ensures PathOf(N, A, a) == PathOf(N, A, b) <==> a == b
  {
    var X := Interleave(Chain(N, A, n), '/') + "/";
    ChildPath(N, A, n, a);
    ChildPath(N, A, n, b);
    CompareCommonPrefix(X, N[a].name, N[b].name);
    CompareZero(N[a].name, N[b].name);
  }

  /** The paths of the nodes of `s`, in order. */
  function PathsOf(N: map<NodeId, Node>, ghost A: map<NodeId, set<NodeId>>, s: seq<NodeId>): (r: seq<string>)
    requires Shape(N, A) && forall i | 0 <= i < |s| :: s[i] in N
    ensures |r| == |s| && forall i | 0 <= i < |s| :: r[i] == PathOf(N, A, s[i])
  {
    if s == [] then [] else [PathOf(N, A, s[0])] + PathsOf(N, A, s[1..])
  }

  /** The elements of `s` are nodes, in strictly increasing order of their
      paths (the iteration order of a `TreeSet` of resources). */
  ghost predicate SortedByPath(N: map<NodeId, Node>, A: map<NodeId, set<NodeId>>, s: seq<NodeId>)
    requires Shape(N, A)
  {
    (forall i | 0 <= i < |s| :: s[i] in N) && Ascending(PathsOf(N, A, s))
  }

  /** A sequence sorted by path holds no node twice. */
  lemma SortedDistinct(N: map<NodeId, Node>, A: map<NodeId, set<NodeId>>, s: seq<NodeId>)
    requires Shape(N, A) && SortedByPath(N, A, s)
    ensures forall i, j | 0 <= i < j < |s| :: s[i] != s[j]
  {
    var P := PathsOf(N, A, s);
    forall i, j | 0 <= i < j < |s|
      ensures s[i] != s[j]
    {
      CompareZero(P[i], P[j]);
    }
  }

  /** The paths of the entries of a set of resources kept with their paths. */
  function Firsts(s: seq<(string, NodeId)>): (r: seq<string>)
    ensures |r| == |s| && forall i | 0 <= i < |s| :: r[i] == s[i].0
  {
    seq(|s|, i requires 0 <= i < |s| => s[i].0)
  }

  /** The resources of such a set, in order. */
  function Seconds(s: seq<(string, NodeId)>): (r: seq<NodeId>)
    ensures |r| == |s| && forall i | 0 <= i < |s| :: r[i] == s[i].1
  {
    seq(|s|, i requires 0 <= i < |s| => s[i].1)
  }

  /** `TreeSet.add(e)` on a set of resources ordered by `compareTo`, each kept
      with its path: when an element with the same path is present the set is
      left as it is; otherwise `e` is inserted where its path belongs. */
  method InsertByPath(s: seq<(string, NodeId)>, e: (string, NodeId)) returns (t: seq<(string, NodeId)>)
    requires Ascending(Firsts(s))
    ensures Ascending(Firsts(t))
    ensures e.0 in Firsts(s) ==> t == s
    ensures e.0 !in Firsts(s) ==> |t| == |s| + 1 && forall y :: y in t <==> y in s || y == e
  {
    ghost var P := Firsts(s);
    var i := 0;
    while i < |s| && Compare(s[i].0, e.0) < 0
      invariant 0 <= i <= |s|
      invariant forall j | 0 <= j < i :: Compare(P[j], e.0) < 0
    {
      i := i + 1;
    }
    AscendingPlace(P, e.0, i);
    if i < |s| && Compare(s[i].0, e.0) == 0 {
      t := s;
    } else {
      t := s[..i] + [e] + s[i..];
      FirstsInsert(s, e, i);
    }
  }

  /** Inserting an entry inserts its path, and adds it and nothing else. */
  lemma FirstsInsert(s: seq<(string, NodeId)>, e: (string, NodeId), i: nat)
    requires i <= |s|
    ensures var t := s[..i] + [e] + s[i..];
      && Firsts(t) == Firsts(s)[..i] + [e.0] + Firsts(s)[i..]
      && |t| == |s| + 1 && forall y :: y in t <==> y in s || y == e
  {
    InsertMembers(s, e, i);
    var t := s[..i] + [e] + s[i..];
    var Q := Firsts(s)[..i] + [e.0] + Firsts(s)[i..];
    assert |Firsts(t)| == |Q|;
    forall j | 0 <= j < |t|
      ensures Firsts(t)[j] == Q[j]
    {
      if j < i {
        assert t[j] == s[j];
      } else if j > i {
        assert t[j] == s[j - 1];
      }
    }
  }

  lemma InsertMembers<T>(s: seq<T>, e: T, i: nat)
    requires i <= |s|
    ensures forall y :: y in s[..i] + [e] + s[i..] <==> y in s || y == e
  {
    assert s == s[..i] + s[i..];
  }

  /** A resource kept with its path. */
  function Entry(N: map<NodeId, Node>, ghost A: map<NodeId, set<NodeId>>, c: NodeId): (e: (string, NodeId))
    requires Shape(N, A) && c in N
    ensures e.1 == c
  {
    (PathOf(N, A, c), c)
  }

  /** Part way through `getSubResources`: the children filed under the names
      in `done` have been added, each with its path, and nothing else. */
  ghost predicate Listed(N: map<NodeId, Node>, A: map<NodeId, set<NodeId>>, n: NodeId,
                         entries: seq<(string, NodeId)>, done: set<string>)
    requires Shape(N, A) && n in N
  {
    && done <= N[n].subs.Keys
    && Ascending(Firsts(entries))
    && (forall e | e in entries ::
          e.1 in N && N[e.1].parent == Some(n) && N[e.1].name in done && e == Entry(N, A, e.1))
    && (forall k | k in done :: Entry(N, A, N[n].subs[k]) in entries)
  }

  /** No child filed under a name not yet done has its path listed. */
  lemma ListedFresh(N: map<NodeId, Node>, A: map<NodeId, set<NodeId>>, n: NodeId,
                    entries: seq<(string, NodeId)>, done: set<string>, k: string)
    requires Shape(N, A) && n in N && Listed(N, A, n, entries, done) && k in N[n].subs && k !in done
    ensures Entry(N, A, N[n].subs[k]).0 !in Firsts(entries)
  {
    var c := N[n].subs[k];
    forall i | 0 <= i < |entries|
      ensures entries[i].0 != PathOf(N, A, c)
    {
      assert entries[i] in entries;
      SiblingOrder(N, A, n, entries[i].1, c);
    }
  }

  /** Adding the child filed under one more name. */
  lemma ListedStep(N: map<NodeId, Node>, A: map<NodeId, set<NodeId>>, n: NodeId,
                   entries: seq<(string, NodeId)>, done: set<string>, k: string, t: seq<(string, NodeId)>)
    requires Shape(N, A) && n in N && Listed(N, A, n, entries, done) && k in N[n].subs && k !in done
    requires Ascending(Firsts(t)) && forall y :: y in t <==> y in entries || y == Entry(N, A, N[n].subs[k])
    ensures Listed(N, A, n, t, done + {k})
  {
    var c := N[n].subs[k];
    forall e | e in t
      ensures e.1 in N && N[e.1].parent == Some(n) && N[e.1].name in done + {k} && e == Entry(N, A, e.1)
    {
      if e !in entries {
        assert e == Entry(N, A, c);
      }
    }
    forall j | j in done + {k}
      ensures Entry(N, A, N[n].subs[j]) in t
    {
      if j != k {
        assert Entry(N, A, N[n].subs[j]) in entries;
      }
    }
  }

  /** At the end of `getSubResources`: the resources listed are exactly the
      children, in increasing order of their paths. */
  lemma ListedAll(N: map<NodeId, Node>, A: map<NodeId, set<NodeId>>, n: NodeId, entries: seq<(string, NodeId)>)
    requires Shape(N, A) && n in N && Listed(N, A, n, entries, N[n].subs.Keys)
    ensures var s := Seconds(entries);
      && SortedByPath(N, A, s)
      && forall x :: x in s <==> x in N[n].subs.Values
  {
    var s := Seconds(entries);
    forall i | 0 <= i < |s|
      ensures s[i] in N && PathOf(N, A, s[i]) == Firsts(entries)[i]
    {
      assert entries[i] in entries;
    }
    assert PathsOf(N, A, s) == Firsts(entries);
    forall x
      ensures x in s <==> x in N[n].subs.Values
    {
      if x in s {
        var i :| 0 <= i < |s| && s[i] == x;
        assert entries[i] in entries;
        assert N[n].subs[N[x].name] == x;
      }
      if x in N[n].subs.Values {
        var k :| k in N[n].subs && N[n].subs[k] == x;
        var e := Entry(N, A, x);
        assert e in entries;
        var i :| 0 <= i < |entries| && entries[i] == e;
        assert s[i] == x;
      }
    }
  }

  /** `getSubResources()`: the children of `n` as a sorted set, ordered by
      `compareTo`. */
  method GetSubResources(N: map<NodeId, Node>, ghost A: map<NodeId, set<NodeId>>, n: NodeId)
    returns (subs: seq<NodeId>)
    requires Shape(N, A) && n in N
    ensures SortedByPath(N, A, subs)
    ensures forall x :: x in subs <==> x in N[n].subs.Values
  {
    var entries: seq<(string, NodeId)> := [];
    var keys := N[n].subs.Keys;
    while keys != {}
      invariant keys <= N[n].subs.Keys
      invariant Listed(N, A, n, entries, N[n].subs.Keys - keys)
      decreases |keys|
    {
      var k :| k in keys;
      ListedFresh(N, A, n, entries, N[n].subs.Keys - keys, k);
      var t := InsertByPath(entries, Entry(N, A, N[n].subs[k]));
      ListedStep(N, A, n, entries, N[n].subs.Keys - keys, k, t);
      entries := t;
      keys := keys - {k};
    }
    ListedAll(N, A, n, entries);
    subs := Seconds(entries);
  }
}
