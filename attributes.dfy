/** The CoRE Link Format attributes a `Resource` keeps (pycolo/endpoint/Resource.py):
    the attribute set as a sequence without repetitions, and the lookups and
    updates the resource performs on it. The attribute names are those of
    section 3 of RFC 6690 ("title", "rt", "if", "sz", "ct") and of RFC 7641
    ("obs"). */
module LinkAttributes {
  import opened Wrappers
  import opened ResourceForest

  const TITLE: string := "title"
  const RESOURCE_TYPE: string := "rt"
  const INTERFACE_DESCRIPTION: string := "if"
  const MAX_SIZE_ESTIMATE: string := "sz"
  const CONTENT_TYPE: string := "ct"
  const OBSERVABLE: string := "obs"

  /** The attributes called `name`, in order. */
  function Named(attrs: seq<LinkAttribute>, name: string): (r: seq<LinkAttribute>)
    ensures |r| <= |attrs|
  {
    if attrs == [] then []
    else (if attrs[0].name == name then [attrs[0]] else []) + Named(attrs[1..], name)
  }

  /** The attributes not called `name`, in order. */
  function Without(attrs: seq<LinkAttribute>, name: string): (r: seq<LinkAttribute>)
    ensures |r| <= |attrs|
  {
    if attrs == [] then []
    else (if attrs[0].name != name then [attrs[0]] else []) + Without(attrs[1..], name)
  }

  /** The attributes that are none of `gone`, in order. */
  function Drop(attrs: seq<LinkAttribute>, gone: seq<LinkAttribute>): (r: seq<LinkAttribute>)
    ensures |r| <= |attrs|
  {
    if attrs == [] then []
    else (if attrs[0] !in gone then [attrs[0]] else []) + Drop(attrs[1..], gone)
  }

  /** `Named` keeps exactly the attributes called `name`. */
  lemma {:induction false} NamedMembers(attrs: seq<LinkAttribute>, name: string)
    ensures forall a :: a in Named(attrs, name) <==> a in attrs && a.name == name
  {
    if attrs != [] {
      NamedMembers(attrs[1..], name);
      assert attrs == [attrs[0]] + attrs[1..];
    }
  }

  /** `Without` keeps exactly the attributes of other names. */
  lemma {:induction false} WithoutMembers(attrs: seq<LinkAttribute>, name: string)
    ensures forall a :: a in Without(attrs, name) <==> a in attrs && a.name != name
  {
    if attrs != [] {
      WithoutMembers(attrs[1..], name);
      assert attrs == [attrs[0]] + attrs[1..];
    }
  }

  /** `Drop` keeps exactly the attributes not in `gone`. */
  lemma {:induction false} DropMembers(attrs: seq<LinkAttribute>, gone: seq<LinkAttribute>)
    ensures forall a :: a in Drop(attrs, gone) <==> a in attrs && a !in gone
  {
    if attrs != [] {
      DropMembers(attrs[1..], gone);
      assert attrs == [attrs[0]] + attrs[1..];
    }
  }

  /** Collecting one attribute more. */
  lemma {:induction false} NamedSnoc(attrs: seq<LinkAttribute>, a: LinkAttribute, name: string)
    ensures Named(attrs + [a], name) == Named(attrs, name) + (if a.name == name then [a] else [])
  {
    var E := if a.name == name then [a] else [];
    if attrs == [] {
      assert [a][1..] == [];
      assert Named([a], name) == E + [];
    } else {
      var h, t := attrs[0], attrs[1..];
      var H := if h.name == name then [h] else [];
      assert (attrs + [a])[0] == h && (attrs + [a])[1..] == t + [a];
      NamedSnoc(t, a, name);
      assert Named(attrs + [a], name) == H + (Named(t, name) + E);
      assert Named(attrs, name) == H + Named(t, name);
      assert H + (Named(t, name) + E) == (H + Named(t, name)) + E;
    }
  }

  /** `getAttributes(name)`: the loop that collects the attributes called
      `name`. */
  method GetAttributes(attrs: seq<LinkAttribute>, name: string) returns (ret: seq<LinkAttribute>)
    ensures ret == Named(attrs, name)
  {
    ret := [];
    for i := 0 to |attrs|
      invariant ret == Named(attrs[..i], name)
    {
      NamedSnoc(attrs[..i], attrs[i], name);
      assert attrs[..i + 1] == attrs[..i] + [attrs[i]];
      if attrs[i].name == name {
        ret := ret + [attrs[i]];
      }
    }
    assert attrs[..|attrs|] == attrs;
  }

  /** Removing the attributes one by one, in the order collected, removes
      those called `name`. */
  lemma {:induction false} DropNamed(attrs: seq<LinkAttribute>, gone: seq<LinkAttribute>, name: string)
    requires forall a | a in attrs :: a in gone <==> a.name == name
    ensures Drop(attrs, gone) == Without(attrs, name)
  {
    if attrs != [] {
      assert attrs[0] in attrs;
      forall a | a in attrs[1..]
        ensures a in gone <==> a.name == name
      {
        assert a in attrs;
      }
      DropNamed(attrs[1..], gone, name);
    }
  }

  /** Dropping one more attribute. */
  lemma {:induction false} DropOneMore(attrs: seq<LinkAttribute>, gone: seq<LinkAttribute>, a: LinkAttribute)
    ensures Drop(Drop(attrs, gone), [a]) == Drop(attrs, gone + [a])
  {
    if attrs != [] {
      var h, T := attrs[0], Drop(attrs[1..], gone);
      DropOneMore(attrs[1..], gone, a);
      assert h in gone + [a] <==> h in gone || h == a;
      assert h in [a] <==> h == a;
      if h !in gone {
        var X := [h] + T;
        assert Drop(attrs, gone) == X;
        assert X[0] == h && X[1..] == T;
        assert Drop(X, [a]) == (if h != a then [h] else []) + Drop(T, [a]);
      } else {
        assert Drop(attrs, gone) == T;
      }
    }
  }

  /** Dropping the first `i + 1` collected attributes is dropping the first
      `i`, then one more. */
  lemma DropPrefix(attrs: seq<LinkAttribute>, gone: seq<LinkAttribute>, i: nat)
    requires i < |gone|
    ensures Drop(Drop(attrs, gone[..i]), [gone[i]]) == Drop(attrs, gone[..i + 1])
  {
    DropOneMore(attrs, gone[..i], gone[i]);
    assert gone[..i + 1] == gone[..i] + [gone[i]];
  }

  lemma {:induction false} DropNothing(attrs: seq<LinkAttribute>)
    ensures Drop(attrs, []) == attrs
  {
    if attrs != [] {
      DropNothing(attrs[1..]);
      assert attrs == [attrs[0]] + attrs[1..];
    }
  }

  /** `attributes.remove(a)` on the attribute set: the set without `a`, and
      whether it held `a`. */
  function Remove(attrs: seq<LinkAttribute>, a: LinkAttribute): (r: (seq<LinkAttribute>, bool))
    ensures r.1 <==> a in attrs
    ensures forall x :: x in r.0 <==> x in attrs && x != a
  {
    DropMembers(attrs, [a]);
    (Drop(attrs, [a]), a in attrs)
  }

  /** `clearAttribute(name)` on the attribute set: the attributes called
      `name` are collected first, then removed one by one; the result says
      whether any was removed. */
  method ClearNamed(attrs: seq<LinkAttribute>, name: string) returns (rest: seq<LinkAttribute>, cleared: bool)
    ensures rest == Without(attrs, name)
    ensures cleared <==> exists a | a in attrs :: a.name == name
  {
    var toRemove := GetAttributes(attrs, name);
    NamedMembers(attrs, name);
    rest, cleared := attrs, false;
    DropNothing(attrs);
    assert toRemove[..0] == [];
    for i := 0 to |toRemove|
      invariant rest == Drop(attrs, toRemove[..i])
      invariant cleared <==> i > 0
    {
      DropPrefix(attrs, toRemove, i);
      var step := Remove(rest, toRemove[i]);
      rest := step.0;
      cleared := cleared || step.1;
    }
    assert toRemove[..|toRemove|] == toRemove;
    DropNamed(attrs, toRemove, name);
    NamedNonEmpty(attrs, name);
  }

  /** Some attribute is collected exactly when one has the name. */
  lemma NamedNonEmpty(attrs: seq<LinkAttribute>, name: string)
    ensures Named(attrs, name) != [] <==> exists a | a in attrs :: a.name == name
  {
    NamedMembers(attrs, name);
    if Named(attrs, name) != [] {
      assert Named(attrs, name)[0] in Named(attrs, name);
    }
  }

  /** `setAttribute(a)`: the attribute set with `a` added, and whether it was
      not there yet. */
  function AddAttribute(attrs: seq<LinkAttribute>, a: LinkAttribute): (r: (seq<LinkAttribute>, bool))
    ensures r.1 <==> a !in attrs
    ensures forall x :: x in r.0 <==> x in attrs || x == a
  {
    if a in attrs then (attrs, false) else (attrs + [a], true)
  }

  /** The string a value reads as, None for a value that is not a string. */
  function StringOf(v: AttributeValue): (r: Option<string>)
    ensures r.Some? <==> v.StringValue?
  {
    if v.StringValue? then Some(v.s) else None
  }

  /** `getTitle()`: the value of the first title, None when there is none. */
  function GetTitle(attrs: seq<LinkAttribute>): (r: Option<string>)
    ensures r.Some? ==> LinkAttribute(TITLE, StringValue(r.value)) in attrs
    ensures (forall a | a in attrs :: a.name != TITLE) ==> r.None?
  {
    NamedMembers(attrs, TITLE);
    var titles := Named(attrs, TITLE);
    if titles == [] then None
    else
      assert titles[0] in titles;
      StringOf(titles[0].value)
  }

  /** `setTitle(title)`: every title is cleared and the new one added; the
      other attributes are kept. */
  method SetTitle(attrs: seq<LinkAttribute>, title: string) returns (r: seq<LinkAttribute>)
    ensures Named(r, TITLE) == [LinkAttribute(TITLE, StringValue(title))]
    ensures GetTitle(r) == Some(title)
    ensures Without(r, TITLE) == Without(attrs, TITLE)
  {
    var cleared;
    r, cleared := ClearNamed(attrs, TITLE);
    var t := LinkAttribute(TITLE, StringValue(title));
    WithoutIsFree(attrs, TITLE);
    WithoutMembers(attrs, TITLE);
    r := AddAttribute(r, t).0;
    NamedAfterClear(Without(attrs, TITLE), t);
  }

  lemma {:induction false} WithoutIsFree(attrs: seq<LinkAttribute>, name: string)
    ensures Named(Without(attrs, name), name) == []
    ensures Without(Without(attrs, name), name) == Without(attrs, name)
  {
    if attrs != [] {
      var h, T := attrs[0], Without(attrs[1..], name);
      WithoutIsFree(attrs[1..], name);
      if h.name != name {
        var X := [h] + T;
        assert Without(attrs, name) == X;
        assert X[0] == h && X[1..] == T;
        assert Named(X, name) == Named(T, name);
        assert Without(X, name) == [h] + Without(T, name);
      } else {
        assert Without(attrs, name) == T;
      }
    }
  }

  /** Adding `t` to attributes none of which shares its name. */
  lemma {:induction false} NamedAfterClear(attrs: seq<LinkAttribute>, t: LinkAttribute)
    requires forall a | a in attrs :: a.name != t.name
    ensures Named(attrs + [t], t.name) == [t]
    ensures Without(attrs + [t], t.name) == attrs
  {
    if attrs != [] {
      assert (attrs + [t])[1..] == attrs[1..] + [t];
      NamedAfterClear(attrs[1..], t);
    }
  }

  /** `isObservable()`: whether an "obs" attribute is present. */
  function IsObservable(attrs: seq<LinkAttribute>): (r: bool)
    ensures r <==> exists a | a in attrs :: a.name == OBSERVABLE
  {
    NamedMembers(attrs, OBSERVABLE);
    var obs := Named(attrs, OBSERVABLE);
    assert obs != [] ==> obs[0] in obs;
    |obs| > 0
  }

  /** `isObservable(observable)`: adds the flag, or clears every "obs"
      attribute; the attributes of other names are kept. */
  method SetObservable(attrs: seq<LinkAttribute>, observable: bool) returns (r: seq<LinkAttribute>)
    ensures IsObservable(r) == observable
    ensures Without(r, OBSERVABLE) == Without(attrs, OBSERVABLE)
  {
    if observable {
      var flag := LinkAttribute(OBSERVABLE, NoValue);
      r := AddAttribute(attrs, flag).0;
      WithoutKeepsOthers(attrs, flag);
    } else {
      var cleared;
      r, cleared := ClearNamed(attrs, OBSERVABLE);
      WithoutIsFree(attrs, OBSERVABLE);
    }
  }

  /** Adding an attribute called `a.name` keeps those of every other name. */
  lemma {:induction false} WithoutKeepsOthers(attrs: seq<LinkAttribute>, a: LinkAttribute)
    ensures Without(AddAttribute(attrs, a).0, a.name) == Without(attrs, a.name)
  {
    if a !in attrs {
      WithoutAppendSame(attrs, a);
    }
  }

  lemma {:induction false} WithoutAppendSame(attrs: seq<LinkAttribute>, a: LinkAttribute)
    ensures Without(attrs + [a], a.name) == Without(attrs, a.name)
  {
    if attrs != [] {
      assert (attrs + [a])[1..] == attrs[1..] + [a];
      WithoutAppendSame(attrs[1..], a);
    }
  }

  /** `getMaximumSizeEstimate()`: the value of the first "sz" attribute, -1
      when there is none (or when it is not a number). */
  function GetMaximumSizeEstimate(attrs: seq<LinkAttribute>): (r: int)
    ensures (forall a | a in attrs :: a.name != MAX_SIZE_ESTIMATE) ==> r == -1
    ensures r != -1 ==> LinkAttribute(MAX_SIZE_ESTIMATE, IntValue(r)) in attrs
    ensures forall v: int :: Named(attrs, MAX_SIZE_ESTIMATE) == [LinkAttribute(MAX_SIZE_ESTIMATE, IntValue(v))] ==> r == v
  {
    NamedMembers(attrs, MAX_SIZE_ESTIMATE);
    var sz := Named(attrs, MAX_SIZE_ESTIMATE);
    if sz == [] then -1
    else
      assert sz[0] in sz;
      if sz[0].value.IntValue? then sz[0].value.i else -1
  }

  /** `setMaximumSizeEstimate(v)` on a resource without an estimate, then
      `getMaximumSizeEstimate()`, gives `v` back. */
  lemma SizeEstimateReadsBack(attrs: seq<LinkAttribute>, v: int)
    requires forall a | a in attrs :: a.name != MAX_SIZE_ESTIMATE
    ensures GetMaximumSizeEstimate(AddAttribute(attrs, LinkAttribute(MAX_SIZE_ESTIMATE, IntValue(v))).0) == v
  {
    var a := LinkAttribute(MAX_SIZE_ESTIMATE, IntValue(v));
    assert a !in attrs;
    NamedAfterClear(attrs, a);
  }
}
