/** String helpers the core relies on: `String.indexOf(char)`, `String.split`
    on a one-character delimiter, joining segments back, decimal rendering and
    `String.compareTo`. */
module Text {
  import opened Wrappers

  /** The index of the first `c` in `s` (`indexOf`), or None where it returns -1. */
  function IndexOf(s: string, c: char): (r: Option<nat>)
    ensures r.None? <==> c !in s
    ensures r.Some? ==> r.value < |s| && s[r.value] == c && c !in s[..r.value]
  {
    if |s| == 0 then None
    else if s[0] == c then Some(0)
    else match IndexOf(s[1..], c)
      case None => None
      case Some(i) =>
        assert s[..i + 1] == [s[0]] + s[1..][..i];
        Some(i + 1)
  }

  /** `s.split(d)`: the maximal `d`-free pieces of `s`, in order, empty ones
      included (Java also drops trailing empty pieces; every caller in this
      model discards empty pieces anyway). */
  function Split(s: string, d: char): (r: seq<string>)
    ensures |r| >= 1
    ensures forall i | 0 <= i < |r| :: d !in r[i]
    decreases |s|
  {
    match IndexOf(s, d)
    case None => [s]
    case Some(i) => [s[..i]] + Split(s[i + 1..], d)
  }

  /** Every segment preceded by `d`: the shape `Option.join` builds. */
  function Prefixed(segs: seq<string>, d: char): (r: string)
  {
    if segs == [] then "" else [d] + segs[0] + Prefixed(segs[1..], d)
  }

  /** Segments separated by `d`, without a leading delimiter: "a/b/c". */
  function Interleave(segs: seq<string>, d: char): (r: string)
    requires |segs| >= 1
  {
    segs[0] + Prefixed(segs[1..], d)
  }

  predicate NoDelimiter(segs: seq<string>, d: char)
  {
    forall i | 0 <= i < |segs| :: d !in segs[i]
  }

  /** Splitting a first piece followed by delimited pieces gives them back. */
  lemma {:induction false} SplitPrefixed(first: string, rest: seq<string>, d: char)
    requires d !in first && NoDelimiter(rest, d)
    ensures Split(first + Prefixed(rest, d), d) == [first] + rest
    decreases |rest|
  {
    var s := first + Prefixed(rest, d);
    if rest == [] {
      assert s == first;
    } else {
      var tailText := rest[0] + Prefixed(rest[1..], d);
      assert s == first + [d] + tailText;
      assert s[..|first|] == first;
      assert s[|first|] == d;
      assert IndexOf(s, d) == Some(|first|);
      assert s[|first| + 1..] == tailText;
      SplitPrefixed(rest[0], rest[1..], d);
      assert [rest[0]] + rest[1..] == rest;
    }
  }

  /** `Split` inverts `Interleave` on delimiter-free segments. */
  lemma SplitInterleave(segs: seq<string>, d: char)
    requires |segs| >= 1 && NoDelimiter(segs, d)
    ensures Split(Interleave(segs, d), d) == segs
  {
    SplitPrefixed(segs[0], segs[1..], d);
    assert [segs[0]] + segs[1..] == segs;
  }

  /** A delimited text splits into an empty leading piece and its segments. */
  lemma SplitOfPrefixed(segs: seq<string>, d: char)
    requires NoDelimiter(segs, d)
    ensures Split(Prefixed(segs, d), d) == [""] + segs
  {
    SplitPrefixed("", segs, d);
    assert "" + Prefixed(segs, d) == Prefixed(segs, d);
  }

  /** The non-empty pieces of `segs`, in order. */
  function NonEmpty(segs: seq<string>): (r: seq<string>)
    ensures forall i | 0 <= i < |r| :: r[i] != ""
    ensures |r| <= |segs|
  {
    if segs == [] then []
    else if segs[0] == "" then NonEmpty(segs[1..])
    else [segs[0]] + NonEmpty(segs[1..])
  }

  lemma {:induction false} NonEmptyKeepsNonEmpty(segs: seq<string>)
    requires forall i | 0 <= i < |segs| :: segs[i] != ""
    ensures NonEmpty(segs) == segs
  {
    if segs != [] {
      NonEmptyKeepsNonEmpty(segs[1..]);
      assert [segs[0]] + segs[1..] == segs;
    }
  }

  lemma {:induction false} NonEmptyNoDelimiter(segs: seq<string>, d: char)
    requires NoDelimiter(segs, d)
    ensures NoDelimiter(NonEmpty(segs), d)
  {
    if segs != [] {
      NonEmptyNoDelimiter(segs[1..], d);
    }
  }

  // ---------------------------------------------------------------- decimal

  function DigitChar(k: nat): (c: char)
    requires k < 10
    ensures '0' <= c <= '9'
  {
    ('0' as int + k) as char
  }

  predicate IsDigits(s: string)
  {
    forall i | 0 <= i < |s| :: '0' <= s[i] <= '9'
  }

  /** Decimal digits of `n`, most significant first, no leading zeros. */
  function NatToDecimal(n: nat): (s: string)
    ensures |s| >= 1 && IsDigits(s)
  {
    if n < 10 then [DigitChar(n)] else NatToDecimal(n / 10) + [DigitChar(n % 10)]
  }

  /** `"%d"` formatting of an integer. */
  function IntToDecimal(i: int): (s: string)
    ensures |s| >= 1 && ':' !in s
  {
    if i < 0 then "-" + NatToDecimal(-i) else NatToDecimal(i)
  }

  function ParseDigits(s: string): (n: nat)
    requires IsDigits(s)
  {
    if s == [] then 0
    else ParseDigits(s[..|s| - 1]) * 10 + (s[|s| - 1] as int - '0' as int)
  }

  /** The inverse of `IntToDecimal`. */
  function ParseInt(s: string): (i: int)
    requires |s| >= 1
    requires IsDigits(s) || (s[0] == '-' && IsDigits(s[1..]))
  {
    if s[0] == '-' then -(ParseDigits(s[1..]) as int) else ParseDigits(s)
  }

  lemma {:induction false} ParseNatToDecimal(n: nat)
    ensures ParseDigits(NatToDecimal(n)) == n
  {
    var s := NatToDecimal(n);
    if n >= 10 {
      ParseNatToDecimal(n / 10);
      assert s[..|s| - 1] == NatToDecimal(n / 10);
    }
  }

  /** Decimal rendering round-trips. */
  lemma ParseIntToDecimal(i: int)
    ensures var s := IntToDecimal(i); (IsDigits(s) || (s[0] == '-' && IsDigits(s[1..]))) && ParseInt(s) == i
  {
    if i < 0 {
      ParseNatToDecimal(-i);
      assert IntToDecimal(i)[1..] == NatToDecimal(-i);
    } else {
      ParseNatToDecimal(i);
    }
  }

  // ---------------------------------------------------------------- ordering

  /** `String.compareTo`: the difference of the first differing characters,
      or else of the lengths. */
  function Compare(s: string, t: string): (r: int)
  {
    if |s| == 0 || |t| == 0 then |s| - |t|
    else if s[0] != t[0] then s[0] as int - t[0] as int
    else Compare(s[1..], t[1..])
  }

  lemma {:induction false} CompareZero(s: string, t: string)
    ensures Compare(s, t) == 0 <==> s == t
  {
    if |s| != 0 && |t| != 0 && s[0] == t[0] {
      CompareZero(s[1..], t[1..]);
      if s[1..] == t[1..] {
        assert s == [s[0]] + s[1..] && t == [t[0]] + t[1..];
      }
    }
  }

  lemma {:induction false} CompareAntisymmetric(s: string, t: string)
    ensures Compare(s, t) == -Compare(t, s)
  {
    if |s| != 0 && |t| != 0 && s[0] == t[0] {
      CompareAntisymmetric(s[1..], t[1..]);
    }
  }

  lemma {:induction false} CompareTransitive(a: string, b: string, c: string)
    requires Compare(a, b) < 0 && Compare(b, c) < 0
    ensures Compare(a, c) < 0
  {
    if |a| != 0 && |b| != 0 && |c| != 0 && a[0] == b[0] && b[0] == c[0] {
      CompareTransitive(a[1..], b[1..], c[1..]);
    }
  }

  lemma {:induction false} PrefixedSnoc(segs: seq<string>, x: string, d: char)
    ensures Prefixed(segs + [x], d) == Prefixed(segs, d) + [d] + x
  {
    if segs == [] {
      assert segs + [x] == [x];
    } else {
      assert (segs + [x])[1..] == segs[1..] + [x];
      PrefixedSnoc(segs[1..], x, d);
    }
  }

  lemma {:induction false} NonEmptySnoc(segs: seq<string>, x: string)
    ensures NonEmpty(segs + [x]) == NonEmpty(segs) + (if x == "" then [] else [x])
  {
    if segs == [] {
      assert segs + [x] == [x];
    } else {
      assert (segs + [x])[1..] == segs[1..] + [x];
      NonEmptySnoc(segs[1..], x);
    }
  }
  /** The first delimiter after a delimiter-free prefix is found right after it. */
  lemma {:induction false} IndexOfAfter(a: string, b: string, c: char)
    requires c !in a
    ensures IndexOf(a + [c] + b, c) == Some(|a|)
    decreases |a|
  {
    if a == [] {
      assert (a + [c] + b)[0] == c;
    } else {
      assert (a + [c] + b)[1..] == a[1..] + [c] + b;
      IndexOfAfter(a[1..], b, c);
    }
  }

  /** Segments separated by `d`: the first one, a delimiter, then the others. */
  lemma InterleaveCons(segs: seq<string>, d: char)
    requires |segs| >= 2
    ensures Interleave(segs, d) == segs[0] + [d] + Interleave(segs[1..], d)
  {
    assert segs[1..][1..] == segs[2..];
  }

  /** A common prefix does not change the order of two strings. */
  lemma {:induction false} CompareCommonPrefix(p: string, s: string, t: string)
    ensures Compare(p + s, p + t) == Compare(s, t)
    decreases |p|
  {
    if p == [] {
      assert p + s == s && p + t == t;
    } else {
      assert (p + s)[1..] == p[1..] + s;
      assert (p + t)[1..] == p[1..] + t;
      CompareCommonPrefix(p[1..], s, t);
    }
  }

  /** Splitting at a first delimiter gives the piece before it, then the
      split of the rest. */
  lemma SplitStep(head: string, tail: string, d: char)
    requires d !in head
    ensures Split(head + [d] + tail, d) == [head] + Split(tail, d)
  {
    var s := head + [d] + tail;
    IndexOfAfter(head, tail, d);
    assert s[..|head|] == head && s[|head| + 1..] == tail;
  }

  /** Joining the pieces of a split with the same delimiter gives the text back. */
  lemma {:induction false} InterleaveSplit(s: string, d: char)
    ensures Interleave(Split(s, d), d) == s
    decreases |s|
  {
    if d in s {
      var i := IndexOf(s, d).value;
      var head, tail := s[..i], s[i + 1..];
      assert s == head + [d] + tail;
      SplitStep(head, tail, d);
      InterleaveSplit(tail, d);
      InterleaveFront(head, Split(tail, d), d);
    }
  }

  /** A first segment joined in front of the others. */
  lemma InterleaveFront(head: string, rest: seq<string>, d: char)
    requires |rest| >= 1
    ensures Interleave([head] + rest, d) == head + [d] + Interleave(rest, d)
  {
    assert ([head] + rest)[0] == head && ([head] + rest)[1..] == rest;
    assert Prefixed(rest, d) == [d] + rest[0] + Prefixed(rest[1..], d);
  }

  /** A last segment joined after the others. */
  lemma InterleaveSnoc(segs: seq<string>, x: string, d: char)
    requires |segs| >= 1
    ensures Interleave(segs + [x], d) == Interleave(segs, d) + [d] + x
  {
    assert (segs + [x])[0] == segs[0] && (segs + [x])[1..] == segs[1..] + [x];
    PrefixedSnoc(segs[1..], x, d);
  }

  /** Strictly increasing in the order of `compareTo`. */
  predicate Ascending(s: seq<string>)
  {
    forall i, j | 0 <= i < j < |s| :: Compare(s[i], s[j]) < 0
  }

  /** Placing `x` at `i`, after the strings below it and before the others,
      keeps a sequence ascending. */
  lemma AscendingInsert(s: seq<string>, x: string, i: nat)
    requires Ascending(s) && i <= |s|
    requires forall j | 0 <= j < i :: Compare(s[j], x) < 0
    requires i < |s| ==> Compare(x, s[i]) < 0
    ensures Ascending(s[..i] + [x] + s[i..])
  {
    var t := s[..i] + [x] + s[i..];
    forall a, b | 0 <= a < b < |t|
      ensures Compare(t[a], t[b]) < 0
    {
      if a == i && b > i + 1 {
        CompareTransitive(x, s[i], s[b - 1]);
      } else if a < i && b > i {
        assert t[a] == s[a] && t[b] == s[b - 1];
      } else if a > i {
        assert t[a] == s[a - 1] && t[b] == s[b - 1];
      }
    }
  }

  /** Where a scan of an ascending sequence stops, at the first string not
      below `x`: either that string equals `x`, or `x` occurs nowhere and
      belongs there. */
  lemma AscendingPlace(s: seq<string>, x: string, i: nat)
    requires Ascending(s) && i <= |s|
    requires forall j | 0 <= j < i :: Compare(s[j], x) < 0
    requires i < |s| ==> Compare(s[i], x) >= 0
    ensures (i < |s| && Compare(s[i], x) == 0) <==> x in s
    ensures x !in s ==> Ascending(s[..i] + [x] + s[i..])
  {
    if i < |s| && Compare(s[i], x) == 0 {
      CompareZero(s[i], x);
    } else {
      forall m | 0 <= m < |s|
        ensures s[m] != x
      {
        CompareZero(s[m], x);
        if m > i {
          CompareAntisymmetric(s[i], x);
          CompareTransitive(x, s[i], s[m]);
        }
      }
      if i < |s| {
        CompareAntisymmetric(s[i], x);
      }
      AscendingInsert(s, x, i);
    }
  }

  /** A prefix one element longer. */
  lemma TakeOneMore<T>(s: seq<T>, i: nat)
    requires i < |s|
    ensures s[..i + 1] == s[..i] + [s[i]]
    ensures i + 1 == |s| ==> s[..i] + [s[i]] == s
  {
  }
}
