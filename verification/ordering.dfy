/** Python's ordering of `str` values (code point by code point, a proper
    prefix first) and `sorted()` over a list of strings. */
module Ordering {

  /** `a <= b` on Python strings. */
  predicate Le(a: string, b: string) {
    a == [] || (b != [] && (a[0] < b[0] || (a[0] == b[0] && Le(a[1..], b[1..]))))
  }

  lemma {:induction false} LeReflexive(a: string)
    ensures Le(a, a)
  {
    if a != [] {
      LeReflexive(a[1..]);
    }
  }

  lemma {:induction false} LeTotal(a: string, b: string)
    ensures Le(a, b) || Le(b, a)
  {
    if a != [] && b != [] && a[0] == b[0] {
      LeTotal(a[1..], b[1..]);
    }
  }

  lemma {:induction false} LeTransitive(a: string, b: string, c: string)
    requires Le(a, b) && Le(b, c)
    ensures Le(a, c)
  {
    if a != [] && a[0] == b[0] && b[0] == c[0] {
      LeTransitive(a[1..], b[1..], c[1..]);
    }
  }

  lemma {:induction false} LeAntisymmetric(a: string, b: string)
    requires Le(a, b) && Le(b, a)
    ensures a == b
  {
    if a != [] {
      LeAntisymmetric(a[1..], b[1..]);
      assert a == [a[0]] + a[1..] && b == [b[0]] + b[1..];
    }
  }

  predicate Sorted(s: seq<string>) {
    forall i, j :: 0 <= i < j < |s| ==> Le(s[i], s[j])
  }

  /** Putting a string below every entry in front of a sorted list keeps it sorted. */
  lemma ConsSorted(y: string, t: seq<string>)
    requires Sorted(t)
    requires forall j :: 0 <= j < |t| ==> Le(y, t[j])
    ensures Sorted([y] + t)
  {
    var r := [y] + t;
    forall i, j | 0 <= i < j < |r| ensures Le(r[i], r[j]) {
      if i > 0 {
        assert r[i] == t[i - 1] && r[j] == t[j - 1];
      }
    }
  }

  /** A string below the head of a sorted list is below all of it. */
  lemma BelowHead(x: string, s: seq<string>)
    requires Sorted(s) && s != [] && Le(x, s[0])
    ensures forall j :: 0 <= j < |s| ==> Le(x, s[j])
  {
    forall j | 0 <= j < |s| ensures Le(x, s[j]) {
      if j > 0 { LeTransitive(x, s[0], s[j]); }
    }
  }

  /** A string below `x` and below every entry of `s` is below every entry of
      any rearrangement of `s` with `x`. */
  lemma BelowRearranged(y: string, x: string, s: seq<string>, t: seq<string>)
    requires Le(y, x) && forall j :: 0 <= j < |s| ==> Le(y, s[j])
    requires multiset(t) == multiset(s) + multiset{x}
    ensures forall j :: 0 <= j < |t| ==> Le(y, t[j])
  {
    forall j | 0 <= j < |t| ensures Le(y, t[j]) {
      assert t[j] in multiset(t);
      if t[j] != x {
        assert t[j] in multiset(s);
      }
    }
  }

  /** Puts `x` before the first entry it is below. */
  function Insert(x: string, s: seq<string>): seq<string> {
    if s == [] then [x]
    else if Le(x, s[0]) then [x] + s
    else [s[0]] + Insert(x, s[1..])
  }

  lemma {:induction false} InsertLength(x: string, s: seq<string>)
    ensures |Insert(x, s)| == |s| + 1
  {
    if s != [] && !Le(x, s[0]) {
      InsertLength(x, s[1..]);
    }
  }

  /** Inserting adds exactly the new element. */
  lemma {:induction false} InsertMultiset(x: string, s: seq<string>)
    ensures multiset(Insert(x, s)) == multiset(s) + multiset{x}
  {
    if s != [] && !Le(x, s[0]) {
      InsertMultiset(x, s[1..]);
      assert s == [s[0]] + s[1..];
    }
  }

  /** Inserting into a sorted list keeps it sorted. */
  lemma {:induction false} InsertSorted(x: string, s: seq<string>)
    requires Sorted(s)
    ensures Sorted(Insert(x, s))
  {
    if s == [] {
    } else if Le(x, s[0]) {
      BelowHead(x, s);
      ConsSorted(x, s);
    } else {
      LeTotal(x, s[0]);
      var rest := s[1..];
      assert forall j :: 0 <= j < |rest| ==> rest[j] == s[j + 1];
      InsertSorted(x, rest);
      InsertMultiset(x, rest);
      BelowRearranged(s[0], x, rest, Insert(x, rest));
      ConsSorted(s[0], Insert(x, rest));
    }
  }

  /** `sorted(s)`: an ascending rearrangement of `s`. */
  function Sort(s: seq<string>): (r: seq<string>)
    ensures Sorted(r)
    ensures multiset(r) == multiset(s)
    ensures |r| == |s|
  {
    if s == [] then []
    else
      var t := Sort(s[1..]);
      InsertSorted(s[0], t);
      InsertMultiset(s[0], t);
      InsertLength(s[0], t);
      assert s == [s[0]] + s[1..];
      Insert(s[0], t)
  }

  /** The first entry of a sorted list is below every entry. */
  lemma HeadIsLeast(s: seq<string>, x: string)
    requires Sorted(s) && x in multiset(s)
    ensures Le(s[0], x)
  {
    var i :| 0 <= i < |s| && s[i] == x;
    if i == 0 { LeReflexive(x); }
  }

  /** There is only one ascending rearrangement of a list of strings, so `Sort`
      is the list that Python's `sorted()` returns. */
  lemma {:induction false} SortedUnique(a: seq<string>, b: seq<string>)
    requires Sorted(a) && Sorted(b)
    requires multiset(a) == multiset(b)
    ensures a == b
  {
    assert |a| == |multiset(a)| == |b|;
    if a != [] {
      HeadIsLeast(a, b[0]);
      HeadIsLeast(b, a[0]);
      LeAntisymmetric(a[0], b[0]);
      TailMultiset(a);
      TailMultiset(b);
      SortedUnique(a[1..], b[1..]);
      assert a == [a[0]] + a[1..] && b == [b[0]] + b[1..];
    }
  }

  lemma TailMultiset(s: seq<string>)
    requires s != []
    ensures multiset(s[1..]) == multiset(s) - multiset{s[0]}
  {
    assert s == [s[0]] + s[1..];
  }

  /** Cutting a sorted list after its first `n` entries keeps the `n` least:
      nothing left out is smaller than anything kept. */
  lemma SortedPrefixKeepsLeast(s: seq<string>, n: nat)
    requires Sorted(s) && n <= |s|
    ensures Sorted(s[..n])
    ensures multiset(s) == multiset(s[..n]) + multiset(s[n..])
    ensures forall x, y :: x in s[..n] && y in s[n..] ==> Le(x, y)
  {
    assert s == s[..n] + s[n..];
  }

  /** `sorted(s)[:n]` is the same whichever ascending arrangement of `s` is
      cut: it is sorted, drawn from `s`, and holds the `n` least entries. */
  lemma SortedTruncation(s: seq<string>, ordered: seq<string>, n: nat)
    requires Sorted(ordered) && multiset(ordered) == multiset(s) && n <= |s|
    ensures |ordered| == |s|
    ensures Sort(s)[..n] == ordered[..n]
    ensures Sorted(ordered[..n])
    ensures multiset(ordered[..n]) <= multiset(s)
    ensures forall x, y :: x in ordered[..n] && y in multiset(s) - multiset(ordered[..n]) ==> Le(x, y)
  {
    assert |ordered| == |multiset(s)| == |s|;
    SortedUnique(Sort(s), ordered);
    SortedPrefixKeepsLeast(ordered, n);
    forall x, y | x in ordered[..n] && y in multiset(s) - multiset(ordered[..n])
      ensures Le(x, y)
    {
      assert y in multiset(ordered[n..]);
      assert y in ordered[n..];
    }
  }
}
