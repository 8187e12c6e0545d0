/** Sorting, removing duplicates and searching, as the whitelist uses them. */
module SortedIds {
  import opened BsdTypes

  ghost predicate IsSorted(s: seq<uint64>) {
    forall i, j | 0 <= i < j < |s| :: s[i] <= s[j]
  }

  ghost predicate IsStrictlySorted(s: seq<uint64>) {
    forall i, j | 0 <= i < j < |s| :: s[i] < s[j]
  }

  function Insert(x: uint64, s: seq<uint64>): seq<uint64> {
    if s == [] || x <= s[0] then [x] + s else [s[0]] + Insert(x, s[1..])
  }

  function Sort(s: seq<uint64>): seq<uint64> {
    if s == [] then [] else Insert(s[0], Sort(s[1..]))
  }

  lemma {:induction false} InsertElements(x: uint64, s: seq<uint64>)
    ensures multiset(Insert(x, s)) == multiset(s) + multiset{x}
  {
    if s != [] && x > s[0] {
      InsertElements(x, s[1..]);
      assert s == [s[0]] + s[1..];
    }
  }

  lemma {:induction false} InsertSorted(x: uint64, s: seq<uint64>)
    requires IsSorted(s)
    ensures IsSorted(Insert(x, s))
    ensures Insert(x, s)[0] == if s == [] || x <= s[0] then x else s[0]
  {
    if s != [] && x > s[0] {
      assert IsSorted(s[1..]);
      InsertSorted(x, s[1..]);
      var r := Insert(x, s[1..]);
      assert s[0] <= r[0];
      assert forall i | 0 < i < |r| :: r[0] <= r[i];
    }
  }

  lemma {:induction false} SortMeaning(s: seq<uint64>)
    ensures IsSorted(Sort(s)) && multiset(Sort(s)) == multiset(s)
  {
    if s != [] {
      assert s == [s[0]] + s[1..];
      SortMeaning(s[1..]);
      InsertElements(s[0], Sort(s[1..]));
      InsertSorted(s[0], Sort(s[1..]));
    }
  }

  lemma FirstIsLeast(s: seq<uint64>, t: seq<uint64>)
    requires s != [] && t != [] && IsSorted(t) && multiset(s) == multiset(t)
    ensures t[0] <= s[0]
  {
    assert s[0] in multiset(s);
    assert s[0] in multiset(t);
    var i :| 0 <= i < |t| && t[i] == s[0];
  }

  lemma RestElements(s: seq<uint64>)
    requires s != []
    ensures multiset(s[1..]) == multiset(s) - multiset{s[0]}
  {
    assert s == [s[0]] + s[1..];
  }

  // Whatever algorithm std::sort uses, a sorted rearrangement is this one.
  lemma {:induction false} SortedPermutationIsUnique(s: seq<uint64>, t: seq<uint64>)
    requires IsSorted(s) && IsSorted(t) && multiset(s) == multiset(t)
    ensures s == t
    decreases |s|
  {
    assert |s| == |multiset(s)| == |multiset(t)| == |t|;
    if s != [] {
      FirstIsLeast(s, t);
      FirstIsLeast(t, s);
      RestElements(s);
      RestElements(t);
      SortedPermutationIsUnique(s[1..], t[1..]);
      assert s == [s[0]] + s[1..] && t == [t[0]] + t[1..];
    }
  }

  // What std::unique leaves: of equal neighbours the first one.
  function Unique(s: seq<uint64>): seq<uint64> {
    if s == [] then []
    else
      var front := Unique(s[..|s| - 1]);
      var last := s[|s| - 1];
      if front != [] && front[|front| - 1] == last then front else front + [last]
  }

  lemma InSnoc(s: seq<uint64>, last: uint64)
    ensures forall x :: x in s + [last] <==> x in s || x == last
  {}

  lemma {:induction false} UniqueElements(s: seq<uint64>)
    ensures |Unique(s)| <= |s|
    ensures forall x :: x in Unique(s) <==> x in s
  {
    if s != [] {
      var front, last := s[..|s| - 1], s[|s| - 1];
      UniqueElements(front);
      InSnoc(front, last);
      InSnoc(Unique(front), last);
      assert s == front + [last];
    }
  }

  lemma SortedFront(s: seq<uint64>)
    requires IsSorted(s) && s != []
    ensures IsSorted(s[..|s| - 1])
    ensures |s| > 1 ==> s[|s| - 2] <= s[|s| - 1]
  {}

  lemma StrictlySortedSnoc(s: seq<uint64>, last: uint64)
    requires IsStrictlySorted(s) && (s == [] || s[|s| - 1] < last)
    ensures IsStrictlySorted(s + [last])
  {}

  lemma {:induction false} UniqueOfSorted(s: seq<uint64>)
    requires IsSorted(s)
    ensures IsStrictlySorted(Unique(s))
    ensures s != [] ==> Unique(s) != [] && Unique(s)[|Unique(s)| - 1] == s[|s| - 1]
  {
    if s != [] {
      var front, last := s[..|s| - 1], s[|s| - 1];
      SortedFront(s);
      hide IsSorted, IsStrictlySorted;
      UniqueOfSorted(front);
      var u := Unique(front);
      assert |s| > 1 ==> u[|u| - 1] == front[|front| - 1] <= last;
      if u == [] || u[|u| - 1] < last {
        StrictlySortedSnoc(u, last);
      }
    }
  }

  lemma SortedIdsMeaning(s: seq<uint64>)
    ensures IsStrictlySorted(Unique(Sort(s)))
    ensures forall x :: x in Unique(Sort(s)) <==> x in s
  {
    SortMeaning(s);
    UniqueOfSorted(Sort(s));
    UniqueElements(Sort(s));
    forall x
      ensures x in Sort(s) <==> x in s
    {
      assert x in Sort(s) <==> x in multiset(Sort(s));
      assert x in s <==> x in multiset(s);
    }
  }

  // std::sort on the first n elements.
  method SortFirst(a: array<uint64>, n: nat)
    requires n <= a.Length
    modifies a
    ensures a[..n] == Sort(old(a[..n])) && a[n..] == old(a[n..])
  {
    var sorted := Sort(a[..n]);
    SortMeaning(a[..n]);
    assert |multiset(sorted)| == |multiset(a[..n])| && |sorted| == n;
    forall i | 0 <= i < n {
      a[i] := sorted[i];
    }
  }

  lemma UniqueStep(s: seq<uint64>, i: nat)
    requires i < |s|
    ensures Unique(s[..i + 1])
         == var front := Unique(s[..i]);
            if front != [] && front[|front| - 1] == s[i] then front else front + [s[i]]
  {
    assert s[..i + 1][..i] == s[..i];
  }

  // std::unique on the first n elements; m of them are left.
  method UniqueFirst(a: array<uint64>, n: nat) returns (m: nat)
    requires n <= a.Length
    modifies a
    ensures m <= n && a[..m] == Unique(old(a[..n]))
  {
    m := 0;
    ghost var s := a[..n];
    assert Unique(s[..0]) == [];
    hide Unique;
    for i := 0 to n
      invariant m <= i && a[..m] == Unique(s[..i])
      invariant forall j | i <= j < n :: a[j] == s[j]
    {
      UniqueStep(s, i);
      assert m > 0 ==> a[..m][m - 1] == a[m - 1];
      if !(m > 0 && a[m - 1] == a[i]) {
        a[m] := a[i];
        m := m + 1;
      }
    }
    assert s[..n] == s;
  }

  // std::binary_search on the first n elements.
  method BinarySearch(a: array<uint64>, n: nat, x: uint64) returns (found: bool)
    requires n <= a.Length && IsSorted(a[..n])
    ensures found <==> x in a[..n]
  {
    var lo, hi := 0, n;
    while lo < hi
      invariant 0 <= lo <= hi <= n
      invariant forall i | 0 <= i < lo :: a[..n][i] < x
      invariant forall i | hi <= i < n :: x <= a[..n][i]
    {
      var mid := (lo + hi) / 2;
      assert a[..n][mid] == a[mid];
      if a[mid] < x {
        lo := mid + 1;
      } else {
        hi := mid;
      }
    }
    found := lo < n && a[lo] == x;
    assert lo < n ==> a[..n][lo] == a[lo];
  }
}
