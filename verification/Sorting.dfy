/** Go's sort.Slice and sort.SliceStable: a sorted rearrangement, and when it is
    the only one. */
module Sorting {
  import opened Sequences

  ghost predicate TotalPreorder<T(!new)>(le: (T, T) -> bool) {
    (forall x, y :: le(x, y) || le(y, x)) &&
    (forall x, y, z :: le(x, y) && le(y, z) ==> le(x, z))
  }

  ghost predicate Sorted<T>(s: seq<T>, le: (T, T) -> bool) {
    forall i, j :: 0 <= i < j < |s| ==> le(s[i], s[j])
  }

  /** No two elements of s tie. */
  ghost predicate TieFree<T>(s: seq<T>, le: (T, T) -> bool) {
    forall x, y :: x in s && y in s && le(x, y) && le(y, x) ==> x == y
  }

  /** Puts x before the first element it does not exceed. */
  function Insert<T>(x: T, s: seq<T>, le: (T, T) -> bool): seq<T> {
    if s == [] || le(x, s[0]) then [x] + s else [s[0]] + Insert(x, s[1..], le)
  }

  /** The stable sort: among ties, input order. */
  function Sort<T>(s: seq<T>, le: (T, T) -> bool): seq<T> {
    if s == [] then [] else Insert(s[0], Sort(s[1..], le), le)
  }

  lemma {:induction false} InsertKeepsElements<T>(x: T, s: seq<T>, le: (T, T) -> bool)
    ensures multiset(Insert(x, s, le)) == multiset{x} + multiset(s)
  {
    if s != [] && !le(x, s[0]) {
      InsertKeepsElements(x, s[1..], le);
      assert s == [s[0]] + s[1..];
    }
  }

  lemma {:induction false} InsertKeepsSorted<T(!new)>(x: T, s: seq<T>, le: (T, T) -> bool)
    requires TotalPreorder(le) && Sorted(s, le)
    ensures Sorted(Insert(x, s, le), le)
  {
    if s != [] && !le(x, s[0]) {
      var tail := Insert(x, s[1..], le);
      InsertKeepsSorted(x, s[1..], le);
      InsertKeepsElements(x, s[1..], le);
      forall j | 0 <= j < |tail| ensures le(s[0], tail[j]) {
        assert tail[j] in multiset(tail);
        if tail[j] != x {
          assert tail[j] in s[1..];
        }
      }
    }
  }

  lemma {:induction false} SortSorts<T(!new)>(s: seq<T>, le: (T, T) -> bool)
    requires TotalPreorder(le)
    ensures Sorted(Sort(s, le), le)
    ensures multiset(Sort(s, le)) == multiset(s)
  {
    if s != [] {
      SortSorts(s[1..], le);
      InsertKeepsSorted(s[0], Sort(s[1..], le), le);
      InsertKeepsElements(s[0], Sort(s[1..], le), le);
      assert s == [s[0]] + s[1..];
    }
  }

  /** Without ties there is only one sorted arrangement. */
  lemma {:induction false} SortedUnique<T>(a: seq<T>, b: seq<T>, le: (T, T) -> bool)
    requires Sorted(a, le) && Sorted(b, le)
    requires multiset(a) == multiset(b) && TieFree(a, le)
    ensures a == b
  {
    hide Sorted, TieFree;
    SameLength(a, b);
    if a != [] {
      SameFirst(a, b, le);
      TailElements(a);
      TailElements(b);
      SortedTail(a, le);
      SortedTail(b, le);
      SortedUnique(a[1..], b[1..], le);
      FirstThenRest(a);
      FirstThenRest(b);
    }
  }

  lemma FirstThenRest<T>(s: seq<T>)
    requires s != []
    ensures s == [s[0]] + s[1..]
  {
  }

  lemma SortedTail<T>(s: seq<T>, le: (T, T) -> bool)
    requires s != [] && Sorted(s, le)
    ensures Sorted(s[1..], le)
    ensures TieFree(s, le) ==> TieFree(s[1..], le)
  {
  }

  lemma SameLength<T>(a: seq<T>, b: seq<T>)
    requires multiset(a) == multiset(b)
    ensures |a| == |b|
  {
    assert |multiset(a)| == |a| && |multiset(b)| == |b|;
  }

  lemma TailElements<T>(s: seq<T>)
    requires s != []
    ensures multiset(s[1..]) == multiset(s) - multiset{s[0]}
  {
    assert s == [s[0]] + s[1..];
  }

  lemma SameFirst<T>(a: seq<T>, b: seq<T>, le: (T, T) -> bool)
    requires Sorted(a, le) && Sorted(b, le) && a != []
    requires multiset(a) == multiset(b) && TieFree(a, le)
    ensures b != [] && a[0] == b[0]
  {
    assert a[0] in multiset(a) && a[0] in multiset(b);
    var i :| 0 <= i < |b| && b[i] == a[0];
    assert b[0] in multiset(b) && b[0] in multiset(a);
    var j :| 0 <= j < |a| && a[j] == b[0];
    assert i > 0 ==> le(b[0], b[i]);
    assert j > 0 ==> le(a[0], a[j]);
  }

  /** Sorting forgets the input order when nothing ties. */
  lemma SortForgetsOrder<T(!new)>(s: seq<T>, t: seq<T>, le: (T, T) -> bool)
    requires TotalPreorder(le) && multiset(s) == multiset(t) && TieFree(s, le)
    ensures Sort(s, le) == Sort(t, le)
  {
    SortSorts(s, le);
    SortSorts(t, le);
    forall x | x in Sort(s, le) ensures x in s {
      assert x in multiset(Sort(s, le));
    }
    SortedUnique(Sort(s, le), Sort(t, le), le);
  }

  /** Every rearrangement of s sorts to the same list. */
  ghost predicate OrderFree<T(!new)>(s: seq<T>, le: (T, T) -> bool) {
    forall t :: multiset(t) == multiset(s) ==> Sort(t, le) == Sort(s, le)
  }

  /** The elements of s that tie with a, in order. */
  function Ties<T>(s: seq<T>, a: T, le: (T, T) -> bool): seq<T> {
    if s == [] then [] else (if le(a, s[0]) && le(s[0], a) then [s[0]] else []) + Ties(s[1..], a, le)
  }

  lemma TiesFirst<T>(x: T, s: seq<T>, a: T, le: (T, T) -> bool)
    ensures Ties([x] + s, a, le) == (if le(a, x) && le(x, a) then [x] else []) + Ties(s, a, le)
  {
    assert ([x] + s)[1..] == s;
  }

  /** What stands before an insertion point does not tie with what is inserted. */
  lemma TiesMeet<T(!new)>(x: T, y: T, a: T, le: (T, T) -> bool)
    requires TotalPreorder(le) && le(x, a) && le(a, y)
    ensures le(x, y)
  {
  }

  lemma {:induction false} InsertKeepsTies<T(!new)>(x: T, s: seq<T>, a: T, le: (T, T) -> bool)
    requires TotalPreorder(le)
    ensures Ties(Insert(x, s, le), a, le) == (if le(a, x) && le(x, a) then [x] else []) + Ties(s, a, le)
  {
    hide TotalPreorder, Ties;
    if s == [] || le(x, s[0]) {
      TiesFirst(x, s, a, le);
    } else {
      InsertKeepsTies(x, s[1..], a, le);
      TiesFirst(s[0], Insert(x, s[1..], le), a, le);
      TiesFirst(s[0], s[1..], a, le);
      FirstThenRest(s);
      if le(x, a) && le(a, s[0]) {
        TiesMeet(x, s[0], a, le);
      }
    }
  }

  /** The sort is stable. */
  lemma {:induction false} SortKeepsTies<T(!new)>(s: seq<T>, a: T, le: (T, T) -> bool)
    requires TotalPreorder(le)
    ensures Ties(Sort(s, le), a, le) == Ties(s, a, le)
  {
    if s != [] {
      SortKeepsTies(s[1..], a, le);
      InsertKeepsTies(s[0], Sort(s[1..], le), a, le);
    }
  }

  lemma ToFront<T>(s: seq<T>, x: T) returns (t: seq<T>)
    requires x in s
    ensures multiset(t) == multiset(s) && t != [] && t[0] == x
  {
    var i :| 0 <= i < |s| && s[i] == x;
    AroundPosition(s, i);
    t := [x] + (s[..i] + s[i + 1..]);
  }

  /** The stable sort forgets the input order exactly when nothing ties. */
  lemma SortForgetsOrderExactly<T(!new)>(s: seq<T>, le: (T, T) -> bool)
    requires TotalPreorder(le)
    ensures OrderFree(s, le) <==> TieFree(s, le)
  {
    if TieFree(s, le) {
      forall t | multiset(t) == multiset(s) ensures Sort(t, le) == Sort(s, le) {
        SortForgetsOrder(s, t, le);
      }
    }
    if OrderFree(s, le) {
      forall x, y | x in s && y in s && le(x, y) && le(y, x) ensures x == y {
        var t := ToFront(s, x);
        var u := ToFront(s, y);
        SortKeepsTies(t, x, le);
        SortKeepsTies(u, x, le);
        assert Ties(t, x, le)[0] == x && Ties(u, x, le)[0] == y;
      }
    }
  }

  ghost predicate NoDuplicates<T>(s: seq<T>) {
    forall i, j :: 0 <= i < j < |s| ==> s[i] != s[j]
  }

  lemma {:induction false} CountWithoutDuplicates<T>(s: seq<T>, x: T)
    requires NoDuplicates(s)
    ensures multiset(s)[x] == if x in s then 1 else 0
  {
    if s != [] {
      var front := s[..|s| - 1];
      CountWithoutDuplicates(front, x);
      assert s == front + [s[|s| - 1]];
    }
  }

  lemma TwoOccurrences<T>(s: seq<T>, i: nat, j: nat)
    requires i < j < |s| && s[i] == s[j]
    ensures multiset(s)[s[i]] >= 2
  {
    assert s == s[..i] + [s[i]] + s[i + 1..j] + [s[j]] + s[j + 1..];
  }

  lemma RearrangedNoDuplicates<T>(s: seq<T>, t: seq<T>)
    requires NoDuplicates(s) && multiset(s) == multiset(t)
    ensures NoDuplicates(t)
  {
    forall i, j | 0 <= i < j < |t| ensures t[i] != t[j] {
      if t[i] == t[j] {
        TwoOccurrences(t, i, j);
        CountWithoutDuplicates(s, t[i]);
      }
    }
  }

  function Members<T(==)>(s: seq<T>): set<T> {
    set x | x in s
  }

  lemma {:induction false} MembersCount<T>(s: seq<T>)
    requires NoDuplicates(s)
    ensures |Members(s)| == |s|
  {
    if s != [] {
      var front, last := s[..|s| - 1], s[|s| - 1];
      MembersCount(front);
      assert s == front + [last];
      assert Members(s) == Members(front) + {last};
    }
  }

  lemma SubsetSameSize<T>(a: set<T>, b: set<T>)
    requires a <= b && |a| == |b|
    ensures a == b
  {
    assert b == a + (b - a);
    assert |b| == |a| + |b - a|;
  }

  /** Duplicate-free sequences with the same members are rearrangements. */
  lemma SameMembersRearrange<T>(a: seq<T>, b: seq<T>)
    requires NoDuplicates(a) && NoDuplicates(b)
    requires forall x :: x in a <==> x in b
    ensures multiset(a) == multiset(b)
  {
    forall x ensures multiset(a)[x] == multiset(b)[x] {
      CountWithoutDuplicates(a, x);
      CountWithoutDuplicates(b, x);
    }
  }

  lemma SameMembers<T>(a: seq<T>, b: seq<T>)
    requires multiset(a) == multiset(b)
    ensures forall x :: x in a <==> x in b
  {
    assert forall x :: x in a <==> x in multiset(a);
    assert forall x :: x in b <==> x in multiset(b);
  }

  /** Some position of a holds x under tag t. */
  ghost predicate Carries<T>(a: seq<T>, tags: seq<nat>, x: T, t: nat)
    requires |tags| == |a|
  {
    exists j :: 0 <= j < |a| && a[j] == x && tags[j] == t
  }

  lemma CarriesWithout<T>(a: seq<T>, tags: seq<nat>, j: nat, x: T, t: nat)
    requires |tags| == |a| && j < |a|
    requires Carries(a[..j] + a[j + 1..], tags[..j] + tags[j + 1..], x, t)
    ensures Carries(a, tags, x, t)
  {
    var a', tags' := a[..j] + a[j + 1..], tags[..j] + tags[j + 1..];
    var i :| 0 <= i < |a'| && a'[i] == x && tags'[i] == t;
    var k := if i < j then i else i + 1;
    assert a[k] == x && tags[k] == t;
  }

  lemma AroundPosition<T>(a: seq<T>, j: nat)
    requires j < |a|
    ensures a == a[..j] + [a[j]] + a[j + 1..]
    ensures multiset(a) == multiset(a[..j] + a[j + 1..]) + multiset{a[j]}
  {
    assert a == a[..j] + [a[j]] + a[j + 1..];
  }

  /** Rearranging a list rearranges the tags its elements carry. */
  lemma {:induction false} TagsFollow<T>(a: seq<T>, tags: seq<nat>, b: seq<T>) returns (moved: seq<nat>)
    requires multiset(a) == multiset(b) && |tags| == |a|
    ensures |moved| == |b| && multiset(moved) == multiset(tags)
    ensures forall k :: 0 <= k < |b| ==> Carries(a, tags, b[k], moved[k])
    decreases |b|
  {
    SameLength(a, b);
    moved := [];
    if b != [] {
      var n := |b| - 1;
      assert b[n] in multiset(a);
      var j :| 0 <= j < |a| && a[j] == b[n];
      assert Carries(a, tags, b[n], tags[j]);
      hide Carries;
      AroundPosition(a, j);
      FrontLast(b);
      DropSame(b[..n], a[..j], a[j], a[j + 1..]);
      var front := TagsFollow(a[..j] + a[j + 1..], tags[..j] + tags[j + 1..], b[..n]);
      forall k | 0 <= k < n ensures Carries(a, tags, b[k], front[k]) {
        assert b[..n][k] == b[k];
        CarriesWithout(a, tags, j, b[k], front[k]);
      }
      moved := front + [tags[j]];
      AddedTag(tags, j, front);
    }
  }

  lemma AddedTag(tags: seq<nat>, j: nat, front: seq<nat>)
    requires j < |tags| && multiset(front) == multiset(tags[..j] + tags[j + 1..])
    ensures multiset(front + [tags[j]]) == multiset(tags)
  {
    AroundPosition(tags, j);
  }

  /** sort.Slice promises a sorted rearrangement and nothing about ties. */
  method SortSlice<T(!new)>(s: seq<T>, le: (T, T) -> bool) returns (r: seq<T>)
    requires TotalPreorder(le)
    ensures Sorted(r, le) && multiset(r) == multiset(s)
  {
    SortSorts(s, le);
    r := Sort(s, le);
  }
}
