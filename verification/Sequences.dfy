/** Loops that keep the accepted images of a list, in order. */
module Sequences {
  import opened Prelude

  lemma AppendAssoc<T>(x: seq<T>, y: seq<T>, z: seq<T>)
    ensures x + (y + z) == (x + y) + z
  {
  }

  lemma FrontLast<T>(s: seq<T>)
    requires s != []
    ensures s == s[..|s| - 1] + [s[|s| - 1]]
  {
  }

  lemma Around<T>(s: seq<T>, i: nat)
    requires i < |s|
    ensures s == s[..i] + [s[i]] + s[i + 1..]
  {
  }

  function FilterMap<A, B>(f: A -> Option<B>, xs: seq<A>): seq<B> {
    if xs == [] then [] else
      var n := |xs| - 1;
      FilterMap(f, xs[..n]) + (match f(xs[n]) case None => [] case Some(y) => [y])
  }

  lemma NothingKept<A, B>(f: A -> Option<B>)
    ensures FilterMap(f, []) == []
  {
  }

  lemma FilterMapSnoc<A, B>(f: A -> Option<B>, xs: seq<A>, x: A)
    ensures FilterMap(f, xs + [x]) == FilterMap(f, xs) + (match f(x) case None => [] case Some(y) => [y])
  {
    assert (xs + [x])[..|xs|] == xs;
  }

  method KeepAccepted<A, B>(f: A -> Option<B>, xs: seq<A>) returns (ys: seq<B>)
    ensures ys == FilterMap(f, xs)
  {
    ys := [];
    for i := 0 to |xs|
      invariant ys == FilterMap(f, xs[..i])
    {
      assert xs[..i + 1] == xs[..i] + [xs[i]];
      FilterMapSnoc(f, xs[..i], xs[i]);
      var y := f(xs[i]);
      if y.Some? {
        ys := ys + [y.value];
      }
    }
    assert xs[..|xs|] == xs;
  }

  lemma {:induction false} FilterMapConcat<A, B>(f: A -> Option<B>, xs: seq<A>, ys: seq<A>)
    ensures FilterMap(f, xs + ys) == FilterMap(f, xs) + FilterMap(f, ys)
  {
    if ys == [] {
      assert xs + ys == xs;
    } else {
      hide FilterMap;
      var front, last := ys[..|ys| - 1], ys[|ys| - 1];
      FilterMapConcat(f, xs, front);
      FrontLast(ys);
      AppendAssoc(xs, front, [last]);
      FilterMapSnoc(f, xs + front, last);
      FilterMapSnoc(f, front, last);
    }
  }

  lemma {:induction false} FilterMapMember<A, B>(f: A -> Option<B>, xs: seq<A>, y: B)
    ensures y in FilterMap(f, xs) <==> exists i :: 0 <= i < |xs| && f(xs[i]) == Some(y)
  {
    if xs != [] {
      var front, last := xs[..|xs| - 1], xs[|xs| - 1];
      FilterMapMember(f, front, y);
      FrontLast(xs);
      FilterMapSnoc(f, front, last);
      hide FilterMap;
      if i :| 0 <= i < |front| && f(front[i]) == Some(y) {
        assert f(xs[i]) == Some(y);
      }
      if i :| 0 <= i < |xs| && f(xs[i]) == Some(y) {
        assert i < |front| ==> f(front[i]) == Some(y);
      }
    }
  }

  /** Where the kept images come from: the accepted positions, in order. */
  lemma {:induction false} FilterMapOrigins<A, B>(f: A -> Option<B>, xs: seq<A>) returns (origins: seq<nat>)
    ensures |origins| == |FilterMap(f, xs)|
    ensures forall k :: 0 <= k < |origins| ==>
              origins[k] < |xs| && f(xs[origins[k]]) == Some(FilterMap(f, xs)[k])
    ensures forall k, l :: 0 <= k < l < |origins| ==> origins[k] < origins[l]
    ensures forall i :: 0 <= i < |xs| ==> (i in origins <==> f(xs[i]).Some?)
  {
    origins := [];
    if xs != [] {
      var n := |xs| - 1;
      var front := FilterMapOrigins(f, xs[..n]);
      FrontLast(xs);
      FilterMapSnoc(f, xs[..n], xs[n]);
      origins := front + if f(xs[n]).Some? then [n] else [];
      hide FilterMap;
      forall i | 0 <= i < |xs| ensures i in origins <==> f(xs[i]).Some? {
        if i < n {
          assert xs[..n][i] == xs[i];
        }
      }
    }
  }

  /** When every element is accepted, the images come back one for one. */
  lemma {:induction false} FilterMapAll<A, B>(f: A -> Option<B>, xs: seq<A>, ys: seq<B>)
    requires |xs| == |ys| && forall i :: 0 <= i < |xs| ==> f(xs[i]) == Some(ys[i])
    ensures FilterMap(f, xs) == ys
  {
    if xs != [] {
      FilterMapAll(f, xs[..|xs| - 1], ys[..|ys| - 1]);
    }
  }

  /** Rearranging the list rearranges the images. */
  lemma {:induction false} FilterMapRearranged<A, B>(f: A -> Option<B>, xs: seq<A>, ys: seq<A>)
    requires multiset(xs) == multiset(ys)
    ensures multiset(FilterMap(f, xs)) == multiset(FilterMap(f, ys))
  {
    if xs == [] {
      assert |multiset(ys)| == |ys|;
    } else {
      hide FilterMap;
      var front, x := xs[..|xs| - 1], xs[|xs| - 1];
      FrontLast(xs);
      assert x in multiset(ys);
      var k :| 0 <= k < |ys| && ys[k] == x;
      var a, b := ys[..k], ys[k + 1..];
      assert ys == a + [x] + b;
      DropSame(front, a, x, b);
      FilterMapRearranged(f, front, a + b);
      FilterMapSnoc(f, front, x);
      FilterMapAround(f, a, x, b);
    }
  }

  lemma DropSame<T>(front: seq<T>, a: seq<T>, x: T, b: seq<T>)
    requires multiset(front + [x]) == multiset(a + [x] + b)
    ensures multiset(front) == multiset(a + b)
  {
    var m := multiset(a + b);
    assert m + multiset{x} == multiset(a + [x] + b);
    forall y ensures multiset(front)[y] == m[y] {
      assert multiset(front + [x])[y] == (m + multiset{x})[y];
    }
  }

  lemma FilterMapAround<A, B>(f: A -> Option<B>, a: seq<A>, x: A, b: seq<A>)
    ensures multiset(FilterMap(f, a + [x] + b)) ==
              multiset(FilterMap(f, a + b)) + multiset(match f(x) case None => [] case Some(y) => [y])
  {
    hide FilterMap;
    FilterMapConcat(f, a, b);
    FilterMapConcat(f, a + [x], b);
    FilterMapSnoc(f, a, x);
  }
}
