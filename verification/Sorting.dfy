/** The library's stable sort, by an order given as a predicate. */
module Sorting {
  ghost predicate TotalPreorder<T(!new)>(le: (T, T) -> bool) {
    && (forall x, y :: le(x, y) || le(y, x))
    && forall x, y, z :: le(x, y) && le(y, z) ==> le(x, z)
  }

  ghost predicate Sorted<T>(le: (T, T) -> bool, xs: seq<T>) {
    forall i, j :: 0 <= i < j < |xs| ==> le(xs[i], xs[j])
  }

  /** Inserts after everything that is not greater. */
  function Insert<T>(le: (T, T) -> bool, x: T, xs: seq<T>): seq<T> {
    if xs == [] then [x]
    else if le(xs[|xs| - 1], x) then xs + [x]
    else Insert(le, x, xs[..|xs| - 1]) + [xs[|xs| - 1]]
  }

  function Sort<T>(le: (T, T) -> bool, xs: seq<T>): seq<T> {
    if xs == [] then [] else Insert(le, xs[|xs| - 1], Sort(le, xs[..|xs| - 1]))
  }

  lemma {:induction false} InsertKeeps<T>(le: (T, T) -> bool, x: T, xs: seq<T>)
    ensures multiset(Insert(le, x, xs)) == multiset(xs) + multiset{x}
  {
    if xs != [] {
      assert xs == xs[..|xs| - 1] + [xs[|xs| - 1]];
      InsertKeeps(le, x, xs[..|xs| - 1]);
    }
  }

  lemma {:induction false} InsertSorts<T(!new)>(le: (T, T) -> bool, x: T, xs: seq<T>)
    requires TotalPreorder(le) && Sorted(le, xs)
    ensures Sorted(le, Insert(le, x, xs))
  {
    if xs != [] {
      var init, last := xs[..|xs| - 1], xs[|xs| - 1];
      if le(last, x) {
        forall i | 0 <= i < |xs| ensures le(xs[i], x) {
          assert le(xs[i], last);
        }
      } else {
        InsertSorts(le, x, init);
        InsertKeeps(le, x, init);
        var inserted := Insert(le, x, init);
        forall i | 0 <= i < |inserted| ensures le(inserted[i], last) {
          assert inserted[i] in multiset(inserted);
          assert inserted[i] in init || inserted[i] == x;
        }
      }
    }
  }

  lemma {:induction false} SortSorts<T(!new)>(le: (T, T) -> bool, xs: seq<T>)
    requires TotalPreorder(le)
    ensures Sorted(le, Sort(le, xs)) && multiset(Sort(le, xs)) == multiset(xs)
    ensures |Sort(le, xs)| == |xs| && forall x :: x in Sort(le, xs) <==> x in xs
  {
    if xs != [] {
      assert xs == xs[..|xs| - 1] + [xs[|xs| - 1]];
      SortSorts(le, xs[..|xs| - 1]);
      InsertSorts(le, xs[|xs| - 1], Sort(le, xs[..|xs| - 1]));
      InsertKeeps(le, xs[|xs| - 1], Sort(le, xs[..|xs| - 1]));
    }
    assert forall x :: x in Sort(le, xs) <==> x in multiset(Sort(le, xs));
    assert |Sort(le, xs)| == |multiset(Sort(le, xs))| == |multiset(xs)| == |xs|;
  }

  /** Only one arrangement of given elements is sorted, when no two different ones are equivalent. */
  lemma {:induction false} SortedIsUnique<T(!new)>(le: (T, T) -> bool, xs: seq<T>, ys: seq<T>)
    requires forall x, y :: le(x, y) && le(y, x) ==> x == y
    requires Sorted(le, xs) && Sorted(le, ys) && multiset(xs) == multiset(ys)
    ensures xs == ys
  {
    assert |xs| == |multiset(xs)| == |multiset(ys)| == |ys|;
    if xs != [] {
      SameFirst(le, xs, ys);
      SameRest(xs, ys);
      SortedIsUnique(le, xs[1..], ys[1..]);
    }
  }

  lemma SameFirst<T(!new)>(le: (T, T) -> bool, xs: seq<T>, ys: seq<T>)
    requires forall x, y :: le(x, y) && le(y, x) ==> x == y
    requires Sorted(le, xs) && Sorted(le, ys) && multiset(xs) == multiset(ys) && xs != [] && ys != []
    ensures xs[0] == ys[0]
  {
    assert xs[0] in multiset(xs) && ys[0] in multiset(ys);
    var i :| 0 <= i < |ys| && ys[i] == xs[0];
    var j :| 0 <= j < |xs| && xs[j] == ys[0];
    if i > 0 && j > 0 {
      assert le(ys[0], ys[i]) && le(xs[0], xs[j]);
    }
  }

  lemma SameRest<T>(xs: seq<T>, ys: seq<T>)
    requires xs != [] && ys != [] && xs[0] == ys[0] && multiset(xs) == multiset(ys)
    ensures multiset(xs[1..]) == multiset(ys[1..])
  {
    assert xs == [xs[0]] + xs[1..] && ys == [ys[0]] + ys[1..];
    assert multiset(xs[1..]) == multiset(xs) - multiset{xs[0]};
    assert multiset(ys[1..]) == multiset(ys) - multiset{ys[0]};
  }

  ghost predicate Distinct<T>(xs: seq<T>) {
    forall i, j :: 0 <= i < j < |xs| ==> xs[i] != xs[j]
  }

  lemma TwiceIn<T>(xs: seq<T>, i: nat, j: nat)
    requires i < j < |xs| && xs[i] == xs[j]
    ensures multiset(xs)[xs[i]] >= 2
  {
    var front, back := xs[..j], xs[j..];
    assert xs == front + back && xs[i] == front[i] && xs[i] == back[0];
    assert xs[i] in multiset(front) && xs[i] in multiset(back);
    assert multiset(xs) == multiset(front) + multiset(back);
  }

  lemma {:induction false} OnceIn<T>(xs: seq<T>, x: T)
    requires Distinct(xs)
    ensures multiset(xs)[x] <= 1
  {
    if xs != [] {
      OnceIn(xs[1..], x);
      assert xs == [xs[0]] + xs[1..];
      if xs[0] == x {
        assert x !in xs[1..];
        assert x !in multiset(xs[1..]);
      }
    }
  }

  lemma Rearranged<T>(xs: seq<T>, ys: seq<T>)
    requires multiset(xs) == multiset(ys) && Distinct(xs)
    ensures Distinct(ys)
  {
    forall i, j | 0 <= i < j < |ys| ensures ys[i] != ys[j] {
      OnceIn(xs, ys[i]);
      if ys[i] == ys[j] {
        TwiceIn(ys, i, j);
      }
    }
  }

  /** Sorting different elements keeps them different, and keeps them all. */
  lemma SortKeepsDistinct<T(!new)>(le: (T, T) -> bool, xs: seq<T>)
    requires TotalPreorder(le) && Distinct(xs)
    ensures Sorted(le, Sort(le, xs)) && Distinct(Sort(le, xs))
    ensures |Sort(le, xs)| == |xs| && forall x :: x in Sort(le, xs) <==> x in xs
  {
    SortSorts(le, xs);
    Rearranged(xs, Sort(le, xs));
  }
}
