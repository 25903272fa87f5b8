/** The sort step of merge: the file names are put in the natural order
    of Java strings, which compares character by character and puts a
    proper prefix first. */
module FileNames {

  /** a.compareTo(b) <= 0 */
  predicate LexLeq(a: string, b: string)
    decreases |a|
  {
    |a| == 0 || (|b| > 0 && (a[0] < b[0] || (a[0] == b[0] && LexLeq(a[1..], b[1..]))))
  }

  /** Any two names are ordered one way or the other. */
  lemma {:induction false} LexLeqTotal(a: string, b: string)
    ensures LexLeq(a, b) || LexLeq(b, a)
    decreases |a|
  {
    if |a| > 0 && |b| > 0 && a[0] == b[0] {
      LexLeqTotal(a[1..], b[1..]);
    }
  }

  lemma {:induction false} LexLeqReflexive(a: string)
    ensures LexLeq(a, a)
    decreases |a|
  {
    if |a| > 0 {
      LexLeqReflexive(a[1..]);
    }
  }

  lemma {:induction false} LexLeqTransitive(a: string, b: string, c: string)
    requires LexLeq(a, b) && LexLeq(b, c)
    ensures LexLeq(a, c)
    decreases |a|
  {
    if |a| > 0 && a[0] == b[0] && b[0] == c[0] {
      LexLeqTransitive(a[1..], b[1..], c[1..]);
    }
  }

  /** Names ordered both ways are equal. */
  lemma {:induction false} LexLeqAntisymmetric(a: string, b: string)
    requires LexLeq(a, b) && LexLeq(b, a)
    ensures a == b
    decreases |a|
  {
    if |a| > 0 {
      LexLeqAntisymmetric(a[1..], b[1..]);
      assert a == [a[0]] + a[1..] && b == [b[0]] + b[1..];
    }
  }

  /** Every name is at most every later name. */
  predicate Sorted(names: seq<string>)
  {
    forall i, j :: 0 <= i < j < |names| ==> LexLeq(names[i], names[j])
  }

  /** A name at most every name of a sorted list can go in front of it. */
  lemma SortedCons(h: string, names: seq<string>)
    requires Sorted(names)
    requires forall e :: e in names ==> LexLeq(h, e)
    ensures Sorted([h] + names)
  {
  }

  /** Puts x into its place in a sorted list. */
  function Insert(x: string, names: seq<string>): (r: seq<string>)
    requires Sorted(names)
    ensures Sorted(r)
    ensures multiset(r) == multiset(names) + multiset{x}
  {
    if names == [] then [x]
    else if LexLeq(x, names[0]) then
      assert forall e :: e in names ==> LexLeq(x, e) by {
        forall e | e in names
          ensures LexLeq(x, e)
        {
          var j :| 0 <= j < |names| && names[j] == e;
          if j > 0 {
            LexLeqTransitive(x, names[0], e);
          }
        }
      }
      SortedCons(x, names);
      [x] + names
    else
      var tail := names[1..];
      var rest := Insert(x, tail);
      assert names == [names[0]] + tail;
      assert forall e :: e in rest ==> LexLeq(names[0], e) by {
        forall e | e in rest
          ensures LexLeq(names[0], e)
        {
          assert e in multiset(rest);
          if e == x {
            LexLeqTotal(x, names[0]);
          } else {
            assert e in multiset(tail);
          }
        }
      }
      SortedCons(names[0], rest);
      [names[0]] + rest
  }

  /** Insertion sort by the natural order of strings. */
  function Sort(names: seq<string>): (r: seq<string>)
    ensures Sorted(r)
    ensures multiset(r) == multiset(names)
  {
    if names == [] then []
    else
      assert names == [names[0]] + names[1..];
      Insert(names[0], Sort(names[1..]))
  }

  /** The file list merge reads: sorted when sort is set, as given
      otherwise. */
  function SortNames(names: seq<string>, sort: bool): (r: seq<string>)
    ensures sort ==> Sorted(r) && multiset(r) == multiset(names)
    ensures !sort ==> r == names
  {
    if sort then Sort(names) else names
  }

  /** There is only one sorted order of a list of names, so any sort by
      the natural order gives the same list. */
  lemma {:induction false} SortedUnique(xs: seq<string>, ys: seq<string>)
    requires Sorted(xs) && Sorted(ys) && multiset(xs) == multiset(ys)
    ensures xs == ys
    decreases |xs|
  {
    if xs != [] {
      SortedSameFirst(xs, ys);
      SortedTail(xs);
      SortedTail(ys);
      SortedUnique(xs[1..], ys[1..]);
      assert xs == [xs[0]] + xs[1..] && ys == [ys[0]] + ys[1..];
    }
  }

  /** Without its first name a sorted list stays sorted and loses exactly
      that name. */
  lemma SortedTail(xs: seq<string>)
    requires Sorted(xs) && xs != []
    ensures Sorted(xs[1..]) && multiset(xs[1..]) == multiset(xs) - multiset{xs[0]}
  {
    assert xs == [xs[0]] + xs[1..];
  }

  /** Two sorted lists of the same names start with the same name. */
  lemma SortedSameFirst(xs: seq<string>, ys: seq<string>)
    requires Sorted(xs) && Sorted(ys) && multiset(xs) == multiset(ys) && xs != []
    ensures ys != [] && xs[0] == ys[0]
  {
    assert xs[0] in multiset(ys);
    assert ys[0] in multiset(xs);
    var i :| 0 <= i < |ys| && ys[i] == xs[0];
    var j :| 0 <= j < |xs| && xs[j] == ys[0];
    LexLeqReflexive(xs[0]);
    LexLeqReflexive(ys[0]);
    assert LexLeq(ys[0], xs[0]);
    assert LexLeq(xs[0], ys[0]);
    LexLeqAntisymmetric(xs[0], ys[0]);
  }
}
