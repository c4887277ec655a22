/**
  The Python list and string operations the family-tree engine relies on:
  string comparison (code-point lexicographic order, a proper prefix sorts
  first), `list.sort()`, `list.remove(x)`, the "append if not already present"
  loop and the "does any element of one list occur in the other" loop.
 */
module ListOps {

  /** Python's `a <= b` on strings. */
  predicate StrLe(a: string, b: string)
  {
    |a| == 0 || (|b| != 0 && (a[0] < b[0] || (a[0] == b[0] && StrLe(a[1..], b[1..]))))
  }

  lemma {:induction false} StrLeRefl(a: string)
    ensures StrLe(a, a)
  {
    if |a| != 0 { StrLeRefl(a[1..]); }
  }

  lemma {:induction false} StrLeAntisym(a: string, b: string)
    requires StrLe(a, b) && StrLe(b, a)
    ensures a == b
  {
    if |a| != 0 {
      StrLeAntisym(a[1..], b[1..]);
      assert a == [a[0]] + a[1..] && b == [b[0]] + b[1..];
    }
  }

  lemma {:induction false} StrLeTrans(a: string, b: string, c: string)
    requires StrLe(a, b) && StrLe(b, c)
    ensures StrLe(a, c)
  {
    if |a| != 0 && a[0] == b[0] && b[0] == c[0] {
      StrLeTrans(a[1..], b[1..], c[1..]);
    }
  }

  lemma {:induction false} StrLeTotal(a: string, b: string)
    ensures StrLe(a, b) || StrLe(b, a)
  {
    if |a| != 0 && |b| != 0 && a[0] == b[0] {
      StrLeTotal(a[1..], b[1..]);
    }
  }

  /** The list is in non-decreasing string order. */
  predicate Sorted(s: seq<string>)
  {
    forall i, j :: 0 <= i < j < |s| ==> StrLe(s[i], s[j])
  }

  /** No name occurs twice. */
  ghost predicate NoDup(s: seq<string>)
  {
    forall i, j :: 0 <= i < j < |s| ==> s[i] != s[j]
  }

  /** Places `x` in a sorted list, before the first element it is at most. */
  function Insert(s: seq<string>, x: string): (r: seq<string>)
    requires Sorted(s)
    ensures Sorted(r)
    ensures multiset(r) == multiset(s) + multiset{x}
    ensures |r| == |s| + 1
  {
    if s == [] then [x]
    else if StrLe(x, s[0]) then
      assert forall j :: 0 <= j < |s| ==> StrLe(x, s[j]) by {
        forall j | 0 <= j < |s| ensures StrLe(x, s[j]) {
          if j > 0 { StrLeTrans(x, s[0], s[j]); }
        }
      }
      [x] + s
    else
      var rest := Insert(s[1..], x);
      assert s == [s[0]] + s[1..];
      StrLeTotal(x, s[0]);
      assert forall j :: 0 <= j < |rest| ==> StrLe(s[0], rest[j]) by {
        forall j | 0 <= j < |rest| ensures StrLe(s[0], rest[j]) {
          assert rest[j] in multiset(rest);
          if rest[j] != x {
            assert rest[j] in s[1..];
          }
        }
      }
      [s[0]] + rest
  }

  /** Insertion sort: the witness that every list has a sorted permutation. */
  function InsertionSort(s: seq<string>): (r: seq<string>)
    ensures Sorted(r)
    ensures multiset(r) == multiset(s)
  {
    if s == [] then []
    else
      assert s == [s[0]] + s[1..];
      Insert(InsertionSort(s[1..]), s[0])
  }

  lemma SortExists(s: seq<string>)
    ensures exists r :: Sorted(r) && multiset(r) == multiset(s)
  {
    var r := InsertionSort(s);
  }

  /** Python's `list.sort()`: the one sorted permutation of the list (unique by
      SortedUnique below, so the choice is determined). */
  function Sort(s: seq<string>): (r: seq<string>)
    ensures Sorted(r)
    ensures multiset(r) == multiset(s)
    ensures |r| == |s|
    ensures forall x :: x in r <==> x in s
  {
    SortExists(s);
    assert forall a, b :: Sorted(a) && multiset(a) == multiset(s) && Sorted(b) && multiset(b) == multiset(s) ==> a == b by {
      forall a, b | Sorted(a) && multiset(a) == multiset(s) && Sorted(b) && multiset(b) == multiset(s)
        ensures a == b
      {
        SortedUnique(a, b);
      }
    }
    var r :| Sorted(r) && multiset(r) == multiset(s);
    assert |r| == |multiset(r)| == |multiset(s)| == |s|;
    assert forall x :: x in r <==> x in multiset(r);
    r
  }

  /** Two sorted permutations of one multiset are the same list, so `Sort` is
      fully determined by its contract. */
  lemma {:induction false} SortedUnique(a: seq<string>, b: seq<string>)
    requires Sorted(a) && Sorted(b) && multiset(a) == multiset(b)
    ensures a == b
  {
    if a != [] {
      assert a[0] in multiset(b);
      assert b != [];
      assert b[0] in multiset(a);
      assert StrLe(b[0], a[0]) by {
        var j :| 0 <= j < |b| && b[j] == a[0];
        if j > 0 { } else { StrLeRefl(b[0]); }
      }
      assert StrLe(a[0], b[0]) by {
        var j :| 0 <= j < |a| && a[j] == b[0];
        if j > 0 { } else { StrLeRefl(a[0]); }
      }
      StrLeAntisym(a[0], b[0]);
      assert a == [a[0]] + a[1..] && b == [b[0]] + b[1..];
      assert multiset(a) == multiset{a[0]} + multiset(a[1..]);
      assert multiset(b) == multiset{b[0]} + multiset(b[1..]);
      assert multiset(a[1..]) == multiset(a) - multiset{a[0]};
      assert multiset(b[1..]) == multiset(b) - multiset{b[0]};
      SortedTail(a);
      SortedTail(b);
      SortedUnique(a[1..], b[1..]);
    } else {
      assert |b| == |multiset(b)| == 0;
    }
  }

  lemma SortedTail(s: seq<string>)
    requires Sorted(s) && s != []
    ensures Sorted(s[1..])
  {
    forall i, j | 0 <= i < j < |s| - 1 ensures StrLe(s[1..][i], s[1..][j]) {
      assert s[1..][i] == s[i + 1] && s[1..][j] == s[j + 1];
    }
  }

  /** Sorting an already sorted list changes nothing. */
  lemma SortOfSorted(s: seq<string>)
    requires Sorted(s)
    ensures Sort(s) == s
  {
    SortedUnique(Sort(s), s);
  }

  /** Appending one name to a sorted list and sorting again inserts it in place. */
  lemma AppendThenSort(s: seq<string>, x: string)
    requires Sorted(s)
    ensures Sort(s + [x]) == Insert(s, x)
  {
    SortedUnique(Sort(s + [x]), Insert(s, x));
  }

  /** A list without duplicates names each element once. */
  lemma {:induction false} NoDupCount(s: seq<string>, x: string)
    requires NoDup(s)
    ensures multiset(s)[x] <= 1
  {
    if s != [] {
      var init := s[..|s| - 1];
      assert s == init + [s[|s| - 1]];
      assert NoDup(init);
      NoDupCount(init, x);
      if s[|s| - 1] == x {
        assert x !in init;
      }
    }
  }

  /** A permutation of a list without duplicates has none either. */
  lemma NoDupPerm(s: seq<string>, t: seq<string>)
    requires NoDup(s) && multiset(s) == multiset(t)
    ensures NoDup(t)
  {
    forall i, j | 0 <= i < j < |t| ensures t[i] != t[j] {
      NoDupCount(s, t[i]);
      RepeatCount(t, i, j);
    }
  }

  /** An element found at two indices is counted at least twice. */
  lemma RepeatCount(t: seq<string>, i: nat, j: nat)
    requires i < j < |t|
    ensures t[i] == t[j] ==> multiset(t)[t[i]] >= 2
  {
    assert t == t[..j] + t[j..];
    assert t[i] in t[..j] && t[j] in t[j..];
    assert multiset(t)[t[i]] == multiset(t[..j])[t[i]] + multiset(t[j..])[t[i]];
  }

  /** The loop `for y in xs: acc.append(y)`. */
  method AppendEach(acc: seq<string>, xs: seq<string>) returns (r: seq<string>)
    ensures r == acc + xs
  {
    r := acc;
    for i := 0 to |xs|
      invariant r == acc + xs[..i]
    {
      r := r + [xs[i]];
    }
    assert xs[..|xs|] == xs;
  }

  /** The loop `for y in xs: if y not in acc: acc.append(y)`. */
  method AppendMissing(acc: seq<string>, xs: seq<string>) returns (r: seq<string>)
    ensures r == AppendNew(acc, xs)
  {
    r := acc;
    for i := 0 to |xs|
      invariant r == AppendNew(acc, xs[..i])
    {
      assert xs[..i + 1][..i] == xs[..i];
      if xs[i] !in r {
        r := r + [xs[i]];
      }
    }
    assert xs[..|xs|] == xs;
  }

  /** Python's `list.remove(x)`: drops the first occurrence of `x` (the list
      must contain it, otherwise Python raises). */
  function RemoveFirst(s: seq<string>, x: string): (r: seq<string>)
    requires x in s
    ensures multiset(r) == multiset(s) - multiset{x}
    ensures |r| == |s| - 1
    ensures forall y :: y != x ==> (y in r <==> y in s)
  {
    if s[0] == x then
      assert s == [s[0]] + s[1..];
      s[1..]
    else
      assert s == [s[0]] + s[1..];
      [s[0]] + RemoveFirst(s[1..], x)
  }

  /** The loop `for y in s: if y not in acc: acc.append(y)`: the list grows
      by the elements of `s` it does not hold yet, each once, in order. */
  function AppendNew(acc: seq<string>, s: seq<string>): (r: seq<string>)
    ensures |acc| <= |r| && r[..|acc|] == acc
    ensures forall y :: y in r <==> y in acc || y in s
    ensures forall i :: |acc| <= i < |r| ==> r[i] !in acc
    ensures forall i, j :: |acc| <= i < j < |r| ==> r[i] != r[j]
  {
    if s == [] then acc
    else
      var a := AppendNew(acc, s[..|s| - 1]);
      var y := s[|s| - 1];
      assert s == s[..|s| - 1] + [y];
      if y in a then a else a + [y]
  }

  /** The loop `for x in xs: if x in ys: return True` followed by `return False`. */
  function AnyIn(xs: seq<string>, ys: seq<string>): (r: bool)
    ensures r <==> exists x :: x in xs && x in ys
  {
    if xs == [] then false
    else
      assert forall x :: x in xs <==> x == xs[0] || x in xs[1..];
      xs[0] in ys || AnyIn(xs[1..], ys)
  }
}
