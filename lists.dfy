/**
 * The `List<T>` operations the registries and the damage chain rely on:
 * `IndexOf`, `Insert` and `Remove` (which drops the FIRST occurrence only).
 */
module Lists {
  /** No element occurs twice: none occurs among those before it. */
  predicate NoDup<T(==)>(s: seq<T>) {
    forall i :: 0 <= i < |s| ==> s[i] !in s[..i]
  }

  /** Two positions of a list without duplicates hold different elements. */
  lemma NoDupDistinct<T>(s: seq<T>, i: nat, j: nat)
    requires NoDup(s) && i < |s| && j < |s| && i != j
    ensures s[i] != s[j]
  {
    if i < j {
      assert s[..j][i] == s[i];
    } else {
      assert s[..i][j] == s[j];
    }
  }

  /** `List<T>.IndexOf`: the position of the first occurrence of `x`. */
  function FirstIndex<T(==)>(s: seq<T>, x: T): (i: nat)
    requires x in s
    ensures i < |s| && s[i] == x && x !in s[..i]
  {
    if s[0] == x then 0
    else
      var k := FirstIndex(s[1..], x);
      assert s[1..][..k] == s[1..k + 1];
      k + 1
  }

  /** `List<T>.Insert(i, x)`: `x` lands at index `i`, later elements move up by one. */
  function InsertAt<T>(s: seq<T>, i: nat, x: T): (r: seq<T>)
    requires i <= |s|
    ensures |r| == |s| + 1 && r[i] == x
  {
    s[..i] + [x] + s[i..]
  }

  /** `List<T>.RemoveAt(i)`. */
  function RemoveAt<T>(s: seq<T>, i: nat): (r: seq<T>)
    requires i < |s|
    ensures |r| == |s| - 1
  {
    s[..i] + s[i + 1..]
  }

  /** `List<T>.Remove(x)`: removes the first occurrence of `x`, if there is one. */
  function RemoveFirst<T(==)>(s: seq<T>, x: T): (r: seq<T>)
    ensures x in s ==> |r| == |s| - 1
    ensures x !in s ==> r == s
  {
    if x in s then RemoveAt(s, FirstIndex(s, x)) else s
  }

  /** Inserting and then removing at the same index gives back the list: the others keep their order. */
  lemma InsertThenRemove<T>(s: seq<T>, i: nat, x: T)
    requires i <= |s|
    ensures RemoveAt(InsertAt(s, i, x), i) == s
    ensures InsertAt(s, i, x)[..i] == s[..i] && InsertAt(s, i, x)[i + 1..] == s[i..]
  {
    var r := InsertAt(s, i, x);
    assert r[..i] == s[..i];
    assert r[i + 1..] == s[i..];
  }

  /** Removal takes away exactly one copy of `x` when present, and nothing else. */
  lemma RemoveFirstMultiset<T>(s: seq<T>, x: T)
    ensures multiset(RemoveFirst(s, x)) == multiset(s) - multiset{x}
  {
    if x in s {
      var k := FirstIndex(s, x);
      assert s == s[..k] + [x] + s[k + 1..];
      calc {
        multiset(s);
        multiset(s[..k]) + multiset{x} + multiset(s[k + 1..]);
        multiset(RemoveFirst(s, x)) + multiset{x};
      }
    } else {
      assert multiset(s)[x] == 0;
    }
  }

  /** Removal keeps the other elements in their relative order: it is a subsequence with one gap. */
  lemma RemoveFirstKeepsOrder<T>(s: seq<T>, x: T)
    requires x in s
    ensures var k := FirstIndex(s, x);
      RemoveFirst(s, x)[..k] == s[..k] && RemoveFirst(s, x)[k..] == s[k + 1..]
  {
    var k := FirstIndex(s, x);
    var r := RemoveFirst(s, x);
    assert r == s[..k] + s[k + 1..];
    assert r[..k] == s[..k];
    assert r[k..] == s[k + 1..];
  }

  /** Where each element of `RemoveAt(s, k)` came from. */
  lemma RemoveAtIndex<T>(s: seq<T>, k: nat, m: nat)
    requires k < |s| && m < |s| - 1
    ensures RemoveAt(s, k)[m] == s[if m < k then m else m + 1]
  {
  }

  /** On a list without duplicates, removal keeps it free of duplicates. */
  lemma RemoveFirstKeepsNoDup<T>(s: seq<T>, x: T)
    requires NoDup(s)
    ensures NoDup(RemoveFirst(s, x))
  {
    if x in s {
      var k := FirstIndex(s, x);
      var r := RemoveFirst(s, x);
      forall i, j | 0 <= i < j < |r| ensures r[i] != r[j] {
        RemoveAtIndex(s, k, i);
        RemoveAtIndex(s, k, j);
      }
    }
  }

  /** On a list without duplicates, removal makes `x` absent and keeps every other element. */
  lemma RemoveFirstNoDup<T>(s: seq<T>, x: T)
    requires NoDup(s)
    ensures NoDup(RemoveFirst(s, x))
    ensures forall y :: y in RemoveFirst(s, x) <==> y in s && y != x
  {
    RemoveFirstKeepsNoDup(s, x);
    if x in s {
      var k := FirstIndex(s, x);
      var r := RemoveFirst(s, x);
      forall y ensures y in r <==> y in s && y != x {
        if y in r {
          var m :| 0 <= m < |r| && r[m] == y;
          RemoveAtIndex(s, k, m);
        }
        if y in s && y != x {
          var m :| 0 <= m < |s| && s[m] == y;
          RemoveAtIndex(s, k, if m < k then m else m - 1);
        }
      }
    }
  }

  /** Appending an absent element keeps a list free of duplicates. */
  lemma AppendNoDup<T>(s: seq<T>, x: T)
    requires NoDup(s) && x !in s
    ensures NoDup(s + [x])
  {
  }
}
