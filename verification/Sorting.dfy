/** Stable insertion of values into order: what Python's sorted() promises. */
module Sorting {

  ghost predicate TotalPreorder<T(!new)>(leq: (T, T) -> bool) {
    && (forall a, b :: leq(a, b) || leq(b, a))
    && (forall a, b, c :: leq(a, b) && leq(b, c) ==> leq(a, c))
  }

  ghost predicate Ordered<T>(s: seq<T>, leq: (T, T) -> bool) {
    forall i, j :: 0 <= i < j < |s| ==> leq(s[i], s[j])
  }

  function Insert<T>(x: T, s: seq<T>, leq: (T, T) -> bool): seq<T> {
    if s == [] then [x]
    else if leq(x, s[0]) then [x] + s
    else [s[0]] + Insert(x, s[1..], leq)
  }

  function Sort<T>(s: seq<T>, leq: (T, T) -> bool): seq<T> {
    if s == [] then [] else Insert(s[0], Sort(s[1..], leq), leq)
  }

  lemma LeastFirst<T(!new)>(x: T, s: seq<T>, leq: (T, T) -> bool)
    requires Ordered(s, leq) && forall j :: 0 <= j < |s| ==> leq(x, s[j])
    ensures Ordered([x] + s, leq)
  {
  }

  lemma {:induction false} InsertPermutes<T(!new)>(x: T, s: seq<T>, leq: (T, T) -> bool)
    ensures multiset(Insert(x, s, leq)) == multiset([x]) + multiset(s)
  {
    if s != [] {
      InsertPermutes(x, s[1..], leq);
      assert s == [s[0]] + s[1..];
    }
  }

  lemma {:induction false} InsertSorts<T(!new)>(x: T, s: seq<T>, leq: (T, T) -> bool)
    requires TotalPreorder(leq) && Ordered(s, leq)
    ensures Ordered(Insert(x, s, leq), leq) && multiset(Insert(x, s, leq)) == multiset([x]) + multiset(s)
  {
    InsertPermutes(x, s, leq);
    if s == [] {
    } else if leq(x, s[0]) {
      LeastFirst(x, s, leq);
    } else {
      var r := Insert(x, s[1..], leq);
      InsertSorts(x, s[1..], leq);
      forall j | 0 <= j < |r| ensures leq(s[0], r[j]) {
        assert r[j] in multiset(r);
        assert r[j] == x || r[j] in s[1..];
      }
      LeastFirst(s[0], r, leq);
    }
  }

  /** Sorting yields an ordered permutation. */
  lemma {:induction false} SortSorts<T(!new)>(s: seq<T>, leq: (T, T) -> bool)
    requires TotalPreorder(leq)
    ensures Ordered(Sort(s, leq), leq) && multiset(Sort(s, leq)) == multiset(s) && |Sort(s, leq)| == |s|
  {
    if s != [] {
      var rest := Sort(s[1..], leq);
      SortSorts(s[1..], leq);
      InsertSorts(s[0], rest, leq);
      assert s == [s[0]] + s[1..];
      assert |multiset(Insert(s[0], rest, leq))| == |multiset(s)|;
    }
  }

  /** The first sorted value is least among all. */
  lemma FirstIsLeast<T(!new)>(s: seq<T>, leq: (T, T) -> bool)
    requires TotalPreorder(leq) && s != []
    ensures Sort(s, leq) != [] && Sort(s, leq)[0] in s
    ensures forall x :: x in s ==> leq(Sort(s, leq)[0], x)
  {
    SortSorts(s, leq);
    var r := Sort(s, leq);
    assert r[0] in multiset(r);
    forall x | x in s ensures leq(r[0], x) {
      assert x in multiset(r);
      var i :| 0 <= i < |r| && r[i] == x;
      assert leq(r[0], r[0]);
    }
  }

  // ---------------------------------------------------------------- names

  /** Names compare character by character, a prefix first. */
  predicate NameLeq(a: string, b: string) {
    a == [] || (b != [] && (a[0] < b[0] || (a[0] == b[0] && NameLeq(a[1..], b[1..]))))
  }

  /** b goes on where a ends, or has the greater character at the first place where they differ. */
  ghost predicate Precedes(a: string, b: string) {
    a < b || exists i: nat :: DifferAt(a, b, i)
  }

  /** The first place where they differ. */
  ghost predicate DifferAt(a: string, b: string, i: nat) {
    i < |a| && i < |b| && a[..i] == b[..i] && a[i] < b[i]
  }

  lemma DifferAtTail(a: string, b: string, i: nat)
    requires a != [] && b != []
    ensures DifferAt(a, b, i + 1) <==> a[0] == b[0] && DifferAt(a[1..], b[1..], i)
  {
    if i + 1 <= |a| && i + 1 <= |b| {
      assert a[..i + 1] == [a[0]] + a[1..][..i] && b[..i + 1] == [b[0]] + b[1..][..i];
      assert a[..i + 1] == b[..i + 1] ==> a[..i + 1][0] == b[..i + 1][0] && a[..i + 1][1..] == b[..i + 1][1..];
    }
  }

  lemma {:induction false} NameLeqExactly(a: string, b: string)
    ensures NameLeq(a, b) <==> a == b || Precedes(a, b)
  {
    if a != [] && b != [] {
      NameLeqExactly(a[1..], b[1..]);
      assert a == [a[0]] + a[1..] && b == [b[0]] + b[1..];
      assert DifferAt(a, b, 0) <==> a[0] < b[0];
      forall i: nat ensures DifferAt(a, b, i + 1) <==> a[0] == b[0] && DifferAt(a[1..], b[1..], i) {
        DifferAtTail(a, b, i);
      }
      if i: nat :| DifferAt(a[1..], b[1..], i) {
        assert a[0] == b[0] ==> DifferAt(a, b, i + 1);
      }
      if i: nat :| DifferAt(a, b, i) {
        assert i > 0 ==> DifferAt(a[1..], b[1..], i - 1);
      }
    }
  }

  lemma {:induction false} NameTotal(a: string, b: string)
    ensures NameLeq(a, b) || NameLeq(b, a)
    ensures NameLeq(a, b) && NameLeq(b, a) ==> a == b
  {
    if a != [] && b != [] {
      NameTotal(a[1..], b[1..]);
      if a[0] == b[0] && a[1..] == b[1..] {
        assert a == [a[0]] + a[1..] && b == [b[0]] + b[1..];
      }
    }
  }

  lemma {:induction false} NameTransitive(a: string, b: string, c: string)
    requires NameLeq(a, b) && NameLeq(b, c)
    ensures NameLeq(a, c)
  {
    if a != [] && a[0] == b[0] == c[0] {
      NameTransitive(a[1..], b[1..], c[1..]);
    }
  }

  lemma NamesAreOrdered()
    ensures TotalPreorder(NameLeq)
  {
    forall a, b ensures NameLeq(a, b) || NameLeq(b, a) {
      NameTotal(a, b);
    }
    forall a, b, c | NameLeq(a, b) && NameLeq(b, c) ensures NameLeq(a, c) {
      NameTransitive(a, b, c);
    }
  }
}
