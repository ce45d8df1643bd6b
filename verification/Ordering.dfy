/** Python's orders on strings and lists, and `sorted`. */
module Ordering {

  ghost predicate TotalOrder<T(!new)>(le: (T, T) -> bool)
  {
    && (forall x, y :: le(x, y) || le(y, x))
    && (forall x, y :: le(x, y) && le(y, x) ==> x == y)
    && (forall x, y, z :: le(x, y) && le(y, z) ==> le(x, z))
  }

  ghost predicate Sorted<T>(s: seq<T>, le: (T, T) -> bool)
  {
    forall i, j :: 0 <= i < j < |s| ==> le(s[i], s[j])
  }

  ghost predicate Distinct<T>(s: seq<T>)
  {
    forall i, j :: 0 <= i < j < |s| ==> s[i] != s[j]
  }

  // ----- lexicographic order -----

  predicate LexLe<T(==)>(le: (T, T) -> bool, a: seq<T>, b: seq<T>)
  {
    if a == [] then true
    else if b == [] then false
    else if a[0] == b[0] then LexLe(le, a[1..], b[1..])
    else le(a[0], b[0])
  }

  predicate CharLe(x: char, y: char)
  {
    x <= y
  }

  /** Strings compare by code point. */
  predicate StrLe(a: string, b: string)
  {
    LexLe(CharLe, a, b)
  }

  /** Lists of strings compare element by element. */
  predicate NamesLe(a: seq<string>, b: seq<string>)
  {
    LexLe(StrLe, a, b)
  }

  lemma {:induction false} LexTotal<T(!new)>(le: (T, T) -> bool, a: seq<T>, b: seq<T>)
    requires TotalOrder(le)
    ensures LexLe(le, a, b) || LexLe(le, b, a)
    ensures LexLe(le, a, b) && LexLe(le, b, a) ==> a == b
  {
    if a != [] && b != [] && a[0] == b[0] {
      LexTotal(le, a[1..], b[1..]);
      assert a == [a[0]] + a[1..] && b == [b[0]] + b[1..];
    }
  }

  /** `a` is the front of `b`, or is smaller at the first place where they differ. */
  lemma {:induction false} LexExactly<T>(le: (T, T) -> bool, a: seq<T>, b: seq<T>)
    ensures LexLe(le, a, b) <==> a <= b || exists i :: FirstDifference(a, b, i) && le(a[i], b[i])
  {
    if a != [] && b != [] {
      var x, y := a[1..], b[1..];
      if a[0] == b[0] {
        LexExactly(le, x, y);
        assert a <= b <==> x <= y by {
          assert a == [a[0]] + x && b == [b[0]] + y;
        }
        if i :| FirstDifference(x, y, i) && le(x[i], y[i]) {
          DifferenceBehind(a, b, i + 1);
        }
        if i :| FirstDifference(a, b, i) && le(a[i], b[i]) {
          DifferenceBehind(a, b, i);
        }
      } else {
        assert FirstDifference(a, b, 0);
        assert forall i :: FirstDifference(a, b, i) ==> i == 0;
      }
    }
  }

  ghost predicate FirstDifference<T>(a: seq<T>, b: seq<T>, i: int)
  {
    0 <= i < |a| && i < |b| && a[..i] == b[..i] && a[i] != b[i]
  }

  lemma DifferenceBehind<T>(a: seq<T>, b: seq<T>, i: int)
    requires a != [] && b != [] && a[0] == b[0]
    ensures FirstDifference(a, b, i) <==> FirstDifference(a[1..], b[1..], i - 1)
  {
    if 0 < i < |a| && i < |b| {
      assert a[1..][..i - 1] == a[..i][1..] && b[1..][..i - 1] == b[..i][1..];
      assert a[..i] == [a[0]] + a[..i][1..] && b[..i] == [b[0]] + b[..i][1..];
    }
  }

  /** Strings compare at their first difference, by code point. */
  lemma StrExactly(a: string, b: string)
    ensures StrLe(a, b) <==> a <= b || exists i :: FirstDifference(a, b, i) && a[i] < b[i]
  {
    LexExactly(CharLe, a, b);
    assert forall i :: FirstDifference(a, b, i) ==> (CharLe(a[i], b[i]) <==> a[i] < b[i]);
  }

  lemma {:induction false} LexTransitive<T(!new)>(le: (T, T) -> bool, a: seq<T>, b: seq<T>, c: seq<T>)
    requires TotalOrder(le) && LexLe(le, a, b) && LexLe(le, b, c)
    ensures LexLe(le, a, c)
  {
    if a != [] && b != [] && c != [] && a[0] == b[0] == c[0] {
      LexTransitive(le, a[1..], b[1..], c[1..]);
    }
  }

  lemma StrTotalOrder()
    ensures TotalOrder(StrLe)
  {
    assert TotalOrder(CharLe);
    forall a, b
      ensures (StrLe(a, b) || StrLe(b, a)) && (StrLe(a, b) && StrLe(b, a) ==> a == b)
    {
      LexTotal(CharLe, a, b);
    }
    forall a, b, c | StrLe(a, b) && StrLe(b, c)
      ensures StrLe(a, c)
    {
      LexTransitive(CharLe, a, b, c);
    }
  }

  lemma NamesTotalOrder()
    ensures TotalOrder(NamesLe)
  {
    StrTotalOrder();
    forall a, b
      ensures (NamesLe(a, b) || NamesLe(b, a)) && (NamesLe(a, b) && NamesLe(b, a) ==> a == b)
    {
      LexTotal(StrLe, a, b);
    }
    forall a, b, c | NamesLe(a, b) && NamesLe(b, c)
      ensures NamesLe(a, c)
    {
      LexTransitive(StrLe, a, b, c);
    }
  }

  // ----- sorting -----

  function Insert<T>(x: T, s: seq<T>, le: (T, T) -> bool): (r: seq<T>)
    ensures multiset(r) == multiset{x} + multiset(s)
  {
    if s == [] || le(x, s[0]) then [x] + s
    else
      assert s == [s[0]] + s[1..];
      [s[0]] + Insert(x, s[1..], le)
  }

  function Sort<T>(s: seq<T>, le: (T, T) -> bool): (r: seq<T>)
    ensures multiset(r) == multiset(s)
  {
    if s == [] then []
    else
      assert s == [s[0]] + s[1..];
      Insert(s[0], Sort(s[1..], le), le)
  }

  ghost predicate TotalPreorder<T(!new)>(le: (T, T) -> bool)
  {
    && (forall x, y :: le(x, y) || le(y, x))
    && (forall x, y, z :: le(x, y) && le(y, z) ==> le(x, z))
  }

  lemma {:induction false} InsertSorted<T(!new)>(x: T, s: seq<T>, le: (T, T) -> bool)
    requires TotalPreorder(le) && Sorted(s, le)
    ensures Sorted(Insert(x, s, le), le)
  {
    if s != [] && !le(x, s[0]) {
      InsertSorted(x, s[1..], le);
      var r := Insert(x, s[1..], le);
      forall i | 0 <= i < |r|
        ensures le(s[0], r[i])
      {
        assert r[i] in multiset(r);
        assert s == [s[0]] + s[1..];
      }
    }
  }

  lemma {:induction false} SortSorts<T(!new)>(s: seq<T>, le: (T, T) -> bool)
    requires TotalPreorder(le)
    ensures Sorted(Sort(s, le), le)
  {
    if s != [] {
      SortSorts(s[1..], le);
      InsertSorted(s[0], Sort(s[1..], le), le);
    }
  }

  /** Ties force equality. */
  ghost predicate TiesEqual<T>(a: seq<T>, le: (T, T) -> bool)
  {
    forall x, y :: x in a && y in a && le(x, y) && le(y, x) ==> x == y
  }

  /** A sorted list is determined by what it holds when ties force equality. */
  lemma {:induction false} SortedUnique<T>(a: seq<T>, b: seq<T>, le: (T, T) -> bool)
    requires Sorted(a, le) && Sorted(b, le) && multiset(a) == multiset(b) && TiesEqual(a, le)
    ensures a == b
  {
    if a == [] {
      assert |multiset(b)| == 0;
    } else {
      SameHead(a, b, le);
      SameTail(a, b);
      SortedTail(a, le);
      SortedTail(b, le);
      SortedUnique(a[1..], b[1..], le);
      HeadAndTail(a, b);
    }
  }

  lemma HeadAndTail<T>(a: seq<T>, b: seq<T>)
    requires a != [] && b != [] && a[0] == b[0] && a[1..] == b[1..]
    ensures a == b
  {
    assert a == [a[0]] + a[1..] && b == [b[0]] + b[1..];
  }

  lemma SortedTail<T>(a: seq<T>, le: (T, T) -> bool)
    requires a != [] && Sorted(a, le)
    ensures Sorted(a[1..], le)
    ensures TiesEqual(a, le) ==> TiesEqual(a[1..], le)
  {
    assert forall x :: x in a[1..] ==> x in a;
  }

  lemma SameTail<T>(a: seq<T>, b: seq<T>)
    requires a != [] && b != [] && a[0] == b[0] && multiset(a) == multiset(b)
    ensures multiset(a[1..]) == multiset(b[1..])
  {
    HeadMultiset(a);
    HeadMultiset(b);
  }

  lemma HeadMultiset<T>(a: seq<T>)
    requires a != []
    ensures multiset(a[1..]) == multiset(a) - multiset{a[0]}
  {
    assert a == [a[0]] + a[1..];
  }

  lemma SameHead<T>(a: seq<T>, b: seq<T>, le: (T, T) -> bool)
    requires a != [] && Sorted(a, le) && Sorted(b, le) && multiset(a) == multiset(b) && TiesEqual(a, le)
    ensures b != [] && a[0] == b[0]
  {
    assert |multiset(b)| == |multiset(a)| > 0;
    assert a[0] in multiset(b) && b[0] in multiset(a);
    var i :| 0 <= i < |b| && b[i] == a[0];
    var j :| 0 <= j < |a| && a[j] == b[0];
    if i > 0 && j > 0 {
      assert le(b[0], b[i]) && le(a[0], a[j]);
    }
  }

  lemma {:induction false} DistinctByMultiset<T>(a: seq<T>, b: seq<T>)
    requires multiset(a) == multiset(b) && Distinct(b)
    ensures Distinct(a)
  {
    forall i, j | 0 <= i < j < |a|
      ensures a[i] != a[j]
    {
      if a[i] == a[j] {
        MultiplicityTwo(a, i, j);
        MultiplicityOne(b, a[i]);
        assert false;
      }
    }
  }

  lemma MultiplicityTwo<T>(a: seq<T>, i: nat, j: nat)
    requires i < j < |a| && a[i] == a[j]
    ensures multiset(a)[a[i]] >= 2
  {
    assert a == a[..i] + [a[i]] + a[i + 1..j] + [a[j]] + a[j + 1..];
  }

  lemma {:induction false} MultiplicityOne<T>(b: seq<T>, x: T)
    requires Distinct(b)
    ensures multiset(b)[x] <= 1
  {
    if b != [] {
      MultiplicityOne(b[1..], x);
      assert b == [b[0]] + b[1..];
      if x == b[0] {
        assert x !in b[1..];
      }
    }
  }

  lemma DistinctSameMultiset<T>(a: seq<T>, b: seq<T>)
    requires Distinct(a) && Distinct(b)
    requires forall x :: x in a <==> x in b
    ensures multiset(a) == multiset(b)
  {
    forall x
      ensures multiset(a)[x] == multiset(b)[x]
    {
      MultiplicityOne(a, x);
      MultiplicityOne(b, x);
      assert x in a <==> x in multiset(a);
      assert x in b <==> x in multiset(b);
    }
  }

  /** `sorted` on a set of strings. */
  function SortedSet(s: set<string>): (r: seq<string>)
    ensures forall x :: x in r <==> x in s
    ensures |r| == |s|
    ensures Sorted(r, StrLe) && Distinct(r)
  {
    if s == {} then []
    else
      StrTotalOrder();
      LeastString(s);
      var least :| least in s && forall y :: y in s ==> StrLe(least, y);
      var rest := SortedSet(s - {least});
      SortedCons(least, rest, s);
      [least] + rest
  }

  lemma SortedCons(least: string, rest: seq<string>, s: set<string>)
    requires least in s && (forall y :: y in s ==> StrLe(least, y)) && forall x :: x in rest <==> x in s - {least}
    requires |rest| == |s - {least}| && Sorted(rest, StrLe) && Distinct(rest)
    ensures var r := [least] + rest; (forall x :: x in r <==> x in s) && |r| == |s| && Sorted(r, StrLe) && Distinct(r)
  {
    var r := [least] + rest;
    forall i, j | 0 <= i < j < |r|
      ensures StrLe(r[i], r[j]) && r[i] != r[j]
    {
      assert r[j] == rest[j - 1] && rest[j - 1] in rest;
    }
  }

  lemma LeastString(s: set<string>)
    requires s != {}
    ensures exists x :: x in s && forall y :: y in s ==> StrLe(x, y)
  {
    StrTotalOrder();
    var x := LeastExists(s, StrLe);
    assert IsLeast(x, s, StrLe);
  }

  ghost predicate IsLeast<T>(x: T, s: set<T>, le: (T, T) -> bool)
  {
    x in s && forall y :: y in s ==> le(x, y)
  }

  lemma {:induction false} LeastExists<T(!new)>(s: set<T>, le: (T, T) -> bool) returns (x: T)
    requires s != {} && TotalPreorder(le)
    ensures IsLeast(x, s, le)
  {
    x :| x in s;
    if s == {x} {
      assert le(x, x);
    } else {
      var z := LeastExists(s - {x}, le);
      x := LesserOf(s, le, x, z);
    }
  }

  lemma LesserOf<T(!new)>(s: set<T>, le: (T, T) -> bool, x: T, z: T) returns (w: T)
    requires TotalPreorder(le) && x in s && IsLeast(z, s - {x}, le)
    ensures IsLeast(w, s, le)
  {
    w := if le(x, z) then x else z;
    forall y | y in s
      ensures le(w, y)
    {
      assert y != x ==> le(z, y);
    }
  }
}
