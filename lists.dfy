/** The JavaScript array operations the room server uses on lists of socket
    ids: `includes`, `indexOf`, push-if-absent and `filter(p => p !== x)`. */
module Lists {

  /** No element occurs twice (a lobby, the active players of a game). */
  predicate Distinct<T(==)>(s: seq<T>) {
    forall i, j :: 0 <= i < j < |s| ==> s[i] != s[j]
  }

  /** The elements of `s` as a set. */
  function Elements<T>(s: seq<T>): set<T> {
    set x | x in s
  }

  /** `s.indexOf(x)`: the first position of `x`, or -1 when `x` is absent. */
  function IndexOf<T(==)>(s: seq<T>, x: T): (i: int)
    ensures -1 <= i < |s|
    ensures i == -1 <==> x !in s
    ensures 0 <= i ==> s[i] == x && x !in s[..i]
  {
    if s == [] then -1
    else if s[0] == x then 0
    else
      var k := IndexOf(s[1..], x);
      assert k >= 0 ==> s[..k + 1] == [s[0]] + s[1..][..k];
      if k == -1 then -1 else k + 1
  }

  /** `if (!s.includes(x)) s.push(x)`: a set-like insertion that appends a new
      element at the end and otherwise leaves the list as it was. */
  function AddIfAbsent<T(==)>(s: seq<T>, x: T): (r: seq<T>)
    ensures x in r
    ensures forall i :: 0 <= i < |r| ==> r[i] in s || r[i] == x
    ensures |s| <= |r| <= |s| + 1
    ensures r[..|s|] == s
    ensures Distinct(s) ==> Distinct(r)
  {
    if x in s then s else s + [x]
  }

  /** Inserting an element that is already there changes nothing. */
  lemma AddIfAbsentIdempotent<T>(s: seq<T>, x: T)
    ensures AddIfAbsent(AddIfAbsent(s, x), x) == AddIfAbsent(s, x)
  {
  }

  /** `s.filter(p => p !== x)`. */
  function Remove<T(==,!new)>(s: seq<T>, x: T): (r: seq<T>)
    ensures forall y :: y in r <==> y in s && y != x
    ensures |r| <= |s|
    ensures x !in s ==> r == s
  {
    if s == [] then []
    else (if s[0] == x then [] else [s[0]]) + Remove(s[1..], x)
  }

  /** Filtering a list without duplicates leaves one without duplicates. */
  lemma {:induction false} RemoveDistinct<T(!new)>(s: seq<T>, x: T)
    requires Distinct(s)
    ensures Distinct(Remove(s, x))
  {
    if s != [] {
      var rest := Remove(s[1..], x);
      RemoveDistinct(s[1..], x);
      OnlyOnce(s, 0);
      if s[0] != x {
        var r := [s[0]] + rest;
        forall i, j | 0 <= i < j < |r| ensures r[i] != r[j] {
          assert r[j] == rest[j - 1];
          if i > 0 {
            assert r[i] == rest[i - 1];
          } else {
            assert rest[j - 1] in rest;
          }
        }
      }
    }
  }

  /** Filtering distributes over concatenation. */
  lemma {:induction false} RemoveConcat<T(!new)>(a: seq<T>, b: seq<T>, x: T)
    ensures Remove(a + b, x) == Remove(a, x) + Remove(b, x)
  {
    if a == [] {
      assert a + b == b;
    } else {
      assert (a + b)[1..] == a[1..] + b;
      RemoveConcat(a[1..], b, x);
    }
  }

  /** In a list without duplicates, an element does not occur again later on. */
  lemma {:induction false} OnlyOnce<T>(s: seq<T>, i: nat)
    requires Distinct(s) && i < |s|
    ensures s[i] !in s[i + 1..]
  {
    forall j | i + 1 <= j < |s| ensures s[j] != s[i] {}
  }

  /** In a list without duplicates, removing a member cuts exactly that one
      position out: everybody else keeps their relative order. */
  lemma {:induction false} RemoveCutsOut<T(!new)>(s: seq<T>, x: T)
    requires Distinct(s) && x in s
    ensures Remove(s, x) == s[..IndexOf(s, x)] + s[IndexOf(s, x) + 1..]
    ensures |Remove(s, x)| == |s| - 1
  {
    var i := IndexOf(s, x);
    var a, b := s[..i], s[i + 1..];
    assert s == a + [x] + b;
    OnlyOnce(s, i);
    assert Remove(a, x) == a;
    assert Remove(b, x) == b;
    assert Remove([x], x) == [] by {
      assert [x][1..] == [];
    }
    RemoveConcat(a, [x], x);
    assert Remove(a + [x], x) == a by {
      assert a + [] == a;
    }
    RemoveConcat(a + [x], b, x);
    assert Remove(s, x) == a + b;
  }

  /** A list without duplicates has as many elements as it has members. */
  lemma {:induction false} DistinctCardinality<T>(s: seq<T>)
    requires Distinct(s)
    ensures |Elements(s)| == |s|
  {
    if s != [] {
      DistinctCardinality(s[1..]);
      assert Elements(s) == Elements(s[1..]) + {s[0]};
      assert s[0] !in Elements(s[1..]);
    }
  }

  /** Two lists without duplicates, the first drawn from the second, are of
      equal length exactly when the first contains every member of the second. */
  lemma {:induction false} SameLengthCovers<T>(a: seq<T>, b: seq<T>)
    requires Distinct(a) && Distinct(b)
    requires forall x :: x in a ==> x in b
    ensures |a| == |b| <==> forall x :: x in b ==> x in a
  {
    DistinctCardinality(a);
    DistinctCardinality(b);
    var A, B := Elements(a), Elements(b);
    assert A <= B;
    assert |B| == |B - A| + |A| by {
      assert B == (B - A) + A;
      assert (B - A) !! A;
    }
    if |a| == |b| {
      assert B - A == {};
      forall x | x in b ensures x in a {
        assert x in B;
      }
    }
    if forall x :: x in b ==> x in a {
      assert A == B;
    }
  }
}
