/**
 * The operations of .NET's `List<T>` that the core relies on, stated on
 * sequences: `IndexOf` (first occurrence by reference), `Remove` (drop the
 * first occurrence), `Insert`, and the order-preserving filters used to
 * describe which tasks move between lists.
 */
module Lists {

  /** No element occurs twice. */
  ghost predicate Distinct<T>(s: seq<T>) {
    forall i, j :: 0 <= i < j < |s| ==> s[i] != s[j]
  }

  /** `List<T>.IndexOf`: the index of the first occurrence of `x`, or -1. */
  function IndexOf<T(==)>(s: seq<T>, x: T): (k: int)
    ensures -1 <= k < |s|
    ensures k == -1 <==> x !in s
    ensures 0 <= k ==> s[k] == x && forall j :: 0 <= j < k ==> s[j] != x
  {
    if s == [] then -1
    else if s[0] == x then 0
    else
      var k := IndexOf(s[1..], x);
      if k == -1 then -1 else k + 1
  }

  /** `List<T>.Remove`: drops the first occurrence of `x`, if any. */
  function Remove<T(==)>(s: seq<T>, x: T): (r: seq<T>)
    ensures x !in s ==> r == s
    ensures x in s ==> |r| == |s| - 1
  {
    var k := IndexOf(s, x);
    if k < 0 then s else s[..k] + s[k + 1..]
  }

  /** `Remove` takes out one occurrence of `x` and keeps every other element. */
  lemma RemoveOne<T>(s: seq<T>, x: T)
    ensures multiset(Remove(s, x)) == multiset(s) - multiset{x}
  {
    var k := IndexOf(s, x);
    if k >= 0 {
      assert s == s[..k] + [x] + s[k + 1..];
    }
  }

  /** `List<T>.Insert`: puts `x` at index `k`, shifting the rest up by one. */
  function Insert<T>(s: seq<T>, k: nat, x: T): (r: seq<T>)
    requires k <= |s|
    ensures |r| == |s| + 1 && r[k] == x
    ensures r[..k] == s[..k] && r[k + 1..] == s[k..]
  {
    s[..k] + [x] + s[k..]
  }

  /** Removing an element that no earlier position holds takes out exactly that position. */
  lemma RemoveFirst<T>(a: seq<T>, x: T, b: seq<T>)
    requires x !in a
    ensures Remove(a + [x] + b, x) == a + b
  {
    var s := a + [x] + b;
    assert s[|a|] == x;
    assert forall j :: 0 <= j < |a| ==> s[j] == a[j];
    var k := IndexOf(s, x);
    assert k == |a|;
    assert s[..k] == a && s[k + 1..] == b;
  }

  /** The elements of `s` that lie in `f`, in the order of `s`. */
  function Within<T>(s: seq<T>, f: set<T>): (r: seq<T>)
    ensures forall i :: 0 <= i < |r| ==> r[i] in f
    ensures |r| <= |s|
  {
    if s == [] then [] else (if s[0] in f then [s[0]] else []) + Within(s[1..], f)
  }

  /** The elements of `s` that lie outside `f`, in the order of `s`. */
  function Without<T>(s: seq<T>, f: set<T>): (r: seq<T>)
    ensures forall i :: 0 <= i < |r| ==> r[i] !in f
    ensures |r| <= |s|
  {
    if s == [] then [] else (if s[0] in f then [] else [s[0]]) + Without(s[1..], f)
  }

  /** The filters keep exactly the elements of `s` on their side of `f`. */
  lemma {:induction false} FilterMembers<T>(s: seq<T>, f: set<T>)
    ensures forall x :: x in Within(s, f) <==> x in s && x in f
    ensures forall x :: x in Without(s, f) <==> x in s && x !in f
  {
    if s != [] {
      FilterMembers(s[1..], f);
      assert s == [s[0]] + s[1..];
      var a, b := if s[0] in f then [s[0]] else [], if s[0] in f then [] else [s[0]];
      assert Within(s, f) == a + Within(s[1..], f);
      assert Without(s, f) == b + Without(s[1..], f);
      forall x ensures x in Within(s, f) <==> x in s && x in f {
        assert x in a + Within(s[1..], f) <==> x in a || x in Within(s[1..], f);
      }
      forall x ensures x in Without(s, f) <==> x in s && x !in f {
        assert x in b + Without(s[1..], f) <==> x in b || x in Without(s[1..], f);
      }
    }
  }

  /** Filtering distributes over concatenation, so a loop may filter one element at a time. */
  lemma {:induction false} WithinAppend<T>(a: seq<T>, b: seq<T>, f: set<T>)
    ensures Within(a + b, f) == Within(a, f) + Within(b, f)
  {
    if a == [] {
      assert a + b == b;
    } else {
      assert (a + b)[0] == a[0];
      assert (a + b)[1..] == a[1..] + b;
      WithinAppend(a[1..], b, f);
    }
  }

  lemma {:induction false} WithoutAppend<T>(a: seq<T>, b: seq<T>, f: set<T>)
    ensures Without(a + b, f) == Without(a, f) + Without(b, f)
  {
    if a == [] {
      assert a + b == b;
    } else {
      assert (a + b)[0] == a[0];
      assert (a + b)[1..] == a[1..] + b;
      WithoutAppend(a[1..], b, f);
    }
  }

  /** A filter of a distinct sequence is distinct. */
  lemma {:induction false} FilterDistinct<T>(s: seq<T>, f: set<T>)
    requires Distinct(s)
    ensures Distinct(Within(s, f)) && Distinct(Without(s, f))
  {
    if s != [] {
      assert Distinct(s[1..]) by {
        forall i, j | 0 <= i < j < |s[1..]| ensures s[1..][i] != s[1..][j] {
          assert s[1..][i] == s[i + 1] && s[1..][j] == s[j + 1];
        }
      }
      FilterDistinct(s[1..], f);
      FilterMembers(s[1..], f);
      assert s[0] !in s[1..] by {
        forall j | 0 <= j < |s[1..]| ensures s[1..][j] != s[0] {
          assert s[1..][j] == s[j + 1];
        }
      }
    }
  }
  /** Replacing one position of a distinct sequence by new distinct elements keeps it distinct. */
  lemma DistinctReplace<T>(s: seq<T>, i: nat, p: seq<T>)
    requires Distinct(s) && Distinct(p) && i < |s|
    requires forall k :: 0 <= k < |p| ==> p[k] !in s
    ensures Distinct(s[..i] + p + s[i + 1..])
    ensures forall x :: x in s[..i] + p + s[i + 1..] <==> (x in s && x != s[i]) || x in p
  {
    var r := s[..i] + p + s[i + 1..];
    var n := |p|;
    assert forall k :: 0 <= k < i ==> r[k] == s[k];
    assert forall k :: i <= k < i + n ==> r[k] == p[k - i];
    assert forall k :: i + n <= k < |r| ==> r[k] == s[k - n + 1];
    forall a, b | 0 <= a < b < |r| ensures r[a] != r[b] {
      if b < i || i + n <= a {
      } else if a < i && b < i + n {
        assert r[b] in p;
      } else if a < i {
      } else if b < i + n {
      } else {
        assert r[a] in p;
      }
    }
    forall x ensures x in r <==> (x in s && x != s[i]) || x in p {
      if x in s && x != s[i] {
        var k :| 0 <= k < |s| && s[k] == x;
        if k < i { assert r[k] == x; } else { assert r[k + n - 1] == x; }
      }
      if x in p {
        var k :| 0 <= k < |p| && p[k] == x;
        assert r[i + k] == x;
      }
    }
  }

  /** Removing from a distinct sequence keeps it distinct and takes out exactly that element. */
  lemma RemoveDistinct<T>(s: seq<T>, x: T)
    requires Distinct(s)
    ensures Distinct(Remove(s, x))
    ensures forall y :: y in Remove(s, x) <==> y in s && y != x
  {
    var k := IndexOf(s, x);
    if k >= 0 {
      var r := s[..k] + s[k + 1..];
      assert forall j :: 0 <= j < k ==> r[j] == s[j];
      assert forall j :: k <= j < |r| ==> r[j] == s[j + 1];
      forall y ensures y in r <==> y in s && y != x {
        if y in s && y != x {
          var j :| 0 <= j < |s| && s[j] == y;
          if j < k { assert r[j] == y; } else { assert r[j - 1] == y; }
        }
      }
    }
  }

  /** The two filters split a sequence: together they hold each element as often as it holds it. */
  lemma {:induction false} FilterPartition<T>(s: seq<T>, f: set<T>)
    ensures multiset(Within(s, f)) + multiset(Without(s, f)) == multiset(s)
  {
    if s != [] {
      var w, o := Within(s[1..], f), Without(s[1..], f);
      FilterPartition(s[1..], f);
      assert s == [s[0]] + s[1..];
      assert multiset(s) == multiset([s[0]]) + multiset(s[1..]);
      if s[0] in f {
        assert Within(s, f) == [s[0]] + w && Without(s, f) == o;
        assert multiset([s[0]] + w) == multiset([s[0]]) + multiset(w);
      } else {
        assert Within(s, f) == w && Without(s, f) == [s[0]] + o;
        assert multiset([s[0]] + o) == multiset([s[0]]) + multiset(o);
      }
    }
  }

  /** Extending the filtered prefix of `s` by one element. */
  lemma FilterStep<T>(s: seq<T>, k: nat, f: set<T>)
    requires k < |s|
    ensures Within(s[..k + 1], f) == Within(s[..k], f) + (if s[k] in f then [s[k]] else [])
    ensures Without(s[..k + 1], f) == Without(s[..k], f) + (if s[k] in f then [] else [s[k]])
  {
    assert s[..k + 1] == s[..k] + [s[k]];
    WithinAppend(s[..k], [s[k]], f);
    WithoutAppend(s[..k], [s[k]], f);
  }

  /** Concatenation is associative. */
  lemma AppendAssoc<T>(a: seq<T>, b: seq<T>, c: seq<T>)
    ensures a + b + c == a + (b + c)
  {
  }

  /** In a distinct `w + s[k..]`, the element `s[k]` does not occur in `w`. */
  lemma NotBefore<T>(w: seq<T>, s: seq<T>, k: nat)
    requires k < |s| && Distinct(w + s[k..])
    ensures s[k] !in w
  {
    var all := w + s[k..];
    assert all[|w|] == s[k];
    assert forall i :: 0 <= i < |w| ==> all[i] == w[i];
  }

  /** The element at position `k` heads the rest `s[k..]`; removing it from `w + s[k..]` leaves `w + s[k + 1..]`. */
  lemma HeadOfRest<T>(w: seq<T>, s: seq<T>, k: nat)
    requires k < |s| && s[k] !in w
    ensures (w + s[k..])[|w|] == s[k]
    ensures w + s[k..] == w + [s[k]] + s[k + 1..]
    ensures Remove(w + s[k..], s[k]) == w + s[k + 1..]
  {
    assert s[k..] == [s[k]] + s[k + 1..];
    assert w + s[k..] == w + [s[k]] + s[k + 1..];
    RemoveFirst(w, s[k], s[k + 1..]);
  }
}
