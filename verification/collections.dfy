/**
 * Doctrine `ArrayCollection`s as the entities use them: `contains` (strict,
 * so by reference for objects), append after a `contains` check, and
 * `removeElement`, which drops the first occurrence and keeps the order of
 * the rest.
 */
module Collections {

  predicate NoDup<T(==)>(s: seq<T>) {
    forall i, j :: 0 <= i < j < |s| ==> s[i] != s[j]
  }

  /** `if (!$c->contains($x)) { $c[] = $x; }` */
  function Added<T(==)>(s: seq<T>, x: T): (r: seq<T>)
    ensures x in r
    ensures forall y :: y in r ==> y in s || y == x
    ensures s <= r && |r| <= |s| + 1
    ensures x in s <==> r == s
    ensures NoDup(s) ==> NoDup(r)
  {
    if x in s then s else s + [x]
  }

  /** The index of the first occurrence of x in s. */
  function IndexOf<T(==)>(s: seq<T>, x: T): (i: nat)
    requires x in s
    ensures i < |s| && s[i] == x && x !in s[..i]
  {
    if s[0] == x then 0 else 1 + IndexOf(s[1..], x)
  }

  /** `$c->removeElement($x)`: the first occurrence of x goes, the rest keep their order. */
  function Removed<T(==)>(s: seq<T>, x: T): (r: seq<T>)
    ensures x !in s ==> r == s
    ensures x in s ==> r == s[..IndexOf(s, x)] + s[IndexOf(s, x) + 1..]
    ensures x in s ==> |r| == |s| - 1
  {
    if x in s then s[..IndexOf(s, x)] + s[IndexOf(s, x) + 1..] else s
  }

  /** After a removal, position k holds what s held at k before the removed index and at k + 1 after it. */
  lemma RemovedAt<T>(s: seq<T>, x: T, k: int)
    requires x in s && 0 <= k < |Removed(s, x)|
    ensures Removed(s, x)[k] == s[if k < IndexOf(s, x) then k else k + 1]
  {
    var i := IndexOf(s, x);
    var front, back := s[..i], s[i + 1..];
    assert Removed(s, x) == front + back;
    if k < i {
      assert (front + back)[k] == front[k];
    } else {
      assert (front + back)[k] == back[k - i];
    }
  }

  /** In a duplicate-free collection, removal leaves x absent and everything else present. */
  lemma RemovedFromNoDup<T>(s: seq<T>, x: T)
    requires NoDup(s)
    ensures NoDup(Removed(s, x))
    ensures x !in Removed(s, x)
    ensures forall y :: y in Removed(s, x) <==> y in s && y != x
  {
    if x in s {
      var i := IndexOf(s, x);
      var r := Removed(s, x);
      forall a, b | 0 <= a < b < |r| ensures r[a] != r[b] {
        RemovedAt(s, x, a);
        RemovedAt(s, x, b);
      }
      forall y | y in r ensures y in s && y != x {
        var k :| 0 <= k < |r| && r[k] == y;
        RemovedAt(s, x, k);
      }
      forall y | y in s && y != x ensures y in r {
        var k :| 0 <= k < |s| && s[k] == y;
        RemovedAt(s, x, if k < i then k else k - 1);
      }
    }
  }

  /** A duplicate-free collection holds a member exactly once. */
  lemma OnceIn<T>(s: seq<T>, x: T)
    requires NoDup(s) && x in s
    ensures multiset(s)[x] == 1
  {
    var i := IndexOf(s, x);
    assert s == s[..i] + [x] + s[i + 1..];
    assert x !in s[i + 1..] by {
      forall k | i + 1 <= k < |s| ensures s[k] != x { }
    }
    assert multiset(s) == multiset(s[..i]) + multiset{x} + multiset(s[i + 1..]);
  }

  /** Adding is idempotent. */
  lemma AddedTwice<T>(s: seq<T>, x: T)
    ensures Added(Added(s, x), x) == Added(s, x)
  {
  }

  /** Adding an absent element and removing it again restores the collection. */
  lemma {:induction false} AddedThenRemoved<T>(s: seq<T>, x: T)
    requires x !in s
    ensures Removed(Added(s, x), x) == s
  {
    var t := s + [x];
    assert Added(s, x) == t;
    assert t[|s|] == x && x !in t[..|s|] by { assert t[..|s|] == s; }
    IndexOfFirst(t, x, |s|);
    assert t[..|s|] == s && t[|s| + 1..] == [];
  }

  /** The first position holding x is its index. */
  lemma {:induction false} IndexOfFirst<T>(s: seq<T>, x: T, i: nat)
    requires i < |s| && s[i] == x && x !in s[..i]
    ensures IndexOf(s, x) == i
  {
    if i > 0 {
      assert s[0] != x by { assert s[0] == s[..i][0]; }
      assert s[1..][i - 1] == x;
      assert x !in s[1..][..i - 1] by { assert s[1..][..i - 1] == s[1..i]; assert forall y :: y in s[1..i] ==> y in s[..i]; }
      IndexOfFirst(s[1..], x, i - 1);
    }
  }
}
