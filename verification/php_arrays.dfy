/**
 * PHP arrays with integer keys, as far as the role handling of `User` needs
 * them: an ordered list of key/value entries with distinct keys and the
 * "next free element" that `$a[] = $v` appends at. `unset` removes an entry
 * without renumbering and without lowering the next free key.
 */
module PhpArrays {
  import opened Wrappers

  datatype Entry = Entry(key: int, value: string)

  datatype PhpArray = PhpArray(entries: seq<Entry>, next: nat)

  /** The empty array `[]`. */
  const Empty: PhpArray := PhpArray([], 0)

  /** The list literal `[$v]`: the value at key 0, next free key 1. */
  function Singleton(v: string): PhpArray {
    PhpArray([Entry(0, v)], 1)
  }

  predicate DistinctKeys(es: seq<Entry>) {
    forall i, j :: 0 <= i < j < |es| ==> es[i].key != es[j].key
  }

  predicate DistinctValues(es: seq<Entry>) {
    forall i, j :: 0 <= i < j < |es| ==> es[i].value != es[j].value
  }

  /** What PHP itself maintains for every array: keys are unique and below the next free key. */
  predicate WellFormed(a: PhpArray) {
    && DistinctKeys(a.entries)
    && forall e :: e in a.entries ==> e.key < a.next
  }

  function ValuesOf(es: seq<Entry>): set<string> {
    set e | e in es :: e.value
  }

  function Values(a: PhpArray): set<string> {
    ValuesOf(a.entries)
  }

  /** `$a[$k]` when `isset($a[$k])`, None otherwise. */
  function Lookup(a: PhpArray, k: int): (r: Option<string>)
    ensures r.Some? <==> exists e :: e in a.entries && e.key == k
    ensures r.Some? ==> Entry(k, r.value) in a.entries
    ensures WellFormed(a) ==> forall e :: e in a.entries && e.key == k ==> r == Some(e.value)
  {
    LookupIn(a.entries, k)
  }

  function LookupIn(es: seq<Entry>, k: int): (r: Option<string>)
    ensures r.Some? <==> exists e :: e in es && e.key == k
    ensures r.Some? ==> Entry(k, r.value) in es
    ensures DistinctKeys(es) ==> forall e :: e in es && e.key == k ==> r == Some(e.value)
  {
    if es == [] then None
    else if es[0].key == k then Some(es[0].value)
    else
      assert forall e :: e in es[1..] ==> e in es;
      LookupIn(es[1..], k)
  }

  /** `$a[] = $v`: the value goes to the next free key, which then moves on. */
  function Append(a: PhpArray, v: string): (r: PhpArray)
    ensures a.entries <= r.entries && |r.entries| == |a.entries| + 1
    ensures r.next == a.next + 1
    ensures Values(r) == Values(a) + {v}
    ensures WellFormed(a) ==> WellFormed(r)
    ensures WellFormed(a) ==> Lookup(r, a.next) == Some(v)
    ensures WellFormed(a) ==> forall k :: k != a.next ==> Lookup(r, k) == Lookup(a, k)
  {
    PhpArray(a.entries + [Entry(a.next, v)], a.next + 1)
  }

  /** `unset($a[$k])`: the entry at key k goes, the others keep key and order, next is unchanged. */
  function Unset(a: PhpArray, k: int): (r: PhpArray)
    ensures r.next == a.next
    ensures Lookup(r, k) == None
    ensures forall e :: e in r.entries <==> e in a.entries && e.key != k
    ensures WellFormed(a) ==> WellFormed(r)
    ensures WellFormed(a) ==> forall j :: j != k ==> Lookup(r, j) == Lookup(a, j)
  {
    PhpArray(WithoutKey(a.entries, k), a.next)
  }

  function WithoutKey(es: seq<Entry>, k: int): (r: seq<Entry>)
    ensures forall e :: e in r <==> e in es && e.key != k
    ensures DistinctKeys(es) ==> DistinctKeys(r)
  {
    if es == [] then []
    else if es[0].key == k then WithoutKey(es[1..], k)
    else [es[0]] + WithoutKey(es[1..], k)
  }

  /** True when entry i is the first entry of es that holds its value. */
  predicate FirstOccurrence(es: seq<Entry>, i: int)
    requires 0 <= i < |es|
  {
    forall j :: 0 <= j < i ==> es[j].value != es[i].value
  }

  /**
   * `array_unique($a)`: keeps, for each value, the first entry holding it
   * (key included) and drops the later ones.
   */
  function Unique(a: PhpArray): (r: PhpArray)
    ensures r.next == a.next
    ensures forall e :: e in r.entries ==> e in a.entries
    ensures DistinctValues(r.entries)
    ensures Values(r) == Values(a)
    ensures DistinctKeys(a.entries) ==>
      forall i :: 0 <= i < |a.entries| ==> (a.entries[i] in r.entries <==> FirstOccurrence(a.entries, i))
  {
    var r := PhpArray(UniqueFrom(a.entries, {}), a.next);
    assert DistinctKeys(a.entries) ==>
      forall i | 0 <= i < |a.entries| :: (a.entries[i] in r.entries <==> FirstOccurrence(a.entries, i)) by {
      if DistinctKeys(a.entries) {
        forall i | 0 <= i < |a.entries|
          ensures a.entries[i] in r.entries <==> FirstOccurrence(a.entries, i)
        {
          UniqueFromKeepsFirst(a.entries, {}, i);
        }
      }
    }
    r
  }

  /** The entries of es whose value is not in `seen` and not held by an earlier entry. */
  function UniqueFrom(es: seq<Entry>, seen: set<string>): (r: seq<Entry>)
    ensures forall e :: e in r ==> e in es && e.value !in seen
    ensures DistinctValues(r)
    ensures ValuesOf(r) == ValuesOf(es) - seen
  {
    if es == [] then []
    else
      var h, t := es[0], es[1..];
      assert ValuesOf(es) == ValuesOf(t) + {h.value};
      if h.value in seen then UniqueFrom(t, seen)
      else
        var rest := UniqueFrom(t, seen + {h.value});
        assert ValuesOf([h] + rest) == ValuesOf(rest) + {h.value};
        [h] + rest
  }

  /** UniqueFrom keeps exactly the first occurrence of every value not yet seen. */
  lemma {:induction false} UniqueFromKeepsFirst(es: seq<Entry>, seen: set<string>, i: int)
    requires DistinctKeys(es)
    requires 0 <= i < |es|
    ensures es[i] in UniqueFrom(es, seen) <==> es[i].value !in seen && FirstOccurrence(es, i)
  {
    var h, t := es[0], es[1..];
    if i == 0 {
      if h.value in seen {
        // h is kept nowhere: the rest holds no entry with h's key
        assert h !in t by {
          forall j | 0 <= j < |t| ensures t[j] != h {
            assert t[j] == es[j + 1];
          }
        }
      }
    } else {
      assert es[i] == t[i - 1];
      assert DistinctKeys(t);
      assert es[i] != h;
      var seen' := if h.value in seen then seen else seen + {h.value};
      UniqueFromKeepsFirst(t, seen', i - 1);
      assert FirstOccurrence(es, i) <==> h.value != es[i].value && FirstOccurrence(t, i - 1) by {
        if FirstOccurrence(t, i - 1) && h.value != es[i].value {
          forall j | 0 <= j < i ensures es[j].value != es[i].value {
            if j > 0 { assert es[j] == t[j - 1]; }
          }
        }
        if FirstOccurrence(es, i) {
          forall j | 0 <= j < i - 1 ensures t[j].value != t[i - 1].value {
            assert t[j] == es[j + 1];
          }
        }
      }
    }
  }
}
