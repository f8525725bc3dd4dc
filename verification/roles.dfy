/**
 * The role logic of the `User` entity on its stored `roles` array:
 * `getRoles`, `checkIfAdmin`, `makeAdmin`, `divestAdmin`, and the
 * admin toggle that the user controller builds from them.
 */
module Roles {
  import opened Wrappers
  import opened PhpArrays

  const ROLE_USER := "ROLE_USER"
  const ROLE_ADMIN := "ROLE_ADMIN"

  /** The roles a user is registered with: `['ROLE_USER']`. */
  function Registered(): PhpArray {
    Singleton(ROLE_USER)
  }

  /**
   * `getRoles()`: a copy of the stored roles with ROLE_USER appended and
   * duplicates dropped. It works on the copy: the stored array is a value here.
   */
  function Effective(stored: PhpArray): (r: PhpArray)
    ensures ROLE_USER in Values(r)
    ensures DistinctValues(r.entries)
    ensures Values(r) == Values(stored) + {ROLE_USER}
    ensures forall e :: e in r.entries ==> e in stored.entries || e == Entry(stored.next, ROLE_USER)
  {
    Unique(Append(stored, ROLE_USER))
  }

  /** What `checkIfAdmin()` answers: ROLE_ADMIN is among the effective roles. */
  predicate IsAdmin(stored: PhpArray) {
    ROLE_ADMIN in Values(Effective(stored))
  }

  /** `makeAdmin()`: ROLE_ADMIN appended at the next free key. */
  function Granted(stored: PhpArray): (r: PhpArray)
    ensures IsAdmin(r)
    ensures stored.entries <= r.entries && |r.entries| == |stored.entries| + 1
    ensures r.next == stored.next + 1
    ensures WellFormed(stored) ==> WellFormed(r) && Lookup(r, stored.next) == Some(ROLE_ADMIN)
  {
    Append(stored, ROLE_ADMIN)
  }

  /**
   * `divestAdmin()` as written: the entry at key 1 is unset when it holds
   * ROLE_ADMIN; no other key is looked at.
   */
  function Divested(stored: PhpArray): (r: PhpArray)
    ensures r.next == stored.next
    ensures Lookup(stored, 1) == Some(ROLE_ADMIN) ==> Lookup(r, 1) == None
    ensures Lookup(stored, 1) != Some(ROLE_ADMIN) ==> r == stored
    ensures WellFormed(stored) ==> forall e :: e in r.entries <==> e in stored.entries && e != Entry(1, ROLE_ADMIN)
    ensures WellFormed(stored) ==> WellFormed(r) && forall k :: k != 1 ==> Lookup(r, k) == Lookup(stored, k)
  {
    if Lookup(stored, 1) == Some(ROLE_ADMIN) then Unset(stored, 1) else stored
  }

  /** A ROLE_ADMIN stored at any key other than 1 survives `divestAdmin()`. */
  lemma AdminElsewhereSurvivesDivest(stored: PhpArray, k: int)
    requires WellFormed(stored)
    requires k != 1 && Entry(k, ROLE_ADMIN) in stored.entries
    ensures IsAdmin(Divested(stored))
  {
    assert Entry(k, ROLE_ADMIN) in Divested(stored).entries;
  }

  /**
   * A user whose stored roles are `[]` (the entity's default) and who is made
   * admin holds ROLE_ADMIN at key 0, which `divestAdmin()` never removes.
   */
  lemma DivestAfterGrantOnEmptyStaysAdmin()
    ensures Granted(Empty) == PhpArray([Entry(0, ROLE_ADMIN)], 1)
    ensures Divested(Granted(Empty)) == Granted(Empty)
    ensures IsAdmin(Divested(Granted(Empty)))
  {
    assert Lookup(Granted(Empty), 1) == None;
  }

  /** The intended `divestAdmin()`: every ROLE_ADMIN entry is unset, the rest keep key and order. */
  function Revoked(stored: PhpArray): (r: PhpArray)
    ensures !IsAdmin(r)
    ensures r.next == stored.next
    ensures forall e :: e in r.entries <==> e in stored.entries && e.value != ROLE_ADMIN
    ensures WellFormed(stored) ==> WellFormed(r)
  {
    PhpArray(WithoutValue(stored.entries, ROLE_ADMIN), stored.next)
  }

  function WithoutValue(es: seq<Entry>, v: string): (r: seq<Entry>)
    ensures forall e :: e in r <==> e in es && e.value != v
    ensures DistinctKeys(es) ==> DistinctKeys(r)
  {
    if es == [] then []
    else if es[0].value == v then WithoutValue(es[1..], v)
    else [es[0]] + WithoutValue(es[1..], v)
  }

  /** The admin toggle of the role-edit page, on the stored roles, with `divestAdmin()` as written. */
  function ToggledAsWritten(stored: PhpArray): PhpArray {
    if IsAdmin(stored) then Divested(stored) else Granted(stored)
  }

  /** The admin toggle with the intended revocation. */
  function Toggled(stored: PhpArray): PhpArray {
    if IsAdmin(stored) then Revoked(stored) else Granted(stored)
  }

  /**
   * From the default roles, a grant followed by the as-written toggle leaves
   * the user admin: the revocation of the role page does nothing.
   */
  lemma GrantedEmptyToggleStaysAdmin()
    ensures IsAdmin(Granted(Empty))
    ensures IsAdmin(ToggledAsWritten(Granted(Empty)))
    ensures ToggledAsWritten(Granted(Empty)) == Granted(Empty)
  {
    DivestAfterGrantOnEmptyStaysAdmin();
  }

  /** The intended toggle always flips the admin status and keeps the array well formed. */
  lemma ToggledFlips(stored: PhpArray)
    ensures IsAdmin(Toggled(stored)) == !IsAdmin(stored)
    ensures WellFormed(stored) ==> WellFormed(Toggled(stored))
  {
  }

  /**
   * From non-admin roles whose next free key is 1 (a list of one role), one
   * toggle as written puts ROLE_ADMIN at key 1 and a second one unsets it
   * again, leaving the original entries and the next free key at 2.
   */
  lemma ToggledTwiceFromNextKeyOne(stored: PhpArray)
    requires WellFormed(stored) && !IsAdmin(stored) && stored.next == 1
    ensures IsAdmin(ToggledAsWritten(stored))
    ensures Lookup(ToggledAsWritten(stored), 1) == Some(ROLE_ADMIN)
    ensures WellFormed(ToggledAsWritten(ToggledAsWritten(stored)))
    ensures forall e :: e in ToggledAsWritten(ToggledAsWritten(stored)).entries <==> e in stored.entries
    ensures ToggledAsWritten(ToggledAsWritten(stored)).next == 2
    ensures Lookup(ToggledAsWritten(ToggledAsWritten(stored)), 1) == None
    ensures !IsAdmin(ToggledAsWritten(ToggledAsWritten(stored)))
  {
    var r1 := ToggledAsWritten(stored);
    assert r1 == Granted(stored);
    var r2 := ToggledAsWritten(r1);
    assert r2 == Divested(r1);
    forall e | e in r2.entries ensures e in stored.entries {
      assert e in r1.entries && e != Entry(1, ROLE_ADMIN);
    }
    assert ROLE_ADMIN !in Values(r2) by {
      forall e | e in r2.entries ensures e.value != ROLE_ADMIN {
        assert e.value in Values(stored);
      }
    }
  }

  /** From the registration roles, two toggles as written grant and then withdraw admin. */
  lemma RegisteredToggledTwice()
    ensures !IsAdmin(Registered())
    ensures IsAdmin(ToggledAsWritten(Registered()))
    ensures !IsAdmin(ToggledAsWritten(ToggledAsWritten(Registered())))
    ensures WellFormed(ToggledAsWritten(ToggledAsWritten(Registered())))
    ensures Lookup(ToggledAsWritten(ToggledAsWritten(Registered())), 1) == None
    ensures ToggledAsWritten(ToggledAsWritten(Registered())).next == 2
  {
    var r0 := Registered();
    assert Values(r0) == {ROLE_USER} by {
      assert forall e :: e in r0.entries ==> e == Entry(0, ROLE_USER);
      assert r0.entries[0] == Entry(0, ROLE_USER);
    }
    ToggledTwiceFromNextKeyOne(r0);
  }

  /**
   * Once key 1 is free and the next free key is past it, a grant puts
   * ROLE_ADMIN where the as-written toggle never looks: the next toggle
   * leaves the roles as they are. Within one object this is where the
   * third toggle from the registration roles ends up (see RegisteredToggledTwice).
   */
  lemma GrantPastKeyOneSticks(stored: PhpArray)
    requires WellFormed(stored) && !IsAdmin(stored)
    requires Lookup(stored, 1) == None && stored.next != 1
    ensures IsAdmin(ToggledAsWritten(stored))
    ensures ToggledAsWritten(ToggledAsWritten(stored)) == ToggledAsWritten(stored)
  {
    var g := Granted(stored);
    assert Lookup(g, 1) == None;
  }
}
