/** Write authorisation on books. The policy class the book views use is not part
    of this model; what is known of it is what the API tests pin down, and that
    is all `Pinned` says. Lemmas about the store take as a premise that the policy
    agrees with it. */
module Permissions {
  import opened Domain

  /** What a request does to a book: read it (a safe method), create one, or
      update or delete an existing one. */
  datatype Action = Read | Create | Update | Destroy

  /** What the tests fix for a request: allowed, denied, or nothing. */
  datatype Decision = Allow | Deny | Unpinned

  /** A policy decides a request by an (optional, authenticated) user, an action
      and the book it acts on (none for a read of the list or a create). */
  type Policy = (Option<User>, Action, Option<Book>) -> bool

  /** The decisions the API tests pin down, and only those.
      Reads are allowed to anyone; an authenticated user may create. For updates:
      the owner (not staff) of an unpublished book is allowed, of a published book
      denied; a non-owner who is not staff is denied; a staff non-owner is allowed on
      an unpublished book. For deletes: the owner (not staff) of an unpublished book
      is allowed, a non-owner who is not staff denied. */
  function Pinned(who: Option<User>, a: Action, b: Option<Book>): (d: Decision)
    ensures a == Read ==> d == Allow
    ensures a != Read && d != Unpinned ==> who.Some?
    ensures (a == Update || a == Destroy) && d == Allow ==>
      b.Some? && !b.value.isPublished && (b.value.owner == Some(who.value.id) || who.value.isStaff)
    ensures d == Deny ==> !who.value.isStaff
    ensures a == Destroy && d == Deny ==> b.Some? && b.value.owner != Some(who.value.id)
  {
    match a
    case Read => Allow
    case Create => if who.Some? then Allow else Unpinned
    case Update =>
      if who.None? || b.None? then Unpinned
      else
        var u := who.value;
        var owns := b.value.owner == Some(u.id);
        if owns && !u.isStaff then (if b.value.isPublished then Deny else Allow)
        else if !owns && !u.isStaff && !b.value.isPublished then Deny
        else if !owns && u.isStaff && !b.value.isPublished then Allow
        else Unpinned
    case Destroy =>
      if who.None? || b.None? then Unpinned
      else
        var u := who.value;
        var owns := b.value.owner == Some(u.id);
        if owns && !u.isStaff && !b.value.isPublished then Allow
        else if !owns && !u.isStaff && !b.value.isPublished then Deny
        else Unpinned
  }

  /** A policy's answer does not contradict a pinned decision. */
  predicate Consistent(granted: bool, d: Decision) {
    (d == Allow ==> granted) && (d == Deny ==> !granted)
  }

  /** The policy agrees with every pinned decision. */
  ghost predicate Agrees(policy: Policy) {
    forall who, a, b :: Consistent(policy(who, a, b), Pinned(who, a, b))
  }

  /** Owner-or-staff, with a published book frozen against its owner: reads for
      anyone, creation for any authenticated user, updates and deletes for staff and
      for the owner of an unpublished book. */
  function OwnerOrStaffUnlessPublished(who: Option<User>, a: Action, b: Option<Book>): (ok: bool)
    ensures a == Read ==> ok
    ensures a != Read && ok ==> who.Some?
    ensures (a == Update || a == Destroy) && ok && !who.value.isStaff ==>
      b.Some? && b.value.owner == Some(who.value.id) && !b.value.isPublished
  {
    match a
    case Read => true
    case Create => who.Some?
    case _ =>
      who.Some? && b.Some? &&
      (who.value.isStaff || (b.value.owner == Some(who.value.id) && !b.value.isPublished))
  }

  /** That rule is one policy the tests admit: it agrees with every pinned case. */
  lemma OwnerOrStaffUnlessPublishedAgrees()
    ensures Agrees(OwnerOrStaffUnlessPublished)
  {
    forall who, a, b ensures Consistent(OwnerOrStaffUnlessPublished(who, a, b), Pinned(who, a, b)) {
    }
  }

  /** A policy ignores publication when flipping `isPublished` never changes its answer. */
  ghost predicate IgnoresPublication(policy: Policy) {
    forall who, a, b: Book :: policy(who, a, Some(b)) == policy(who, a, Some(b.(isPublished := !b.isPublished)))
  }

  /** The tests rule out every policy that ignores publication: the owner may update
      the same book unpublished but not published, so plain owner-or-staff is not enough. */
  lemma PublicationMatters(policy: Policy)
    requires Agrees(policy)
    ensures !IgnoresPublication(policy)
  {
    var u := User(1, "test_user", "", "", false);
    var b := Book(4, "", 52500, "", false, Some(1), None);
    assert Pinned(Some(u), Update, Some(b)) == Allow;
    assert Pinned(Some(u), Update, Some(b.(isPublished := true))) == Deny;
    assert policy(Some(u), Update, Some(b));
    assert !policy(Some(u), Update, Some(b.(isPublished := !b.isPublished)));
  }
}
