/** DataMigrationService: at start-up every card row without an owner is
    given to the user "chris", who is created first if missing. */
module DataMigration {
  import opened Wrappers
  import opened CardModel
  import opened CardRepository
  import opened CardService
  import opened Accounts

  const DefaultUsername := "chris"
  const DefaultDisplayName := "Chris"
  const DefaultPassword := "pokemon"

  /** What the migration does to one row: an ownerless row is owned by
      `owner`, any other row is left alone. The reference definition the
      loop is checked against. */
  function Adopt(c: Card, owner: int): Card {
    if c.userId.None? then c.(userId := Some(owner)) else c
  }

  /** The default user: the existing "chris", or a new one saved with the
      display name "Chris" and the encoded password "pokemon". */
  function DefaultUser(users: Users, pe: PasswordEncoder, freshUserId: int): (r: (Users, User))
    requires FreshUserId(users, freshUserId)
    ensures FindByUsername(users, DefaultUsername).Some? ==>
              r == (users, FindByUsername(users, DefaultUsername).value)
    ensures FindByUsername(users, DefaultUsername).None? ==>
              && r.1 == User(freshUserId, DefaultUsername, Some(DefaultDisplayName), pe.encode(DefaultPassword))
              && r.0 == users + [r.1]
    ensures FindByUsername(r.0, DefaultUsername) == Some(r.1)
  {
    match FindByUsername(users, DefaultUsername)
    case Some(u) => (users, u)
    case None =>
      SavedUserFound(users, DefaultUsername, Some(DefaultDisplayName), pe.encode(DefaultPassword), freshUserId);
      SaveUser(users, DefaultUsername, Some(DefaultDisplayName), pe.encode(DefaultPassword), freshUserId)
  }

  /** The state after the first `k` orphans were saved with their new
      owner: those rows are adopted, the later orphans and every owned row
      are as they were, and the table keeps its ids in their places. */
  ghost predicate Migrated(store: Store, owner: int, result: Store, k: int)
    requires ValidStore(store)
  {
    var orphans := FindByUserIdIsNull(store);
    && 0 <= k <= |orphans|
    && |result| == |store|
    && (forall i :: 0 <= i < |store| ==> result[i].id == store[i].id)
    && ValidStore(result)
    && (forall i :: 0 <= i < |store| && store[i].userId.Some? ==> result[i] == store[i])
    && (forall p :: 0 <= p < k ==> result[Slot(store, orphans[p])] == Adopt(orphans[p], owner))
    && (forall p :: k <= p < |orphans| ==> result[Slot(store, orphans[p])] == orphans[p])
  }

  /** Each orphan sits at its own slot of the table, and every ownerless
      row is the orphan at its slot. */
  lemma OrphanSlots(store: Store)
    requires ValidStore(store)
    ensures var orphans := FindByUserIdIsNull(store);
      && (forall p :: 0 <= p < |orphans| ==>
            orphans[p].id.Some? && Slot(store, orphans[p]) < |store| && store[Slot(store, orphans[p])] == orphans[p])
      && (forall p, q :: 0 <= p < |orphans| && 0 <= q < |orphans| && p != q ==>
                          Slot(store, orphans[p]) != Slot(store, orphans[q]))
      && (forall i :: 0 <= i < |store| && store[i].userId.None? ==>
            exists p :: 0 <= p < |orphans| && Slot(store, orphans[p]) == i)
  {
    var orphans := FindByUserIdIsNull(store);
    WhereIdsDistinct(store, (c: Card) => c.userId.None?);
    forall p | 0 <= p < |orphans|
      ensures orphans[p].id.Some? && Slot(store, orphans[p]) < |store| && store[Slot(store, orphans[p])] == orphans[p]
    {
      assert orphans[p] in store;
      var m :| 0 <= m < |store| && store[m] == orphans[p];
      assert Slot(store, orphans[p]) == m;
    }
    forall i | 0 <= i < |store| && store[i].userId.None?
      ensures exists p :: 0 <= p < |orphans| && Slot(store, orphans[p]) == i
    {
      assert store[i] in orphans;
      var p :| 0 <= p < |orphans| && orphans[p] == store[i];
      assert Slot(store, orphans[p]) == i;
    }
  }

  /** Saving the k-th orphan with its new owner moves the state on by one. */
  lemma MigrateStep(store: Store, owner: int, result: Store, k: int, next: Store)
    requires ValidStore(store)
    requires Migrated(store, owner, result, k)
    requires k < |FindByUserIdIsNull(store)|
    requires next == result[Slot(store, FindByUserIdIsNull(store)[k]) := Adopt(FindByUserIdIsNull(store)[k], owner)]
    ensures Migrated(store, owner, next, k + 1)
  {
    var orphans := FindByUserIdIsNull(store);
    OrphanSlots(store);
    var at := Slot(store, orphans[k]);
    assert Persistable(orphans[k]);
    ReplaceRow(store, result, at, Adopt(orphans[k], owner));
    forall i | 0 <= i < |store| && store[i].userId.Some? ensures next[i] == store[i] {
      assert i != at;
    }
    forall p | 0 <= p < |orphans| && p != k ensures next[Slot(store, orphans[p])] == result[Slot(store, orphans[p])] {
      assert Slot(store, orphans[p]) != at;
    }
  }

  /** One migration step: the k-th orphan is saved with its new owner. */
  function MigrateRow(store: Store, owner: int, result: Store, k: int): (next: Store)
    requires ValidStore(store)
    requires Migrated(store, owner, result, k)
    requires k < |FindByUserIdIsNull(store)|
    ensures Migrated(store, owner, next, k + 1)
  {
    var card := FindByUserIdIsNull(store)[k];
    OrphanSlots(store);
    assert card.id.Some? && Persistable(card) && Slot(store, card) < |store|;
    var changed := card.(userId := Some(owner));
    assert Persistable(changed) && changed.id == card.id;
    SameIdsSameIndex(result, store, card.id.value);
    var next := Update(result, changed).value;
    MigrateStep(store, owner, result, k, next);
    next
  }

  /** run: nothing happens when no row lacks an owner. Otherwise the
      default user is found or created and every ownerless row is saved
      with that user's id; the count it reports is the number of such
      rows. */
  method Run(store: Store, users: Users, pe: PasswordEncoder, freshUserId: int)
    returns (result: Store, resultUsers: Users, migrated: nat)
    requires ValidStore(store) && FreshUserId(users, freshUserId)
    ensures migrated == |FindByUserIdIsNull(store)|
    ensures migrated == 0 ==> result == store && resultUsers == users
    ensures migrated > 0 ==> resultUsers == DefaultUser(users, pe, freshUserId).0
    ensures migrated > 0 ==>
              var owner := DefaultUser(users, pe, freshUserId).1.id;
              && |result| == |store|
              && forall i :: 0 <= i < |store| ==> result[i] == Adopt(store[i], owner)
    ensures ValidStore(result)
    ensures FindByUserIdIsNull(result) == []
  {
    var orphans := FindByUserIdIsNull(store);
    if |orphans| == 0 {
      NoOrphansAllOwned(store);
      return store, users, 0;
    }
    var saved := DefaultUser(users, pe, freshUserId);
    resultUsers := saved.0;
    var owner := saved.1.id;
    result := store;
    var k := 0;
    while k < |orphans|
      invariant 0 <= k <= |orphans|
      invariant Migrated(store, owner, result, k)
    {
      result := MigrateRow(store, owner, result, k);
      k := k + 1;
    }
    AllMigrated(store, owner, result);
    migrated := |orphans|;
  }

  /** With every orphan handled, the table is the reference definition
      applied row by row. */
  lemma AllMigrated(store: Store, owner: int, result: Store)
    requires ValidStore(store)
    requires Migrated(store, owner, result, |FindByUserIdIsNull(store)|)
    ensures forall i :: 0 <= i < |store| ==> result[i] == Adopt(store[i], owner)
    ensures FindByUserIdIsNull(result) == []
  {
    AllAdopted(store, owner, result);
    forall i | 0 <= i < |result| ensures result[i].userId.Some? {
      assert result[i] == Adopt(store[i], owner);
    }
    NoOrphansAllOwned(result);
  }

  lemma AllAdopted(store: Store, owner: int, result: Store)
    requires ValidStore(store)
    requires Migrated(store, owner, result, |FindByUserIdIsNull(store)|)
    ensures |result| == |store|
    ensures forall i :: 0 <= i < |store| ==> result[i] == Adopt(store[i], owner)
  {
    var orphans := FindByUserIdIsNull(store);
    OrphanSlots(store);
    forall i | 0 <= i < |store| ensures result[i] == Adopt(store[i], owner) {
      if store[i].userId.None? {
        var p :| 0 <= p < |orphans| && Slot(store, orphans[p]) == i;
        assert orphans[p] == store[i];
      }
    }
  }

  /** The finder of ownerless rows is empty exactly when every row has an
      owner. */
  lemma NoOrphansAllOwned(store: Store)
    ensures FindByUserIdIsNull(store) == [] <==> forall i :: 0 <= i < |store| ==> store[i].userId.Some?
  {
    var orphans := FindByUserIdIsNull(store);
    if orphans != [] {
      assert orphans[0] in orphans;
    }
    if exists i :: 0 <= i < |store| && store[i].userId.None? {
      var i :| 0 <= i < |store| && store[i].userId.None?;
      assert store[i] in orphans;
    }
  }
}
