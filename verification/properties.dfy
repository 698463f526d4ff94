/**
 * Properties that relate several service calls: the store invariant that
 * create and edit preserve, the clock discipline of the two dates, and the
 * listing guarantees across filters and pages.
 */
module ServiceProperties {
  import opened Outcomes
  import opened JsValue
  import opened RequestStatus
  import opened Validation
  import opened RequestModel
  import opened Listing
  import opened RequestService

  /** What every persisted record satisfies: the schema, the validated field bounds, and edited-after-created. */
  predicate Persisted(r: Request) {
    && SatisfiesSchema(r)
    && NameInBounds(r.requestorName)
    && ItemInBounds(r.itemRequested)
    && r.requestCreatedDate <= r.lastEditedDate
  }

  /** The store invariant: unique ids and only persisted-shape records. */
  predicate StoreInvariant(db: Store) {
    && UniqueIds(db)
    && forall i | 0 <= i < |db| :: Persisted(db[i])
  }

  /** The clock reads no earlier than any date already in the store. */
  predicate ClockNotBehind(db: Store, now: nat) {
    forall i | 0 <= i < |db| :: db[i].requestCreatedDate <= now && db[i].lastEditedDate <= now
  }

  /** Every record `createRequest` builds from fields within bounds passes the schema, so the save never fails on validation. */
  lemma AcceptedCreateSatisfiesSchema(v: MockCreateItemRequest, freshId: ObjectId, now: nat)
    requires NameInBounds(v.requestorName) && ItemInBounds(v.itemRequested)
    ensures Persisted(NewRequest(freshId, v.requestorName, v.itemRequested, ToString(Pending), now))
  {
    FromStringRoundTrip(Pending);
  }

  /** `createRequest` preserves the store invariant, whatever the body, id, clock or backend. */
  lemma CreatePreservesInvariant(db: Store, request: Value, freshId: ObjectId, now: nat, backend: Backend)
    requires StoreInvariant(db)
    ensures StoreInvariant(CreateRequest(db, request, freshId, now, backend).db)
  {
    var r := CreateRequest(db, request, freshId, now, backend);
    if r.result.Success? {
      var v := ValidateCreateItemRequest(request).value;
      var rec := r.result.value;
      assert rec == NewRequest(freshId, v.requestorName, v.itemRequested, ToString(Pending), now) by {
        assert Str(v.requestorName) == Field(request, "requestorName") == Str(rec.requestorName);
        assert Str(v.itemRequested) == Field(request, "itemRequested") == Str(rec.itemRequested);
      }
      AcceptedCreateSatisfiesSchema(v, freshId, now);
      AppendPreservesInvariant(db, rec);
    }
  }

  /** Appending a persisted record whose id is new keeps the store invariant. */
  lemma AppendPreservesInvariant(db: Store, rec: Request)
    requires StoreInvariant(db)
    requires Persisted(rec) && rec.id !in Ids(db)
    ensures StoreInvariant(db + [rec])
  {
    var db' := db + [rec];
    forall i, j | 0 <= i < j < |db'| ensures db'[i].id != db'[j].id {
      if j == |db| {
        assert db[i] in db;
      }
    }
  }

  /**
   * `editStatusRequest` preserves the store invariant when the clock is not
   * behind the store: the new status is an enum value and the new
   * `lastEditedDate` is not before the record's creation.
   */
  lemma EditPreservesInvariant(db: Store, request: Value, isValidId: Value -> bool, castId: Value -> ObjectId, now: nat, backend: Backend)
    requires StoreInvariant(db)
    requires ClockNotBehind(db, now)
    ensures StoreInvariant(EditStatusRequest(db, request, isValidId, castId, now, backend).db)
  {
    var r := EditStatusRequest(db, request, isValidId, castId, now, backend);
    if r.result.Success? {
      var i := FindById(db, castId(Field(request, "id"))).value;
      var rec := r.result.value;
      assert rec.status in Values by {
        assert Str(rec.status) == Field(request, "status");
        assert ValidateEditStatusRequest(request, isValidId).value.status == rec.status;
      }
      assert Persisted(db[i]);
      ReplacePreservesInvariant(db, r.db, i, rec);
    }
  }

  /** Replacing one record by a persisted record with the same id keeps the store invariant. */
  lemma ReplacePreservesInvariant(db: Store, db': Store, i: nat, rec: Request)
    requires StoreInvariant(db)
    requires i < |db| == |db'| && db'[i] == rec
    requires forall j | 0 <= j < |db| && j != i :: db'[j] == db[j]
    requires rec.id == db[i].id && Persisted(rec)
    ensures StoreInvariant(db')
  {
    forall j | 0 <= j < |db'| ensures Persisted(db'[j]) && db'[j].id == db[j].id {
      if j != i {
        assert db'[j] == db[j];
      }
    }
  }

  /**
   * With the clock not behind the store, a successful edit never moves
   * `lastEditedDate` backwards, and the edited record keeps its creation date.
   */
  lemma EditAdvancesLastEdited(db: Store, request: Value, isValidId: Value -> bool, castId: Value -> ObjectId, now: nat, backend: Backend)
    requires ClockNotBehind(db, now)
    ensures var r := EditStatusRequest(db, request, isValidId, castId, now, backend);
      r.result.Success? ==>
        var i := FindById(db, castId(Field(request, "id"))).value;
        && r.result.value.lastEditedDate >= db[i].lastEditedDate
        && r.result.value.requestCreatedDate == db[i].requestCreatedDate
        && ClockNotBehind(r.db, now)
  {
    var r := EditStatusRequest(db, request, isValidId, castId, now, backend);
    if r.result.Success? {
      var i := FindById(db, castId(Field(request, "id"))).value;
      forall j | 0 <= j < |r.db| ensures r.db[j].requestCreatedDate <= now && r.db[j].lastEditedDate <= now {
        if j != i {
          assert r.db[j] == db[j];
        }
      }
    }
  }

  /** Whatever `status` a create body carries (or any other extra field), the outcome is the same. */
  lemma CreateIgnoresCallerStatus(db: Store, m: map<string, Value>, key: string, v: Value, freshId: ObjectId, now: nat, backend: Backend)
    requires key != "requestorName" && key != "itemRequested"
    ensures CreateRequest(db, Obj(m[key := v]), freshId, now, backend) == CreateRequest(db, Obj(m), freshId, now, backend)
  {
    CreateIgnoresOtherFields(m, key, v);
  }

  /** A `status` parameter that is not a valid status lists exactly what no filter lists. */
  lemma InvalidFilterListsEverything(db: Store, status: string, page: nat, pageSize: nat, backend: Backend)
    requires page >= 1 && pageSize > 0
    requires status !in Values
    ensures GetItemRequests(db, Some(status), page, pageSize, backend) == GetItemRequests(db, None, page, pageSize, backend)
  {
  }

  /**
   * Whatever newest-first order the database returns the matching records in,
   * a page is that order's window, as long as no two matching records share
   * a creation date: the order is then forced.
   */
  lemma ListingIsOrderIndependent(db: Store, status: Option<string>, page: nat, pageSize: nat, order: seq<Request>)
    requires page >= 1 && pageSize > 0
    requires NoTies(multiset(Select(db, ActiveFilter(status))))
    requires NewestFirst(order) && multiset(order) == multiset(Select(db, ActiveFilter(status)))
    ensures GetItemRequests(db, status, page, pageSize, Healthy).value.data == Window(order, Skip(page, pageSize), pageSize)
  {
    var matching := Select(db, ActiveFilter(status));
    NewestFirstUnique(SortNewestFirst(matching), order);
    HealthyListing(db, status, page, pageSize);
  }

  /**
   * With two records created at the same instant, both orders are newest
   * first; a database that returns one order for page 1 and the other for
   * page 2 (page size 1) lists the first record twice and the second never.
   */
  lemma TiesLeaveOrderOpen(x: Request, y: Request)
    requires x != y && x.requestCreatedDate == y.requestCreatedDate
    ensures NewestFirst([x, y]) && NewestFirst([y, x])
    ensures multiset([x, y]) == multiset([y, x])
    ensures Window([x, y], Skip(1, 1), 1) == [x] && Window([y, x], Skip(2, 1), 1) == [x]
    ensures y !in Window([x, y], Skip(1, 1), 1) + Window([y, x], Skip(2, 1), 1)
  {
    assert Window([x, y], 0, 1) == [x];
    assert Window([y, x], 1, 1) == [x];
  }

  /**
   * Paging loses nothing: when no two matching records share a creation date,
   * every matching record is listed on some page, namely page
   * `k / pageSize + 1` where `k` is its place in the newest-first order.
   */
  lemma EveryMatchIsOnSomePage(db: Store, status: Option<string>, pageSize: nat, x: Request)
    requires pageSize > 0
    requires NoTies(multiset(Select(db, ActiveFilter(status))))
    requires x in db && Matches(x, ActiveFilter(status))
    ensures exists page: nat :: page >= 1 && x in GetItemRequests(db, status, page, pageSize, Healthy).value.data
  {
    var sorted := SortNewestFirst(Select(db, ActiveFilter(status)));
    assert x in multiset(Select(db, ActiveFilter(status)));
    assert x in multiset(sorted);
    var k :| 0 <= k < |sorted| && sorted[k] == x;
    PositionIsListed(db, status, pageSize, sorted, k);
  }

  /**
   * When no two matching records share a creation date, position `k` of any
   * newest-first order of the matching records is listed on page
   * `PageContaining(k, pageSize)`.
   */
  lemma PositionIsListed(db: Store, status: Option<string>, pageSize: nat, order: seq<Request>, k: nat)
    requires pageSize > 0
    requires NoTies(multiset(Select(db, ActiveFilter(status))))
    requires NewestFirst(order) && multiset(order) == multiset(Select(db, ActiveFilter(status)))
    requires k < |order|
    ensures order[k] in GetItemRequests(db, status, PageContaining(k, pageSize), pageSize, Healthy).value.data
  {
    var page := PageContaining(k, pageSize);
    WindowContains(order, Skip(page, pageSize), pageSize, k);
    ListingIsOrderIndependent(db, status, page, pageSize, order);
  }

  /** The page (1-based) on which position `k` of the sorted matches is listed. */
  function PageContaining(k: nat, pageSize: nat): (page: nat)
    requires pageSize > 0
    ensures page >= 1
    ensures Skip(page, pageSize) <= k < Skip(page, pageSize) + pageSize
  {
    assert k == (k / pageSize) * pageSize + k % pageSize;
    k / pageSize + 1
  }

  /** Creation dates strictly increase along the store, as when each record is created at a later clock reading. */
  predicate CreatedInOrder(db: Store) {
    forall i, j | 0 <= i < j < |db| :: db[i].requestCreatedDate < db[j].requestCreatedDate
  }

  /** The records in the opposite order. */
  function Reverse(rs: seq<Request>): (r: seq<Request>)
    ensures |r| == |rs|
    ensures forall k | 0 <= k < |rs| :: r[k] == rs[|rs| - 1 - k]
  {
    if rs == [] then [] else Reverse(rs[1..]) + [rs[0]]
  }

  /** Without a filter every record matches, so the selection is the store itself. */
  lemma {:induction false} SelectAll(db: Store)
    ensures Select(db, None) == db
  {
    if db != [] {
      var init := db[..|db| - 1];
      var last := db[|db| - 1];
      SelectSnoc(db, None);
      SelectAll(init);
      assert db == init + [last];
    }
  }

  /** Inserting a record older than all others puts it last. */
  lemma {:induction false} InsertOldestGoesLast(x: Request, rs: seq<Request>)
    requires NewestFirst(rs)
    requires forall k | 0 <= k < |rs| :: x.requestCreatedDate < rs[k].requestCreatedDate
    ensures InsertNewestFirst(x, rs) == rs + [x]
  {
    if rs != [] {
      InsertOldestGoesLast(x, rs[1..]);
      assert rs == [rs[0]] + rs[1..];
    }
  }

  /** Sorting records created in order yields them newest first, i.e. reversed. */
  lemma {:induction false} SortReversesCreationOrder(rs: seq<Request>)
    requires CreatedInOrder(rs)
    ensures SortNewestFirst(rs) == Reverse(rs)
  {
    if rs != [] {
      SortReversesCreationOrder(rs[1..]);
      var rest := SortNewestFirst(rs[1..]);
      assert rest == Reverse(rs[1..]);
      InsertOldestGoesLast(rs[0], rest);
    }
  }

  /**
   * Records created one after another, then listed without a filter on page
   * 1 of a page large enough for all of them, come back newest first.
   */
  lemma NewestFirstRoundTrip(db: Store, pageSize: nat)
    requires CreatedInOrder(db)
    requires pageSize >= |db| && pageSize > 0
    ensures GetItemRequests(db, None, 1, pageSize, Healthy) == Success(Page(Reverse(db), |db|))
  {
    assert ActiveFilter(None) == None;
    SelectAll(db);
    SortReversesCreationOrder(db);
    var sorted := SortNewestFirst(Select(db, None));
    assert sorted == Reverse(db);
    WindowAll(sorted, pageSize);
    assert Skip(1, pageSize) == 0;
    HealthyListing(db, None, 1, pageSize);
  }

  /** Creating at a clock reading later than every date in the store keeps creation dates in order. */
  lemma CreateKeepsCreationOrder(db: Store, request: Value, freshId: ObjectId, now: nat, backend: Backend)
    requires CreatedInOrder(db)
    requires forall i | 0 <= i < |db| :: db[i].requestCreatedDate < now
    ensures CreatedInOrder(CreateRequest(db, request, freshId, now, backend).db)
  {
    var r := CreateRequest(db, request, freshId, now, backend);
    if r.result.Success? {
      assert r.db == db + [r.result.value];
    }
  }
}
