/**
 * The request lifecycle end to end, on an empty store: create a request,
 * approve it, then list by the approved filter and by an unknown filter.
 */
module Scenarios {
  import opened Outcomes
  import opened JsValue
  import opened RequestStatus
  import opened Validation
  import opened RequestModel
  import opened Listing
  import opened RequestService

  /** A create body carrying just a name and an item. */
  function CreateBody(name: string, item: string): Value {
    Obj(map["requestorName" := Str(name), "itemRequested" := Str(item)])
  }

  /** An edit body carrying an id and a status. */
  function PatchBody(id: ObjectId, status: Status): Value {
    Obj(map["id" := Str(id), "status" := Str(ToString(status))])
  }

  /** Creating a valid request at clock `t1` stores and returns a pending record dated `t1`. */
  lemma CreateOnEmptyStore(name: string, item: string, id: ObjectId, t1: nat)
    requires NameInBounds(name) && ItemInBounds(item)
    ensures var pending := Request(id, name, item, t1, t1, ToString(Pending));
      var r := CreateRequest([], CreateBody(name, item), id, t1, Healthy);
      r.result == Success(pending) && r.db == [pending]
  {
    var body := CreateBody(name, item);
    assert Field(body, "requestorName") == Str(name);
    assert Field(body, "itemRequested") == Str(item);
    assert ValidateCreateItemRequest(body).Accepted?;
    assert id !in Ids([]);
    var r := CreateRequest([], body, id, t1, Healthy);
    assert r.result.Success?;
    assert r.result.value == Request(id, name, item, t1, t1, ToString(Pending));
  }

  /** An edit body with a non-empty, well-formed id and a status is accepted as sent. */
  lemma PatchIsAccepted(id: ObjectId, status: Status, isValidId: Value -> bool)
    requires id != "" && isValidId(Str(id))
    ensures ValidateEditStatusRequest(PatchBody(id, status), isValidId) == Accepted(MockEditStatusRequest(Str(id), ToString(status)))
  {
    var body := PatchBody(id, status);
    assert Field(body, "id") == Str(id);
    assert Field(body, "status") == Str(ToString(status));
    assert IsValidStatus(Str(ToString(status)));
  }

  /** Setting a record's status at clock `t2` changes that status and the edit date and nothing else. */
  lemma EditOnlyRecord(rec: Request, status: Status, isValidId: Value -> bool, castId: Value -> ObjectId, t2: nat)
    requires rec.id != "" && isValidId(Str(rec.id)) && castId(Str(rec.id)) == rec.id
    ensures var edited := rec.(status := ToString(status), lastEditedDate := t2);
      var r := EditStatusRequest([rec], PatchBody(rec.id, status), isValidId, castId, t2, Healthy);
      r.result == Success(edited) && |r.db| == 1 && r.db[0] == edited
  {
    var r := EditStatusRequest([rec], PatchBody(rec.id, status), isValidId, castId, t2, Healthy);
    var edited := rec.(status := ToString(status), lastEditedDate := t2);
    assert r.result == Success(edited) && |r.db| == 1 && r.db[0] == edited by {
      PatchIsAccepted(rec.id, status, isValidId);
      assert FindById([rec], rec.id) == Some(0);
    }
  }

  /** Listing a one-record store by a filter the record matches returns the record, with a total of 1. */
  lemma ListSingleton(rec: Request, status: Option<string>, pageSize: nat)
    requires pageSize > 0
    requires Matches(rec, ActiveFilter(status))
    ensures GetItemRequests([rec], status, 1, pageSize, Healthy) == Success(Page([rec], 1))
  {
    var filter := ActiveFilter(status);
    HealthyListing([rec], status, 1, pageSize);
    assert Select([rec], filter) == [rec] by {
      SelectSnoc([rec], filter);
      assert [rec][..0] == [];
    }
    assert SortNewestFirst([rec]) == [rec] by {
      assert [rec][1..] == [];
    }
    assert Skip(1, pageSize) == 0;
    assert Window([rec], 0, pageSize) == [rec];
  }

  /** Listing a one-record store by that record's status returns the record, with a total of 1. */
  lemma ListByOwnStatus(rec: Request, pageSize: nat)
    requires pageSize > 0
    requires rec.status in Values
    ensures GetItemRequests([rec], Some(rec.status), 1, pageSize, Healthy) == Success(Page([rec], 1))
  {
    assert ActiveFilter(Some(rec.status)) == Some(rec.status);
    ListSingleton(rec, Some(rec.status), pageSize);
  }

  /** Listing a one-record store by a string that is no status returns the record as well. */
  lemma ListByUnknownStatus(rec: Request, unknown: string, pageSize: nat)
    requires pageSize > 0
    requires unknown !in Values
    ensures GetItemRequests([rec], Some(unknown), 1, pageSize, Healthy) == Success(Page([rec], 1))
  {
    assert ActiveFilter(Some(unknown)) == None;
    ListSingleton(rec, Some(unknown), pageSize);
  }

  /**
   * Create, approve, list: the created record is pending; after approval at
   * a later clock it is approved with the new edit date and its creation
   * date kept; listing page 1 by `approved`, or by an unknown status, returns
   * exactly that record with a total of 1.
   */
  lemma CreateApproveList(name: string, item: string, id: ObjectId, isValidId: Value -> bool, castId: Value -> ObjectId, t1: nat, t2: nat, unknown: string, pageSize: nat)
    requires NameInBounds(name) && ItemInBounds(item)
    requires id != "" && isValidId(Str(id)) && castId(Str(id)) == id
    requires t1 <= t2 && pageSize > 0
    requires unknown !in Values
    ensures
      var created := CreateRequest([], CreateBody(name, item), id, t1, Healthy);
      var edited := EditStatusRequest(created.db, PatchBody(id, Approved), isValidId, castId, t2, Healthy);
      && created.result.Success?
      && created.result.value.status == ToString(Pending)
      && edited.result.Success?
      && edited.result.value.status == ToString(Approved)
      && edited.result.value.requestCreatedDate == t1
      && edited.result.value.lastEditedDate == t2
      && edited.result.value.requestCreatedDate <= edited.result.value.lastEditedDate
      && GetItemRequests(edited.db, Some(ToString(Approved)), 1, pageSize, Healthy) == Success(Page([edited.result.value], 1))
      && GetItemRequests(edited.db, Some(unknown), 1, pageSize, Healthy) == Success(Page([edited.result.value], 1))
  {
    CreateOnEmptyStore(name, item, id, t1);
    var pending := Request(id, name, item, t1, t1, ToString(Pending));
    EditOnlyRecord(pending, Approved, isValidId, castId, t2);
    var approved := pending.(status := ToString(Approved), lastEditedDate := t2);
    FromStringRoundTrip(Approved);
    ListByOwnStatus(approved, pageSize);
    ListByUnknownStatus(approved, unknown, pageSize);
  }
}
