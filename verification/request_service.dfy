/**
 * The request service: create, list and edit-status over an in-memory store.
 * The store and the clock reading `now` are explicit parameters; `backend`
 * says whether the store can be reached and whether its operation succeeds.
 */
module RequestService {
  import opened Outcomes
  import opened JsValue
  import opened RequestStatus
  import opened Validation
  import opened RequestModel
  import opened Listing

  /**
   * The state of the store for one call: `Unreachable` fails the initial
   * connection (before any validation); `Failing` fails the store operation
   * itself (save, query or update).
   */
  datatype Backend = Healthy | Unreachable | Failing

  /** Why an `InvalidInputError` was raised. */
  datatype Reason = InvalidCreateInput | InvalidStatusInput | InvalidIdFormat | NoSuchId

  /** `InvalidInputError`, or any other error (a TypeError or a store failure), which callers see as unknown. */
  datatype Error = InvalidInput(reason: Reason) | Unknown

  /** The store after an operation, and what the operation returned or raised. */
  datatype Response<+T> = Response(db: Store, result: Result<T, Error>)

  /** One page of a listing and the size of the whole filtered set. */
  datatype Page = Page(data: seq<Request>, totalCount: nat)

  /**
   * `createRequest`: validate the body, then save a new record whose status
   * is forced to pending and whose dates are both `now`. `freshId` is the id
   * the store generates; if it is already taken the save fails on the unique
   * index. Nothing is stored unless the result is a success.
   */
  function CreateRequest(db: Store, request: Value, freshId: ObjectId, now: nat, backend: Backend): (r: Response<Request>)
    ensures r.result.Failure? ==> r.db == db
    ensures r.result == Failure(InvalidInput(InvalidCreateInput)) <==>
      && !backend.Unreachable?
      && !(request.Undefined? || request.Null?)
      && !(IsValidMockName(Field(request, "requestorName")) && IsValidMockItemRequested(Field(request, "itemRequested")))
    ensures r.result.Success? <==>
      && backend.Healthy?
      && ValidateCreateItemRequest(request).Accepted?
      && freshId !in Ids(db)
    ensures r.result.Failure? ==> r.result.error in {InvalidInput(InvalidCreateInput), Unknown}
    ensures r.result.Success? ==>
      var rec := r.result.value;
      && r.db == db + [rec]
      && rec.id == freshId
      && Field(request, "requestorName") == Str(rec.requestorName)
      && Field(request, "itemRequested") == Str(rec.itemRequested)
      && rec.status == ToString(Pending)
      && rec.requestCreatedDate == now
      && rec.lastEditedDate == now
  {
    if backend.Unreachable? then Response(db, Failure(Unknown))
    else
      match ValidateCreateItemRequest(request)
      case Threw => Response(db, Failure(Unknown))
      case Refused => Response(db, Failure(InvalidInput(InvalidCreateInput)))
      case Accepted(valid) =>
        var rec := NewRequest(freshId, valid.requestorName, valid.itemRequested, ToString(Pending), now);
        if backend.Failing? || freshId in Ids(db) || !SatisfiesSchema(rec) then
          Response(db, Failure(Unknown))
        else
          Response(db + [rec], Success(rec))
  }

  /**
   * `getItemRequests`: the records matching the status filter, newest first,
   * from position `(page - 1) * pageSize` on, at most `pageSize` of them;
   * `totalCount` counts every matching record whatever the page.
   */
  function GetItemRequests(db: Store, status: Option<string>, page: nat, pageSize: nat, backend: Backend): (r: Result<Page, Error>)
    requires page >= 1 && pageSize > 0
    ensures r.Failure? <==> !backend.Healthy?
    ensures r.Failure? ==> r.error == Unknown
    ensures r.Success? ==>
      var filter := ActiveFilter(status);
      var skip := Skip(page, pageSize);
      var data := r.value.data;
      && r.value.totalCount == |MatchingIndices(db, filter)|
      && |data| == (if skip >= r.value.totalCount then 0 else Min(pageSize, r.value.totalCount - skip))
      && NewestFirst(data)
      && (forall k | 0 <= k < |data| :: data[k] in db && Matches(data[k], filter))
      && (forall k | 0 <= k < |data| ::
            skip + k < |SortNewestFirst(Select(db, filter))| && data[k] == SortNewestFirst(Select(db, filter))[skip + k])
  {
    if !backend.Healthy? then Failure(Unknown)
    else
      var filter := ActiveFilter(status);
      var matching := Select(db, filter);
      SelectCountsMatches(db, filter);
      Success(Page(PageOf(db, filter, Skip(page, pageSize), pageSize), |matching|))
  }

  /** On a healthy store, a listing is the window of the sorted matches, and its count is the number of matches. */
  lemma HealthyListing(db: Store, status: Option<string>, page: nat, pageSize: nat)
    requires page >= 1 && pageSize > 0
    ensures var matching := Select(db, ActiveFilter(status));
      GetItemRequests(db, status, page, pageSize, Healthy)
        == Success(Page(Window(SortNewestFirst(matching), Skip(page, pageSize), pageSize), |matching|))
  {
    SelectCountsMatches(db, ActiveFilter(status));
  }

  /** The number of records before page `page` (1-based). */
  function Skip(page: nat, pageSize: nat): (skip: nat)
    requires page >= 1
    ensures page == 1 ==> skip == 0
  {
    (page - 1) * pageSize
  }

  /** Each page starts one page after the start of the page before it, so consecutive pages neither overlap nor leave a gap. */
  lemma SkipNextPage(page: nat, pageSize: nat)
    requires page >= 1
    ensures Skip(page + 1, pageSize) == Skip(page, pageSize) + pageSize
  {
  }

  /**
   * `editStatusRequest`: validate the body, re-check the id format, then set
   * the status and `lastEditedDate := now` of the record with that id and
   * return the updated record. An unknown id raises `InvalidInputError`; on
   * any failure the store is unchanged. `castId` is the store's conversion of
   * a well-formed id to an `ObjectId` before the lookup (so, for instance,
   * hex digits of either case name the same id); it is applied only to ids
   * that passed `isValidId`.
   */
  function EditStatusRequest(db: Store, request: Value, isValidId: Value -> bool, castId: Value -> ObjectId, now: nat, backend: Backend): (r: Response<Request>)
    ensures r.result.Failure? ==> r.db == db
    ensures r.result.Failure? && r.result.error.InvalidInput? <==>
      && !backend.Unreachable?
      && !(request.Undefined? || request.Null?)
      && (ValidateEditStatusRequest(request, isValidId).Refused?
          || (backend.Healthy? && FindById(db, castId(Field(request, "id"))).None?))
    ensures r.result != Failure(InvalidInput(InvalidIdFormat))
    ensures r.result == Failure(InvalidInput(NoSuchId)) ==>
      forall j | 0 <= j < |db| :: db[j].id != castId(Field(request, "id"))
    ensures r.result.Success? <==>
      && backend.Healthy?
      && ValidateEditStatusRequest(request, isValidId).Accepted?
      && FindById(db, castId(Field(request, "id"))).Some?
    ensures r.result.Success? ==>
      var i := FindById(db, castId(Field(request, "id"))).value;
      var rec := r.result.value;
      && rec.id == castId(Field(request, "id"))
      && Str(rec.status) == Field(request, "status")
      && rec.lastEditedDate == now
      && rec.requestorName == db[i].requestorName
      && rec.itemRequested == db[i].itemRequested
      && rec.requestCreatedDate == db[i].requestCreatedDate
      && rec.id == db[i].id
      && |r.db| == |db|
      && r.db[i] == rec
      && (forall j | 0 <= j < |db| && j != i :: r.db[j] == db[j])
  {
    if backend.Unreachable? then Response(db, Failure(Unknown))
    else
      match ValidateEditStatusRequest(request, isValidId)
      case Threw => Response(db, Failure(Unknown))
      case Refused => Response(db, Failure(InvalidInput(InvalidStatusInput)))
      case Accepted(valid) =>
        if !isValidId(valid.id) then Response(db, Failure(InvalidInput(InvalidIdFormat)))
        else UpdateStatus(db, castId(valid.id), valid.status, now, backend)
  }

  /**
   * The guarded update of `editStatusRequest` (`findByIdAndUpdate` with
   * `new: true`): set `status` and `lastEditedDate := now` on the record with
   * id `id` and return it; a missing record raises `InvalidInputError`, a
   * failing store the generic error, and no failure changes the store.
   */
  function UpdateStatus(db: Store, id: ObjectId, status: string, now: nat, backend: Backend): (r: Response<Request>)
    requires !backend.Unreachable?
    ensures r.result.Failure? ==> r.db == db
    ensures r.result.Failure? ==> r.result.error in {InvalidInput(NoSuchId), Unknown}
    ensures r.result == Failure(InvalidInput(NoSuchId)) <==> backend.Healthy? && FindById(db, id).None?
    ensures r.result.Success? <==> backend.Healthy? && FindById(db, id).Some?
    ensures r.result.Success? ==>
      var i := FindById(db, id).value;
      var rec := r.result.value;
      && rec == db[i].(status := status, lastEditedDate := now)
      && |r.db| == |db|
      && r.db[i] == rec
      && (forall j | 0 <= j < |db| && j != i :: r.db[j] == db[j])
  {
    if backend.Failing? then Response(db, Failure(Unknown))
    else
      match FindById(db, id)
      case None => Response(db, Failure(InvalidInput(NoSuchId)))
      case Some(i) =>
        var rec := db[i].(status := status, lastEditedDate := now);
        Response(db[i := rec], Success(rec))
  }
}
