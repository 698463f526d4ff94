/**
 * The persisted record (`RequestSchema`) and the store that holds the
 * records, with the lookup by id that `findByIdAndUpdate` performs.
 */
module RequestModel {
  import opened Outcomes
  import opened JsValue
  import opened RequestStatus

  /** A store-assigned identifier, in its string form. */
  type ObjectId = string

  /**
   * A persisted record: exactly the schema's five fields plus the id; there
   * is no version key. Dates are abstract clock readings. `status` is kept as
   * the string the store holds.
   */
  datatype Request = Request(
    id: ObjectId,
    requestorName: string,
    itemRequested: string,
    requestCreatedDate: nat,
    lastEditedDate: nat,
    status: string)

  /** The request collection, in insertion order. */
  type Store = seq<Request>

  /**
   * The schema's own constraints: both strings are required (the `required`
   * validator refuses the empty string) and `status` is one of the enum values.
   */
  function SatisfiesSchema(r: Request): (ok: bool)
    ensures ok <==> r.requestorName != "" && r.itemRequested != "" && exists st: Status :: r.status == ToString(st)
  {
    && r.requestorName != ""
    && r.itemRequested != ""
    && r.status in Values
  }

  /** `new Request({...})`: both dates take their default, the clock reading at construction. */
  function NewRequest(id: ObjectId, requestorName: string, itemRequested: string, status: string, now: nat): Request {
    Request(id, requestorName, itemRequested, now, now, status)
  }

  function Ids(db: Store): set<ObjectId> {
    set r | r in db :: r.id
  }

  /** No two records share an id. */
  predicate UniqueIds(db: Store) {
    forall i, j | 0 <= i < j < |db| :: db[i].id != db[j].id
  }

  /**
   * The index of the first record whose id is `id` (the id as cast from the
   * request body), or `None` when no record has it.
   */
  function FindById(db: Store, id: ObjectId): (r: Option<nat>)
    ensures r.Some? ==>
      && r.value < |db|
      && db[r.value].id == id
      && forall j | 0 <= j < r.value :: db[j].id != id
    ensures r.None? <==> forall j | 0 <= j < |db| :: db[j].id != id
  {
    if db == [] then None
    else if db[0].id == id then Some(0)
    else
      match FindById(db[1..], id)
      case None => None
      case Some(k) => Some(k + 1)
  }

  /** With unique ids, the record found for an id is the only one carrying it. */
  lemma FoundRecordIsUnique(db: Store, id: ObjectId)
    requires UniqueIds(db)
    requires FindById(db, id).Some?
    ensures forall j | 0 <= j < |db| && j != FindById(db, id).value :: db[j].id != id
  {
  }
}
