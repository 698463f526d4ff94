/**
 * The query side of listing requests: the optional status filter, the
 * matching records, the newest-first order and the skip/limit page.
 */
module Listing {
  import opened Outcomes
  import opened JsValue
  import opened RequestStatus
  import opened Validation
  import opened RequestModel

  /**
   * The query built from the `status` parameter: a filter on that status when
   * it is present, non-empty and valid; no filter otherwise.
   */
  function ActiveFilter(status: Option<string>): (f: Option<string>)
    ensures f.Some? <==> status.Some? && status.value != "" && status.value in Values
    ensures f.Some? ==> f == status
  {
    if status.Some? && Truthy(Str(status.value)) && IsValidStatus(Str(status.value)) then status else None
  }

  /** A record matches the query: always without a filter, by equal status with one. */
  predicate Matches(r: Request, filter: Option<string>) {
    filter.None? || r.status == filter.value
  }

  /** The positions of the records that match: what `countDocuments` counts. */
  function MatchingIndices(db: Store, filter: Option<string>): set<nat> {
    set i: nat | i < |db| && Matches(db[i], filter)
  }

  /**
   * `find(query)` before sorting: the records of the store that match, in
   * store order.
   */
  function Select(db: Store, filter: Option<string>): (r: Store)
    ensures |r| <= |db|
    ensures forall x :: x in r <==> x in db && Matches(x, filter)
  {
    if db == [] then []
    else
      assert db == db[..|db| - 1] + [db[|db| - 1]];
      Select(db[..|db| - 1], filter) + (if Matches(db[|db| - 1], filter) then [db[|db| - 1]] else [])
  }

  /** Helper for Select: the last position adds itself to the matching positions of the rest, or nothing. */
  lemma MatchingIndicesOfSnoc(db: Store, filter: Option<string>)
    requires db != []
    ensures db == db[..|db| - 1] + [db[|db| - 1]]
    ensures |MatchingIndices(db, filter)| ==
      |MatchingIndices(db[..|db| - 1], filter)| + (if Matches(db[|db| - 1], filter) then 1 else 0)
  {
    var init := db[..|db| - 1];
    assert db == init + [db[|db| - 1]];
    assert MatchingIndices(db, filter) ==
      MatchingIndices(init, filter) + (if Matches(db[|db| - 1], filter) then {|db| - 1} else {});
  }

  /** The selection has one record per matching position: its length is what `countDocuments` returns. */
  lemma {:induction false} SelectCountsMatches(db: Store, filter: Option<string>)
    ensures |Select(db, filter)| == |MatchingIndices(db, filter)|
  {
    if db != [] {
      SelectCountsMatches(db[..|db| - 1], filter);
      SelectSnoc(db, filter);
      MatchingIndicesOfSnoc(db, filter);
    }
  }

  /** Unfolds Select at the last record of the store. */
  lemma SelectSnoc(db: Store, filter: Option<string>)
    requires db != []
    ensures Select(db, filter) ==
      Select(db[..|db| - 1], filter) + (if Matches(db[|db| - 1], filter) then [db[|db| - 1]] else [])
  {
  }

  /** Records ordered by creation date, newest first (ties in any order). */
  predicate NewestFirst(rs: seq<Request>) {
    forall i, j | 0 <= i < j < |rs| :: rs[i].requestCreatedDate >= rs[j].requestCreatedDate
  }

  /** Inserts `x` into a newest-first sequence, ahead of the records not newer than it. */
  function InsertNewestFirst(x: Request, rs: seq<Request>): (r: seq<Request>)
    requires NewestFirst(rs)
    ensures |r| == |rs| + 1
    ensures r[0] == x || (rs != [] && r[0] == rs[0])
    ensures NewestFirst(r)
    ensures multiset(r) == multiset(rs) + multiset{x}
  {
    if rs == [] || rs[0].requestCreatedDate <= x.requestCreatedDate then
      ConsNewestFirst(x, rs);
      [x] + rs
    else
      var tail := InsertNewestFirst(x, rs[1..]);
      assert rs == [rs[0]] + rs[1..];
      ConsNewestFirst(rs[0], tail);
      [rs[0]] + tail
  }

  /** A record at least as new as the head of a newest-first sequence can be put in front of it. */
  lemma ConsNewestFirst(y: Request, t: seq<Request>)
    requires NewestFirst(t)
    requires t != [] ==> y.requestCreatedDate >= t[0].requestCreatedDate
    ensures NewestFirst([y] + t)
  {
    var r := [y] + t;
    forall i, j | 0 <= i < j < |r| ensures r[i].requestCreatedDate >= r[j].requestCreatedDate {
      if i == 0 {
        assert r[j] == t[j - 1];
        assert t[0].requestCreatedDate >= t[j - 1].requestCreatedDate;
      } else {
        assert r[i] == t[i - 1] && r[j] == t[j - 1];
      }
    }
  }

  /** No record occurs twice and no two records share a creation date. */
  predicate NoTies(m: multiset<Request>) {
    && (forall x | x in m :: m[x] == 1)
    && (forall x, y | x in m && y in m && x.requestCreatedDate == y.requestCreatedDate :: x == y)
  }

  /**
   * Without ties the newest-first order is unique: two newest-first
   * arrangements of the same records are the same sequence.
   */
  lemma {:induction false} NewestFirstUnique(a: seq<Request>, b: seq<Request>)
    requires NewestFirst(a) && NewestFirst(b)
    requires multiset(a) == multiset(b) && NoTies(multiset(a))
    ensures a == b
    decreases |a|
  {
    if a == [] {
      assert |b| == |multiset(b)| == 0;
    } else {
      NewestHeadsAgree(a, b);
      assert a[1..] == b[1..] by {
        NewestFirstTail(a);
        NewestFirstTail(b);
        NoTiesTail(a);
        MultisetOfTail(b);
        NewestFirstUnique(a[1..], b[1..]);
      }
      assert a == [a[0]] + a[1..];
      assert b == [b[0]] + b[1..];
    }
  }

  /** Helper for NewestFirstUnique: without ties, two newest-first arrangements start with the same record. */
  lemma NewestHeadsAgree(a: seq<Request>, b: seq<Request>)
    requires NewestFirst(a) && NewestFirst(b)
    requires multiset(a) == multiset(b) && NoTies(multiset(a))
    requires a != []
    ensures b != [] && a[0] == b[0]
  {
    assert a[0] in multiset(b);
    var k :| 0 <= k < |b| && b[k] == a[0];
    assert b[0] in multiset(a);
    var l :| 0 <= l < |a| && a[l] == b[0];
    assert b[0].requestCreatedDate >= b[k].requestCreatedDate;
    assert a[0].requestCreatedDate >= a[l].requestCreatedDate;
  }

  /** Helper for NewestFirstUnique: dropping the head keeps a sequence newest first. */
  lemma NewestFirstTail(a: seq<Request>)
    requires NewestFirst(a) && a != []
    ensures NewestFirst(a[1..])
  {
    forall i, j | 0 <= i < j < |a| - 1 ensures a[1..][i].requestCreatedDate >= a[1..][j].requestCreatedDate {
      assert a[1..][i] == a[i + 1] && a[1..][j] == a[j + 1];
    }
  }

  /** Dropping the head of a sequence removes one occurrence of it from its multiset. */
  lemma MultisetOfTail(a: seq<Request>)
    requires a != []
    ensures multiset(a[1..]) == multiset(a) - multiset{a[0]}
  {
    assert a == [a[0]] + a[1..];
  }

  /** Helper for NewestFirstUnique: dropping the head removes one occurrence and keeps the records free of ties. */
  lemma NoTiesTail(a: seq<Request>)
    requires NoTies(multiset(a)) && a != []
    ensures multiset(a[1..]) == multiset(a) - multiset{a[0]}
    ensures NoTies(multiset(a[1..]))
  {
    assert a == [a[0]] + a[1..];
    var m := multiset(a[1..]);
    assert m == multiset(a) - multiset{a[0]};
    forall x | x in m ensures m[x] == 1 && x in multiset(a) {
      assert multiset(a)[x] == m[x] + (if x == a[0] then 1 else 0);
    }
  }

  /** `sort({ requestCreatedDate: -1 })`: a newest-first permutation; equal dates keep store order. */
  function SortNewestFirst(rs: seq<Request>): (r: seq<Request>)
    ensures NewestFirst(r)
    ensures multiset(r) == multiset(rs)
    ensures |r| == |rs|
  {
    if rs == [] then []
    else
      assert rs == [rs[0]] + rs[1..];
      InsertNewestFirst(rs[0], SortNewestFirst(rs[1..]))
  }

  /** `skip(skip).limit(limit)`: the window of at most `limit` records starting at position `skip`. */
  function Window(rs: seq<Request>, skip: nat, limit: nat): (r: seq<Request>)
    ensures |r| == if skip >= |rs| then 0 else Min(limit, |rs| - skip)
    ensures forall k | 0 <= k < |r| :: r[k] == rs[skip + k]
  {
    if skip >= |rs| then [] else rs[skip..Min(skip + limit, |rs|)]
  }

  /** A window from the start at least as long as the sequence is the whole sequence. */
  lemma WindowAll(rs: seq<Request>, limit: nat)
    requires limit >= |rs|
    ensures Window(rs, 0, limit) == rs
  {
  }

  /** A position inside the window's range is kept by skip/limit. */
  lemma WindowContains(rs: seq<Request>, skip: nat, limit: nat, k: nat)
    requires skip <= k < skip + limit && k < |rs|
    ensures rs[k] in Window(rs, skip, limit)
  {
    assert Window(rs, skip, limit)[k - skip] == rs[k];
  }

  /**
   * `find(query).sort(...).skip(skip).limit(limit)`: a newest-first run of
   * matching store records, cut at `skip` from the whole sorted match list.
   */
  function PageOf(db: Store, filter: Option<string>, skip: nat, limit: nat): (data: seq<Request>)
    ensures var total := |MatchingIndices(db, filter)|;
      |data| == if skip >= total then 0 else Min(limit, total - skip)
    ensures NewestFirst(data)
    ensures forall k | 0 <= k < |data| :: data[k] in db && Matches(data[k], filter)
    ensures var sorted := SortNewestFirst(Select(db, filter));
      forall k | 0 <= k < |data| :: skip + k < |sorted| && data[k] == sorted[skip + k]
  {
    PageFacts(db, filter, skip, limit);
    Window(SortNewestFirst(Select(db, filter)), skip, limit)
  }

  /** Helper for PageOf: the facts its contract states, proved about the window of the sorted matches. */
  lemma PageFacts(db: Store, filter: Option<string>, skip: nat, limit: nat)
    ensures var sorted := SortNewestFirst(Select(db, filter));
      var data := Window(sorted, skip, limit);
      var total := |MatchingIndices(db, filter)|;
      && |data| == (if skip >= total then 0 else Min(limit, total - skip))
      && NewestFirst(data)
      && (forall k | 0 <= k < |data| :: data[k] in db && Matches(data[k], filter))
      && (forall k | 0 <= k < |data| :: data[k] == sorted[skip + k])
  {
    var matching := Select(db, filter);
    var sorted := SortNewestFirst(matching);
    var data := Window(sorted, skip, limit);
    SelectCountsMatches(db, filter);
    SortedMatchesComeFromStore(db, filter);
    WindowKeepsOrder(sorted, skip, limit);
  }

  /** Every record of the sorted match list is a matching record of the store. */
  lemma SortedMatchesComeFromStore(db: Store, filter: Option<string>)
    ensures var sorted := SortNewestFirst(Select(db, filter));
      forall k | 0 <= k < |sorted| :: sorted[k] in db && Matches(sorted[k], filter)
  {
    var matching := Select(db, filter);
    var sorted := SortNewestFirst(matching);
    forall k | 0 <= k < |sorted| ensures sorted[k] in db && Matches(sorted[k], filter) {
      assert sorted[k] in multiset(sorted);
      assert multiset(matching)[sorted[k]] > 0;
    }
  }

  /** A window of a newest-first sequence is newest first. */
  lemma WindowKeepsOrder(rs: seq<Request>, skip: nat, limit: nat)
    requires NewestFirst(rs)
    ensures NewestFirst(Window(rs, skip, limit))
  {
    var w := Window(rs, skip, limit);
    forall i, j | 0 <= i < j < |w| ensures w[i].requestCreatedDate >= w[j].requestCreatedDate {
      assert w[i] == rs[skip + i] && w[j] == rs[skip + j];
    }
  }

  function Min(a: int, b: int): int {
    if a <= b then a else b
  }
}
