/** The interaction log (backend/controllers/interactionController.js): an
    upsert-increment on a table of interaction records keyed by the triple
    (user, movie, interaction type), and the per-user lookup that feeds the
    recommendation engine. */
module InteractionController {
  import opened Models

  /** The key under which `logInteraction` looks a record up. */
  datatype Triple = Triple(userId: ObjectId, movieId: ObjectId, interactionType: string)

  function KeyOf(r: Interaction): Triple {
    Triple(r.userId, r.movieId, r.interactionType)
  }

  /** The invariant the log maintains: no two records share a triple. */
  predicate OneRecordPerTriple(records: seq<Interaction>) {
    forall i, j :: 0 <= i < j < |records| ==> KeyOf(records[i]) != KeyOf(records[j])
  }

  /** `Interaction.findOne({ userId, movieId, interactionType })`: the index
      of the first record with that triple, if any. */
  function IndexOfTriple(records: seq<Interaction>, key: Triple): (r: Option<nat>)
    ensures r.Some? ==> r.value < |records| && KeyOf(records[r.value]) == key
    ensures r.Some? ==> forall j :: 0 <= j < r.value ==> KeyOf(records[j]) != key
    ensures r.None? ==> forall j :: 0 <= j < |records| ==> KeyOf(records[j]) != key
    decreases |records|
  {
    if records == [] then None
    else if KeyOf(records[0]) == key then Some(0)
    else match IndexOfTriple(records[1..], key)
      case None => None
      case Some(i) => Some(i + 1)
  }

  /** `Interaction.find({ userId })`: the records of one user, in table order. */
  function UserRecords(table: seq<Interaction>, userId: ObjectId): (r: seq<Interaction>)
    ensures |r| <= |table|
    ensures forall x :: x in r <==> x in table && x.userId == userId
    decreases |table|
  {
    if table == [] then []
    else
      var n := |table| - 1;
      assert table == table[..n] + [table[n]];
      UserRecords(table[..n], userId) + (if table[n].userId == userId then [table[n]] else [])
  }

  /** The lookup filters each record on its own: it distributes over
      concatenation, so the result keeps the table's order. */
  lemma {:induction false} UserRecordsAppend(a: seq<Interaction>, b: seq<Interaction>, userId: ObjectId)
    ensures UserRecords(a + b, userId) == UserRecords(a, userId) + UserRecords(b, userId)
    decreases |b|
  {
    if b == [] {
      assert a + b == a;
    } else {
      var n := |b| - 1;
      assert (a + b)[..|a + b| - 1] == a + b[..n];
      assert (a + b)[|a + b| - 1] == b[n];
      UserRecordsAppend(a, b[..n], userId);
    }
  }

  /** A single record is returned exactly when it belongs to the user. */
  lemma UserRecordsSingle(r: Interaction, userId: ObjectId)
    ensures UserRecords([r], userId) == if r.userId == userId then [r] else []
  {
    assert [r][..0] == [];
  }

  /** A log request; each field may be absent from the request body. */
  datatype LogRequest = LogRequest(userId: Option<string>, movieId: Option<string>, interactionType: Option<string>)

  /** The replies of `logInteraction`: 400 for a missing field, 200 when an
      existing record was incremented, 201 when a record was created, and 500
      when the store refuses the new record (a type outside the schema enum). */
  datatype LogOutcome = MissingField | CountUpdated | Logged | SaveRejected

  datatype LogResult = LogResult(records: seq<Interaction>, outcome: LogOutcome)

  predicate HasAllFields(req: LogRequest) {
    Truthy(req.userId) && Truthy(req.movieId) && Truthy(req.interactionType)
  }

  function RequestKey(req: LogRequest): Triple
    requires HasAllFields(req)
  {
    Triple(req.userId.value, req.movieId.value, req.interactionType.value)
  }

  /** One `logInteraction` call, as one atomic step on the table. `now` is
      the clock reading the schema default stores on creation. */
  function LogStep(records: seq<Interaction>, req: LogRequest, now: int): (r: LogResult)
    ensures r.outcome == MissingField <==> !HasAllFields(req)
    ensures r.outcome == MissingField || r.outcome == SaveRejected ==> r.records == records
    ensures |r.records| == |records| + (if r.outcome == Logged then 1 else 0)
    ensures r.outcome == SaveRejected ==> !IsSchemaType(req.interactionType.value)
  {
    if !HasAllFields(req) then LogResult(records, MissingField)
    else
      var key := RequestKey(req);
      match IndexOfTriple(records, key)
      case Some(i) =>
        LogResult(records[i := records[i].(interactionCount := records[i].interactionCount + 1)], CountUpdated)
      case None =>
        if IsSchemaType(key.interactionType) then
          LogResult(records + [Interaction(key.userId, key.movieId, key.interactionType, 1, now)], Logged)
        else LogResult(records, SaveRejected)
  }

  /** The count recorded for a triple: that of its first record, or 0 when
      there is none. */
  function CountOf(records: seq<Interaction>, key: Triple): int {
    match IndexOfTriple(records, key)
    case Some(i) => records[i].interactionCount
    case None => 0
  }

  // ---------------------------------------------------------------------
  // Properties of one log step.

  /** A call missing any field is rejected and the table is unchanged. */
  lemma LogRejectsMissingField(records: seq<Interaction>, req: LogRequest, now: int)
    requires !Truthy(req.userId) || !Truthy(req.movieId) || !Truthy(req.interactionType)
    ensures LogStep(records, req, now) == LogResult(records, MissingField)
  {
  }

  /** When the triple has a record, its count goes up by exactly one and
      nothing is added. */
  lemma LogIncrementsExisting(records: seq<Interaction>, req: LogRequest, now: int, i: nat)
    requires OneRecordPerTriple(records)
    requires HasAllFields(req) && i < |records| && KeyOf(records[i]) == RequestKey(req)
    ensures LogStep(records, req, now).outcome == CountUpdated
    ensures LogStep(records, req, now).records
         == records[i := records[i].(interactionCount := records[i].interactionCount + 1)]
  {
    var found := IndexOfTriple(records, RequestKey(req));
    assert found.Some?;
    assert found.value == i;
  }

  /** When the triple has no record, exactly one record with count 1 is
      appended (or, for a type outside the schema enum, the save fails and
      the table is unchanged). */
  lemma LogAppendsNew(records: seq<Interaction>, req: LogRequest, now: int)
    requires HasAllFields(req)
    requires forall j :: 0 <= j < |records| ==> KeyOf(records[j]) != RequestKey(req)
    ensures IsSchemaType(req.interactionType.value) ==>
      LogStep(records, req, now) == LogResult(
        records + [Interaction(req.userId.value, req.movieId.value, req.interactionType.value, 1, now)], Logged)
    ensures !IsSchemaType(req.interactionType.value) ==>
      LogStep(records, req, now) == LogResult(records, SaveRejected)
  {
  }

  /** Logging keeps at most one record per triple, and every record of another
      triple stays where it was, unchanged. */
  lemma LogPreservesTable(records: seq<Interaction>, req: LogRequest, now: int)
    requires OneRecordPerTriple(records)
    ensures OneRecordPerTriple(LogStep(records, req, now).records)
    ensures |LogStep(records, req, now).records| >= |records|
    ensures forall j :: 0 <= j < |records| && (!HasAllFields(req) || KeyOf(records[j]) != RequestKey(req)) ==>
      LogStep(records, req, now).records[j] == records[j]
  {
    if HasAllFields(req) {
      var after := LogStep(records, req, now).records;
      var key := RequestKey(req);
      match IndexOfTriple(records, key)
      case Some(i) =>
        assert forall j :: 0 <= j < |after| ==> KeyOf(after[j]) == KeyOf(records[j]);
      case None =>
    }
  }

  /** An accepted call raises the count of its triple by one and leaves the
      count of every other triple as it was. */
  lemma LogCounts(records: seq<Interaction>, req: LogRequest, now: int, other: Triple)
    requires OneRecordPerTriple(records)
    requires HasAllFields(req) && LogStep(records, req, now).outcome != SaveRejected
    ensures CountOf(LogStep(records, req, now).records, RequestKey(req)) == CountOf(records, RequestKey(req)) + 1
    ensures other != RequestKey(req) ==>
      CountOf(LogStep(records, req, now).records, other) == CountOf(records, other)
  {
    var key := RequestKey(req);
    var after := LogStep(records, req, now).records;
    match IndexOfTriple(records, key)
    case Some(i) =>
      assert forall j :: 0 <= j < |after| ==> KeyOf(after[j]) == KeyOf(records[j]);
      IndexOfTripleSameKeys(records, after, key);
      IndexOfTripleSameKeys(records, after, other);
    case None =>
      IndexOfTripleAppend(records, after[|records|], key);
      IndexOfTripleAppend(records, after[|records|], other);
  }

  lemma {:induction false} IndexOfTripleSameKeys(a: seq<Interaction>, b: seq<Interaction>, key: Triple)
    requires |a| == |b| && forall j :: 0 <= j < |a| ==> KeyOf(a[j]) == KeyOf(b[j])
    ensures IndexOfTriple(a, key) == IndexOfTriple(b, key)
    decreases |a|
  {
    if a != [] {
      IndexOfTripleSameKeys(a[1..], b[1..], key);
    }
  }

  lemma {:induction false} IndexOfTripleAppend(a: seq<Interaction>, x: Interaction, key: Triple)
    ensures IndexOfTriple(a + [x], key) ==
      match IndexOfTriple(a, key)
      case Some(i) => Some(i)
      case None => if KeyOf(x) == key then Some(|a|) else None
    decreases |a|
  {
    if a != [] {
      assert (a + [x])[1..] == a[1..] + [x];
      IndexOfTripleAppend(a[1..], x, key);
    }
  }

  // ---------------------------------------------------------------------
  // Repeated logging.

  /** The table after logging the same request once per clock reading. */
  function LogRepeatedly(records: seq<Interaction>, req: LogRequest, times: seq<int>): seq<Interaction>
    decreases |times|
  {
    if times == [] then records
    else LogStep(LogRepeatedly(records, req, times[..|times| - 1]), req, times[|times| - 1]).records
  }

  /** Logging one triple n times on an empty table leaves a single record,
      created at the first call, whose count is n. */
  lemma {:induction false} RepeatedLogCounts(req: LogRequest, times: seq<int>)
    requires HasAllFields(req) && IsSchemaType(req.interactionType.value)
    requires |times| >= 1
    ensures LogRepeatedly([], req, times) ==
      [Interaction(req.userId.value, req.movieId.value, req.interactionType.value, |times|, times[0])]
    decreases |times|
  {
    var n := |times| - 1;
    if n > 0 {
      RepeatedLogCounts(req, times[..n]);
      assert times[..n][0] == times[0];
    }
  }

  /** The store of interaction records, updated in place by `logInteraction`. */
  class InteractionStore {
    var records: seq<Interaction>

    /** Each triple has at most one record, and every record was created by a
        successful log call (type in the schema enum, count at least 1). */
    ghost predicate Valid()
      reads this
    {
      && OneRecordPerTriple(records)
      && forall i :: 0 <= i < |records| ==>
           records[i].interactionCount >= 1 && IsSchemaType(records[i].interactionType)
    }

    constructor ()
      ensures Valid() && records == []
    {
      records := [];
    }

    /** `Interaction.findOne(...)` over the table. */
    method FindOne(userId: ObjectId, movieId: ObjectId, interactionType: string) returns (found: Option<nat>)
      ensures found.Some? ==>
        found.value < |records| && KeyOf(records[found.value]) == Triple(userId, movieId, interactionType)
      ensures found.None? ==>
        forall j :: 0 <= j < |records| ==> KeyOf(records[j]) != Triple(userId, movieId, interactionType)
    {
      var key := Triple(userId, movieId, interactionType);
      var i := 0;
      while i < |records|
        invariant 0 <= i <= |records|
        invariant forall j :: 0 <= j < i ==> KeyOf(records[j]) != key
      {
        if KeyOf(records[i]) == key {
          return Some(i);
        }
        i := i + 1;
      }
      return None;
    }

    /** `logInteraction`: validate, then increment the existing record of the
        triple or insert a new one with count 1. */
    method Log(req: LogRequest, now: int) returns (outcome: LogOutcome)
      requires Valid()
      modifies this
      ensures Valid()
      ensures LogResult(records, outcome) == LogStep(old(records), req, now)
    {
      if !Truthy(req.userId) || !Truthy(req.movieId) || !Truthy(req.interactionType) {
        return MissingField;
      }
      var userId, movieId, interactionType := req.userId.value, req.movieId.value, req.interactionType.value;
      LogPreservesTable(records, req, now);
      var existing := FindOne(userId, movieId, interactionType);
      if existing.Some? {
        var i := existing.value;
        LogIncrementsExisting(records, req, now, i);
        records := records[i := records[i].(interactionCount := records[i].interactionCount + 1)];
        return CountUpdated;
      }
      if !IsSchemaType(interactionType) {
        return SaveRejected;
      }
      records := records + [Interaction(userId, movieId, interactionType, 1, now)];
      return Logged;
    }
  }
}
