/** The database service's admission records as an in-memory store: a
    sequence of records, each with a store-assigned identifier. Create, list,
    summary and delete are state transitions that return the next store and an
    outcome (the record, a validation error, or not-found). */
module RecordStore {
  import opened Wrappers
  import opened Dates
  import opened StudentSchema
  import opened Text

  type Id = nat

  datatype Record = Record(id: Id, student: Student)

  type Store = seq<Record>

  /** The outcomes a request can have, without the HTTP envelope. */
  datatype Outcome<+T> = Ok(value: T) | ValidationError(errors: seq<FieldError>) | NotFound

  function Ids(store: Store): set<Id> {
    set r | r in store :: r.id
  }

  /** No two records share an identifier. */
  predicate UniqueIds(store: Store) {
    forall i, j :: 0 <= i < j < |store| ==> store[i].id != store[j].id
  }

  /** Every stored record passed the schema. */
  predicate AllWellFormed(store: Store) {
    forall r :: r in store ==> WellFormed(r.student)
  }

  /** The invariant every operation keeps. */
  predicate Valid(store: Store) {
    UniqueIds(store) && AllWellFormed(store)
  }

  // ---------------------------------------------------------------------------
  // Create
  // ---------------------------------------------------------------------------

  /** The largest identifier in use, 0 for an empty store. */
  function MaxId(store: Store): (m: Id)
    ensures forall r :: r in store ==> r.id <= m
  {
    if store == [] then 0
    else
      var rest := MaxId(store[1..]);
      if store[0].id > rest then store[0].id else rest
  }

  /** An identifier no record carries. */
  function FreshId(store: Store): (id: Id)
    ensures id !in Ids(store)
  {
    MaxId(store) + 1
  }

  /** The body of a create request. The admission date is not among the fields
      read from it. */
  datatype CreateRequest = CreateRequest(
    name: Option<string>,
    age: Option<int>,
    mobile: Option<string>,
    dob: Option<CalendarDate>,
    admissionStatus: Option<string>,
    eligibilityReasons: Option<seq<string>>)

  /** The candidate the create handler builds: absent reasons become the empty
      list and the admission date is always the current time. */
  function CandidateOf(req: CreateRequest, now: Timestamp): (c: Candidate)
    ensures && c.name == req.name && c.age == req.age && c.mobile == req.mobile
            && c.dob == req.dob && c.admissionStatus == req.admissionStatus
    ensures req.eligibilityReasons.None? ==> c.eligibilityReasons == Some([])
    ensures req.eligibilityReasons.Some? ==> c.eligibilityReasons == req.eligibilityReasons
    ensures c.admissionDate == Some(now)
  {
    Candidate(req.name, req.age, req.mobile, req.dob, req.admissionStatus,
              Some(req.eligibilityReasons.GetOr([])), Some(now))
  }

  /** Save a new admission. A candidate the schema rejects leaves the store as
      it was; an accepted one is appended under a fresh identifier. */
  function Create(store: Store, req: CreateRequest, now: Timestamp): (res: (Store, Outcome<Record>))
    ensures !res.1.NotFound?
    ensures res.1.ValidationError? <==> ValidateRecord(CandidateOf(req, now), now).Failure?
    ensures res.1.ValidationError? ==> res.0 == store && res.1.errors == FieldErrors(CandidateOf(req, now)) != []
    ensures res.1.Ok? ==> && res.0 == store + [res.1.value]
                          && res.1.value.id !in Ids(store)
                          && WellFormed(res.1.value.student)
                          && res.1.value.student.admissionDate == now
                          && res.1.value.student.eligibilityReasons == req.eligibilityReasons.GetOr([])
                          && res.1.value.student.mobile == req.mobile.value
                          && res.1.value.student.age == req.age.value
                          && res.1.value.student.dob == req.dob.value
                          && res.1.value.student.name == Trim(req.name.value)
                          && StatusName(res.1.value.student.admissionStatus) == req.admissionStatus.GetOr("Rejected")
  {
    match ValidateRecord(CandidateOf(req, now), now)
    case Failure(errors) => (store, ValidationError(errors))
    case Success(student) =>
      var rec := Record(FreshId(store), student);
      (store + [rec], Ok(rec))
  }

  /** Appending a well-formed record under an unused identifier keeps the
      store invariant. */
  lemma AppendFreshKeepsValid(store: Store, rec: Record)
    requires Valid(store)
    requires rec.id !in Ids(store) && WellFormed(rec.student)
    ensures Valid(store + [rec])
  {
    var next := store + [rec];
    forall i, j | 0 <= i < j < |next|
      ensures next[i].id != next[j].id
    {
      if j == |store| {
        assert next[i] in store;
      }
    }
  }

  /** Creating keeps the store invariant. */
  lemma CreateKeepsValid(store: Store, req: CreateRequest, now: Timestamp)
    requires Valid(store)
    ensures Valid(Create(store, req, now).0)
  {
    var (next, out) := Create(store, req, now);
    if out.Ok? {
      AppendFreshKeepsValid(store, out.value);
    }
  }

  // ---------------------------------------------------------------------------
  // List
  // ---------------------------------------------------------------------------

  /** Newest admission first. */
  predicate SortedByAdmissionDesc(rs: seq<Record>) {
    forall i, j :: 0 <= i < j < |rs| ==> rs[i].student.admissionDate >= rs[j].student.admissionDate
  }

  /** Each record is at least as recent as the next one. */
  predicate AdjacentSorted(rs: seq<Record>) {
    forall i :: 0 <= i < |rs| - 1 ==> rs[i].student.admissionDate >= rs[i + 1].student.admissionDate
  }

  /** Order between neighbours is order between every pair. */
  lemma {:induction false} AdjacentSortedIsSorted(rs: seq<Record>)
    requires AdjacentSorted(rs)
    ensures SortedByAdmissionDesc(rs)
  {
    if |rs| > 1 {
      AdjacentSortedIsSorted(rs[1..]);
      forall j | 1 <= j < |rs|
        ensures rs[0].student.admissionDate >= rs[j].student.admissionDate
      {
        assert rs[1..][0] == rs[1] && rs[1..][j - 1] == rs[j];
      }
    }
  }

  /** A record at least as recent as the head of a sorted list can go in
      front of it. */
  lemma ConsSorted(y: Record, rs: seq<Record>)
    requires AdjacentSorted(rs)
    requires rs == [] || y.student.admissionDate >= rs[0].student.admissionDate
    ensures AdjacentSorted([y] + rs)
  {
    var out := [y] + rs;
    forall i | 0 <= i < |out| - 1
      ensures out[i].student.admissionDate >= out[i + 1].student.admissionDate
    {
      if i > 0 {
        assert out[i] == rs[i - 1] && out[i + 1] == rs[i];
      }
    }
  }

  /** Insert `x` into a list sorted newest first, ahead of the records with
      the same admission date. */
  function Insert(x: Record, rs: seq<Record>): (out: seq<Record>)
    requires AdjacentSorted(rs)
    ensures multiset(out) == multiset(rs) + multiset{x}
    ensures AdjacentSorted(out)
    ensures |out| == |rs| + 1 && (out[0] == x || (rs != [] && out[0] == rs[0]))
  {
    if rs == [] || x.student.admissionDate >= rs[0].student.admissionDate then
      ConsSorted(x, rs);
      [x] + rs
    else
      assert AdjacentSorted(rs[1..]) by {
        forall i | 0 <= i < |rs[1..]| - 1
          ensures rs[1..][i].student.admissionDate >= rs[1..][i + 1].student.admissionDate
        {
          assert rs[1..][i] == rs[i + 1] && rs[1..][i + 1] == rs[i + 2];
        }
      }
      var tail := Insert(x, rs[1..]);
      assert rs[1..] != [] ==> rs[1..][0] == rs[1];
      ConsSorted(rs[0], tail);
      assert rs == [rs[0]] + rs[1..];
      [rs[0]] + tail
  }

  /** Every record, newest admission first. */
  function List(store: Store): (out: seq<Record>)
    ensures multiset(out) == multiset(store)
    ensures SortedByAdmissionDesc(out)
  {
    var out := SortByAdmission(store);
    AdjacentSortedIsSorted(out);
    out
  }

  /** Insertion sort on the admission date, newest first. */
  function SortByAdmission(store: Store): (out: seq<Record>)
    ensures multiset(out) == multiset(store)
    ensures AdjacentSorted(out)
  {
    if store == [] then []
    else
      assert store == [store[0]] + store[1..];
      Insert(store[0], SortByAdmission(store[1..]))
  }

  // ---------------------------------------------------------------------------
  // Summary
  // ---------------------------------------------------------------------------

  datatype Summary = Summary(totalStudents: nat, approvedStudents: nat, rejectedStudents: nat)

  /** The number of records with status `st`. */
  function CountStatus(store: Store, st: AdmissionStatus): (n: nat)
    ensures n <= |store|
    ensures n == |store| <==> forall r :: r in store ==> r.student.admissionStatus == st
  {
    if store == [] then 0
    else
      assert store == [store[0]] + store[1..];
      (if store[0].student.admissionStatus == st then 1 else 0) + CountStatus(store[1..], st)
  }

  /** The dashboard counts: every record, the approved ones, the rejected ones. */
  function Summarize(store: Store): (s: Summary)
    ensures s.totalStudents == |store|
    ensures s.approvedStudents <= s.totalStudents && s.rejectedStudents <= s.totalStudents
    ensures s.approvedStudents + s.rejectedStudents == s.totalStudents
  {
    CountsPartition(store);
    Summary(|store|, CountStatus(store, Approved), CountStatus(store, Rejected))
  }

  /** Each record is approved or rejected, so the two counts add up to the
      total. */
  lemma {:induction false} CountsPartition(store: Store)
    ensures CountStatus(store, Approved) + CountStatus(store, Rejected) == |store|
  {
    if store != [] {
      CountsPartition(store[1..]);
    }
  }

  /** Counting distributes over concatenation. */
  lemma {:induction false} CountConcat(a: Store, b: Store, st: AdmissionStatus)
    ensures CountStatus(a + b, st) == CountStatus(a, st) + CountStatus(b, st)
  {
    if a != [] {
      assert (a + b)[0] == a[0];
      assert (a + b)[1..] == a[1..] + b;
      CountConcat(a[1..], b, st);
    } else {
      assert a + b == b;
    }
  }

  // ---------------------------------------------------------------------------
  // Delete
  // ---------------------------------------------------------------------------

  /** The position of the first record with identifier `id`. */
  function IndexOf(store: Store, id: Id): (r: Option<nat>)
    ensures r.None? <==> id !in Ids(store)
    ensures r.Some? ==> r.value < |store| && store[r.value].id == id
  {
    if store == [] then None
    else if store[0].id == id then Some(0)
    else
      match IndexOf(store[1..], id)
      case None =>
        assert id !in Ids(store) by {
          forall r | r in store
            ensures r.id != id
          {
            if r != store[0] {
              assert r in store[1..];
            }
          }
        }
        None
      case Some(i) => Some(i + 1)
  }

  /** Remove the record with identifier `id` and report what it held, or
      report not-found and change nothing. */
  function Delete(store: Store, id: Id): (res: (Store, Outcome<Record>))
    ensures !res.1.ValidationError?
    ensures res.1.NotFound? <==> id !in Ids(store)
    ensures res.1.NotFound? ==> res.0 == store
    ensures res.1.Ok? ==> && res.1.value.id == id
                          && (exists i :: 0 <= i < |store| && store[i] == res.1.value
                                          && res.0 == store[..i] + store[i + 1..])
                          && |res.0| == |store| - 1
                          && multiset(res.0) + multiset{res.1.value} == multiset(store)
  {
    match IndexOf(store, id)
    case None => (store, NotFound)
    case Some(i) =>
      assert store == store[..i] + [store[i]] + store[i + 1..];
      (store[..i] + store[i + 1..], Ok(store[i]))
  }

  /** With identifiers unique, deleting a known id leaves no record with that
      id. */
  lemma DeleteRemovesId(store: Store, id: Id)
    requires UniqueIds(store) && id in Ids(store)
    ensures Delete(store, id).1.Ok?
    ensures id !in Ids(Delete(store, id).0)
  {
    var i := IndexOf(store, id).value;
    var rest := store[..i] + store[i + 1..];
    assert Delete(store, id).0 == rest;
    forall k | 0 <= k < |rest|
      ensures rest[k].id != id
    {
      if k < i {
        assert rest[k] == store[k];
      } else {
        assert rest[k] == store[k + 1];
      }
    }
  }

  /** Deleting a known id keeps every record with another id. */
  lemma DeleteKeepsOthers(store: Store, id: Id)
    requires id in Ids(store)
    ensures Delete(store, id).1.Ok?
    ensures forall r :: r in store && r.id != id ==> r in Delete(store, id).0
  {
    var i := IndexOf(store, id).value;
    var rest := store[..i] + store[i + 1..];
    assert Delete(store, id).0 == rest;
    assert store == store[..i] + [store[i]] + store[i + 1..];
  }

  /** Removing one record keeps the store invariant. */
  lemma RemoveAtKeepsValid(store: Store, i: nat)
    requires Valid(store) && i < |store|
    ensures Valid(store[..i] + store[i + 1..])
  {
    var next := store[..i] + store[i + 1..];
    forall a, b | 0 <= a < b < |next|
      ensures next[a].id != next[b].id
    {
      var a' := if a < i then a else a + 1;
      var b' := if b < i then b else b + 1;
      assert next[a] == store[a'] && next[b] == store[b'];
    }
    forall r | r in next
      ensures WellFormed(r.student)
    {
      var k :| 0 <= k < |next| && next[k] == r;
      assert r == store[if k < i then k else k + 1];
    }
  }

  /** Deleting keeps the store invariant. */
  lemma DeleteKeepsValid(store: Store, id: Id)
    requires Valid(store)
    ensures Valid(Delete(store, id).0)
  {
    var (next, out) := Delete(store, id);
    if out.Ok? {
      var i :| 0 <= i < |store| && store[i] == out.value && next == store[..i] + store[i + 1..];
      RemoveAtKeepsValid(store, i);
    }
  }

  /** A deletion lowers the total by one and the count of the deleted
      record's status by one, and leaves the other count alone. */
  lemma DeleteUpdatesSummary(store: Store, id: Id)
    requires Delete(store, id).1.Ok?
    ensures var rec := Delete(store, id).1.value;
            var before := Summarize(store);
            var after := Summarize(Delete(store, id).0);
            && after.totalStudents == before.totalStudents - 1
            && after.approvedStudents == before.approvedStudents - (if rec.student.admissionStatus == Approved then 1 else 0)
            && after.rejectedStudents == before.rejectedStudents - (if rec.student.admissionStatus == Rejected then 1 else 0)
  {
    var (next, out) := Delete(store, id);
    var i :| 0 <= i < |store| && store[i] == out.value && next == store[..i] + store[i + 1..];
    assert store == store[..i] + ([store[i]] + store[i + 1..]);
    forall st: AdmissionStatus
      ensures CountStatus(store, st) == CountStatus(next, st) + (if out.value.student.admissionStatus == st then 1 else 0)
    {
      CountConcat(store[..i], [store[i]] + store[i + 1..], st);
      CountConcat([store[i]], store[i + 1..], st);
      CountConcat(store[..i], store[i + 1..], st);
    }
  }

  /** Deleting a record just appended under an unused identifier gives it
      back and restores the store. */
  lemma DeleteAppended(store: Store, rec: Record)
    requires rec.id !in Ids(store)
    ensures Delete(store + [rec], rec.id) == (store, Ok(rec))
  {
    var next := store + [rec];
    assert next[..|store|] + next[|store| + 1..] == store;
  }

  /** A record just created is listed; deleting it gives it back, restores
      the store the create started from, and the listing no longer holds it. */
  lemma CreateThenDelete(store: Store, req: CreateRequest, now: Timestamp)
    ensures var (next, out) := Create(store, req, now);
            out.Ok? ==>
            && out.value in List(next)
            && Delete(next, out.value.id) == (store, Ok(out.value))
            && out.value !in List(Delete(next, out.value.id).0)
  {
    var (next, out) := Create(store, req, now);
    if out.Ok? {
      assert out.value in multiset(List(next)) by {
        assert next[|store|] == out.value;
      }
      DeleteAppended(store, out.value);
      assert out.value !in multiset(store);
    }
  }

  /** A successful create raises the total by one and the count of the new
      record's status by one. */
  lemma CreateUpdatesSummary(store: Store, req: CreateRequest, now: Timestamp)
    ensures var (next, out) := Create(store, req, now);
            var before := Summarize(store);
            var after := Summarize(next);
            out.Ok? ==>
            && after.totalStudents == before.totalStudents + 1
            && after.approvedStudents == before.approvedStudents + (if out.value.student.admissionStatus == Approved then 1 else 0)
            && after.rejectedStudents == before.rejectedStudents + (if out.value.student.admissionStatus == Rejected then 1 else 0)
  {
    var (next, out) := Create(store, req, now);
    if out.Ok? {
      CountConcat(store, [out.value], Approved);
      CountConcat(store, [out.value], Rejected);
    }
  }
}
