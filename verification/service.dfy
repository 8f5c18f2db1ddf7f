/** The service as a state machine over the patients table: one step per
    request, with the table after the request and the reply sent back. */
module Service {
  import opened Wrappers
  import opened Patients
  import opened Endpoints
  import EndpointLaws

  /** A request to one of the six patient endpoints. */
  datatype Request =
    | ListPatients
    | SearchByPhone(phone: string)
    | GetPatient(id: int)
    | CreatePatient(body: Patient)
    | UpdatePatient(id: int, body: Patient)
    | DeletePatient(id: int)
  {
    /** The list, search and lookup endpoints. */
    predicate IsRead()
    {
      ListPatients? || SearchByPhone? || GetPatient?
    }
  }

  /** The reply to a request. */
  datatype Reply =
    | Records(views: seq<PatientView>)
    | Record(view: PatientView)
    | Deleted
    | Rejected(error: Error)

  /** One request against the table: the table afterwards and the reply. */
  function Step(s: Store, req: Request): (Store, Reply)
  {
    match req
    case ListPatients => (s, Records(GetAll(s)))
    case SearchByPhone(phone) =>
      (match Search(s, phone)
       case Success(vs) => (s, Records(vs))
       case Failure(e) => (s, Rejected(e)))
    case GetPatient(id) =>
      (match Get(s, id)
       case Success(v) => (s, Record(v))
       case Failure(e) => (s, Rejected(e)))
    case CreatePatient(body) =>
      (match Create(s, body)
       case Success((t, v)) => (t, Record(v))
       case Failure(e) => (s, Rejected(e)))
    case UpdatePatient(id, body) =>
      (match Update(s, id, body)
       case Success((t, v)) => (t, Record(v))
       case Failure(e) => (s, Rejected(e)))
    case DeletePatient(id) =>
      (match Delete(s, id)
       case Success(t) => (t, Deleted)
       case Failure(e) => (s, Rejected(e)))
  }

  /** The table after a sequence of requests, applied in order. */
  function Run(s: Store, reqs: seq<Request>): Store
    decreases |reqs|
  {
    if |reqs| == 0 then s else Run(Step(s, reqs[0]).0, reqs[1..])
  }

  /** The list request replies with every record, masked, and keeps the table. */
  lemma StepListReply(s: Store)
    ensures Step(s, ListPatients) == (s, Records(GetAll(s)))
  {
  }

  /** The search request replies with the matching records, or with the
      search's error, and keeps the table. */
  lemma StepSearchReply(s: Store, phone: string)
    ensures Step(s, SearchByPhone(phone)).0 == s
    ensures Search(s, phone).Success? ==>
              Step(s, SearchByPhone(phone)).1 == Records(Search(s, phone).value)
    ensures Search(s, phone).Failure? ==>
              Step(s, SearchByPhone(phone)).1 == Rejected(NoPatientsWithPhone)
  {
  }

  /** The lookup request replies with the masked record, or with not-found,
      and keeps the table. */
  lemma StepGetReply(s: Store, id: int)
    ensures Step(s, GetPatient(id)).0 == s
    ensures id in s ==> Step(s, GetPatient(id)).1 == Record(View(id, s[id]))
    ensures id !in s ==> Step(s, GetPatient(id)).1 == Rejected(PatientNotFound)
  {
  }

  /** A successful create installs the new table and replies with the new
      record; a failed one keeps the table and replies with create's error. */
  lemma StepCreateReply(s: Store, body: Patient)
    ensures Create(s, body).Success? ==>
              Step(s, CreatePatient(body)) == (Create(s, body).value.0, Record(Create(s, body).value.1))
    ensures Create(s, body).Failure? ==>
              Step(s, CreatePatient(body)) == (s, Rejected(Create(s, body).error))
  {
  }

  /** A successful update installs the new table and replies with the
      updated record; a failed one keeps the table and replies with update's
      error. */
  lemma StepUpdateReply(s: Store, id: int, body: Patient)
    ensures Update(s, id, body).Success? ==>
              Step(s, UpdatePatient(id, body)) == (Update(s, id, body).value.0, Record(Update(s, id, body).value.1))
    ensures Update(s, id, body).Failure? ==>
              Step(s, UpdatePatient(id, body)) == (s, Rejected(Update(s, id, body).error))
  {
  }

  /** Deleting a stored id removes it and replies with the deletion message;
      deleting a missing id keeps the table and replies with not-found. */
  lemma StepDeleteReply(s: Store, id: int)
    ensures id in s ==> Step(s, DeletePatient(id)) == (s - {id}, Deleted)
    ensures id !in s ==> Step(s, DeletePatient(id)) == (s, Rejected(PatientNotFound))
  {
  }

  /** Running two sequences of requests one after the other is running their
      concatenation. */
  lemma {:induction false} RunAppend(s: Store, a: seq<Request>, b: seq<Request>)
    ensures Run(s, a + b) == Run(Run(s, a), b)
    decreases |a|
  {
    if |a| == 0 {
      assert a + b == b;
    } else {
      assert (a + b)[0] == a[0];
      assert (a + b)[1..] == a[1..] + b;
      RunAppend(Step(s, a[0]).0, a[1..], b);
    }
  }

  /** Reads never change the table, so the stored diagnosis stays unmasked. */
  lemma ReadLeavesStore(s: Store, req: Request)
    requires req.IsRead()
    ensures Step(s, req).0 == s
  {
    if req.ListPatients? {
      assert Step(s, req) == (s, Records(GetAll(s)));
    } else if req.SearchByPhone? {
      var r := Search(s, req.phone);
      assert r.Success? ==> Step(s, req) == (s, Records(r.value));
      assert r.Failure? ==> Step(s, req) == (s, Rejected(r.error));
    } else {
      var r := Get(s, req.id);
      assert r.Success? ==> Step(s, req) == (s, Record(r.value));
      assert r.Failure? ==> Step(s, req) == (s, Rejected(r.error));
    }
  }

  /** A rejected request leaves the table as it was: every check runs before
      any change. */
  lemma RejectedLeavesStore(s: Store, req: Request)
    requires Step(s, req).1.Rejected?
    ensures Step(s, req).0 == s
  {
    if req.IsRead() {
      ReadLeavesStore(s, req);
    } else if req.CreatePatient? {
      assert Create(s, req.body).Failure?;
    } else if req.UpdatePatient? {
      assert Update(s, req.id, req.body).Failure?;
    } else {
      assert Delete(s, req.id).Failure?;
    }
  }

  /** Repeating a read gives the same reply: each read masks the stored
      value afresh rather than a previously masked one. */
  lemma RepeatedReadAgrees(s: Store, req: Request)
    requires req.IsRead()
    ensures Step(Step(s, req).0, req).1 == Step(s, req).1
  {
    ReadLeavesStore(s, req);
  }

  /** A write changes at most the record under the id it names or creates:
      every other record keeps its value. */
  lemma StepFrame(s: Store, req: Request, k: int)
    requires k in s
    requires !(req.UpdatePatient? && req.id == k) && !(req.DeletePatient? && req.id == k)
    ensures k in Step(s, req).0 && Step(s, req).0[k] == s[k]
  {
  }

  /** Every request keeps emails unique and ages non-negative. */
  lemma StepPreservesUpdateSafe(s: Store, req: Request)
    requires UpdateSafe(s)
    ensures UpdateSafe(Step(s, req).0)
  {
    match req
    case CreatePatient(body) =>
      if Create(s, body).Success? {
        EndpointLaws.CreatePreservesEmailsUnique(s, body);
        EndpointLaws.CreatePreservesAgesNonNegative(s, body);
      }
    case UpdatePatient(id, body) =>
      if Update(s, id, body).Success? {
        EndpointLaws.UpdatePreservesUpdateSafe(s, id, body);
      }
    case _ =>
  }

  /** Every request other than an update keeps all table invariants. */
  lemma StepPreservesConsistent(s: Store, req: Request)
    requires Consistent(s)
    requires !req.UpdatePatient?
    ensures Consistent(Step(s, req).0)
  {
    match req
    case CreatePatient(body) =>
      if Create(s, body).Success? {
        EndpointLaws.CreatePreservesConsistent(s, body);
      }
    case DeletePatient(id) =>
      if Delete(s, id).Success? {
        EndpointLaws.DeletePreservesConsistent(s, id);
      }
    case _ =>
  }

  /** Any sequence of requests, updates included, keeps emails unique and
      ages non-negative. */
  lemma {:induction false} RunPreservesUpdateSafe(s: Store, reqs: seq<Request>)
    requires UpdateSafe(s)
    ensures UpdateSafe(Run(s, reqs))
    decreases |reqs|
  {
    if |reqs| > 0 {
      StepPreservesUpdateSafe(s, reqs[0]);
      RunPreservesUpdateSafe(Step(s, reqs[0]).0, reqs[1..]);
    }
  }

  /** A sequence of requests without updates keeps phones unique and
      well-formed, emails unique and ages non-negative. */
  lemma {:induction false} RunWithoutUpdatesPreservesConsistent(s: Store, reqs: seq<Request>)
    requires Consistent(s)
    requires forall i :: 0 <= i < |reqs| ==> !reqs[i].UpdatePatient?
    ensures Consistent(Run(s, reqs))
    decreases |reqs|
  {
    if |reqs| > 0 {
      StepPreservesConsistent(s, reqs[0]);
      assert forall i :: 0 <= i < |reqs[1..]| ==> !reqs[1..][i].UpdatePatient?;
      RunWithoutUpdatesPreservesConsistent(Step(s, reqs[0]).0, reqs[1..]);
    }
  }

  /** The empty table satisfies every invariant. */
  lemma EmptyConsistent()
    ensures Consistent(map[])
  {
  }
}
