/** The six patient endpoints as pure functions from the table (and the request
    parameters) to a result: the list, search and lookup endpoints return
    masked copies and no table, the write endpoints return the new table with
    their response. */
module Endpoints {
  import opened Wrappers
  import opened Patients
  import IdOrder

  /** The errors the endpoints raise, one per distinct HTTP error detail. */
  datatype Error =
    | PhoneAlreadyRegistered
    | PhoneFormat
    | EmailAlreadyRegistered
    | AgeNegative
    | PatientNotFound
    | NoPatientsWithPhone

  /** The HTTP status code an error is raised with. */
  function Status(e: Error): int
  {
    match e
    case PatientNotFound => 404
    case NoPatientsWithPhone => 404
    case _ => 400
  }

  /** The HTTP error detail an error is raised with. */
  function Detail(e: Error): string
  {
    match e
    case PhoneAlreadyRegistered => "Phone already registered"
    case PhoneFormat => "Phone number must be exactly 10 digits"
    case EmailAlreadyRegistered => "Email already registered"
    case AgeNegative => "Age must be positive"
    case PatientNotFound => "Patient not found"
    case NoPatientsWithPhone => "No patients found with this phone number"
  }

  /** The responses for the records under `ids`, in the order of `ids`. */
  function Views(s: Store, ids: seq<int>): (r: seq<PatientView>)
    requires forall i :: 0 <= i < |ids| ==> ids[i] in s
    ensures |r| == |ids|
    ensures forall i :: 0 <= i < |r| ==> r[i].id == ids[i]
    ensures forall i :: 0 <= i < |r| ==> r[i].id in s && r[i] == View(r[i].id, s[r[i].id])
  {
    seq(|ids|, i requires 0 <= i < |ids| => View(ids[i], s[ids[i]]))
  }

  /** The ids of `ids`, in the same order, whose record has this phone. */
  function WithPhone(s: Store, ids: seq<int>, phone: string): (r: seq<int>)
    requires forall i :: 0 <= i < |ids| ==> ids[i] in s
    ensures forall i :: 0 <= i < |r| ==> r[i] in s && s[r[i]].phone == phone
    ensures forall i :: 0 <= i < |r| ==> r[i] in ids
    ensures forall i :: 0 <= i < |ids| && s[ids[i]].phone == phone ==> ids[i] in r
    ensures IdOrder.Ascending(ids) ==> IdOrder.Ascending(r)
    decreases |ids|
  {
    if |ids| == 0 then []
    else
      var rest := WithPhone(s, ids[1..], phone);
      assert forall i :: 0 <= i < |rest| ==> rest[i] in ids[1..];
      if s[ids[0]].phone == phone then [ids[0]] + rest else rest
  }

  /** GET /patients/: every record, masked, in ascending id order. */
  function GetAll(s: Store): (r: seq<PatientView>)
    ensures |r| == |s|
    ensures forall i :: 0 <= i < |r| ==> r[i].id in s && r[i] == View(r[i].id, s[r[i].id])
    ensures forall id :: id in s ==> exists i :: 0 <= i < |r| && r[i].id == id
    ensures forall i, j :: 0 <= i < j < |r| ==> r[i].id < r[j].id
  {
    var ids := IdOrder.SortedIds(s.Keys);
    assert |s.Keys| == |s|;
    assert forall i :: 0 <= i < |ids| ==> ids[i] in s by {
      forall i | 0 <= i < |ids|
        ensures ids[i] in s
      {
        assert ids[i] in ids;
      }
    }
    var r := Views(s, ids);
    assert IdOrder.Ascending(ids);
    assert forall id :: id in s ==> exists i :: 0 <= i < |r| && r[i].id == id by {
      forall id | id in s
        ensures exists i :: 0 <= i < |r| && r[i].id == id
      {
        assert id in ids;
        var i :| 0 <= i < |ids| && ids[i] == id;
        assert r[i].id == id;
      }
    }
    r
  }

  /** The ids of the records with this phone, in ascending order. */
  function Hits(s: Store, phone: string): (hits: seq<int>)
    ensures forall i :: 0 <= i < |hits| ==> hits[i] in s && s[hits[i]].phone == phone
    ensures forall id :: id in s && s[id].phone == phone ==> id in hits
    ensures IdOrder.Ascending(hits)
    ensures |hits| > 0 <==> PhoneTaken(s, phone)
  {
    var all := IdOrder.SortedIds(s.Keys);
    var hits := WithPhone(s, all, phone);
    assert forall id :: id in s && s[id].phone == phone ==> id in hits by {
      forall id | id in s && s[id].phone == phone
        ensures id in hits
      {
        assert id in all;
        var j :| 0 <= j < |all| && all[j] == id;
      }
    }
    assert |hits| > 0 ==> hits[0] in s && s[hits[0]].phone == phone;
    hits
  }

  /** GET /patients/search/: the records whose phone equals the query,
      masked, in ascending id order; an error when there are none. The
      contents and order of the list are stated by `SearchSound`,
      `SearchComplete` and `SearchOrdered`. */
  function Search(s: Store, phone: string): (r: Result<seq<PatientView>, Error>)
    ensures r.Success? <==> PhoneTaken(s, phone)
    ensures r.Failure? ==> r.error == NoPatientsWithPhone
    ensures r.Success? ==> |r.value| > 0
  {
    var hits := Hits(s, phone);
    if |hits| == 0 then Failure(NoPatientsWithPhone) else Success(Views(s, hits))
  }

  /** Every listed record is the masked copy of a stored record with the
      queried phone. */
  lemma SearchSound(s: Store, phone: string)
    requires PhoneTaken(s, phone)
    ensures var r := Search(s, phone).value;
            forall i :: 0 <= i < |r| ==>
              r[i].id in s && s[r[i].id].phone == phone && r[i] == View(r[i].id, s[r[i].id])
  {
  }

  /** Every stored record with the queried phone is listed. */
  lemma SearchComplete(s: Store, phone: string, id: int)
    requires id in s && s[id].phone == phone
    ensures Search(s, phone).Success?
    ensures var r := Search(s, phone).value;
            exists i :: 0 <= i < |r| && r[i].id == id
  {
    var hits := Hits(s, phone);
    var i :| 0 <= i < |hits| && hits[i] == id;
    assert Search(s, phone).value[i].id == id;
  }

  /** The listed records come in ascending id order, so none is listed twice. */
  lemma SearchOrdered(s: Store, phone: string)
    requires PhoneTaken(s, phone)
    ensures var r := Search(s, phone).value;
            forall i, j :: 0 <= i < j < |r| ==> r[i].id < r[j].id
  {
  }

  /** GET /patients/{id}: the record under `id`, masked. */
  function Get(s: Store, id: int): (r: Result<PatientView, Error>)
    ensures r.Success? <==> id in s
    ensures r.Failure? ==> r.error == PatientNotFound
    ensures r.Success? ==> r.value == View(id, s[id])
  {
    if id in s then Success(View(id, s[id])) else Failure(PatientNotFound)
  }

  /** The id a new record receives: one more than the largest stored id, or 1
      for an empty table (the default rowid choice of SQLite). */
  function NextId(s: Store): (id: int)
    ensures forall k :: k in s ==> k < id
  {
    var ids := IdOrder.SortedIds(s.Keys);
    if |ids| == 0 then 1
    else
      var top := ids[|ids| - 1];
      assert forall k :: k in s ==> k <= top by {
        forall k | k in s
          ensures k <= top
        {
          assert k in ids;
          var i :| 0 <= i < |ids| && ids[i] == k;
          assert i == |ids| - 1 || ids[i] < top;
        }
      }
      top + 1
  }

  /** The table with `p` added under the unused id `id`. */
  function Insert(s: Store, id: int, p: Patient): (t: Store)
    requires id !in s
    ensures forall k :: k in t <==> k in s || k == id
    ensures t[id] == p
    ensures forall k :: k in s ==> t[k] == s[k]
  {
    s[id := p]
  }

  /** POST /patients/: the checks in the order the endpoint runs them, then the
      insertion of the body under a fresh id and its masked response. */
  function Create(s: Store, p: Patient): (r: Result<(Store, PatientView), Error>)
    ensures r.Success? ==> r.value.1.id !in s
    ensures r.Success? ==> forall k :: k in s ==> k < r.value.1.id
    ensures r.Success? ==> forall k :: k in r.value.0 <==> k in s || k == r.value.1.id
    ensures r.Success? ==> r.value.0[r.value.1.id] == p
    ensures r.Success? ==> forall k :: k in s ==> r.value.0[k] == s[k]
    ensures r.Success? ==> r.value.1 == View(r.value.1.id, p)
  {
    if PhoneTaken(s, p.phone) then Failure(PhoneAlreadyRegistered)
    else if !IsDigitString(p.phone) || |p.phone| != 10 then Failure(PhoneFormat)
    else if Truthy(p.email) && EmailTaken(s, p.email.value) then Failure(EmailAlreadyRegistered)
    else if NegativeAge(p.age) then Failure(AgeNegative)
    else
      var id := NextId(s);
      Success((Insert(s, id, p), View(id, p)))
  }

  /** PUT /patients/{id}: the lookup, the email check (only for an email that
      differs from the record's own), the age check, then a replacement of all
      fields. The phone is not checked at all. */
  function Update(s: Store, id: int, p: Patient): (r: Result<(Store, PatientView), Error>)
    ensures id !in s ==> r == Failure(PatientNotFound)
    ensures r.Success? ==> id in s
    ensures r.Success? ==> r.value.0.Keys == s.Keys
    ensures r.Success? ==> r.value.0[id] == p
    ensures r.Success? ==> forall k :: k in s && k != id ==> r.value.0[k] == s[k]
    ensures r.Success? ==> r.value.1 == View(id, p)
  {
    if id !in s then Failure(PatientNotFound)
    else if Truthy(p.email) && p.email != s[id].email && EmailTaken(s, p.email.value) then
      Failure(EmailAlreadyRegistered)
    else if NegativeAge(p.age) then Failure(AgeNegative)
    else Success((s[id := p], View(id, p)))
  }

  /** DELETE /patients/{id}: removal of the record under `id`. */
  function Delete(s: Store, id: int): (r: Result<Store, Error>)
    ensures r.Success? <==> id in s
    ensures r.Failure? ==> r.error == PatientNotFound
    ensures r.Success? ==> r.value.Keys == s.Keys - {id}
    ensures r.Success? ==> forall k :: k in r.value ==> r.value[k] == s[k]
  {
    if id in s then Success(s - {id}) else Failure(PatientNotFound)
  }
}
