/** What the endpoints promise across calls: the order in which create and
    update report their errors, the table invariants they keep, and how a read
    after a write sees the write. */
module EndpointLaws {
  import opened Wrappers
  import opened Patients
  import opened Endpoints
  import Masking

  /** Exactly ten ASCII digits, stated character by character. */
  predicate TenDigits(phone: string)
  {
    |phone| == 10 && forall i :: 0 <= i < |phone| ==> '0' <= phone[i] <= '9'
  }

  /** The create endpoint's phone test is the ten-digit format. */
  lemma PhoneFormatIsTenDigits(phone: string)
    ensures PhoneFormatOk(phone) <==> TenDigits(phone)
  {
  }

  // ----- create -----

  /** A phone that is already stored is reported as a duplicate, whatever
      else is wrong with the body, malformed phone included. */
  lemma CreateDuplicatePhoneFirst(s: Store, p: Patient)
    requires exists id :: id in s && s[id].phone == p.phone
    ensures Create(s, p) == Failure(PhoneAlreadyRegistered)
  {
  }

  /** A fresh phone that is not exactly ten digits is reported as a format
      error, before any email or age problem. */
  lemma CreateRejectsBadPhone(s: Store, p: Patient)
    requires forall id :: id in s ==> s[id].phone != p.phone
    requires !TenDigits(p.phone)
    ensures Create(s, p) == Failure(PhoneFormat)
  {
  }

  /** With a fresh, well-formed phone, a present non-empty email held by any
      record is reported as a duplicate, before any age problem. */
  lemma CreateRejectsTakenEmail(s: Store, p: Patient, holder: int)
    requires forall id :: id in s ==> s[id].phone != p.phone
    requires TenDigits(p.phone)
    requires p.email.Some? && p.email.value != ""
    requires holder in s && s[holder].email == p.email
    ensures Create(s, p) == Failure(EmailAlreadyRegistered)
  {
  }

  /** With every other check passed, a present negative age is rejected. */
  lemma CreateRejectsNegativeAge(s: Store, p: Patient)
    requires forall id :: id in s ==> s[id].phone != p.phone
    requires TenDigits(p.phone)
    requires p.email.Some? && p.email.value != "" ==>
               forall id :: id in s ==> s[id].email != p.email
    requires p.age.Some? && p.age.value < 0
    ensures Create(s, p) == Failure(AgeNegative)
  {
  }

  /** Create succeeds exactly when the phone is fresh and ten digits, a present
      non-empty email is held by no record, and a present age is not negative;
      an absent email, an empty email, an absent age and age zero all pass. */
  lemma CreateSucceedsIff(s: Store, p: Patient)
    ensures Create(s, p).Success? <==>
              (forall id :: id in s ==> s[id].phone != p.phone)
              && TenDigits(p.phone)
              && (p.email.None? || p.email.value == ""
                  || forall id :: id in s ==> s[id].email != p.email)
              && (p.age.None? || p.age.value >= 0)
  {
  }

  /** A successful create grows the table by exactly one record. */
  lemma CreateGrowsByOne(s: Store, p: Patient)
    requires Create(s, p).Success?
    ensures |Create(s, p).value.0| == |s| + 1
  {
    var id := Create(s, p).value.1.id;
    assert Create(s, p).value.0.Keys == s.Keys + {id};
  }

  /** A successful create keeps phones unique: the new phone was held by no
      record. */
  lemma CreatePreservesPhonesUnique(s: Store, p: Patient)
    requires PhonesUnique(s)
    requires Create(s, p).Success?
    ensures PhonesUnique(Create(s, p).value.0)
  {
    var (t, v) := Create(s, p).value;
    forall a, b | a in t && b in t && a != b
      ensures t[a].phone != t[b].phone
    {
      if a == v.id {
        assert t[b] == s[b];
      } else if b == v.id {
        assert t[a] == s[a];
      }
    }
  }

  /** A successful create keeps every stored phone ten digits. */
  lemma CreatePreservesPhonesWellFormed(s: Store, p: Patient)
    requires PhonesWellFormed(s)
    requires Create(s, p).Success?
    ensures PhonesWellFormed(Create(s, p).value.0)
  {
    var (t, v) := Create(s, p).value;
    assert forall k :: k in t ==> k == v.id || k in s;
  }

  /** A successful create keeps present non-empty emails unique. */
  lemma CreatePreservesEmailsUnique(s: Store, p: Patient)
    requires EmailsUnique(s)
    requires Create(s, p).Success?
    ensures EmailsUnique(Create(s, p).value.0)
  {
    var (t, v) := Create(s, p).value;
    forall a, b | a in t && b in t && a != b && Truthy(t[a].email)
      ensures t[a].email != t[b].email
    {
      if a == v.id {
        assert !EmailTaken(s, p.email.value);
        assert t[b] == s[b];
      } else if b == v.id {
        assert t[a] == s[a];
        if Truthy(p.email) {
          assert !EmailTaken(s, p.email.value);
          assert s[a].email != Some(p.email.value);
        }
      }
    }
  }

  /** A successful create keeps every stored age non-negative. */
  lemma CreatePreservesAgesNonNegative(s: Store, p: Patient)
    requires AgesNonNegative(s)
    requires Create(s, p).Success?
    ensures AgesNonNegative(Create(s, p).value.0)
  {
    var (t, v) := Create(s, p).value;
    assert forall k :: k in t ==> k == v.id || k in s;
  }

  /** A successful create keeps every table invariant its checks protect. */
  lemma CreatePreservesConsistent(s: Store, p: Patient)
    requires Consistent(s)
    requires Create(s, p).Success?
    ensures Consistent(Create(s, p).value.0)
  {
    CreatePreservesPhonesUnique(s, p);
    CreatePreservesPhonesWellFormed(s, p);
    CreatePreservesEmailsUnique(s, p);
    CreatePreservesAgesNonNegative(s, p);
  }

  /** After a successful create, a second create with the same phone is
      rejected as a duplicate. */
  lemma CreateSamePhoneTwice(s: Store, p: Patient, q: Patient)
    requires Create(s, p).Success?
    requires q.phone == p.phone
    ensures Create(Create(s, p).value.0, q) == Failure(PhoneAlreadyRegistered)
  {
    var (t, v) := Create(s, p).value;
    assert t[v.id].phone == q.phone;
  }

  /** After a successful create with a present non-empty email, a second
      create with a fresh well-formed phone and the same email is rejected as
      a duplicate email. */
  lemma CreateSameEmailTwice(s: Store, p: Patient, q: Patient)
    requires Create(s, p).Success?
    requires p.email.Some? && p.email.value != "" && q.email == p.email
    requires TenDigits(q.phone)
    requires forall id :: id in Create(s, p).value.0 ==> Create(s, p).value.0[id].phone != q.phone
    ensures Create(Create(s, p).value.0, q) == Failure(EmailAlreadyRegistered)
  {
    var (t, v) := Create(s, p).value;
    assert t[v.id].email == Some(q.email.value);
  }

  /** Reading the new id right after a create returns the create's response. */
  lemma GetAfterCreate(s: Store, p: Patient)
    requires Create(s, p).Success?
    ensures var (t, v) := Create(s, p).value; Get(t, v.id) == Success(v)
  {
  }

  // ----- update -----

  /** Keeping the record's own email passes the email check even when other
      records hold it too; with a non-negative or absent age the update then
      succeeds, whatever the phone. */
  lemma UpdateKeepsOwnEmail(s: Store, id: int, p: Patient)
    requires id in s
    requires p.email == s[id].email
    requires p.age.None? || p.age.value >= 0
    ensures Update(s, id, p).Success?
  {
  }

  /** On an existing record, a changed present non-empty email that some
      record holds is reported as a duplicate, before any age problem. */
  lemma UpdateRejectsTakenEmail(s: Store, id: int, p: Patient, holder: int)
    requires id in s
    requires p.email.Some? && p.email.value != "" && p.email != s[id].email
    requires holder in s && s[holder].email == p.email
    ensures Update(s, id, p) == Failure(EmailAlreadyRegistered)
  {
  }

  /** On an existing record whose email passes the email check, a present
      negative age is rejected with the age error. */
  lemma UpdateRejectsNegativeAge(s: Store, id: int, p: Patient)
    requires id in s
    requires p.email.None? || p.email.value == "" || p.email == s[id].email
             || forall k :: k in s ==> s[k].email != p.email
    requires p.age.Some? && p.age.value < 0
    ensures Update(s, id, p) == Failure(AgeNegative)
  {
  }

  /** Update succeeds exactly when the record exists, the email is absent,
      empty, its own or held by no record, and the age is absent or not
      negative. */
  lemma UpdateSucceedsIff(s: Store, id: int, p: Patient)
    ensures Update(s, id, p).Success? <==>
              id in s
              && (p.email.None? || p.email.value == "" || p.email == s[id].email
                  || forall k :: k in s ==> s[k].email != p.email)
              && (p.age.None? || p.age.value >= 0)
  {
  }

  /** Whether an update succeeds does not depend on the phone it writes: no
      phone format or duplicate check is made. */
  lemma UpdateIgnoresPhone(s: Store, id: int, p: Patient, phone: string)
    ensures Update(s, id, p).Success? <==> Update(s, id, p.(phone := phone)).Success?
  {
  }

  /** A successful update keeps emails unique and ages non-negative. */
  lemma UpdatePreservesUpdateSafe(s: Store, id: int, p: Patient)
    requires UpdateSafe(s)
    requires Update(s, id, p).Success?
    ensures UpdateSafe(Update(s, id, p).value.0)
  {
    var t := Update(s, id, p).value.0;
    forall a, b | a in t && b in t && a != b && Truthy(t[a].email)
      ensures t[a].email != t[b].email
    {
      if a == id {
        if p.email != s[id].email {
          assert !EmailTaken(s, p.email.value);
        } else {
          assert s[b].email != s[a].email;
        }
      } else if b == id {
        if p.email == s[id].email {
          assert s[a].email != s[id].email;
        } else if Truthy(p.email) {
          assert !EmailTaken(s, p.email.value);
          assert s[a].email != Some(p.email.value);
        }
      }
    }
  }

  /** Update does not keep phones unique: writing another record's phone
      into an existing record is accepted. */
  lemma UpdateCanDuplicatePhone()
    ensures var s := map[1 := Patient("A", "1112223333", "Flu", "O+", None, None),
                         2 := Patient("B", "4445556666", "Flu", "A-", None, None)];
            var r := Update(s, 2, Patient("B", "1112223333", "Flu", "A-", None, None));
            PhonesUnique(s) && r.Success? && !PhonesUnique(r.value.0)
  {
    var s := map[1 := Patient("A", "1112223333", "Flu", "O+", None, None),
                 2 := Patient("B", "4445556666", "Flu", "A-", None, None)];
    var t := Update(s, 2, Patient("B", "1112223333", "Flu", "A-", None, None)).value.0;
    assert t[1].phone == t[2].phone;
  }

  /** Reading the id right after an update returns the update's response. */
  lemma GetAfterUpdate(s: Store, id: int, p: Patient)
    requires Update(s, id, p).Success?
    ensures var (t, v) := Update(s, id, p).value; Get(t, id) == Success(v)
  {
  }

  // ----- delete -----

  /** A successful delete shrinks the table by exactly one record. */
  lemma DeleteShrinksByOne(s: Store, id: int)
    requires Delete(s, id).Success?
    ensures |Delete(s, id).value| == |s| - 1
  {
    assert Delete(s, id).value.Keys == s.Keys - {id};
  }

  /** A deleted record is gone: reading it or deleting it again reports it
      missing. */
  lemma DeleteThenMissing(s: Store, id: int)
    requires Delete(s, id).Success?
    ensures Get(Delete(s, id).value, id) == Failure(PatientNotFound)
    ensures Delete(Delete(s, id).value, id) == Failure(PatientNotFound)
  {
  }

  /** Removing a record keeps every table invariant. */
  lemma DeletePreservesConsistent(s: Store, id: int)
    requires Consistent(s)
    requires Delete(s, id).Success?
    ensures Consistent(Delete(s, id).value)
  {
  }

  // ----- concrete values -----

  /** On an empty table a five-digit phone and a phone with letters are
      rejected and a ten-digit phone is accepted. */
  lemma PhoneFormatExamples()
    ensures Create(map[], Patient("A", "12345", "Flu", "O+", None, None)) == Failure(PhoneFormat)
    ensures Create(map[], Patient("A", "123abc7890", "Flu", "O+", None, None)) == Failure(PhoneFormat)
    ensures Create(map[], Patient("A", "1234567890", "Flu", "O+", None, None)).Success?
  {
    assert "123abc7890"[3] == 'a';
    assert !IsDigitString("123abc7890");
  }

  /** Age -1 is rejected; age 0 and no age pass. */
  lemma AgeExamples()
    ensures Create(map[], Patient("A", "1234567890", "Flu", "O+", Some(-1), None)) == Failure(AgeNegative)
    ensures Create(map[], Patient("A", "1234567890", "Flu", "O+", Some(0), None)).Success?
    ensures Create(map[], Patient("A", "1234567890", "Flu", "O+", None, None)).Success?
  {
  }

  /** The create response masks the diagnosis: a three-letter one is shown
      whole, an eight-letter one as its first three letters and five stars. */
  lemma CreateResponseExamples()
    ensures Create(map[], Patient("A", "1112223333", "Flu", "O+", None, None)).value.1.diagnosis == "Flu"
    ensures Create(map[], Patient("A", "1112223333", "Diabetes", "O+", None, None)).value.1.diagnosis == "Dia*****"
  {
    Masking.MaskExamples();
  }

  /** A stored malformed phone still wins as a duplicate over the format
      error. */
  lemma CreateDuplicateMalformedPhone()
    ensures Create(map[7 := Patient("A", "12ab", "Flu", "O+", None, None)],
                   Patient("B", "12ab", "Cold", "B+", None, None))
            == Failure(PhoneAlreadyRegistered)
  {
    var s := map[7 := Patient("A", "12ab", "Flu", "O+", None, None)];
    assert s[7].phone == "12ab";
  }
}
