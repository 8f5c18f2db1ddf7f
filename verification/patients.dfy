/** The patient record, the table that holds the records, the response shape,
    and the facts the endpoints test about the table. */
module Patients {
  import opened Wrappers
  import Masking

  /** A row of the patients table without its id; it is also the request body
      of create and update, which carries exactly these six fields. */
  datatype Patient = Patient(
    name: string,
    phone: string,
    diagnosis: string,
    bloodType: string,
    age: Option<int>,
    email: Option<string>)

  /** The patients table: each record under its id. */
  type Store = map<int, Patient>

  /** The response record: the id and fields of a row, with the diagnosis masked. */
  datatype PatientView = PatientView(
    id: int,
    name: string,
    phone: string,
    diagnosis: string,
    bloodType: string,
    age: Option<int>,
    email: Option<string>)

  /** The response for the record `p` stored under `id`. */
  function View(id: int, p: Patient): PatientView
  {
    PatientView(id, p.name, p.phone, Masking.Mask(p.diagnosis), p.bloodType, p.age, p.email)
  }

  /** An ASCII decimal digit. */
  predicate IsDigit(c: char)
  {
    '0' <= c <= '9'
  }

  /** Python's `str.isdigit` restricted to ASCII: false for the empty string. */
  predicate IsDigitString(s: string)
  {
    |s| > 0 && forall i :: 0 <= i < |s| ==> IsDigit(s[i])
  }

  /** The phone format create accepts: ten characters, all digits. */
  predicate PhoneFormatOk(phone: string)
  {
    IsDigitString(phone) && |phone| == 10
  }

  /** Python truthiness of an optional string: neither `None` nor empty. */
  predicate Truthy(e: Option<string>)
  {
    e.Some? && e.value != ""
  }

  /** A negative age is present; a missing age or zero is not negative. */
  predicate NegativeAge(age: Option<int>)
  {
    age.Some? && age.value < 0
  }

  /** Some stored record has this phone. */
  predicate PhoneTaken(s: Store, phone: string)
  {
    exists id :: id in s && s[id].phone == phone
  }

  /** Some stored record has this email. */
  predicate EmailTaken(s: Store, email: string)
  {
    exists id :: id in s && s[id].email == Some(email)
  }

  /** No two records share a phone. */
  ghost predicate PhonesUnique(s: Store)
  {
    forall a, b :: a in s && b in s && a != b ==> s[a].phone != s[b].phone
  }

  /** Every stored phone has the format create accepts. */
  ghost predicate PhonesWellFormed(s: Store)
  {
    forall id :: id in s ==> PhoneFormatOk(s[id].phone)
  }

  /** No two records share an email that the email checks look at (a present,
      non-empty one). */
  ghost predicate EmailsUnique(s: Store)
  {
    forall a, b :: a in s && b in s && a != b && Truthy(s[a].email) ==> s[a].email != s[b].email
  }

  /** No stored age is negative. */
  ghost predicate AgesNonNegative(s: Store)
  {
    forall id :: id in s ==> !NegativeAge(s[id].age)
  }

  /** What the create endpoint's checks keep true of the table. */
  ghost predicate Consistent(s: Store)
  {
    PhonesUnique(s) && PhonesWellFormed(s) && EmailsUnique(s) && AgesNonNegative(s)
  }

  /** The part of `Consistent` that the update endpoint's checks also keep. */
  ghost predicate UpdateSafe(s: Store)
  {
    EmailsUnique(s) && AgesNonNegative(s)
  }
}
