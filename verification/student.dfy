/** The admission record schema of the database service: which fields are
    required, the ten-digit pattern of the parent mobile, the two admission
    statuses, the trimming of the name and the defaults. Validation is a
    function from a candidate (every field possibly absent) to either the
    record that would be stored or the list of field errors. */
module StudentSchema {
  import opened Wrappers
  import opened Text
  import opened Dates

  /** Milliseconds since the epoch. */
  type Timestamp = int

  datatype AdmissionStatus = Approved | Rejected

  /** The string the schema's enum lists for each status. */
  function StatusName(s: AdmissionStatus): string {
    match s
    case Approved => "Approved"
    case Rejected => "Rejected"
  }

  /** The enum check: a supplied status is accepted only when it is one of the
      listed strings. */
  function ParseStatus(v: string): (r: Option<AdmissionStatus>)
    ensures r.Some? <==> v == "Approved" || v == "Rejected"
    ensures r.Some? ==> StatusName(r.value) == v
  {
    if v == "Approved" then Some(Approved)
    else if v == "Rejected" then Some(Rejected)
    else None
  }

  /** Every status survives being written out and read back. */
  lemma ParseStatusName(s: AdmissionStatus)
    ensures ParseStatus(StatusName(s)) == Some(s)
  {
  }

  const DefaultStatus: AdmissionStatus := Rejected

  /** The fields handed to the model, each possibly absent. */
  datatype Candidate = Candidate(
    name: Option<string>,
    age: Option<int>,
    mobile: Option<string>,
    dob: Option<CalendarDate>,
    admissionStatus: Option<string>,
    eligibilityReasons: Option<seq<string>>,
    admissionDate: Option<Timestamp>)

  /** A record as the schema stores it, every default applied. */
  datatype Student = Student(
    name: string,
    age: int,
    mobile: string,
    dob: CalendarDate,
    admissionStatus: AdmissionStatus,
    eligibilityReasons: seq<string>,
    admissionDate: Timestamp)

  /** The validation failures the schema can report, one per field at most. */
  datatype FieldError =
    | NameRequired
    | AgeRequired
    | MobileRequired
    | MobilePattern
    | DobRequired
    | StatusNotAllowed(value: string)
  {
    function Message(): string {
      match this
      case NameRequired => "Student name is required"
      case AgeRequired => "Student age is required"
      case MobileRequired => "Parent mobile number is required"
      case MobilePattern => "Mobile number must be exactly 10 digits"
      case DobRequired => "Date of birth is required"
      case StatusNotAllowed(v) => "`" + v + "` is not a valid enum value for path `admissionStatus`."
    }
  }

  /** What every stored record satisfies: a name that is non-empty and already
      trimmed, and a ten-digit mobile. */
  predicate WellFormed(s: Student) {
    s.name != [] && IsTrimmed(s.name) && IsTenDigits(s.mobile)
  }

  /** A required string fails when it is absent or empty. */
  predicate StringMissing(v: Option<string>) {
    v.None? || v.value == []
  }

  /** The `trim` setter, applied to the name before it is validated. */
  function TrimmedName(name: Option<string>): Option<string> {
    if name.Some? then Some(Trim(name.value)) else None
  }

  /** The name check, run on the trimmed name: required. */
  function NameErrors(name: Option<string>): (e: seq<FieldError>)
    ensures e == [] || e == [NameRequired]
    ensures e == [] <==> name.Some? && Trim(name.value) != []
  {
    if StringMissing(TrimmedName(name)) then [NameRequired] else []
  }

  /** The mobile checks: required, then the pattern. The pattern check passes
      an absent or empty value, so at most one of the two is reported. */
  function MobileErrors(mobile: Option<string>): (e: seq<FieldError>)
    ensures e == [] || e == [MobileRequired] || e == [MobilePattern]
    ensures e == [MobileRequired] <==> StringMissing(mobile)
    ensures e == [MobilePattern] <==> mobile.Some? && mobile.value != [] && !IsTenDigits(mobile.value)
  {
    if StringMissing(mobile) then [MobileRequired]
    else if !IsTenDigits(mobile.value) then [MobilePattern]
    else []
  }

  /** The enum check. An absent status passes: the default applies. */
  function StatusErrors(status: Option<string>): (e: seq<FieldError>)
    ensures e == [] <==> status.None? || status.value == "Approved" || status.value == "Rejected"
    ensures e != [] ==> e == [StatusNotAllowed(status.value)]
  {
    if status.Some? && ParseStatus(status.value).None? then [StatusNotAllowed(status.value)] else []
  }

  /** The field errors in schema order, at most one per field. */
  function FieldErrors(c: Candidate): (errs: seq<FieldError>)
    ensures NameRequired in errs <==> c.name.None? || Trim(c.name.value) == []
    ensures AgeRequired in errs <==> c.age.None?
    ensures MobileRequired in errs <==> StringMissing(c.mobile)
    ensures MobilePattern in errs <==> c.mobile.Some? && c.mobile.value != [] && !IsTenDigits(c.mobile.value)
    ensures DobRequired in errs <==> c.dob.None?
  {
    var nameErrs := NameErrors(c.name);
    var ageErrs := if c.age.None? then [AgeRequired] else [];
    var mobileErrs := MobileErrors(c.mobile);
    var dobErrs := if c.dob.None? then [DobRequired] else [];
    var statusErrs := StatusErrors(c.admissionStatus);
    var errs := nameErrs + ageErrs + mobileErrs + dobErrs + statusErrs;
    assert forall e :: e in errs <==> e in nameErrs || e in ageErrs || e in mobileErrs || e in dobErrs || e in statusErrs;
    errs
  }

  /** A candidate has no field errors exactly when every required field is
      supplied and valid and a supplied status is one of the two listed. */
  lemma FieldErrorsEmptyIff(c: Candidate)
    ensures FieldErrors(c) == [] <==> && c.name.Some? && Trim(c.name.value) != []
                                      && c.age.Some?
                                      && c.mobile.Some? && IsTenDigits(c.mobile.value)
                                      && c.dob.Some?
                                      && (c.admissionStatus.Some? ==> c.admissionStatus.value in {"Approved", "Rejected"})
  {
    var nameErrs := NameErrors(c.name);
    var ageErrs := if c.age.None? then [AgeRequired] else [];
    var mobileErrs := MobileErrors(c.mobile);
    var dobErrs := if c.dob.None? then [DobRequired] else [];
    var statusErrs := StatusErrors(c.admissionStatus);
    assert FieldErrors(c) == nameErrs + ageErrs + mobileErrs + dobErrs + statusErrs;
    assert |FieldErrors(c)| == |nameErrs| + |ageErrs| + |mobileErrs| + |dobErrs| + |statusErrs|;
  }

  /** The enum error names the rejected value, and is reported exactly when
      a status outside the two listed ones is supplied. */
  lemma StatusNotAllowedIff(c: Candidate, v: string)
    ensures StatusNotAllowed(v) in FieldErrors(c) <==> c.admissionStatus == Some(v) && v != "Approved" && v != "Rejected"
  {
    var nameErrs := NameErrors(c.name);
    var ageErrs := if c.age.None? then [AgeRequired] else [];
    var mobileErrs := MobileErrors(c.mobile);
    var dobErrs := if c.dob.None? then [DobRequired] else [];
    var others := nameErrs + ageErrs + mobileErrs + dobErrs;
    var statusErrs := StatusErrors(c.admissionStatus);
    assert FieldErrors(c) == others + statusErrs;
    assert StatusNotAllowed(v) !in others;
    assert StatusNotAllowed(v) in statusErrs <==> c.admissionStatus == Some(v) && v != "Approved" && v != "Rejected";
  }

  /** Validation with defaults: a candidate with no field errors becomes a
      stored record, trimmed name, status `Rejected` and no reasons when those
      are absent, admission date `now` when absent. */
  function ValidateRecord(c: Candidate, now: Timestamp): (r: Result<Student, seq<FieldError>>)
    ensures r.Failure? ==> r.error == FieldErrors(c) && r.error != []
    ensures r.Success? <==> FieldErrors(c) == []
    ensures r.Success? ==> WellFormed(r.value)
    ensures r.Success? ==> && r.value.name == Trim(c.name.value)
                           && r.value.age == c.age.value
                           && r.value.mobile == c.mobile.value
                           && r.value.dob == c.dob.value
    ensures r.Success? ==> StatusName(r.value.admissionStatus) == c.admissionStatus.GetOr(StatusName(DefaultStatus))
    ensures r.Success? ==> r.value.eligibilityReasons == c.eligibilityReasons.GetOr([])
    ensures r.Success? ==> r.value.admissionDate == c.admissionDate.GetOr(now)
  {
    var errors := FieldErrors(c);
    FieldErrorsEmptyIff(c);
    if errors != [] then
      Failure(errors)
    else
      assert c.name.Some? && c.mobile.Some?;
      var status := if c.admissionStatus.Some? then ParseStatus(c.admissionStatus.value).value else DefaultStatus;
      Success(Student(
        TrimmedName(c.name).value,
        c.age.value,
        c.mobile.value,
        c.dob.value,
        status,
        c.eligibilityReasons.GetOr([]),
        c.admissionDate.GetOr(now)))
  }

  /** The candidate that supplies every field of a stored record. */
  function AsCandidate(s: Student): Candidate {
    Candidate(Some(s.name), Some(s.age), Some(s.mobile), Some(s.dob),
              Some(StatusName(s.admissionStatus)), Some(s.eligibilityReasons), Some(s.admissionDate))
  }

  lemma TrimmedNameAccepted(name: string)
    requires name != [] && IsTrimmed(name)
    ensures NameErrors(Some(name)) == []
  {
    TrimFixesTrimmed(name);
  }

  lemma StatusNameAccepted(st: AdmissionStatus)
    ensures StatusErrors(Some(StatusName(st))) == []
  {
    match st
    case Approved =>
    case Rejected =>
  }

  /** A well-formed record, with every field supplied, passes every check. */
  lemma WellFormedHasNoErrors(s: Student)
    requires WellFormed(s)
    ensures FieldErrors(AsCandidate(s)) == []
  {
    TrimmedNameAccepted(s.name);
    StatusNameAccepted(s.admissionStatus);
  }

  /** A supplied name that is already trimmed is stored as it is. */
  lemma AcceptedKeepsName(s: Student, now: Timestamp)
    requires IsTrimmed(s.name)
    requires ValidateRecord(AsCandidate(s), now).Success?
    ensures ValidateRecord(AsCandidate(s), now).value.name == s.name
  {
    TrimFixesTrimmed(s.name);
  }

  /** A supplied status is stored as that status. */
  lemma AcceptedKeepsStatus(s: Student, now: Timestamp)
    requires ValidateRecord(AsCandidate(s), now).Success?
    ensures ValidateRecord(AsCandidate(s), now).value.admissionStatus == s.admissionStatus
  {
    match s.admissionStatus
    case Approved =>
    case Rejected =>
  }

  /** A well-formed record validates to itself, whatever the clock says: the
      defaults and the trim setter change nothing that is already supplied and
      trimmed. */
  lemma ValidateWellFormed(s: Student, now: Timestamp)
    requires WellFormed(s)
    ensures ValidateRecord(AsCandidate(s), now) == Success(s)
  {
    WellFormedHasNoErrors(s);
    AcceptedKeepsName(s, now);
    AcceptedKeepsStatus(s, now);
  }

  /** Validation is idempotent: what it accepts, it accepts again unchanged. */
  lemma ValidateIdempotent(c: Candidate, now: Timestamp, later: Timestamp)
    requires ValidateRecord(c, now).Success?
    ensures ValidateRecord(AsCandidate(ValidateRecord(c, now).value), later) == ValidateRecord(c, now)
  {
    ValidateWellFormed(ValidateRecord(c, now).value, later);
  }
}
