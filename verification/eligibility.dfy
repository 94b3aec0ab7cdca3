/** The eligibility validator service: the age calculator and the Reason Engine
    behind its eligibility check. The engine runs four fixed rules in order
    (name, date of birth, age, parent mobile), collects a flat list of reasons,
    and never fails on malformed input: a missing or malformed field is exactly
    what the rules report. The clock is a parameter, so the engine is a pure
    function of the applicant's fields and the evaluation instant. */
module Eligibility {
  import opened Wrappers
  import opened Text
  import opened Dates

  const MinimumAge: int := 18
  const MaximumAge: int := 35

  // ---------------------------------------------------------------------------
  // Age calculator
  // ---------------------------------------------------------------------------

  /** Whether `today` has reached the `n`-th anniversary of `dob`, the triple
      (dob.year + n, dob.month, dob.day). The triple is compared field by field
      even when that day does not exist, so someone born on 29 February turns a
      year older on 1 March of a common year. */
  predicate AnniversaryReached(dob: Date, today: Date, n: int) {
    !Before(today, Date(dob.year + n, dob.month, dob.day))
  }

  /** Whole years completed between `dob` and `today`: the difference of the
      years, one less while this year's birthday is still ahead. */
  function CalculateAge(dob: Date, today: Date): (age: int)
    ensures AnniversaryReached(dob, today, age)
    ensures !AnniversaryReached(dob, today, age + 1)
  {
    var age := today.year - dob.year;
    var monthDiff := today.month - dob.month;
    if monthDiff < 0 || (monthDiff == 0 && today.day < dob.day) then age - 1 else age
  }

  /** The age is at least `n` exactly when the `n`-th anniversary has come:
      someone whose 18th birthday is today is 18. */
  lemma AgeAtLeastIff(dob: Date, today: Date, n: int)
    ensures CalculateAge(dob, today) >= n <==> AnniversaryReached(dob, today, n)
  {
  }

  /** On the birthday itself the age is the plain difference of the years. */
  lemma AgeOnBirthday(dob: Date, today: Date)
    requires today.month == dob.month && today.day == dob.day
    ensures CalculateAge(dob, today) == today.year - dob.year
  {
  }

  /** A date of birth not after today gives an age of at least zero. */
  lemma AgeNonNegative(dob: Date, today: Date)
    requires !Before(today, dob)
    ensures CalculateAge(dob, today) >= 0
  {
  }

  // ---------------------------------------------------------------------------
  // Reason Engine
  // ---------------------------------------------------------------------------

  datatype Reason =
    | NameRequired
    | InvalidDob
    | BelowMinimumAge
    | AboveMaximumAge
    | InvalidMobile
  {
    /** The text the service reports for this reason. */
    function Message(): string {
      match this
      case NameRequired => "Student name is required"
      case InvalidDob => "Date of Birth must be a valid past date"
      case BelowMinimumAge => "Age is below minimum requirement (must be at least 18)"
      case AboveMaximumAge => "Age exceeds maximum limit (must be 35 or below)"
      case InvalidMobile => "Parent mobile number must be exactly 10 digits"
    }

    /** Position, in evaluation order, of the rule that reports this reason; both
        age reasons come from the same rule. */
    function Rule(): nat {
      match this
      case NameRequired => 0
      case InvalidDob => 1
      case BelowMinimumAge => 2
      case AboveMaximumAge => 2
      case InvalidMobile => 3
    }
  }

  datatype Status = Eligible | NotEligible

  /** The request body. `dob` is the date the body's string parses to, `None`
      when the field is missing, empty or does not parse. */
  datatype Applicant = Applicant(name: Option<string>, dob: Option<CalendarDate>, mobile: Option<string>)

  /** The response body: status, the age (`None` stands for null) and reasons. */
  datatype Decision = Decision(status: Status, calculatedAge: Option<int>, reasons: seq<Reason>)

  /** Rule 1 fails: the name is missing or only whitespace. */
  predicate NameMissing(name: Option<string>) {
    name.None? || Trim(name.value) == []
  }

  /** The date of birth is present, parsed, and its day began strictly before
      the evaluation instant. */
  predicate IsValidDob(dob: Option<CalendarDate>, now: Instant) {
    dob.Some? && InstantBefore(StartOf(dob.value), now)
  }

  /** Rule 4 fails: the mobile is missing or not exactly ten ASCII digits. */
  predicate MobileInvalid(mobile: Option<string>) {
    mobile.None? || !IsTenDigits(mobile.value)
  }

  /** The age the engine computes for a valid date of birth. */
  function AgeAt(a: Applicant, now: Instant): int
    requires IsValidDob(a.dob, now)
  {
    CalculateAge(a.dob.value, now.date)
  }

  /** Whether the rule behind `r` reports `r` for this applicant at `now`,
      stated reason by reason and independently of the engine. */
  predicate Fails(a: Applicant, now: Instant, r: Reason) {
    match r
    case NameRequired => NameMissing(a.name)
    case InvalidDob => !IsValidDob(a.dob, now)
    case BelowMinimumAge => IsValidDob(a.dob, now) && AgeAt(a, now) < MinimumAge
    case AboveMaximumAge => IsValidDob(a.dob, now) && AgeAt(a, now) > MaximumAge
    case InvalidMobile => MobileInvalid(a.mobile)
  }

  /** Reasons in evaluation order, at most one per rule. */
  predicate InRuleOrder(rs: seq<Reason>) {
    forall i, j :: 0 <= i < j < |rs| ==> rs[i].Rule() < rs[j].Rule()
  }

  /** Rules 2 and 3: the date-of-birth reason when the date is not valid,
      otherwise at most one of the two age reasons. */
  function DobAndAgeReasons(validDob: bool, age: int): (rs: seq<Reason>)
    ensures rs == [] || (|rs| == 1 && 1 <= rs[0].Rule() <= 2)
    ensures InvalidDob in rs <==> !validDob
    ensures BelowMinimumAge in rs <==> validDob && age < MinimumAge
    ensures AboveMaximumAge in rs <==> validDob && age > MaximumAge
  {
    if !validDob then [InvalidDob]
    else if age < MinimumAge then [BelowMinimumAge]
    else if age > MaximumAge then [AboveMaximumAge]
    else []
  }

  /** The four rules in order over the outcome of each field test, each
      appending its reason when it fails; the age rule runs only when the date
      of birth is valid and reports at most one of its two reasons. */
  function CollectReasons(nameMissing: bool, validDob: bool, age: int, mobileInvalid: bool): (rs: seq<Reason>)
    ensures NameRequired in rs <==> nameMissing
    ensures InvalidDob in rs <==> !validDob
    ensures BelowMinimumAge in rs <==> validDob && age < MinimumAge
    ensures AboveMaximumAge in rs <==> validDob && age > MaximumAge
    ensures InvalidMobile in rs <==> mobileInvalid
  {
    var nameReasons := if nameMissing then [NameRequired] else [];
    var middle := DobAndAgeReasons(validDob, age);
    var mobileReasons := if mobileInvalid then [InvalidMobile] else [];
    var rs := nameReasons + (middle + mobileReasons);
    assert forall x :: x in rs <==> x in nameReasons || x in middle || x in mobileReasons;
    rs
  }

  /** The rules run in order, so their reasons come out in rule order. */
  lemma CollectReasonsInRuleOrder(nameMissing: bool, validDob: bool, age: int, mobileInvalid: bool)
    ensures InRuleOrder(CollectReasons(nameMissing, validDob, age, mobileInvalid))
  {
    var nameReasons := if nameMissing then [NameRequired] else [];
    var middle := DobAndAgeReasons(validDob, age);
    var mobileReasons := if mobileInvalid then [InvalidMobile] else [];
    OrderedPrefix(middle, mobileReasons, if middle == [] then 2 else middle[0].Rule());
    OrderedPrefix(nameReasons, middle + mobileReasons, 0);
  }

  /** Putting at most one reason of rule `n` in front of a list in rule order
      whose rules all come after `n` keeps the list in rule order. */
  lemma OrderedPrefix(head: seq<Reason>, rs: seq<Reason>, n: int)
    requires head == [] || (|head| == 1 && head[0].Rule() == n)
    requires InRuleOrder(rs) && forall y :: y in rs ==> y.Rule() > n
    ensures InRuleOrder(head + rs)
    ensures forall y :: y in head + rs ==> y.Rule() >= n
  {
    if head != [] {
      forall i, j | 0 <= i < j < |head + rs|
        ensures (head + rs)[i].Rule() < (head + rs)[j].Rule()
      {
        if i > 0 {
          assert (head + rs)[i] == rs[i - 1];
        }
        assert (head + rs)[j] == rs[j - 1];
        assert rs[j - 1] in rs;
      }
    }
  }

  /** The eligibility check: the reasons of the four rules, the age when the
      date of birth is valid (null otherwise), and `Eligible` exactly when no
      rule failed. */
  function CheckEligibility(a: Applicant, now: Instant): (d: Decision)
    ensures NameRequired in d.reasons <==> NameMissing(a.name)
    ensures InvalidDob in d.reasons <==> !IsValidDob(a.dob, now)
    ensures BelowMinimumAge in d.reasons <==> IsValidDob(a.dob, now) && AgeAt(a, now) < MinimumAge
    ensures AboveMaximumAge in d.reasons <==> IsValidDob(a.dob, now) && AgeAt(a, now) > MaximumAge
    ensures InvalidMobile in d.reasons <==> MobileInvalid(a.mobile)
    ensures d.calculatedAge.None? <==> !IsValidDob(a.dob, now)
    ensures d.calculatedAge.Some? ==> d.calculatedAge.value == AgeAt(a, now)
    ensures d.calculatedAge.Some? ==> d.calculatedAge.value >= 0
    ensures !(InvalidDob in d.reasons && (BelowMinimumAge in d.reasons || AboveMaximumAge in d.reasons))
    ensures !(BelowMinimumAge in d.reasons && AboveMaximumAge in d.reasons)
    ensures InRuleOrder(d.reasons)
    ensures |d.reasons| <= 3
    ensures d.status == Eligible <==> d.reasons == []
  {
    var validDob := IsValidDob(a.dob, now);
    var age :=
      if validDob then
        StartOfBeforeNotAfter(a.dob.value, now);
        AgeNonNegative(a.dob.value, now.date);
        Some(AgeAt(a, now))
      else None;
    var reasons := CollectReasons(NameMissing(a.name), validDob, age.GetOr(0), MobileInvalid(a.mobile));
    CollectReasonsInRuleOrder(NameMissing(a.name), validDob, age.GetOr(0), MobileInvalid(a.mobile));
    AtMostThree(reasons);
    Decision(if |reasons| == 0 then Eligible else NotEligible, age, reasons)
  }

  /** A list in rule order that never holds the date-of-birth reason together
      with an age reason has at most three entries. */
  lemma AtMostThree(rs: seq<Reason>)
    requires InRuleOrder(rs)
    requires !(InvalidDob in rs && (BelowMinimumAge in rs || AboveMaximumAge in rs))
    ensures |rs| <= 3
  {
    if |rs| > 3 {
      FourReasonsHoldDobAndAge(rs);
    }
  }

  lemma FourReasonsHoldDobAndAge(rs: seq<Reason>)
    requires InRuleOrder(rs) && |rs| > 3
    ensures InvalidDob in rs && (BelowMinimumAge in rs || AboveMaximumAge in rs)
  {
    assert rs[0].Rule() < rs[1].Rule() < rs[2].Rule() < rs[3].Rule();
    assert rs[1] == InvalidDob;
  }

  /** Two lists in rule order with the same members are the same list. */
  lemma {:induction false} InRuleOrderUnique(xs: seq<Reason>, ys: seq<Reason>)
    requires InRuleOrder(xs) && InRuleOrder(ys)
    requires forall r :: r in xs <==> r in ys
    ensures xs == ys
  {
    assert xs != [] ==> xs[0] in ys;
    assert ys != [] ==> ys[0] in xs;
    if xs != [] {
      var k :| 0 <= k < |ys| && ys[k] == xs[0];
      if k > 0 {
        assert false;
      }
      forall r
        ensures r in xs[1..] <==> r in ys[1..]
      {
        if r in xs[1..] {
          var i :| 1 <= i < |xs| && xs[i] == r;
          assert xs[0].Rule() < xs[i].Rule();
          assert r in ys;
          var j :| 0 <= j < |ys| && ys[j] == r;
          assert j != 0;
          assert ys[1..][j - 1] == r;
        }
        if r in ys[1..] {
          var j :| 1 <= j < |ys| && ys[j] == r;
          assert ys[0].Rule() < ys[j].Rule();
          assert r in xs;
          var i :| 0 <= i < |xs| && xs[i] == r;
          assert i != 0;
          assert xs[1..][i - 1] == r;
        }
      }
      InRuleOrderUnique(xs[1..], ys[1..]);
    }
  }

  /** The reasons are determined by the rules alone: any list in rule order
      that holds exactly the failing rules' reasons is the engine's list. */
  lemma ReasonsDetermined(a: Applicant, now: Instant, rs: seq<Reason>)
    requires InRuleOrder(rs)
    requires forall r :: r in rs <==> Fails(a, now, r)
    ensures rs == CheckEligibility(a, now).reasons
  {
    var d := CheckEligibility(a, now);
    forall r
      ensures r in rs <==> r in d.reasons
    {
      match r
      case NameRequired =>
      case InvalidDob =>
      case BelowMinimumAge =>
      case AboveMaximumAge =>
      case InvalidMobile =>
    }
    InRuleOrderUnique(rs, d.reasons);
  }

  /** An applicant is eligible exactly when the name is present, the date of
      birth is a valid past date giving an age from 18 to 35, and the mobile is
      ten digits. */
  lemma EligibleIff(a: Applicant, now: Instant)
    ensures CheckEligibility(a, now).status == Eligible
            <==> && !NameMissing(a.name)
                 && IsValidDob(a.dob, now)
                 && MinimumAge <= AgeAt(a, now) <= MaximumAge
                 && !MobileInvalid(a.mobile)
  {
    var d := CheckEligibility(a, now);
    if d.reasons != [] {
      assert d.reasons[0] in d.reasons;
      match d.reasons[0]
      case NameRequired =>
      case InvalidDob =>
      case BelowMinimumAge =>
      case AboveMaximumAge =>
      case InvalidMobile =>
    }
  }

  /** An applicant born on 15 January 2000, checked on 1 June 2024, is 24 and
      eligible. */
  lemma ExampleEligible(time: TimeOfDay)
    ensures CheckEligibility(Applicant(Some("Asha"), Some(Date(2000, 1, 15)), Some("9876543210")),
                             Instant(Date(2024, 6, 1), time))
            == Decision(Eligible, Some(24), [])
  {
    assert IsTenDigits("9876543210");
  }

  /** An empty name, a 14-year-old and a five-digit mobile give three reasons in
      rule order. */
  lemma ExampleThreeReasons(time: TimeOfDay)
    ensures CheckEligibility(Applicant(Some(""), Some(Date(2010, 1, 1)), Some("12345")),
                             Instant(Date(2024, 6, 1), time))
            == Decision(NotEligible, Some(14), [NameRequired, BelowMinimumAge, InvalidMobile])
  {
    var a := Applicant(Some(""), Some(Date(2010, 1, 1)), Some("12345"));
    var now := Instant(Date(2024, 6, 1), time);
    assert IsValidDob(a.dob, now);
    assert AgeAt(a, now) == 14;
    assert CollectReasons(true, true, 14, true) == [NameRequired, BelowMinimumAge, InvalidMobile];
  }
}
