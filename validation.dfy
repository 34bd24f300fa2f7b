/** The field checks of the intake form (`submit()` in app.py): three name
    fields under one rule, and the date of birth. Every field is checked on
    its stripped value, independently of the others, and each contributes at
    most one message, in the order first name, last name, therapist, date of
    birth. */
module Validation {
  import opened Wrappers
  import opened PyText
  import opened PyDate

  /** The four form values after `.strip()`. */
  datatype Submission = Submission(firstName: string, lastName: string, dob: string, therapist: string)

  datatype NameField = FirstName | LastName | TherapistName

  function RequiredMessage(f: NameField): string {
    match f
    case FirstName => "First name is required."
    case LastName => "Last name is required."
    case TherapistName => "Therapist name is required."
  }

  function CharsetMessage(f: NameField): string {
    match f
    case FirstName => "First name can only contain letters, spaces, apostrophes, and hyphens."
    case LastName => "Last name can only contain letters, spaces, apostrophes, and hyphens."
    case TherapistName => "Therapist name can only contain letters, spaces, apostrophes, and hyphens."
  }

  const DobRequiredMessage: string := "Date of birth is required."
  const DobFormatMessage: string := "Invalid date format."
  const DobPastMessage: string := "Date of birth must be in the past."

  // ---------------------------------------------------------------------------
  // The name pattern ^[A-Za-z\s'\-]+$

  /** The character class `[A-Za-z\s'\-]`. */
  predicate NameChar(c: char) {
    IsAsciiLetter(c) || IsSpace(c) || c == '\'' || c == '-'
  }

  predicate OnlyNameChars(s: string) {
    forall i :: 0 <= i < |s| ==> NameChar(s[i])
  }

  /** The `+` run can stop at `p` and `$` can match there: at the end of the
      text, or just before a newline that ends it. */
  ghost predicate PatternMatchesUpTo(s: string, p: int) {
    && 1 <= p <= |s|
    && (forall i :: 0 <= i < p ==> NameChar(s[i]))
    && (p == |s| || (p == |s| - 1 && s[p] == '\n'))
  }

  /** `name_pattern.match(s)` succeeds. */
  ghost predicate NamePatternMatches(s: string) {
    exists p :: PatternMatchesUpTo(s, p)
  }

  /** The pattern accepts exactly the non-empty strings of class characters;
      the newline exception of `$` changes nothing, since a newline is in the
      class. */
  lemma NamePatternExact(s: string)
    ensures NamePatternMatches(s) <==> s != [] && OnlyNameChars(s)
  {
    if s != [] && OnlyNameChars(s) {
      assert PatternMatchesUpTo(s, |s|);
    }
    if NamePatternMatches(s) {
      var p :| PatternMatchesUpTo(s, p);
      assert p < |s| ==> IsSpace(s[p]);
    }
  }

  /** A name field passes: non-empty and made of class characters only. */
  predicate ValidName(s: string) {
    s != [] && OnlyNameChars(s)
  }

  // ---------------------------------------------------------------------------
  // The messages each field contributes

  /** The messages the `if not x / elif not name_pattern.match(x)` pair
      appends for one stripped name. */
  function NameErrors(f: NameField, s: string): (errs: seq<string>)
    ensures |errs| <= 1
  {
    if s == "" then [RequiredMessage(f)]
    else if !OnlyNameChars(s) then [CharsetMessage(f)]
    else []
  }

  /** The messages of the date-of-birth block: `strptime` runs only on a
      non-empty text, and the comparison `dob_date >= today` only on a
      successful parse. */
  function DobErrors(dob: string, today: Date): (errs: seq<string>)
    ensures |errs| <= 1
  {
    if dob == "" then [DobRequiredMessage]
    else match Strptime(dob)
      case Err(_) => [DobFormatMessage]
      case Ok(d) => if !Before(d, today) then [DobPastMessage] else []
  }

  /** The whole error list, field by field. */
  function ValidationErrors(sub: Submission, today: Date): (errs: seq<string>)
    ensures |errs| <= 4
    ensures |errs| == (if ValidName(sub.firstName) then 0 else 1)
                    + (if ValidName(sub.lastName) then 0 else 1)
                    + (if ValidName(sub.therapist) then 0 else 1)
                    + |DobErrors(sub.dob, today)|
  {
    NameErrors(FirstName, sub.firstName) + NameErrors(LastName, sub.lastName)
    + NameErrors(TherapistName, sub.therapist) + DobErrors(sub.dob, today)
  }

  /** The validation block of `submit()`: starting from an empty list, the
      three name checks and the date-of-birth check append their messages in turn. */
  method Validate(sub: Submission, today: Date) returns (errors: seq<string>)
    ensures errors == ValidationErrors(sub, today)
  {
    errors := [];
    errors := CheckName(errors, FirstName, sub.firstName);
    errors := CheckName(errors, LastName, sub.lastName);
    errors := CheckName(errors, TherapistName, sub.therapist);
    errors := CheckDob(errors, sub.dob, today);
  }

  /** One `if not x: ... elif not name_pattern.match(x): ...` block. */
  method CheckName(errors: seq<string>, f: NameField, s: string) returns (out: seq<string>)
    ensures out == errors + NameErrors(f, s)
  {
    out := errors;
    if s == "" {
      out := out + [RequiredMessage(f)];
    } else if !OnlyNameChars(s) {
      out := out + [CharsetMessage(f)];
    }
  }

  /** The date-of-birth block: the `try` around `strptime`, and the comparison
      with today when the parse succeeds. */
  method CheckDob(errors: seq<string>, dob: string, today: Date) returns (out: seq<string>)
    ensures out == errors + DobErrors(dob, today)
  {
    out := errors;
    if dob == "" {
      out := out + [DobRequiredMessage];
    } else {
      var parsed := Strptime(dob);
      match parsed
      case Ok(d) =>
        if !Before(d, today) {
          out := out + [DobPastMessage];
        }
      case Err(_) =>
        out := out + [DobFormatMessage];
    }
  }

  // ---------------------------------------------------------------------------
  // What the messages mean

  /** A name field adds "required" exactly when it is empty, the character-set
      message exactly when it is non-empty and the pattern rejects it, and
      nothing exactly when the pattern accepts it. */
  lemma NameVerdict(f: NameField, s: string)
    ensures NameErrors(f, s) == [RequiredMessage(f)] <==> s == ""
    ensures NameErrors(f, s) == [CharsetMessage(f)] <==> s != "" && !NamePatternMatches(s)
    ensures NameErrors(f, s) == [] <==> NamePatternMatches(s)
  {
    NamePatternExact(s);
    MessagesOfAFieldDiffer(f);
  }

  lemma MessagesOfAFieldDiffer(f: NameField)
    ensures RequiredMessage(f) != CharsetMessage(f)
  {
    assert |RequiredMessage(f)| < |CharsetMessage(f)|;
  }

  /** The date of birth adds "required" exactly when it is empty, the format
      message exactly when it is non-empty and spells no real date, the
      "past" message exactly when it spells a date on or after today, and
      nothing exactly when it spells a date before today. */
  lemma DobVerdict(dob: string, today: Date)
    ensures DobErrors(dob, today) == [DobRequiredMessage] <==> dob == ""
    ensures DobErrors(dob, today) == [DobFormatMessage]
            <==> dob != "" && forall d :: !IsSpelling(dob, d)
    ensures DobErrors(dob, today) == [DobPastMessage]
            <==> exists d :: IsSpelling(dob, d) && !Before(d, today)
    ensures DobErrors(dob, today) == []
            <==> exists d :: IsSpelling(dob, d) && Before(d, today)
  {
    forall d ensures Strptime(dob) == Ok(d) <==> IsSpelling(dob, d) {
      StrptimeExact(dob, d);
    }
    assert Strptime("") == Err(NoMatch);
  }

  /** Today itself is not in the past: its ISO spelling is rejected. */
  lemma TodayIsRejected(today: Date)
    requires ValidDate(today)
    ensures DobErrors(IsoFormat(today), today) == [DobPastMessage]
  {
    IsoRoundTrip(today);
  }

  /** The day before today, however spelled, passes. */
  lemma EarlierDateAccepted(d: Date, ms: MonthStyle, ds: DayStyle, today: Date)
    requires ValidDate(d) && StyleFits(d, ms, ds) && Before(d, today)
    ensures DobErrors(Render(d, ms, ds), today) == []
  {
    StrptimeAcceptsSpelling(d, ms, ds);
  }

  /** A submission passes when every name matches the pattern and the date
      of birth spells a real date before today. */
  ghost predicate Acceptable(sub: Submission, today: Date) {
    && NamePatternMatches(sub.firstName)
    && NamePatternMatches(sub.lastName)
    && NamePatternMatches(sub.therapist)
    && exists d :: IsSpelling(sub.dob, d) && Before(d, today)
  }

  /** The error list is empty exactly for acceptable submissions. */
  lemma NoErrorsIffAcceptable(sub: Submission, today: Date)
    ensures ValidationErrors(sub, today) == [] <==> Acceptable(sub, today)
  {
    NameVerdict(FirstName, sub.firstName);
    NameVerdict(LastName, sub.lastName);
    NameVerdict(TherapistName, sub.therapist);
    DobVerdict(sub.dob, today);
  }

  /** All violations are collected: the list is the concatenation of each
      field's own verdict, so the message of every failing field is in it,
      in field order, whatever the other fields hold. */
  lemma ErrorsInFieldOrder(sub: Submission, today: Date)
    ensures var errs := ValidationErrors(sub, today);
      var n1 := |NameErrors(FirstName, sub.firstName)|;
      var n2 := n1 + |NameErrors(LastName, sub.lastName)|;
      var n3 := n2 + |NameErrors(TherapistName, sub.therapist)|;
      && errs[..n1] == NameErrors(FirstName, sub.firstName)
      && errs[n1..n2] == NameErrors(LastName, sub.lastName)
      && errs[n2..n3] == NameErrors(TherapistName, sub.therapist)
      && errs[n3..] == DobErrors(sub.dob, today)
  {
    Concat4(NameErrors(FirstName, sub.firstName), NameErrors(LastName, sub.lastName),
      NameErrors(TherapistName, sub.therapist), DobErrors(sub.dob, today));
  }

  lemma Concat4<T>(a: seq<T>, b: seq<T>, c: seq<T>, e: seq<T>)
    ensures var s := a + b + c + e;
      && s[..|a|] == a && s[|a|..|a| + |b|] == b
      && s[|a| + |b|..|a| + |b| + |c|] == c && s[|a| + |b| + |c|..] == e
  {
  }

  /** The worked example: a therapist name with a period is refused with the
      character-set message alone. */
  lemma TherapistWithPeriodRejected(today: Date)
    requires Before(Date(1990, 5, 10), today)
    ensures ValidationErrors(Submission("Anne-Marie", "O'Neil", "1990-05-10", "Dr. Smith"), today)
            == [CharsetMessage(TherapistName)]
  {
    ExampleFields(today);
  }

  /** ... and without the period the same form has no errors. */
  lemma TherapistWithoutPeriodAccepted(today: Date)
    requires Before(Date(1990, 5, 10), today)
    ensures ValidationErrors(Submission("Anne-Marie", "O'Neil", "1990-05-10", "Dr Smith"), today) == []
  {
    ExampleFields(today);
  }

  lemma ExampleFields(today: Date)
    requires Before(Date(1990, 5, 10), today)
    ensures NameErrors(FirstName, "Anne-Marie") == []
    ensures NameErrors(LastName, "O'Neil") == []
    ensures NameErrors(TherapistName, "Dr Smith") == []
    ensures NameErrors(TherapistName, "Dr. Smith") == [CharsetMessage(TherapistName)]
    ensures DobErrors("1990-05-10", today) == []
  {
    ExampleDob(today);
    ExampleNames();
  }

  lemma ExampleDob(today: Date)
    requires Before(Date(1990, 5, 10), today)
    ensures DobErrors("1990-05-10", today) == []
  {
    StrptimeAcceptsExamples();
  }

  lemma ExampleNames()
    ensures OnlyNameChars("Anne-Marie") && OnlyNameChars("O'Neil") && OnlyNameChars("Dr Smith")
    ensures !OnlyNameChars("Dr. Smith")
  {
    assert !NameChar("Dr. Smith"[2]);
  }
}
