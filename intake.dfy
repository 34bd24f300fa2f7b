/** The `/submit` handler of app.py with the web framework taken away: the
    four raw form values and today's date go in, a response comes out, and a
    row is appended to the store only when validation found nothing. */
module Intake {
  import opened Wrappers
  import opened PyText
  import opened PyDate
  import opened Validation
  import opened PatientStore

  /** What the handler renders: the form again with the error list and the
      (stripped) values to refill it, the confirmation page with the four
      saved values, or the failure of the insert, which the handler does not
      catch. */
  datatype Response =
    | FormWithErrors(errors: seq<string>, formData: Submission)
    | Confirmation(shown: Submission)
    | StorageFailure(error: StorageError)

  /** `request.form.get(name, '').strip()` for the four fields. */
  function Normalize(rawFirst: string, rawLast: string, rawDob: string, rawTherapist: string): (sub: Submission)
    ensures Trimmed(rawFirst, sub.firstName) && Trimmed(rawLast, sub.lastName)
    ensures Trimmed(rawDob, sub.dob) && Trimmed(rawTherapist, sub.therapist)
  {
    Submission(Strip(rawFirst), Strip(rawLast), Strip(rawDob), Strip(rawTherapist))
  }

  /** A stored row passes validation as of `today`: its names are non-empty
      and made of pattern characters, and its date of birth parses to a date
      before `today`. */
  predicate Admitted(r: Row, today: Date) {
    && ValidName(r.firstName)
    && ValidName(r.lastName)
    && ValidName(r.therapist)
    && Strptime(r.dob).Ok?
    && Before(Strptime(r.dob).value, today)
  }

  ghost predicate AllAdmitted(rows: seq<Row>, today: Date) {
    forall i :: 0 <= i < |rows| ==> Admitted(rows[i], today)
  }

  /** `submit()`: strip the four values, then validate and decide. */
  method Submit(db: PatientsDb, rawFirst: string, rawLast: string, rawDob: string, rawTherapist: string,
                today: Date) returns (resp: Response)
    requires db.Valid()
    modifies db
    ensures db.Valid() && db.hasTable == old(db.hasTable)
    ensures Outcome(Normalize(rawFirst, rawLast, rawDob, rawTherapist), today,
                    old(db.hasTable), old(db.rows), old(db.lastId), resp, db.rows, db.lastId)
    ensures AllAdmitted(old(db.rows), today) ==> AllAdmitted(db.rows, today)
  {
    var sub := Normalize(rawFirst, rawLast, rawDob, rawTherapist);
    resp := Decide(db, sub, today);
  }

  /** What one submission does, given the store before it (`hadTable`,
      `rows0`, `last0`) and after it (`rows1`, `last1`): with errors, the form
      comes back with the errors and the stripped values and the store is
      untouched; without, exactly one row holding the four stripped values is
      appended under a fresh id and the confirmation shows those values, unless
      the insert fails, in which case nothing is stored. */
  ghost predicate Outcome(sub: Submission, today: Date, hadTable: bool, rows0: seq<Row>, last0: int,
                          resp: Response, rows1: seq<Row>, last1: int) {
    var errs := ValidationErrors(sub, today);
    && (errs != [] ==> resp == FormWithErrors(errs, sub))
    && (errs == [] && hadTable && last0 < MaxRowId ==>
          && resp == Confirmation(sub)
          && rows1 == rows0 + [Row(last0 + 1, sub.firstName, sub.lastName, sub.dob, sub.therapist)]
          && last1 == last0 + 1)
    && (errs == [] && !hadTable ==> resp == StorageFailure(NoSuchTable))
    && (errs == [] && hadTable && last0 == MaxRowId ==> resp == StorageFailure(DatabaseFull))
    && (!resp.Confirmation? ==> rows1 == rows0 && last1 == last0)
    && (resp.Confirmation? ==> forall i :: 0 <= i < |rows0| ==> rows0[i].id < last1)
  }

  /** The error/success branch of `submit()` on the stripped values. */
  method Decide(db: PatientsDb, sub: Submission, today: Date) returns (resp: Response)
    requires db.Valid()
    modifies db
    ensures db.Valid() && db.hasTable == old(db.hasTable)
    ensures Outcome(sub, today, old(db.hasTable), old(db.rows), old(db.lastId), resp, db.rows, db.lastId)
    ensures AllAdmitted(old(db.rows), today) ==> AllAdmitted(db.rows, today)
  {
    var errors := Validate(sub, today);
    if errors != [] {
      return FormWithErrors(errors, sub);
    }

    var inserted := db.Insert(sub.firstName, sub.lastName, sub.dob, sub.therapist);
    match inserted
    case Err(e) =>
      resp := StorageFailure(e);
    case Ok(id) =>
      AcceptedRowAdmitted(sub, today, id);
      AppendAdmitted(old(db.rows), today, Row(id, sub.firstName, sub.lastName, sub.dob, sub.therapist));
      resp := Confirmation(sub);
  }

  /** A submission with no errors makes an admitted row. */
  lemma AcceptedRowAdmitted(sub: Submission, today: Date, id: int)
    requires ValidationErrors(sub, today) == []
    ensures Admitted(Row(id, sub.firstName, sub.lastName, sub.dob, sub.therapist), today)
  {
  }

  lemma AppendAdmitted(rows: seq<Row>, today: Date, row: Row)
    requires Admitted(row, today)
    ensures AllAdmitted(rows, today) ==> AllAdmitted(rows + [row], today)
  {
    if AllAdmitted(rows, today) {
      forall i | 0 <= i < |rows + [row]| ensures Admitted((rows + [row])[i], today) {
        if i < |rows| {
          assert (rows + [row])[i] == rows[i];
        }
      }
    }
  }

  /** A clock that does not go back keeps the stored rows admitted: a date of
      birth before the day it was submitted is before every later day too. So
      over any run of submissions with non-decreasing `today`, every stored row
      passes the whole validation as of the latest call. */
  lemma AdmittedLater(rows: seq<Row>, earlier: Date, later: Date)
    requires !Before(later, earlier)
    ensures AllAdmitted(rows, earlier) ==> AllAdmitted(rows, later)
  {
    if AllAdmitted(rows, earlier) {
      forall i | 0 <= i < |rows| ensures Admitted(rows[i], later) {
        assert Admitted(rows[i], earlier);
      }
    }
  }

  /** The row keeps the date of birth as typed (after stripping), not in
      ISO form: a one-digit month and a space-padded day pass validation,
      and that text is what the insert stores. */
  lemma StoredDobKeepsSpelling(today: Date)
    requires Before(Date(1990, 5, 7), today)
    ensures var sub := Submission("Anne", "Lee", "1990-5- 7", "Kim");
      && ValidationErrors(sub, today) == []
      && sub.dob != IsoFormat(Date(1990, 5, 7))
  {
    var d := Date(1990, 5, 7);
    assert "1990-5- 7" == Render(d, OneDigitMonth, SpacePaddedDay);
    StrptimeAcceptsSpelling(d, OneDigitMonth, SpacePaddedDay);
    assert OnlyNameChars("Anne") && OnlyNameChars("Lee") && OnlyNameChars("Kim");
    assert |"1990-5- 7"| != |IsoFormat(d)|;
  }
}
