/**
 * The walk-in intake: find-or-create a Patient by the identity the patient
 * types in, then mark that Patient arrived when the demographic form is
 * submitted.
 */
module Intake {
  import opened Wrappers
  import opened Query
  import opened Models
  import opened PatientMirror

  /** What the identity form asks for. */
  datatype Identity = Identity(firstName: string, lastName: string, dateOfBirth: string)

  /** `filter(first_name=..., last_name=..., date_of_birth=...)` as a row test. */
  function IdentityIs(who: Identity): Patient -> bool
  {
    (p: Patient) =>
      p.profile.firstName == who.firstName &&
      p.profile.lastName == who.lastName &&
      p.profile.dateOfBirth == who.dateOfBirth
  }

  /** A profile with only the three identity fields set. */
  function IdentityProfile(who: Identity): Profile
  {
    Profile(who.firstName, "", who.lastName, who.dateOfBirth,
            "", "", "", "", "", "", "", "", "", "", "", "", "", "")
  }

  /** The row `Patient.objects.create` adds: no remote id, no status. */
  function IntakeRow(who: Identity, rowId: nat): Patient
  {
    Patient(rowId, None, IdentityProfile(who), "", "")
  }

  /**
   * Find-or-create: the new table and the index of the row shown on the
   * demographic form. An existing match leaves the table alone and yields the
   * first match; otherwise exactly one identity-only row is appended.
   */
  function FindOrCreate(rows: seq<Patient>, who: Identity): (res: (seq<Patient>, nat))
    ensures res.1 < |res.0| && IdentityIs(who)(res.0[res.1])
    ensures forall j :: 0 <= j < res.1 ==> !IdentityIs(who)(res.0[j])
    ensures (exists i :: 0 <= i < |rows| && IdentityIs(who)(rows[i])) ==>
              res.0 == rows && forall j :: 0 <= j < res.1 ==> !IdentityIs(who)(rows[j])
    ensures (forall i :: 0 <= i < |rows| ==> !IdentityIs(who)(rows[i])) ==>
              res.0 == rows + [IntakeRow(who, |rows| + 1)] && res.1 == |rows|
  {
    match FirstWhere(rows, IdentityIs(who))
    case Some(i) => (rows, i)
    case None => (rows + [IntakeRow(who, |rows| + 1)], |rows|)
  }

  /** Submitting the same identity again finds the same row and adds nothing. */
  lemma FindOrCreateIdempotent(rows: seq<Patient>, who: Identity)
    ensures FindOrCreate(FindOrCreate(rows, who).0, who) == FindOrCreate(rows, who)
  {
    var (rows1, i) := FindOrCreate(rows, who);
    if forall j :: 0 <= j < |rows| ==> !IdentityIs(who)(rows[j]) {
      var (rows2, i2) := FindOrCreate(rows1, who);
      assert IdentityIs(who)(rows1[|rows|]);
      assert forall j :: 0 <= j < |rows| ==> rows1[j] == rows[j];
      assert i2 == |rows|;
    }
  }

  /** The identity fields of a submitted profile. */
  function IdentityOf(f: Profile): Identity
  {
    Identity(f.firstName, f.lastName, f.dateOfBirth)
  }

  /** The check-in transition applied to one row: form data saved, status Arrived, stamp set. */
  function Arrive(p: Patient, form: Profile, arrivedTime: string): (q: Patient)
    ensures q.id == p.id && q.patientId == p.patientId
    ensures q.profile == form && IdentityOf(q.profile) == IdentityOf(form)
    ensures q.appointmentStatus == "Arrived" && q.arrivedTime == arrivedTime
  {
    p.(profile := form, appointmentStatus := "Arrived", arrivedTime := arrivedTime)
  }

  /**
   * The checked-in submission. One POST carries the demographic form: its
   * first name, last name and birth date select the Patient through
   * `Patient.objects.get` (raising when there is no row or more than one),
   * and the same form is then saved, only if valid, onto that one row.
   */
  function MarkArrived(rows: seq<Patient>, formValid: bool, form: Profile, arrivedTime: string)
    : (r: Result<seq<Patient>>)
    ensures r == Err(DoesNotExist) <==> forall i :: 0 <= i < |rows| ==> !IdentityIs(IdentityOf(form))(rows[i])
    ensures r == Err(MultipleObjectsReturned) <==>
              exists i, j :: 0 <= i < j < |rows| && IdentityIs(IdentityOf(form))(rows[i]) && IdentityIs(IdentityOf(form))(rows[j])
    ensures r.Err? ==> r.error == DoesNotExist || r.error == MultipleObjectsReturned
    ensures r.Ok? ==> |r.value| == |rows|
    ensures r.Ok? ==> forall i :: 0 <= i < |rows| ==>
              r.value[i] == (if formValid && IdentityIs(IdentityOf(form))(rows[i]) then Arrive(rows[i], form, arrivedTime) else rows[i])
  {
    match GetWhere(rows, IdentityIs(IdentityOf(form)))
    case Err(e) => Err(e)
    case Ok(i) => if formValid then Ok(rows[i := Arrive(rows[i], form, arrivedTime)]) else Ok(rows)
  }

  /**
   * Intake round trip: when at most one row carries the identity and the
   * demographic form is submitted with that identity unchanged,
   * find-or-create followed by a valid submission marks exactly the row the
   * form showed.
   */
  lemma IntakeRoundTrip(rows: seq<Patient>, who: Identity, form: Profile, arrivedTime: string)
    requires forall i, j :: 0 <= i < j < |rows| && IdentityIs(who)(rows[i]) ==> !IdentityIs(who)(rows[j])
    requires IdentityOf(form) == who
    ensures var (rows1, shown) := FindOrCreate(rows, who);
            MarkArrived(rows1, true, form, arrivedTime) == Ok(rows1[shown := Arrive(rows1[shown], form, arrivedTime)])
  {
    var (rows1, shown) := FindOrCreate(rows, who);
    forall j | 0 <= j < |rows1| && j != shown ensures !IdentityIs(who)(rows1[j]) {
      if j < |rows| {
        assert rows1[j] == rows[j];
        if shown < |rows| && j < shown {
        } else if shown < |rows| {
          assert IdentityIs(who)(rows[shown]);
        }
      }
    }
    assert GetWhere(rows1, IdentityIs(who)) == Ok(shown);
  }

  /**
   * A form whose name or birth date was edited looks up the edited identity,
   * not the row it was shown for: when no row carries the edited identity,
   * the submission raises DoesNotExist, whatever find-or-create showed.
   */
  lemma {:induction false} EditedIdentityMissesShownRow(rows: seq<Patient>, who: Identity, formValid: bool,
                                                       form: Profile, arrivedTime: string)
    requires IdentityOf(form) != who
    requires forall i :: 0 <= i < |rows| ==> !IdentityIs(IdentityOf(form))(rows[i])
    ensures MarkArrived(FindOrCreate(rows, who).0, formValid, form, arrivedTime) == Err(DoesNotExist)
  {
    var rows1 := FindOrCreate(rows, who).0;
    forall i | 0 <= i < |rows1| ensures !IdentityIs(IdentityOf(form))(rows1[i]) {
      if i >= |rows| {
        assert rows1[i] == IntakeRow(who, |rows| + 1);
        assert IdentityOf(IntakeRow(who, |rows| + 1).profile) == who;
      }
    }
  }

  /**
   * A second row with the identity, appended after the one find-or-create
   * shows, leaves the shown row in place but makes the check-in `get` fail.
   */
  lemma SecondMatchBlocksCheckIn(rows: seq<Patient>, shown: nat, extra: Patient, form: Profile, arrivedTime: string)
    requires shown < |rows| && IdentityIs(IdentityOf(form))(rows[shown])
    requires forall j :: 0 <= j < shown ==> !IdentityIs(IdentityOf(form))(rows[j])
    requires IdentityIs(IdentityOf(form))(extra)
    ensures FindOrCreate(rows + [extra], IdentityOf(form)) == (rows + [extra], shown)
    ensures MarkArrived(rows + [extra], true, form, arrivedTime) == Err(MultipleObjectsReturned)
  {
    var rows2 := rows + [extra];
    assert rows2[shown] == rows[shown] && rows2[|rows|] == extra;
    assert forall j :: 0 <= j < shown ==> rows2[j] == rows[j];
  }

  /**
   * A walk-in registered by intake and later listed by the remote API under
   * the same name and birth date gets a second row from the mirror when no
   * row carries that remote id yet (the intake row has none). Find-or-create
   * keeps showing the same row, but the checked-in submission then raises
   * MultipleObjectsReturned.
   */
  lemma IntakeThenMirrorBlocksCheckIn(rows: seq<Patient>, who: Identity, remoteId: int, listed: Profile,
                                      form: Profile, arrivedTime: string)
    requires !HasPatientId(FindOrCreate(rows, who).0, remoteId)
    requires IdentityOf(listed) == who && IdentityOf(form) == who
    ensures var (rows1, shown) := FindOrCreate(rows, who);
            var rows2 := Mirror(rows1, [RemotePatient(remoteId, listed)]);
            |rows2| == |rows1| + 1 &&
            FindOrCreate(rows2, who) == (rows2, shown) &&
            MarkArrived(rows2, true, form, arrivedTime) == Err(MultipleObjectsReturned)
  {
    var (rows1, shown) := FindOrCreate(rows, who);
    var extra := Mirrored(RemotePatient(remoteId, listed), |rows1| + 1);
    MirrorSingle(rows1, RemotePatient(remoteId, listed));
    assert Mirror(rows1, [RemotePatient(remoteId, listed)]) == rows1 + [extra];
    SecondMatchBlocksCheckIn(rows1, shown, extra, form, arrivedTime);
  }
}
