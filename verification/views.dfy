/**
 * The views that change or read the local store, with the store as an
 * object whose two tables are reassigned the way the views save rows.
 * Remote responses, the session user and the clock arrive as parameters.
 */
module Views {
  import opened Wrappers
  import opened Query
  import opened Models
  import opened PatientMirror
  import opened AppointmentMerger
  import opened Intake
  import opened TokenStore

  class Clinic {
    var patients: seq<Patient>
    var doctors: seq<Doctor>

    ghost predicate Valid()
      reads this
    {
      ConsecutiveIds(patients) && UniquePatientIds(patients)
    }

    constructor ()
      ensures Valid() && patients == [] && doctors == []
    {
      patients := [];
      doctors := [];
    }

    /**
     * drchrono_login after a successful exchange: the tokens expire at
     * `now + expiresIn`; the Doctor table is upserted as TokenUpsert says.
     */
    method DrchronoLogin(user: int, accessToken: string, refreshToken: string, expiresIn: int, now: int,
                         stale: int -> bool)
      returns (r: Result<()>)
      modifies this`doctors
      ensures var u := TokenUpsert(old(doctors), user, Tokens(accessToken, refreshToken, now + expiresIn), stale);
              (u.Ok? ==> r == Ok(()) && doctors == u.value) &&
              (u.Err? ==> r == Err(u.error) && doctors == old(doctors))
    {
      var t := Tokens(accessToken, refreshToken, now + expiresIn);
      var current := GetWhere(doctors, UserIs(user));
      match current
      case Err(DoesNotExist) =>
        doctors := doctors + [NewDoctor(PlaceholderUser, t)];
        r := Ok(());
      case Err(e) =>
        r := Err(e);
      case Ok(i) =>
        if stale(doctors[i].expiresTimestamp) {
          doctors := doctors[i := Refreshed(doctors[i], t)];
        }
        r := Ok(());
    }

    /**
     * check_in: the session user's Doctor is looked up (its token authorises
     * the listing), then every listed patient is mirrored in order.
     */
    method CheckIn(user: int, results: seq<RemotePatient>) returns (r: Result<()>)
      requires Valid()
      modifies this`patients
      ensures Valid()
      ensures GetWhere(doctors, UserIs(user)).Err? ==>
                r == Err(GetWhere(doctors, UserIs(user)).error) && patients == old(patients)
      ensures GetWhere(doctors, UserIs(user)).Ok? ==>
                r == Ok(()) && patients == Mirror(old(patients), results)
    {
      var current := GetWhere(doctors, UserIs(user));
      if current.Err? {
        return Err(current.error);
      }
      for i := 0 to |results|
        invariant Mirror(patients, results[i..]) == Mirror(old(patients), results)
        invariant ConsecutiveIds(patients)
        invariant UniquePatientIds(patients)
      {
        assert results[i..][0] == results[i] && results[i..][1..] == results[i + 1..];
        var remote := results[i];
        ghost var before := patients;
        if !HasPatientId(patients, remote.id) {
          patients := patients + [Mirrored(remote, |patients| + 1)];
        }
        assert patients == MirrorOne(before, remote);
        MirrorOneKeepsInvariants(before, remote);
      }
      assert results[|results|..] == [];
      r := Ok(());
    }

    /**
     * patient_demographic on a POST: an invalid identity form changes
     * nothing; a valid one finds or creates the Patient and shows it.
     */
    method PatientDemographic(formValid: bool, who: Identity) returns (shown: Option<Patient>)
      requires Valid()
      modifies this`patients
      ensures Valid()
      ensures !formValid ==> shown == None && patients == old(patients)
      ensures formValid ==>
                patients == FindOrCreate(old(patients), who).0 &&
                shown == Some(patients[FindOrCreate(old(patients), who).1])
    {
      if !formValid {
        return None;
      }
      var found := FirstWhere(patients, IdentityIs(who));
      if found.Some? {
        shown := Some(patients[found.value]);
      } else {
        patients := patients + [IntakeRow(who, |patients| + 1)];
        shown := Some(patients[|patients| - 1]);
      }
    }

    /**
     * checked_in on a POST: the Patient is fetched by the posted form's name
     * and birth date and, when the form is valid, saved with the form data,
     * status "Arrived" and the arrival stamp.
     */
    method CheckedIn(formValid: bool, form: Profile, arrivedTime: string) returns (r: Result<()>)
      requires Valid()
      modifies this`patients
      ensures Valid()
      ensures var m := MarkArrived(old(patients), formValid, form, arrivedTime);
              (m.Ok? ==> r == Ok(()) && patients == m.value) &&
              (m.Err? ==> r == Err(m.error) && patients == old(patients))
    {
      var found := GetWhere(patients, IdentityIs(IdentityOf(form)));
      if found.Err? {
        return Err(found.error);
      }
      var i := found.value;
      if formValid {
        patients := patients[i := Arrive(patients[i], form, arrivedTime)];
      }
      r := Ok(());
    }

    /**
     * appointments: the session user's Doctor is looked up, then each listed
     * appointment is joined to its patient and merged, in listing order.
     */
    method Appointments(user: int, appts: seq<Dict>) returns (r: Result<seq<Dict>>)
      ensures GetWhere(doctors, UserIs(user)).Err? ==> r == Err(GetWhere(doctors, UserIs(user)).error)
      ensures GetWhere(doctors, UserIs(user)).Ok? ==> r == Join(patients, appts)
    {
      var current := GetWhere(doctors, UserIs(user));
      if current.Err? {
        return Err(current.error);
      }
      var merged: seq<Dict> := [];
      var i := 0;
      while i < |appts|
        invariant 0 <= i <= |appts|
        invariant Join(patients, appts[..i]) == Ok(merged)
      {
        var appointment := appts[i];
        assert appts[..i + 1][..i] == appts[..i];
        if "patient" !in appointment {
          assert "patient" !in appts[i];
          return Err(KeyError("patient"));
        }
        var partner := FirstWhere(patients, KeyMatches(appointment["patient"]));
        if partner.Some? {
          merged := merged + [Merge(RowDict(patients[partner.value]), appointment)];
        }
        i := i + 1;
      }
      assert appts[..|appts|] == appts;
      r := Ok(merged);
    }
  }
}
