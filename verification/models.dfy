/**
 * The records the views read and write: the local Patient and Doctor rows,
 * a remote patient profile, and the dictionary view of a row that the
 * appointment listing merges with a remote appointment.
 */
module Models {
  import opened Wrappers

  /** A JSON / column value as the views see it. */
  datatype Value = Int(n: int) | Text(s: string) | Null

  /** A Python dict with string keys. */
  type Dict = map<string, Value>

  /** The profile fields a Patient row shares with the remote patient record. */
  datatype Profile = Profile(
    firstName: string,
    middleName: string,
    lastName: string,
    dateOfBirth: string,
    gender: string,
    address: string,
    city: string,
    state: string,
    zipCode: string,
    cellPhone: string,
    email: string,
    ethnicity: string,
    preferredLanguage: string,
    race: string,
    socialSecurityNumber: string,
    emergencyContactName: string,
    emergencyContactPhone: string,
    emergencyContactRelation: string)

  /** A local Patient row: primary key, optional remote id, profile, check-in status. */
  datatype Patient = Patient(
    id: nat,
    patientId: Option<int>,
    profile: Profile,
    appointmentStatus: string,
    arrivedTime: string)

  /** One element of the remote patients listing's `results`. */
  datatype RemotePatient = RemotePatient(id: int, profile: Profile)

  /** A local Doctor row holding one clinician's OAuth tokens. */
  datatype Doctor = Doctor(
    user: int,
    firstName: string,
    lastName: string,
    accessToken: string,
    refreshToken: string,
    expiresTimestamp: int)

  /** Rows are never deleted, so primary keys are the 1-based table positions. */
  ghost predicate ConsecutiveIds(rows: seq<Patient>)
  {
    forall i :: 0 <= i < |rows| ==> rows[i].id == i + 1
  }

  /**
   * The column values of a row, keyed by column name (`queryset.values()[0]`):
   * the primary key as an integer, and the remote id as an integer or NULL.
   */
  function RowDict(p: Patient): (d: Dict)
    ensures "id" in d && d["id"] == Int(p.id)
    ensures "patient_id" in d && d["patient_id"] == (if p.patientId.Some? then Int(p.patientId.value) else Null)
  {
    var f := p.profile;
    map[
      "id" := Int(p.id),
      "patient_id" := (match p.patientId case Some(n) => Int(n) case None => Null),
      "first_name" := Text(f.firstName),
      "middle_name" := Text(f.middleName),
      "last_name" := Text(f.lastName),
      "date_of_birth" := Text(f.dateOfBirth),
      "gender" := Text(f.gender),
      "address" := Text(f.address),
      "city" := Text(f.city),
      "state" := Text(f.state),
      "zip_code" := Text(f.zipCode),
      "cell_phone" := Text(f.cellPhone),
      "email" := Text(f.email),
      "ethnicity" := Text(f.ethnicity),
      "preferred_language" := Text(f.preferredLanguage),
      "race" := Text(f.race),
      "social_security_number" := Text(f.socialSecurityNumber),
      "emergency_contact_name" := Text(f.emergencyContactName),
      "emergency_contact_phone" := Text(f.emergencyContactPhone),
      "emergency_contact_relation" := Text(f.emergencyContactRelation),
      "appointment_status" := Text(p.appointmentStatus),
      "arrived_time" := Text(p.arrivedTime)
    ]
  }

  /**
   * `dict(row.items() + appointment.items())`: a dict built from a list of
   * pairs keeps the last value given for a key, so the appointment wins.
   */
  function Merge(row: Dict, appointment: Dict): (d: Dict)
    ensures d.Keys == row.Keys + appointment.Keys
    ensures forall k :: k in appointment ==> d[k] == appointment[k]
    ensures forall k :: k in row && k !in appointment ==> d[k] == row[k]
  {
    row + appointment
  }
}
