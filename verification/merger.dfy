/**
 * The appointment listing: each remote appointment is joined to the first
 * local Patient whose remote id is the appointment's "patient" value, the two
 * dicts are merged with the appointment winning, and unmatched appointments
 * are dropped.
 */
module AppointmentMerger {
  import opened Wrappers
  import opened Query
  import opened Models

  /**
   * `Patient.objects.filter(patient_id=key)`: an integer matches that remote
   * id, and None is Django's `IS NULL` test, matching rows created by intake.
   */
  function KeyMatches(key: Value): Patient -> bool
  {
    (p: Patient) =>
      match key
      case Int(n) => p.patientId == Some(n)
      case Null => p.patientId == None
      case Text(_) => false
  }

  /** The filter selects exactly the rows whose `patient_id` column holds the key. */
  lemma KeyMatchesColumn(key: Value, p: Patient)
    ensures KeyMatches(key)(p) <==> !key.Text? && RowDict(p)["patient_id"] == key
  {
  }

  /** The appointment has a "patient" key and some local row matches it. */
  predicate Joined(rows: seq<Patient>, a: Dict)
  {
    "patient" in a && FirstWhere(rows, KeyMatches(a["patient"])).Some?
  }

  /** The first local row the appointment is joined to. */
  function Partner(rows: seq<Patient>, a: Dict): (i: nat)
    requires Joined(rows, a)
    ensures i < |rows| && KeyMatches(a["patient"])(rows[i])
    ensures forall j :: 0 <= j < i ==> !KeyMatches(a["patient"])(rows[j])
  {
    FirstWhere(rows, KeyMatches(a["patient"])).value
  }

  /** The merged record for an appointment, if it is joined to a patient. */
  function Combined(rows: seq<Patient>, a: Dict): (r: Option<Dict>)
    ensures r.Some? <==> Joined(rows, a)
    ensures r.Some? ==> r.value.Keys == RowDict(rows[Partner(rows, a)]).Keys + a.Keys
    ensures r.Some? ==> forall k :: k in a ==> r.value[k] == a[k]
    ensures r.Some? ==> forall k :: k in RowDict(rows[Partner(rows, a)]) && k !in a ==>
              r.value[k] == RowDict(rows[Partner(rows, a)])[k]
  {
    if Joined(rows, a) then Some(Merge(RowDict(rows[Partner(rows, a)]), a)) else None
  }

  /** The loop over the remote appointments, in the order they were returned. */
  function Join(rows: seq<Patient>, appts: seq<Dict>): (r: Result<seq<Dict>>)
    ensures r.Err? <==> exists k :: 0 <= k < |appts| && "patient" !in appts[k]
    ensures r.Err? ==> r.error == KeyError("patient")
    ensures r.Ok? ==> |r.value| <= |appts|
    decreases |appts|
  {
    if appts == [] then Ok([])
    else
      var n := |appts| - 1;
      var done := Join(rows, appts[..n]);
      assert forall k :: 0 <= k < n ==> appts[..n][k] == appts[k];
      if done.Err? then done
      else if "patient" !in appts[n] then Err(KeyError("patient"))
      else match Combined(rows, appts[n])
        case Some(d) => Ok(done.value + [d])
        case None => done
  }

  /** Positions, in increasing order, of the appointments that find a patient. */
  ghost function JoinedIndices(rows: seq<Patient>, appts: seq<Dict>): seq<nat>
    decreases |appts|
  {
    if appts == [] then []
    else
      var n := |appts| - 1;
      if Joined(rows, appts[n]) then JoinedIndices(rows, appts[..n]) + [n]
      else JoinedIndices(rows, appts[..n])
  }

  /** How one more appointment extends the listing and the joined positions. */
  lemma JoinStep(rows: seq<Patient>, appts: seq<Dict>)
    requires appts != []
    requires forall k :: 0 <= k < |appts| ==> "patient" in appts[k]
    ensures Join(rows, appts[..|appts| - 1]).Ok? && Join(rows, appts).Ok?
    ensures Joined(rows, appts[|appts| - 1]) ==>
              Join(rows, appts).value == Join(rows, appts[..|appts| - 1]).value + [Combined(rows, appts[|appts| - 1]).value] &&
              JoinedIndices(rows, appts) == JoinedIndices(rows, appts[..|appts| - 1]) + [|appts| - 1]
    ensures !Joined(rows, appts[|appts| - 1]) ==>
              Join(rows, appts).value == Join(rows, appts[..|appts| - 1]).value &&
              JoinedIndices(rows, appts) == JoinedIndices(rows, appts[..|appts| - 1])
  {
    var n := |appts| - 1;
    assert forall k :: 0 <= k < n ==> appts[..n][k] == appts[k];
  }

  /** The joined positions are in range, joinable and increasing. */
  lemma {:induction false} JoinedIndicesSorted(rows: seq<Patient>, appts: seq<Dict>)
    ensures forall j :: 0 <= j < |JoinedIndices(rows, appts)| ==>
              JoinedIndices(rows, appts)[j] < |appts| && Joined(rows, appts[JoinedIndices(rows, appts)[j]])
    ensures forall j1, j2 :: 0 <= j1 < j2 < |JoinedIndices(rows, appts)| ==>
              JoinedIndices(rows, appts)[j1] < JoinedIndices(rows, appts)[j2]
    decreases |appts|
  {
    if appts != [] {
      var n := |appts| - 1;
      var pre := appts[..n];
      JoinedIndicesSorted(rows, pre);
      var idx0, idx := JoinedIndices(rows, pre), JoinedIndices(rows, appts);
      forall j | 0 <= j < |idx| ensures idx[j] < |appts| && Joined(rows, appts[idx[j]]) {
        if j < |idx0| {
          assert idx[j] == idx0[j] && pre[idx0[j]] == appts[idx[j]];
        }
      }
    }
  }

  /** Every joinable appointment's position is among the joined positions. */
  lemma {:induction false} JoinedIndicesComplete(rows: seq<Patient>, appts: seq<Dict>)
    ensures forall k :: 0 <= k < |appts| && Joined(rows, appts[k]) ==> k in JoinedIndices(rows, appts)
    decreases |appts|
  {
    if appts != [] {
      var n := |appts| - 1;
      var pre := appts[..n];
      JoinedIndicesComplete(rows, pre);
      var idx0, idx := JoinedIndices(rows, pre), JoinedIndices(rows, appts);
      forall k | 0 <= k < |appts| && Joined(rows, appts[k]) ensures k in idx {
        if k < n {
          assert pre[k] == appts[k];
          assert k in idx0;
        }
      }
    }
  }

  /** The i-th merged record comes from the i-th joined appointment. */
  lemma {:induction false} JoinFollowsIndices(rows: seq<Patient>, appts: seq<Dict>)
    requires forall k :: 0 <= k < |appts| ==> "patient" in appts[k]
    ensures Join(rows, appts).Ok?
    ensures |Join(rows, appts).value| == |JoinedIndices(rows, appts)|
    ensures forall j :: 0 <= j < |JoinedIndices(rows, appts)| ==>
              JoinedIndices(rows, appts)[j] < |appts| &&
              Some(Join(rows, appts).value[j]) == Combined(rows, appts[JoinedIndices(rows, appts)[j]])
    decreases |appts|
  {
    if appts != [] {
      var n := |appts| - 1;
      var pre := appts[..n];
      assert forall k :: 0 <= k < n ==> pre[k] == appts[k];
      JoinFollowsIndices(rows, pre);
      JoinStep(rows, appts);
      var out0, idx0 := Join(rows, pre).value, JoinedIndices(rows, pre);
      var out, idx := Join(rows, appts).value, JoinedIndices(rows, appts);
      forall j | 0 <= j < |idx| ensures idx[j] < |appts| && Some(out[j]) == Combined(rows, appts[idx[j]]) {
        if j < |idx0| {
          assert idx[j] == idx0[j] && out[j] == out0[j];
        }
      }
    }
  }

  /**
   * When every appointment has a "patient" key, the listing is exactly the
   * merged records of the appointments that find a patient, in remote order:
   * the i-th output comes from the i-th such appointment, the positions
   * increase, and no joinable appointment is missing.
   */
  lemma JoinKeepsOrder(rows: seq<Patient>, appts: seq<Dict>)
    requires forall k :: 0 <= k < |appts| ==> "patient" in appts[k]
    ensures Join(rows, appts).Ok?
    ensures |Join(rows, appts).value| == |JoinedIndices(rows, appts)|
    ensures forall j :: 0 <= j < |JoinedIndices(rows, appts)| ==>
              JoinedIndices(rows, appts)[j] < |appts| &&
              Joined(rows, appts[JoinedIndices(rows, appts)[j]]) &&
              Some(Join(rows, appts).value[j]) == Combined(rows, appts[JoinedIndices(rows, appts)[j]])
    ensures forall j1, j2 :: 0 <= j1 < j2 < |JoinedIndices(rows, appts)| ==>
              JoinedIndices(rows, appts)[j1] < JoinedIndices(rows, appts)[j2]
    ensures forall k :: 0 <= k < |appts| && Joined(rows, appts[k]) ==> k in JoinedIndices(rows, appts)
  {
    JoinedIndicesSorted(rows, appts);
    JoinedIndicesComplete(rows, appts);
    JoinFollowsIndices(rows, appts);
  }
}
