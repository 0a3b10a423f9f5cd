/**
 * The patient mirror of the check-in view: every remote patient whose id
 * has no local row yet is inserted; rows already present are left alone.
 */
module PatientMirror {
  import opened Wrappers
  import opened Query
  import opened Models

  function PatientIdIs(id: int): Patient -> bool
  {
    (p: Patient) => p.patientId == Some(id)
  }

  /** `Patient.objects.filter(patient_id=id).exists()` */
  predicate HasPatientId(rows: seq<Patient>, id: int)
    ensures HasPatientId(rows, id) <==> exists i :: 0 <= i < |rows| && rows[i].patientId == Some(id)
  {
    FirstWhere(rows, PatientIdIs(id)).Some?
  }

  /** The row inserted for a remote patient: remote id and every profile field copied. */
  function Mirrored(r: RemotePatient, rowId: nat): Patient
  {
    Patient(rowId, Some(r.id), r.profile, "", "")
  }

  /** One iteration of the loop: insert-if-absent. */
  function MirrorOne(rows: seq<Patient>, r: RemotePatient): seq<Patient>
  {
    if HasPatientId(rows, r.id) then rows else rows + [Mirrored(r, |rows| + 1)]
  }

  /** The whole loop, over the results in the order the listing returns them. */
  function Mirror(rows: seq<Patient>, results: seq<RemotePatient>): (m: seq<Patient>)
    ensures |rows| <= |m| <= |rows| + |results|
    decreases |results|
  {
    if results == [] then rows else Mirror(MirrorOne(rows, results[0]), results[1..])
  }

  /** A one-entry listing is one insert-if-absent. */
  lemma MirrorSingle(rows: seq<Patient>, r: RemotePatient)
    ensures Mirror(rows, [r]) == MirrorOne(rows, r)
  {
    assert [r][1..] == [];
  }

  /** No two rows carry the same remote id. */
  ghost predicate UniquePatientIds(rows: seq<Patient>)
  {
    forall i, j :: 0 <= i < j < |rows| && rows[i].patientId.Some? ==> rows[i].patientId != rows[j].patientId
  }

  /** One insert-if-absent keeps primary keys consecutive and remote ids unique. */
  lemma MirrorOneKeepsInvariants(rows: seq<Patient>, r: RemotePatient)
    requires ConsecutiveIds(rows) && UniquePatientIds(rows)
    ensures ConsecutiveIds(MirrorOne(rows, r)) && UniquePatientIds(MirrorOne(rows, r))
  {
  }

  /**
   * The mirror only appends: the old table is a prefix of the new one; each
   * appended row is some remote result copied verbatim under the next primary
   * key; and no appended row repeats a remote id of any row before it (so an
   * id already present, or seen earlier in the same listing, is not inserted).
   */
  lemma {:induction false} MirrorAppendsFresh(rows: seq<Patient>, results: seq<RemotePatient>)
    ensures |rows| <= |Mirror(rows, results)|
    ensures Mirror(rows, results)[..|rows|] == rows
    ensures forall i :: |rows| <= i < |Mirror(rows, results)| ==>
              exists k :: 0 <= k < |results| && Mirror(rows, results)[i] == Mirrored(results[k], i + 1)
    ensures forall i, j :: 0 <= j < i < |Mirror(rows, results)| && |rows| <= i ==>
              Mirror(rows, results)[j].patientId != Mirror(rows, results)[i].patientId
    decreases |results|
  {
    if results != [] {
      var m1 := MirrorOne(rows, results[0]);
      var tail := results[1..];
      MirrorAppendsFresh(m1, tail);
      var m := Mirror(rows, results);
      assert m == Mirror(m1, tail);
      assert m[..|m1|] == m1;
      assert m1[..|rows|] == rows;
      assert m[..|rows|] == rows by {
        forall i | 0 <= i < |rows| ensures m[i] == rows[i] {
          assert m[i] == m[..|m1|][i] == m1[i];
        }
      }
      forall i | |rows| <= i < |m|
        ensures exists k :: 0 <= k < |results| && m[i] == Mirrored(results[k], i + 1)
      {
        if i < |m1| {
          assert m[i] == m[..|m1|][i] == m1[i];
          assert m1[i] == Mirrored(results[0], i + 1);
        } else {
          var k :| 0 <= k < |tail| && m[i] == Mirrored(tail[k], i + 1);
          assert tail[k] == results[k + 1];
        }
      }
      forall i, j | 0 <= j < i < |m| && |rows| <= i
        ensures m[j].patientId != m[i].patientId
      {
        if i < |m1| {
          assert i == |rows| && m1 == rows + [Mirrored(results[0], |rows| + 1)];
          assert m[i] == m[..|m1|][i] == m1[i];
          assert m[j] == m[..|rows|][j] == rows[j];
          assert !HasPatientId(rows, results[0].id);
        }
      }
    }
  }

  /** After the loop every id in the listing has a local row. */
  lemma {:induction false} MirrorCovers(rows: seq<Patient>, results: seq<RemotePatient>)
    ensures forall k :: 0 <= k < |results| ==> HasPatientId(Mirror(rows, results), results[k].id)
    decreases |results|
  {
    if results != [] {
      var m1 := MirrorOne(rows, results[0]);
      var tail := results[1..];
      var m := Mirror(rows, results);
      MirrorCovers(m1, tail);
      MirrorAppendsFresh(m1, tail);
      assert m == Mirror(m1, tail);
      forall k | 0 <= k < |results| ensures HasPatientId(m, results[k].id) {
        if k == 0 {
          var i :| 0 <= i < |m1| && m1[i].patientId == Some(results[0].id);
          assert m[i] == m[..|m1|][i] == m1[i];
        } else {
          assert tail[k - 1] == results[k];
        }
      }
    }
  }

  /** A listing whose ids are all present already inserts nothing. */
  lemma {:induction false} MirrorNoop(rows: seq<Patient>, results: seq<RemotePatient>)
    requires forall k :: 0 <= k < |results| ==> HasPatientId(rows, results[k].id)
    ensures Mirror(rows, results) == rows
    decreases |results|
  {
    if results != [] {
      assert MirrorOne(rows, results[0]) == rows;
      forall k | 0 <= k < |results[1..]| ensures HasPatientId(rows, results[1..][k].id) {
        assert results[1..][k] == results[k + 1];
      }
      MirrorNoop(rows, results[1..]);
    }
  }

  /** Running the mirror a second time over the same listing inserts nothing. */
  lemma MirrorIdempotent(rows: seq<Patient>, results: seq<RemotePatient>)
    ensures Mirror(Mirror(rows, results), results) == Mirror(rows, results)
  {
    MirrorCovers(rows, results);
    MirrorNoop(Mirror(rows, results), results);
  }

  /**
   * If remote ids were unique in the table, they still are: together with
   * MirrorCovers, exactly one row exists per remote id of the listing.
   */
  lemma MirrorKeepsUnique(rows: seq<Patient>, results: seq<RemotePatient>)
    requires UniquePatientIds(rows)
    ensures UniquePatientIds(Mirror(rows, results))
  {
    var m := Mirror(rows, results);
    MirrorAppendsFresh(rows, results);
    forall i, j | 0 <= i < j < |m| && m[i].patientId.Some?
      ensures m[i].patientId != m[j].patientId
    {
      if j < |rows| {
        assert m[i] == m[..|rows|][i] == rows[i];
        assert m[j] == m[..|rows|][j] == rows[j];
      }
    }
  }

  /** The mirror keeps primary keys equal to table positions. */
  lemma MirrorKeepsIds(rows: seq<Patient>, results: seq<RemotePatient>)
    requires ConsecutiveIds(rows)
    ensures ConsecutiveIds(Mirror(rows, results))
  {
    var m := Mirror(rows, results);
    MirrorAppendsFresh(rows, results);
    forall i | 0 <= i < |m| ensures m[i].id == i + 1 {
      if i < |rows| {
        assert m[i] == m[..|rows|][i] == rows[i];
      } else {
        var k :| 0 <= k < |results| && m[i] == Mirrored(results[k], i + 1);
      }
    }
  }

  function RemoteIdIs(id: int): RemotePatient -> bool
  {
    (r: RemotePatient) => r.id == id
  }

  /** Position of the first listing entry carrying the row's remote id, if any. */
  function ListedAt(results: seq<RemotePatient>, p: Patient): (r: Option<nat>)
    ensures r.Some? ==> r.value < |results| && p.patientId == Some(results[r.value].id)
    ensures r.Some? ==> forall j :: 0 <= j < r.value ==> p.patientId != Some(results[j].id)
  {
    if p.patientId.None? then None
    else FirstWhere(results, RemoteIdIs(p.patientId.value))
  }

  /** Dropping a listing head with another id moves every first position down by one. */
  lemma ListedAtTail(results: seq<RemotePatient>, p: Patient)
    requires results != [] && p.patientId != Some(results[0].id)
    requires ListedAt(results[1..], p).Some?
    ensures ListedAt(results, p) == Some(ListedAt(results[1..], p).value + 1)
  {
  }

  /** Rows the rest of the listing appends never carry the head entry's id. */
  lemma {:induction false} MirrorTailAvoidsHead(rows: seq<Patient>, results: seq<RemotePatient>)
    requires results != []
    ensures forall i :: |MirrorOne(rows, results[0])| <= i < |Mirror(rows, results)| ==>
              Mirror(rows, results)[i].patientId != Some(results[0].id)
  {
    var m1 := MirrorOne(rows, results[0]);
    var m := Mirror(rows, results);
    assert m == Mirror(m1, results[1..]);
    MirrorAppendsFresh(m1, results[1..]);
    var j0 :| 0 <= j0 < |m1| && m1[j0].patientId == Some(results[0].id);
    assert m[j0] == m[..|m1|][j0] == m1[j0];
  }

  /** A row the rest of the listing appends is listed one place later in the whole listing. */
  lemma AppendedLaterListed(rows: seq<Patient>, results: seq<RemotePatient>, i: nat)
    requires results != []
    requires |MirrorOne(rows, results[0])| <= i < |Mirror(rows, results)|
    requires ListedAt(results[1..], Mirror(rows, results)[i]).Some?
    ensures ListedAt(results, Mirror(rows, results)[i]) == Some(ListedAt(results[1..], Mirror(rows, results)[i]).value + 1)
  {
    MirrorTailAvoidsHead(rows, results);
    ListedAtTail(results, Mirror(rows, results)[i]);
  }

  /** When the listing head is inserted, its row is listed at position 0. */
  lemma HeadListedFirst(rows: seq<Patient>, results: seq<RemotePatient>)
    requires results != [] && |rows| < |MirrorOne(rows, results[0])|
    ensures Mirror(rows, results)[|rows|] == Mirrored(results[0], |rows| + 1)
    ensures ListedAt(results, Mirror(rows, results)[|rows|]) == Some(0)
  {
    var m1 := MirrorOne(rows, results[0]);
    var m := Mirror(rows, results);
    assert m == Mirror(m1, results[1..]);
    MirrorAppendsFresh(m1, results[1..]);
    assert m[|rows|] == m[..|m1|][|rows|] == m1[|rows|];
  }

  /**
   * Appended rows follow the listing: each is a copy of the FIRST listing
   * entry carrying its remote id (later duplicates are skipped).
   */
  lemma {:induction false} MirrorCopiesFirstListed(rows: seq<Patient>, results: seq<RemotePatient>)
    ensures forall i :: |rows| <= i < |Mirror(rows, results)| ==>
              ListedAt(results, Mirror(rows, results)[i]).Some? &&
              Mirror(rows, results)[i] == Mirrored(results[ListedAt(results, Mirror(rows, results)[i]).value], i + 1)
    decreases |results|
  {
    if results != [] {
      var m1 := MirrorOne(rows, results[0]);
      var tail := results[1..];
      var m := Mirror(rows, results);
      assert m == Mirror(m1, tail);
      MirrorCopiesFirstListed(m1, tail);
      if |rows| < |m1| {
        HeadListedFirst(rows, results);
      }
      forall i | |m1| <= i < |m|
        ensures ListedAt(results, m[i]).Some? && m[i] == Mirrored(results[ListedAt(results, m[i]).value], i + 1)
      {
        var k := ListedAt(tail, m[i]).value;
        AppendedLaterListed(rows, results, i);
        assert results[k + 1] == tail[k];
      }
    }
  }

  /** Both rows are listed, and `p`'s first listing entry comes before `q`'s. */
  predicate ListedBefore(results: seq<RemotePatient>, p: Patient, q: Patient)
  {
    ListedAt(results, p).Some? && ListedAt(results, q).Some? && ListedAt(results, p).value < ListedAt(results, q).value
  }

  /** Appended rows come in the order their first listing entries appear. */
  lemma {:induction false} MirrorAppendsInListingOrder(rows: seq<Patient>, results: seq<RemotePatient>)
    ensures forall i, j :: |rows| <= i < j < |Mirror(rows, results)| ==>
              ListedBefore(results, Mirror(rows, results)[i], Mirror(rows, results)[j])
    decreases |results|
  {
    if results != [] {
      var m1 := MirrorOne(rows, results[0]);
      var tail := results[1..];
      var m := Mirror(rows, results);
      assert m == Mirror(m1, tail);
      MirrorAppendsInListingOrder(m1, tail);
      MirrorCopiesFirstListed(m1, tail);
      forall i, j | |rows| <= i < j < |m|
        ensures ListedBefore(results, m[i], m[j])
      {
        assert j >= |m1|;
        AppendedLaterListed(rows, results, j);
        if i < |m1| {
          HeadListedFirst(rows, results);
          assert ListedAt(results, m[i]) == Some(0);
        } else {
          AppendedLaterListed(rows, results, i);
          assert ListedAt(tail, m[i]).value < ListedAt(tail, m[j]).value;
        }
      }
    }
  }
}
