/**
 * The token upsert after the OAuth code exchange: the Doctor row is looked
 * up by the requesting user; when there is none, one is created (owned, as
 * the view writes it, by user 1); an existing row has its three token fields
 * overwritten if its stored token is judged stale, and is otherwise left alone.
 */
module TokenStore {
  import opened Wrappers
  import opened Query
  import opened Models

  /** The exchange's outcome: both tokens and the absolute expiry (now + expires_in). */
  datatype Tokens = Tokens(accessToken: string, refreshToken: string, expiresTimestamp: int)

  /** The owner the source writes on every Doctor it creates. */
  const PlaceholderUser: int := 1

  function UserIs(user: int): Doctor -> bool
  {
    (d: Doctor) => d.user == user
  }

  /** A new Doctor: placeholder name John Smith, the given owner, the new tokens. */
  function NewDoctor(owner: int, t: Tokens): Doctor
  {
    Doctor(owner, "John", "Smith", t.accessToken, t.refreshToken, t.expiresTimestamp)
  }

  /** Only the three token fields are overwritten. */
  function Refreshed(d: Doctor, t: Tokens): Doctor
  {
    d.(accessToken := t.accessToken, refreshToken := t.refreshToken, expiresTimestamp := t.expiresTimestamp)
  }

  /** Same account: owner and name agree (token fields may differ). */
  predicate SameAccount(a: Doctor, b: Doctor)
  {
    a.user == b.user && a.firstName == b.firstName && a.lastName == b.lastName
  }

  /**
   * `Doctor.objects.get(user=user)` followed by the upsert; a new row is
   * owned by `newOwner`. `stale` is the source's freshness test on the stored
   * expiry.
   */
  function Upsert(doctors: seq<Doctor>, user: int, newOwner: int, t: Tokens, stale: int -> bool)
    : (r: Result<seq<Doctor>>)
    ensures r.Err? <==> exists i, j :: 0 <= i < j < |doctors| && doctors[i].user == user && doctors[j].user == user
    ensures r.Err? ==> r.error == MultipleObjectsReturned
    ensures (forall i :: 0 <= i < |doctors| ==> doctors[i].user != user) ==>
              r == Ok(doctors + [NewDoctor(newOwner, t)])
    ensures forall i :: 0 <= i < |doctors| && doctors[i].user == user && r.Ok? ==>
              r.value == (if stale(doctors[i].expiresTimestamp) then doctors[i := Refreshed(doctors[i], t)] else doctors)
    ensures r.Ok? ==> |doctors| <= |r.value| <= |doctors| + 1
    ensures r.Ok? ==> forall i :: 0 <= i < |doctors| ==> SameAccount(r.value[i], doctors[i])
  {
    match GetWhere(doctors, UserIs(user))
    case Err(DoesNotExist) => Ok(doctors + [NewDoctor(newOwner, t)])
    case Err(e) => Err(e)
    case Ok(i) =>
      if stale(doctors[i].expiresTimestamp) then Ok(doctors[i := Refreshed(doctors[i], t)]) else Ok(doctors)
  }

  /** The upsert as the login view writes it: new rows always belong to user 1. */
  function TokenUpsert(doctors: seq<Doctor>, user: int, t: Tokens, stale: int -> bool): (r: Result<seq<Doctor>>)
    ensures r.Ok? ==> forall i :: |doctors| <= i < |r.value| ==> r.value[i].user == PlaceholderUser
    ensures r.Ok? && |r.value| > |doctors| ==> forall i :: 0 <= i < |doctors| ==> doctors[i].user != user
  {
    Upsert(doctors, user, PlaceholderUser, t, stale)
  }

  /** The upsert with the new row owned by the requesting user. */
  function TokenUpsertFixed(doctors: seq<Doctor>, user: int, t: Tokens, stale: int -> bool): (r: Result<seq<Doctor>>)
    ensures r.Ok? ==> forall i :: |doctors| <= i < |r.value| ==> r.value[i].user == user
    ensures r.Ok? && |r.value| > |doctors| ==> forall i :: 0 <= i < |doctors| ==> doctors[i].user != user
  {
    Upsert(doctors, user, user, t, stale)
  }

  /** At most one Doctor per local user. */
  ghost predicate OneAccountPerUser(doctors: seq<Doctor>)
  {
    forall i, j :: 0 <= i < j < |doctors| ==> doctors[i].user != doctors[j].user
  }

  /**
   * As written, a user other than 1 never finds the row the login created:
   * two logins by user 2 leave two Doctors owned by user 1, and user 1's next
   * login then fails with MultipleObjectsReturned.
   */
  lemma PlaceholderOwnerDuplicates(t: Tokens, stale: int -> bool)
    ensures TokenUpsert([], 2, t, stale) == Ok([NewDoctor(1, t)])
    ensures TokenUpsert([NewDoctor(1, t)], 2, t, stale) == Ok([NewDoctor(1, t), NewDoctor(1, t)])
    ensures !OneAccountPerUser([NewDoctor(1, t), NewDoctor(1, t)])
    ensures TokenUpsert([NewDoctor(1, t), NewDoctor(1, t)], 1, t, stale) == Err(MultipleObjectsReturned)
  {
    var none: seq<Doctor> := [];
    var one := [NewDoctor(1, t)];
    assert none + [NewDoctor(1, t)] == one;
    assert one[0].user != 2;
    var two := [NewDoctor(1, t), NewDoctor(1, t)];
    assert one + [NewDoctor(1, t)] == two;
    assert two[0].user == 1 && two[1].user == 1;
  }

  /**
   * With the requesting user as owner, the upsert keeps one account per user,
   * never fails on a table that has it, and leaves exactly one row for that user.
   */
  lemma FixedKeepsOneAccountPerUser(doctors: seq<Doctor>, user: int, t: Tokens, stale: int -> bool)
    requires OneAccountPerUser(doctors)
    ensures TokenUpsertFixed(doctors, user, t, stale).Ok?
    ensures OneAccountPerUser(TokenUpsertFixed(doctors, user, t, stale).value)
    ensures GetWhere(TokenUpsertFixed(doctors, user, t, stale).value, UserIs(user)).Ok?
  {
    var r := TokenUpsertFixed(doctors, user, t, stale).value;
    if forall i :: 0 <= i < |doctors| ==> doctors[i].user != user {
      assert r == doctors + [NewDoctor(user, t)];
      assert r[|doctors|].user == user;
    } else {
      var i :| 0 <= i < |doctors| && doctors[i].user == user;
      assert forall j :: 0 <= j < |doctors| ==> r[j].user == doctors[j].user;
      assert r[i].user == user;
    }
  }
}
