/** The identity resolver of `src/config/passport.ts`: the Google strategy's
    verify callback finds the local user of a Google account or creates
    one, and the session keeps only the user's id, which
    `deserializeUser` turns back into the user. The `users` table is a
    sequence of rows in insertion order. */
module Identity {
  import opened Outcomes

  /** One row of `users`; `name` and `picture` are nullable columns. */
  datatype User = User(
    id: string,
    googleId: string,
    email: string,
    name: Option<string>,
    picture: Option<string>,
    createdAt: string)

  /** The parts of a Google profile the callback reads: the account id,
      the `value` of each listed email and photo (absent when the entry
      has none; an absent list is an empty one), and the display name. */
  datatype Profile = Profile(
    id: string,
    emails: seq<Option<string>>,
    displayName: Option<string>,
    photos: seq<Option<string>>)

  /** The user object handed to Passport and kept in `req.user`. */
  datatype SessionUser = SessionUser(
    id: string,
    email: string,
    name: Option<string>,
    picture: Option<string>)

  /** `done(null, user)` or `done(err)`. */
  datatype AuthOutcome = Authenticated(user: SessionUser) | AuthError

  /** What `deserializeUser` hands to `done`: the user, `done(null, false)`
      for an id without a row, `done(err)`, or an exception thrown from
      the store callback. */
  datatype DeserializeOutcome = Restored(user: SessionUser) | NoUser | DeserializeError | Throws

  // ---------------------------------------------------------------------
  // Reading the profile

  /** `x || ''` for an optional string. */
  function OrEmpty(s: Option<string>): (r: string)
    ensures s.None? ==> r == ""
    ensures s.Some? ==> r == s.value
  {
    if s.Some? then s.value else ""
  }

  /** `list?.[0]?.value || ''`: the first entry's value, or `''` when the
      list is empty or its first entry has no value. */
  function FirstValue(values: seq<Option<string>>): (r: string)
    ensures (values == [] || values[0].None?) ==> r == ""
    ensures values != [] && values[0].Some? ==> r == values[0].value
  {
    if values == [] then "" else OrEmpty(values[0])
  }

  function ProfileEmail(p: Profile): string { FirstValue(p.emails) }
  function ProfileName(p: Profile): string { OrEmpty(p.displayName) }
  function ProfilePicture(p: Profile): string { FirstValue(p.photos) }

  /** A profile without email, display name or photo yields empty strings. */
  lemma MissingProfileFieldsAreEmpty(p: Profile)
    requires p.emails == [] && p.displayName.None? && p.photos == []
    ensures ProfileEmail(p) == "" && ProfileName(p) == "" && ProfilePicture(p) == ""
  {
  }

  // ---------------------------------------------------------------------
  // Table invariant and lookups

  /** `id TEXT PRIMARY KEY`. */
  ghost predicate UniqueIds(rows: seq<User>)
  {
    forall i, j :: 0 <= i < j < |rows| ==> rows[i].id != rows[j].id
  }

  /** `google_id TEXT UNIQUE`. */
  ghost predicate UniqueGoogleIds(rows: seq<User>)
  {
    forall i, j :: 0 <= i < j < |rows| ==> rows[i].googleId != rows[j].googleId
  }

  ghost predicate UsersInvariant(rows: seq<User>)
  {
    UniqueIds(rows) && UniqueGoogleIds(rows)
  }

  /** `SELECT * FROM users WHERE google_id = ?`: the first matching row. */
  function FindByGoogleId(rows: seq<User>, googleId: string): (r: Option<nat>)
    ensures r.Some? ==> r.value < |rows| && rows[r.value].googleId == googleId
    ensures r.None? ==> forall u :: u in rows ==> u.googleId != googleId
  {
    if rows == [] then None
    else if rows[0].googleId == googleId then Some(0)
    else match FindByGoogleId(rows[1..], googleId)
      case None => None
      case Some(i) => Some(i + 1)
  }

  /** `SELECT * FROM users WHERE id = ?`: the first matching row. */
  function FindById(rows: seq<User>, id: string): (r: Option<nat>)
    ensures r.Some? ==> r.value < |rows| && rows[r.value].id == id
    ensures r.Some? ==> forall k :: 0 <= k < r.value ==> rows[k].id != id
    ensures r.None? ==> forall u :: u in rows ==> u.id != id
  {
    if rows == [] then None
    else if rows[0].id == id then Some(0)
    else match FindById(rows[1..], id)
      case None => None
      case Some(i) => Some(i + 1)
  }

  /** The number of rows for one Google account. */
  function CountGoogleId(rows: seq<User>, googleId: string): (n: nat)
    ensures n <= |rows|
    ensures n == 0 <==> forall u :: u in rows ==> u.googleId != googleId
  {
    if rows == [] then 0
    else (if rows[0].googleId == googleId then 1 else 0) + CountGoogleId(rows[1..], googleId)
  }

  /** Under `google_id UNIQUE` an account has one row if it is found and
      none otherwise. */
  lemma {:induction false} CountUniqueGoogleId(rows: seq<User>, googleId: string)
    requires UniqueGoogleIds(rows)
    ensures CountGoogleId(rows, googleId) == if FindByGoogleId(rows, googleId).Some? then 1 else 0
  {
    if rows != [] {
      var tail := rows[1..];
      assert UniqueGoogleIds(tail) by {
        forall i, j | 0 <= i < j < |tail| ensures tail[i].googleId != tail[j].googleId {
          assert tail[i] == rows[i + 1] && tail[j] == rows[j + 1];
        }
      }
      CountUniqueGoogleId(tail, googleId);
      if rows[0].googleId == googleId {
        forall u | u in tail ensures u.googleId != googleId {
          var j :| 0 <= j < |tail| && tail[j] == u;
          assert rows[j + 1] == u;
        }
        CountAbsent(tail, googleId);
      }
    }
  }

  /** An account without rows counts zero. */
  lemma {:induction false} CountAbsent(rows: seq<User>, googleId: string)
    requires forall u :: u in rows ==> u.googleId != googleId
    ensures CountGoogleId(rows, googleId) == 0
  {
    if rows != [] {
      assert rows[0] in rows;
      CountAbsent(rows[1..], googleId);
    }
  }

  // ---------------------------------------------------------------------
  // Sessions

  /** The fields of a row that the callback and `deserializeUser` return. */
  function SessionOf(u: User): (s: SessionUser)
    ensures s.id == u.id && s.email == u.email && s.name == u.name && s.picture == u.picture
  {
    SessionUser(u.id, u.email, u.name, u.picture)
  }

  /** `serializeUser`: the session keeps only the id. */
  function SerializeUser(user: SessionUser): (id: string)
    ensures id == user.id
  {
    user.id
  }

  /** `deserializeUser` as written: a lookup error goes to `done(err)`; an
      id without a row makes `row.id` read a property of `undefined`, which
      throws inside the store callback. */
  function DeserializeAsWritten(rows: seq<User>, id: string, readFails: bool): (r: DeserializeOutcome)
    ensures readFails ==> r == DeserializeError
    ensures !readFails && FindById(rows, id).None? ==> r == Throws
    ensures !readFails && FindById(rows, id).Some? ==> r == Restored(SessionOf(rows[FindById(rows, id).value]))
  {
    if readFails then DeserializeError
    else match FindById(rows, id)
      case None => Throws
      case Some(i) => Restored(SessionOf(rows[i]))
  }

  /** `deserializeUser` with the missing row reported as `done(null, false)`,
      which ends the session instead of throwing. */
  function Deserialize(rows: seq<User>, id: string, readFails: bool): (r: DeserializeOutcome)
    ensures r != Throws
    ensures readFails ==> r == DeserializeError
    ensures !readFails && (forall u :: u in rows ==> u.id != id) ==> r == NoUser
    ensures !readFails && FindById(rows, id).Some? ==> r == Restored(SessionOf(rows[FindById(rows, id).value]))
  {
    if readFails then DeserializeError
    else match FindById(rows, id)
      case None => NoUser
      case Some(i) => Restored(SessionOf(rows[i]))
  }

  /** The as-written lookup throws on an id that has no row, where the
      corrected one ends the session. */
  lemma DeserializeMissingRow(rows: seq<User>, id: string)
    requires forall u :: u in rows ==> u.id != id
    ensures DeserializeAsWritten(rows, id, false) == Throws
    ensures Deserialize(rows, id, false) == NoUser
  {
  }

  /** Both agree whenever the id has a row. */
  lemma DeserializeAgreesOnStoredIds(rows: seq<User>, id: string, readFails: bool)
    requires readFails || FindById(rows, id).Some?
    ensures DeserializeAsWritten(rows, id, readFails) == Deserialize(rows, id, readFails)
  {
  }

  /** Serializing the session user of a stored row and deserializing the
      id gives back that user: the id round-trips because ids are unique. */
  lemma SessionRoundTrip(rows: seq<User>, u: User)
    requires UniqueIds(rows) && u in rows
    ensures Deserialize(rows, SerializeUser(SessionOf(u)), false) == Restored(SessionOf(u))
  {
    var found := FindById(rows, u.id);
    var k :| 0 <= k < |rows| && rows[k] == u;
    if found.Some? {
      var i := found.value;
      assert !(i < k) && !(k < i);
    }
  }

  // ---------------------------------------------------------------------
  // The verify callback

  /** The row created for a new account: the profile values with `''`
      for what is missing. */
  function NewUser(id: string, p: Profile, createdAt: string): (u: User)
    ensures u.id == id && u.googleId == p.id
    ensures u.email == ProfileEmail(p)
    ensures u.name == Some(ProfileName(p)) && u.picture == Some(ProfilePicture(p))
  {
    User(id, p.id, ProfileEmail(p), Some(ProfileName(p)), Some(ProfilePicture(p)), createdAt)
  }

  class UserTable {
    var rows: seq<User>

    ghost predicate Valid()
      reads this
    {
      UsersInvariant(rows)
    }

    constructor ()
      ensures Valid() && rows == []
    {
      rows := [];
    }

    /** The Google strategy's verify callback: a known account returns its
        stored fields and writes nothing (the profile does not refresh
        them); an unknown one gets exactly one new row with the fresh id,
        and the callback echoes the values it inserted. */
    method Authenticate(profile: Profile, freshId: string, createdAt: string, faults: StoreFaults)
      returns (r: AuthOutcome)
      requires Valid()
      requires forall u :: u in rows ==> u.id != freshId
      modifies this
      ensures Valid()
      ensures faults.read ==> r == AuthError && rows == old(rows)
      ensures !faults.read && FindByGoogleId(old(rows), profile.id).Some? ==>
        var i := FindByGoogleId(old(rows), profile.id).value;
        r == Authenticated(SessionOf(old(rows)[i])) && rows == old(rows)
      ensures !faults.read && FindByGoogleId(old(rows), profile.id).None? ==>
        if faults.write then r == AuthError && rows == old(rows)
        else
          && rows == old(rows) + [NewUser(freshId, profile, createdAt)]
          && r == Authenticated(SessionUser(freshId, ProfileEmail(profile),
                                            Some(ProfileName(profile)), Some(ProfilePicture(profile))))
      ensures r.Authenticated? ==> Deserialize(rows, SerializeUser(r.user), false) == Restored(r.user)
    {
      if faults.read {
        return AuthError;
      }
      var found := FindByGoogleId(rows, profile.id);
      if found.Some? {
        SessionRoundTrip(rows, rows[found.value]);
        return Authenticated(SessionOf(rows[found.value]));
      }
      if faults.write {
        return AuthError;
      }
      var u := NewUser(freshId, profile, createdAt);
      rows := rows + [u];
      assert Valid() by {
        forall i, j | 0 <= i < j < |rows| ensures rows[i].id != rows[j].id && rows[i].googleId != rows[j].googleId {
          if j == |rows| - 1 { assert rows[i] in old(rows); }
        }
      }
      SessionRoundTrip(rows, u);
      r := Authenticated(SessionUser(freshId, u.email, u.name, u.picture));
    }
  }

  /** Logging in twice with one Google account yields one local user id and
      leaves exactly one row for the account. */
  method LoginTwice(t: UserTable, profile: Profile, id1: string, id2: string,
                    createdAt1: string, createdAt2: string)
    returns (r1: AuthOutcome, r2: AuthOutcome)
    requires t.Valid() && id1 != id2
    requires forall u :: u in t.rows ==> u.id != id1 && u.id != id2
    modifies t
    ensures r1.Authenticated? && r2.Authenticated?
    ensures r1.user.id == r2.user.id
    ensures CountGoogleId(t.rows, profile.id) == 1
    ensures |t.rows| <= |old(t.rows)| + 1
  {
    var healthy := StoreFaults(false, false, false);
    ghost var before := t.rows;
    r1 := t.Authenticate(profile, id1, createdAt1, healthy);
    if FindByGoogleId(before, profile.id).None? {
      var last := t.rows[|t.rows| - 1];
      assert last in t.rows && last.googleId == profile.id;
    }
    assert FindByGoogleId(t.rows, profile.id).Some?;
    r2 := t.Authenticate(profile, id2, createdAt2, healthy);
    CountUniqueGoogleId(t.rows, profile.id);
  }
}
