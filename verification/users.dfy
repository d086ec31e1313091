/**
 * The users table: one row per account. A row is a value; the table is an object whose
 * rows the controllers replace or delete (what Eloquent's save() and delete() do).
 */
module Users {

  import opened Common

  /** A value of a stored preference, as the JSON column decodes it. */
  datatype PrefValue = PStr(s: string) | PBool(b: bool) | PInt(i: int) | PNull

  /**
   * The `preferences` column: null, a decoded JSON value that is not an array (a string,
   * a number), or an associative array.
   */
  datatype StoredPrefs = NoPrefs | NotArray | Assoc(entries: map<string, PrefValue>)

  /** A timestamp, in whatever unit the clock gives. */
  type Timestamp = int

  /**
   * A user row. `fields` holds the other profile attributes (name, phone, address,
   * job_title, location, bio), each nullable.
   */
  datatype User = User(
    id: nat,
    email: string,
    fields: map<string, Option<string>>,
    passwordHash: string,
    emailVerifiedAt: Option<Timestamp>,
    avatarPath: Option<string>,
    preferences: StoredPrefs)

  /** hasVerifiedEmail(): the verification timestamp is not null. */
  predicate HasVerifiedEmail(u: User) {
    u.emailVerifiedAt.Some?
  }

  /** The position of the first row whose id is `id` (findOrFail / find by primary key). */
  function FindById(rows: seq<User>, id: nat): (r: Option<nat>)
    ensures r.Some? ==> r.value < |rows| && rows[r.value].id == id
    ensures r.Some? ==> forall j :: 0 <= j < r.value ==> rows[j].id != id
    ensures r.None? <==> forall j :: 0 <= j < |rows| ==> rows[j].id != id
    decreases |rows|
  {
    if rows == [] then None
    else if rows[0].id == id then Some(0)
    else match FindById(rows[1..], id)
      case None => None
      case Some(k) => Some(k + 1)
  }

  /** The position of the first row whose email is `email` (where('email', ...)->first()). */
  function FindByEmail(rows: seq<User>, email: string): (r: Option<nat>)
    ensures r.Some? ==> r.value < |rows| && rows[r.value].email == email
    ensures r.Some? ==> forall j :: 0 <= j < r.value ==> rows[j].email != email
    ensures r.None? <==> forall j :: 0 <= j < |rows| ==> rows[j].email != email
    decreases |rows|
  {
    if rows == [] then None
    else if rows[0].email == email then Some(0)
    else match FindByEmail(rows[1..], email)
      case None => None
      case Some(k) => Some(k + 1)
  }

  /** Primary keys are unique. */
  ghost predicate UniqueIds(rows: seq<User>) {
    forall i, j :: 0 <= i < j < |rows| ==> rows[i].id != rows[j].id
  }

  /** Removes the row at position k. */
  function RemoveAt(rows: seq<User>, k: nat): (r: seq<User>)
    requires k < |rows|
    ensures |r| == |rows| - 1
    ensures forall j :: 0 <= j < k ==> r[j] == rows[j]
    ensures forall j :: k <= j < |r| ==> r[j] == rows[j + 1]
  {
    rows[..k] + rows[k + 1..]
  }

  /** Removing the row found for id leaves no row with that id and keeps every other row. */
  lemma RemoveFound(rows: seq<User>, id: nat, k: nat)
    requires UniqueIds(rows)
    requires FindById(rows, id) == Some(k)
    ensures UniqueIds(RemoveAt(rows, k))
    ensures FindById(RemoveAt(rows, k), id).None?
    ensures forall u :: u in RemoveAt(rows, k) <==> u in rows && u.id != id
  {
    var r := RemoveAt(rows, k);
    forall u ensures u in r <==> u in rows && u.id != id {
      if u in r {
        var j :| 0 <= j < |r| && r[j] == u;
        if j < k { assert rows[j] == u; } else { assert rows[j + 1] == u; }
      }
      if u in rows && u.id != id {
        var j :| 0 <= j < |rows| && rows[j] == u;
        if j < k { assert r[j] == u; } else { assert j != k; assert r[j - 1] == u; }
      }
    }
  }

  /** The users table. */
  class UserTable {
    var rows: seq<User>

    ghost predicate Valid()
      reads this
    {
      UniqueIds(rows)
    }

    constructor (initial: seq<User>)
      requires UniqueIds(initial)
      ensures Valid() && rows == initial
    {
      rows := initial;
    }

    /** save() of a row that keeps its primary key. */
    method Save(k: nat, u: User)
      requires Valid() && k < |rows| && rows[k].id == u.id
      modifies this
      ensures Valid()
      ensures rows == old(rows)[k := u]
    {
      rows := rows[k := u];
    }

    /** delete() of the row at position k. */
    method Delete(k: nat)
      requires Valid() && k < |rows|
      modifies this
      ensures Valid()
      ensures rows == RemoveAt(old(rows), k)
    {
      rows := RemoveAt(rows, k);
    }
  }
}
