/**
 * The user table and registration: an email may be registered once, and the
 * password is stored only as its hash.
 */
module Users {
  import opened Wrappers
  import opened Tables
  import Roles
  import opened Errors

  datatype User = User(id: nat, email: string, password: string, role: Roles.Role)

  function HasEmail(email: string): User -> bool {
    (u: User) => u.email == email
  }

  /** `get_one_or_none(User.email == email)`: the user with that email, if any. */
  function FindByEmail(users: seq<User>, email: string): (r: Option<User>)
    ensures r.Some? ==> r.value in users && r.value.email == email
    ensures r.None? <==> forall i :: 0 <= i < |users| ==> users[i].email != email
  {
    if |users| == 0 then None
    else if users[0].email == email then Some(users[0])
    else FindByEmail(users[1..], email)
  }

  /** `get(item_id=id)`: the user with that primary key, if any. */
  function FindById(users: seq<User>, id: nat): (r: Option<User>)
    ensures r.Some? ==> r.value in users && r.value.id == id
    ensures r.None? <==> forall i :: 0 <= i < |users| ==> users[i].id != id
  {
    if |users| == 0 then None
    else if users[0].id == id then Some(users[0])
    else FindById(users[1..], id)
  }

  /** The unique constraint on `email`. */
  predicate UniqueEmails(users: seq<User>) {
    forall i, j :: 0 <= i < j < |users| ==> users[i].email != users[j].email
  }

  predicate UniqueUserIds(users: seq<User>) {
    forall i, j :: 0 <= i < j < |users| ==> users[i].id != users[j].id
  }

  /**
   * Appending a user whose email was not yet taken makes exactly one user
   * carry that email, and a lookup by it finds the new user.
   */
  lemma RegisteredEmailFoundOnce(users: seq<User>, u: User)
    requires FindByEmail(users, u.email).None?
    ensures |Filter(users + [u], HasEmail(u.email))| == 1
    ensures FindByEmail(users + [u], u.email) == Some(u)
  {
    var p := HasEmail(u.email);
    FilterDropsAll(users, p);
    FilterAppend(users, [u], p);
    assert Filter([u], p) == [u];
    FindAppended(users, u);
  }

  lemma {:induction false} FindAppended(users: seq<User>, u: User)
    requires FindByEmail(users, u.email).None?
    ensures FindByEmail(users + [u], u.email) == Some(u)
  {
    if |users| > 0 {
      assert (users + [u])[1..] == users[1..] + [u];
      FindAppended(users[1..], u);
    } else {
      assert users + [u] == [u];
    }
  }

  /** Appending a user with a fresh id and a free email keeps both keys unique. */
  lemma AppendKeepsKeys(users: seq<User>, nextId: nat, u: User)
    requires UniqueUserIds(users) && UniqueEmails(users) && forall x :: x in users ==> x.id < nextId
    requires u.id == nextId && FindByEmail(users, u.email).None?
    ensures UniqueUserIds(users + [u]) && UniqueEmails(users + [u])
    ensures forall x :: x in users + [u] ==> x.id < nextId + 1
  {
    var all := users + [u];
    forall i, j | 0 <= i < j < |all| ensures all[i].id != all[j].id && all[i].email != all[j].email {
      if j == |users| {
        assert all[i] == users[i] && all[i] in users;
      } else {
        assert all[i] == users[i] && all[j] == users[j];
      }
    }
  }

  /** The registration payload; `register_user` overwrites its password. */
  class UserCreateRequest {
    var email: string
    var password: string
    var role: Roles.Role

    constructor (email: string, password: string, role: Roles.Role)
      ensures this.email == email && this.password == password && this.role == role
    {
      this.email := email;
      this.password := password;
      this.role := role;
    }
  }

  /** The user service over the user table. */
  class UserService {
    var rows: seq<User>
    var nextId: nat

    ghost predicate Valid()
      reads this
    {
      UniqueUserIds(rows) && UniqueEmails(rows) && forall u :: u in rows ==> u.id < nextId
    }

    constructor ()
      ensures Valid() && rows == [] && nextId == 0
    {
      rows := [];
      nextId := 0;
    }

    /**
     * `register_user`: refuse an email that is already registered; otherwise
     * replace the request's password by its hash and insert the user.
     */
    method RegisterUser(data: UserCreateRequest, hash: string -> string) returns (r: Result<User, AppError>)
      requires Valid()
      modifies this, data`password
      ensures Valid()
      ensures FindByEmail(old(rows), data.email).Some? ==>
                && r == Failure(Raise(UserAlreadyExistsByEmail, Some("User already exists.")))
                && rows == old(rows) && nextId == old(nextId)
                && data.password == old(data.password)
      ensures FindByEmail(old(rows), data.email).None? ==>
                && data.password == hash(old(data.password))
                && r == Success(User(old(nextId), data.email, data.password, data.role))
                && rows == old(rows) + [r.value] && nextId == old(nextId) + 1
                && FindByEmail(rows, data.email) == Some(r.value)
                && |Filter(rows, HasEmail(data.email))| == 1
    {
      var existingUserByEmail := FindByEmail(rows, data.email);
      if existingUserByEmail.Some? {
        return Failure(Raise(UserAlreadyExistsByEmail, Some("User already exists.")));
      }
      var hashedPassword := hash(data.password);
      data.password := hashedPassword;
      var newUser := User(nextId, data.email, data.password, data.role);
      RegisteredEmailFoundOnce(rows, newUser);
      AppendKeepsKeys(rows, nextId, newUser);
      rows := rows + [newUser];
      nextId := nextId + 1;
      return Success(newUser);
    }
  }
}
