/**
 * `UserService`: the registry of users, a dictionary from id to user that it owns
 * and updates in place. Registration keeps e-mails and usernames unique.
 */
module Registry {
  import opened Wrappers
  import opened Text
  import opened Ordered
  import opened Models
  import Validation

  /** `u` already holds the normalised e-mail or the normalised username. */
  predicate Clashes(u: User, email: string, username: string) {
    u.email == email || u.username == username
  }

  /** `i` is the first stored user that clashes. */
  predicate FirstClashAt(stored: seq<User>, i: int, email: string, username: string) {
    0 <= i < |stored| && Clashes(stored[i], email, username)
    && forall j :: 0 <= j < i ==> !Clashes(stored[j], email, username)
  }

  /** The scan of `register_user` over the stored users, in order: the first user
      that clashes decides, and for that user the e-mail is compared before the
      username. */
  function FirstConflict(stored: seq<User>, email: string, username: string): (r: Option<Error>)
    ensures r.None? <==> forall i :: 0 <= i < |stored| ==> !Clashes(stored[i], email, username)
    ensures r.Some? ==> exists i :: FirstClashAt(stored, i, email, username)
                          && r.value == (if stored[i].email == email then EmailTaken else UsernameTaken)
  {
    if stored == [] then None
    else if stored[0].email == email then
      assert FirstClashAt(stored, 0, email, username);
      Some(EmailTaken)
    else if stored[0].username == username then
      assert FirstClashAt(stored, 0, email, username);
      Some(UsernameTaken)
    else
      var r := FirstConflict(stored[1..], email, username);
      if r.Some? then
        var i :| FirstClashAt(stored[1..], i, email, username)
                 && r.value == (if stored[1..][i].email == email then EmailTaken else UsernameTaken);
        assert FirstClashAt(stored, i + 1, email, username);
        r
      else
        r
  }

  /** The first clashing user alone decides the scan's outcome. */
  lemma FirstClashDecides(stored: seq<User>, i: int, email: string, username: string)
    requires FirstClashAt(stored, i, email, username)
    ensures FirstConflict(stored, email, username)
            == Some(if stored[i].email == email then EmailTaken else UsernameTaken)
  {
    var r := FirstConflict(stored, email, username);
    var j :| FirstClashAt(stored, j, email, username)
             && r.value == (if stored[j].email == email then EmailTaken else UsernameTaken);
    assert !(j < i) && !(i < j);
  }

  /** The loop of `register_user` over the stored users: stops at the first user
      holding the e-mail (reported first) or the username. */
  method FindConflict(stored: seq<User>, email: string, username: string) returns (r: Option<Error>)
    ensures r == FirstConflict(stored, email, username)
  {
    for i := 0 to |stored|
      invariant forall j :: 0 <= j < i ==> !Clashes(stored[j], email, username)
    {
      if stored[i].email == email {
        FirstClashDecides(stored, i, email, username);
        return Some(EmailTaken);
      }
      if stored[i].username == username {
        FirstClashDecides(stored, i, email, username);
        return Some(UsernameTaken);
      }
    }
    return None;
  }

  /** `register_user` on the users stored so far, as a function: the e-mail
      pattern first, then the scan, then `User` construction. */
  function Register(stored: seq<User>, username: string, email: string, id: string, createdAt: int): (r: Result<User, Error>)
    ensures !Validation.ValidateEmail(email) ==> r == Failure(InvalidEmail)
    ensures r.Success? ==> WellFormedUser(r.value) && r.value.id == id
                           && r.value.username == Strip(username) && r.value.email == Lower(Strip(email))
    ensures r.Success? ==> forall i :: 0 <= i < |stored| ==>
                             stored[i].email != r.value.email && stored[i].username != r.value.username
    ensures r.Failure? ==> r.error in {InvalidEmail, EmailTaken, UsernameTaken, BlankUsername}
    ensures r == Failure(InvalidEmail) ==> !Validation.ValidateEmail(email)
    ensures Validation.ValidateEmail(email) && FirstConflict(stored, Lower(Strip(email)), Strip(username)).Some? ==>
              r == Failure(FirstConflict(stored, Lower(Strip(email)), Strip(username)).value)
    ensures r == Failure(EmailTaken) ==>
              exists i :: 0 <= i < |stored| && stored[i].email == Lower(Strip(email))
    ensures r == Failure(UsernameTaken) ==>
              exists i :: 0 <= i < |stored| && stored[i].username == Strip(username)
    ensures r == Failure(BlankUsername) ==> AllSpace(username)
    ensures Validation.ValidateEmail(email) && !AllSpace(username)
            && (forall i :: 0 <= i < |stored| ==> !Clashes(stored[i], Lower(Strip(email)), Strip(username)))
            ==> r.Success?
  {
    if !Validation.ValidateEmail(email) then Failure(InvalidEmail)
    else
      var conflict := FirstConflict(stored, Lower(Strip(email)), Strip(username));
      if conflict.Some? then Failure(conflict.value)
      else NewUser(username, email, id, createdAt)
  }

  /** Once a user is stored, registering its e-mail or its username again fails;
      when it is the only user, the e-mail is reported before the username. */
  lemma DuplicateRegistrationFails(stored: seq<User>, u: User, username: string, email: string,
                                   id: string, createdAt: int)
    requires Validation.ValidateEmail(email)
    requires Clashes(u, Lower(Strip(email)), Strip(username))
    ensures Register(stored + [u], username, email, id, createdAt).Failure?
    ensures Register([u], username, email, id, createdAt)
            == Failure(if u.email == Lower(Strip(email)) then EmailTaken else UsernameTaken)
  {
    assert (stored + [u])[|stored|] == u;
  }

  /** The scan is one pass with the e-mail tested before the username per user,
      not a pass over all e-mails followed by a pass over all usernames: when an
      earlier user holds the username and a later one the e-mail, the username
      is reported. */
  lemma EarlierUsernameClashWins(stored: seq<User>, i: int, k: int, username: string, email: string,
                                 id: string, createdAt: int)
    requires Validation.ValidateEmail(email)
    requires 0 <= i < k < |stored|
    requires FirstClashAt(stored, i, Lower(Strip(email)), Strip(username))
    requires stored[i].email != Lower(Strip(email)) && stored[k].email == Lower(Strip(email))
    ensures Register(stored, username, email, id, createdAt) == Failure(UsernameTaken)
  {
    FirstClashDecides(stored, i, Lower(Strip(email)), Strip(username));
  }

  /** The registry's invariant: every user is stored under its own id, is well
      formed, and no two users share an e-mail or a username. */
  ghost predicate RegistryInvariant(order: seq<string>, users: map<string, User>) {
    && KeysInOrder(order, users)
    && (forall id :: id in users ==> users[id].id == id && WellFormedUser(users[id]))
    && (forall a, b :: a in users && b in users && a != b ==>
          users[a].email != users[b].email && users[a].username != users[b].username)
  }

  /** Adding a well-formed user under a new id, when no stored user clashes with
      it, keeps the invariant. */
  lemma AddingUserKeepsInvariant(order: seq<string>, users: map<string, User>, u: User)
    requires RegistryInvariant(order, users)
    requires u.id !in users && WellFormedUser(u)
    requires forall i :: 0 <= i < |order| ==> !Clashes(users[order[i]], u.email, u.username)
    ensures RegistryInvariant(order + [u.id], users[u.id := u])
  {
    forall k | k in users ensures !Clashes(users[k], u.email, u.username) {
      var i :| 0 <= i < |order| && order[i] == k;
    }
    var order', users' := order + [u.id], users[u.id := u];
    forall i, j | 0 <= i < j < |order'| ensures order'[i] != order'[j] {
      if j == |order| {
        assert order'[i] == order[i] && order[i] in users;
      }
    }
  }

  class UserService {
    /** `_users` */
    var users: map<string, User>
    /** The keys of `_users` in insertion order. */
    var order: seq<string>

    ghost predicate Valid()
      reads this
    {
      RegistryInvariant(order, users)
    }

    constructor ()
      ensures Valid() && users == map[] && order == []
    {
      users := map[];
      order := [];
    }

    /** `self._users.values()` in insertion order. */
    function Stored(): (us: seq<User>)
      reads this
      requires Valid()
      ensures |us| == |order| && forall i :: 0 <= i < |order| ==> us[i] == users[order[i]]
    {
      ValuesInOrder(order, users)
    }

    /** `register_user`, with the id and creation time supplied by the caller;
        the id must not be in use. The outcome is `Register` on the stored users;
        on success the user is added (at the end of the iteration order), on
        failure nothing changes. */
    method RegisterUser(username: string, email: string, id: string, createdAt: int)
      returns (r: Result<User, Error>)
      requires Valid() && id !in users
      modifies this
      ensures Valid()
      ensures r == Register(old(Stored()), username, email, id, createdAt)
      ensures r.Success? ==> users == old(users)[id := r.value] && order == old(order) + [id]
      ensures r.Failure? ==> users == old(users) && order == old(order)
    {
      if !Validation.ValidateEmail(email) {
        return Failure(InvalidEmail);
      }
      var conflict := FindConflict(Stored(), Lower(Strip(email)), Strip(username));
      if conflict.Some? {
        return Failure(conflict.value);
      }
      r := NewUser(username, email, id, createdAt);
      if r.Success? {
        AddingUserKeepsInvariant(order, users, r.value);
        users := users[id := r.value];
        order := order + [id];
      }
    }

    /** `get_user`: the user stored under `id`, if any. */
    function GetUser(id: string): (r: Option<User>)
      reads this
      requires Valid()
      ensures r.Some? <==> id in users
      ensures r.Some? ==> r.value == users[id] && r.value.id == id && WellFormedUser(r.value)
    {
      if id in users then Some(users[id]) else None
    }
  }
}
