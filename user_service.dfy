/** The user service over an in-memory user store: lookups that only see
    users not marked deleted, the ordered duplicate checks of `save`, the
    unchecked `update`, and the highest-nickname-number query. */
module Users {
  import opened Common

  /** A user as the service reads it; `id` is absent until the store
      assigns one. */
  datatype User = User(id: Option<string>, email: string, nickname: string, isDeleted: bool,
                       nicknameNumber: int)

  /** What a derived query that returns at most one document yields: no
      match, the one match, or more than one (which the query reports as an
      incorrect result size). */
  datatype Single = NoneFound | One(user: User) | Many

  function ActiveWithEmail(email: string): User -> bool {
    (u: User) => u.email == email && !u.isDeleted
  }

  function ActiveWithNickname(nickname: string): User -> bool {
    (u: User) => u.nickname == nickname && !u.isDeleted
  }

  /** A single-result query over `users` for the users `keep` selects. */
  function FindSingle(users: seq<User>, keep: User -> bool): (r: Single)
    ensures r.NoneFound? <==> forall i | 0 <= i < |users| :: !keep(users[i])
    ensures r.Many? <==> exists i, j | 0 <= i < j < |users| :: keep(users[i]) && keep(users[j])
    ensures r.One? ==> r.user in users && keep(r.user)
    decreases |users|
  {
    if users == [] then NoneFound
    else
      var rest := FindSingle(users[1..], keep);
      assert forall i | 1 <= i < |users| :: users[i] == users[1..][i - 1];
      if !keep(users[0]) then
        assert rest.Many? ==> exists i, j | 0 <= i < j < |users| :: keep(users[i]) && keep(users[j]) by {
          if rest.Many? {
            var i, j :| 0 <= i < j < |users[1..]| && keep(users[1..][i]) && keep(users[1..][j]);
            assert keep(users[i + 1]) && keep(users[j + 1]);
          }
        }
        rest
      else if rest.NoneFound? then One(users[0])
      else
        assert exists j | 0 <= j < |users[1..]| :: keep(users[1..][j]);
        var j :| 0 <= j < |users[1..]| && keep(users[1..][j]);
        assert keep(users[0]) && keep(users[j + 1]);
        Many
  }

  /** The user with identifier `id`, deleted or not. */
  function FindById(users: seq<User>, id: string): (r: Option<User>)
    ensures r.None? <==> forall i | 0 <= i < |users| :: users[i].id != Some(id)
    ensures r.Some? ==> r.value in users && r.value.id == Some(id)
  {
    if users == [] then None
    else if users[0].id == Some(id) then Some(users[0])
    else
      assert forall i | 1 <= i < |users| :: users[i] == users[1..][i - 1];
      FindById(users[1..], id)
  }

  /** A user not marked deleted with the largest nickname number among
      those, or `None` when every user is deleted. */
  function HighestNicknameNumber(users: seq<User>): (r: Option<User>)
    ensures r.None? <==> forall i | 0 <= i < |users| :: users[i].isDeleted
    ensures r.Some? ==> (r.value in users && !r.value.isDeleted &&
              forall i | 0 <= i < |users| && !users[i].isDeleted :: users[i].nicknameNumber <= r.value.nicknameNumber)
  {
    if users == [] then None
    else
      var rest := HighestNicknameNumber(users[1..]);
      assert forall i | 1 <= i < |users| :: users[i] == users[1..][i - 1];
      if users[0].isDeleted then rest
      else if rest.Some? && rest.value.nicknameNumber > users[0].nicknameNumber then rest
      else Some(users[0])
  }

  /** Every stored user has an identifier and no two share one. */
  predicate StoreInvariant(users: seq<User>) {
    && (forall i | 0 <= i < |users| :: users[i].id.Some?)
    && (forall i, j | 0 <= i < j < |users| :: users[i].id != users[j].id)
  }

  /** No stored user has identifier `id`. */
  predicate IdFree(users: seq<User>, id: string) {
    forall i | 0 <= i < |users| :: users[i].id != Some(id)
  }

  /** The user as the store keeps it: a user without an identifier gets
      the one the store generates. */
  function Stored(user: User, generatedId: string): (s: User)
    ensures s.id.Some?
    ensures user.id.Some? ==> s == user
    ensures user.id.None? ==> s == user.(id := Some(generatedId))
  {
    if user.id.Some? then user else user.(id := Some(generatedId))
  }

  /** Saving a document with an identifier: it replaces the stored one
      with that identifier, or is appended when there is none. */
  function Upsert(users: seq<User>, s: User): (r: seq<User>)
    requires s.id.Some?
    ensures s in r
    ensures forall i | 0 <= i < |users| && users[i].id != s.id :: users[i] in r
    ensures forall u | u in r :: u == s || (u in users && u.id != s.id)
  {
    if exists i | 0 <= i < |users| :: users[i].id == s.id then
      var r := seq(|users|, i requires 0 <= i < |users| => if users[i].id == s.id then s else users[i]);
      assert forall i | 0 <= i < |users| && users[i].id != s.id :: r[i] == users[i];
      assert forall u | u in r :: u == s || (u in users && u.id != s.id) by {
        forall u | u in r ensures u == s || (u in users && u.id != s.id) {
          var i :| 0 <= i < |r| && r[i] == u;
        }
      }
      var k :| 0 <= k < |users| && users[k].id == s.id;
      assert r[k] == s;
      r
    else
      assert (users + [s])[|users|] == s;
      users + [s]
  }

  /** After an upsert the saved user is stored, every other stored user
      is kept, and the store keeps its invariant. */
  lemma UpsertSpec(users: seq<User>, s: User)
    requires StoreInvariant(users) && s.id.Some?
    ensures StoreInvariant(Upsert(users, s))
    ensures s in Upsert(users, s)
    ensures forall i | 0 <= i < |users| && users[i].id != s.id :: users[i] in Upsert(users, s)
    ensures forall u | u in Upsert(users, s) :: u == s || (u in users && u.id != s.id)
  {
    var r := Upsert(users, s);
    if exists i | 0 <= i < |users| :: users[i].id == s.id {
      var k :| 0 <= k < |users| && users[k].id == s.id;
      assert r[k] == s;
      forall i | 0 <= i < |users| && users[i].id != s.id ensures users[i] in r {
        assert r[i] == users[i];
      }
      forall u | u in r ensures u == s || (u in users && u.id != s.id) {
        var i :| 0 <= i < |r| && r[i] == u;
      }
    } else {
      assert r[|users|] == s;
    }
  }

  /** After saving an active user whose email no active user had, a lookup
      by that email finds exactly that user; likewise for the nickname. */
  lemma SavedUserIsFound(users: seq<User>, s: User)
    requires StoreInvariant(users) && s.id.Some? && !s.isDeleted
    ensures FindSingle(users, ActiveWithEmail(s.email)).NoneFound? ==>
              FindSingle(Upsert(users, s), ActiveWithEmail(s.email)) == One(s)
    ensures FindSingle(users, ActiveWithNickname(s.nickname)).NoneFound? ==>
              FindSingle(Upsert(users, s), ActiveWithNickname(s.nickname)) == One(s)
  {
    UpsertSpec(users, s);
    OnlyMatchIsSaved(users, s, ActiveWithEmail(s.email));
    OnlyMatchIsSaved(users, s, ActiveWithNickname(s.nickname));
  }

  lemma OnlyMatchIsSaved(users: seq<User>, s: User, keep: User -> bool)
    requires StoreInvariant(users) && s.id.Some? && keep(s)
    requires forall u | u in Upsert(users, s) :: u == s || (u in users && u.id != s.id)
    requires s in Upsert(users, s)
    ensures FindSingle(users, keep).NoneFound? ==> FindSingle(Upsert(users, s), keep) == One(s)
  {
    var r := Upsert(users, s);
    if FindSingle(users, keep).NoneFound? {
      assert forall u | u in users :: !keep(u);
      forall i, j | 0 <= i < j < |r| ensures !(keep(r[i]) && keep(r[j])) {
        assert r[i] in r && r[j] in r;
        if keep(r[i]) && keep(r[j]) {
          assert r[i] == s && r[j] == s;
          StoredIdsDistinct(users, s, i, j);
        }
      }
    }
  }

  /** Two positions of an upserted store hold users with different ids. */
  lemma StoredIdsDistinct(users: seq<User>, s: User, i: int, j: int)
    requires StoreInvariant(users) && s.id.Some?
    requires 0 <= i < j < |Upsert(users, s)|
    ensures Upsert(users, s)[i].id != Upsert(users, s)[j].id
  {
    UpsertSpec(users, s);
  }

  /** The user store and the service operations over it. */
  class UserService {
    var users: seq<User>

    ghost predicate Valid()
      reads this
    {
      StoreInvariant(users)
    }

    constructor (users: seq<User>)
      requires StoreInvariant(users)
      ensures Valid() && this.users == users
    {
      this.users := users;
    }

    /** Stores a new user after checking, in this order, that no active
        user has its email and that no active user has its nickname;
        deleted users never block. On a failed check nothing is stored.
        `generatedId` is the identifier the store assigns to a user
        without one. */
    method Save(user: User, generatedId: string) returns (r: Result<User>)
      requires Valid()
      requires user.id.None? ==> IdFree(users, generatedId)
      modifies this
      ensures Valid()
      ensures var byEmail := FindSingle(old(users), ActiveWithEmail(user.email));
              && (byEmail.One? ==> r == Err(UserDuplicateByEmail) && users == old(users))
              && (byEmail.Many? ==> r == Err(IncorrectResultSize) && users == old(users))
      ensures var byEmail := FindSingle(old(users), ActiveWithEmail(user.email));
              var byNickname := FindSingle(old(users), ActiveWithNickname(user.nickname));
              byEmail.NoneFound? ==>
                && (byNickname.One? ==> r == Err(UserDuplicateByNickname) && users == old(users))
                && (byNickname.Many? ==> r == Err(IncorrectResultSize) && users == old(users))
                && (byNickname.NoneFound? ==>
                      r == Ok(Stored(user, generatedId)) && users == Upsert(old(users), Stored(user, generatedId)))
    {
      match FindSingle(users, ActiveWithEmail(user.email))
      case One(_) =>
        return Err(UserDuplicateByEmail);
      case Many =>
        return Err(IncorrectResultSize);
      case NoneFound =>
      match FindSingle(users, ActiveWithNickname(user.nickname))
      case One(_) =>
        return Err(UserDuplicateByNickname);
      case Many =>
        return Err(IncorrectResultSize);
      case NoneFound =>
      var s := Stored(user, generatedId);
      UpsertSpec(users, s);
      users := Upsert(users, s);
      return Ok(s);
    }

    /** Stores the user with no duplicate check. */
    method Update(user: User, generatedId: string) returns (r: User)
      requires Valid()
      requires user.id.None? ==> IdFree(users, generatedId)
      modifies this
      ensures Valid()
      ensures r == Stored(user, generatedId) && users == Upsert(old(users), r)
    {
      r := Stored(user, generatedId);
      UpsertSpec(users, r);
      users := Upsert(users, r);
    }

    /** The active user with this nickname, or the not-found error. */
    function GetUserByNickname(nickname: string): (r: Result<User>)
      reads this
      ensures r.Ok? ==> r.value in users && r.value.nickname == nickname && !r.value.isDeleted
      ensures r == Err(UserNotFoundByNickname) <==>
                forall i | 0 <= i < |users| :: !ActiveWithNickname(nickname)(users[i])
      ensures r == Err(IncorrectResultSize) <==> FindSingle(users, ActiveWithNickname(nickname)).Many?
      ensures r.Ok? || r == Err(UserNotFoundByNickname) || r == Err(IncorrectResultSize)
      ensures FindSingle(users, ActiveWithNickname(nickname)).One? ==>
                r == Ok(FindSingle(users, ActiveWithNickname(nickname)).user)
    {
      match FindSingle(users, ActiveWithNickname(nickname))
      case NoneFound => Err(UserNotFoundByNickname)
      case One(u) => Ok(u)
      case Many => Err(IncorrectResultSize)
    }

    /** The active user with this email, or the not-found error. */
    function GetUserByEmail(email: string): (r: Result<User>)
      reads this
      ensures r.Ok? ==> r.value in users && r.value.email == email && !r.value.isDeleted
      ensures r == Err(UserNotFoundByEmail) <==>
                forall i | 0 <= i < |users| :: !ActiveWithEmail(email)(users[i])
      ensures r == Err(IncorrectResultSize) <==> FindSingle(users, ActiveWithEmail(email)).Many?
      ensures r.Ok? || r == Err(UserNotFoundByEmail) || r == Err(IncorrectResultSize)
      ensures FindSingle(users, ActiveWithEmail(email)).One? ==>
                r == Ok(FindSingle(users, ActiveWithEmail(email)).user)
    {
      match FindSingle(users, ActiveWithEmail(email))
      case NoneFound => Err(UserNotFoundByEmail)
      case One(u) => Ok(u)
      case Many => Err(IncorrectResultSize)
    }

    /** The user with this identifier; a missing user and a deleted user
        are different errors. */
    function GetUserById(userId: string): (r: Result<User>)
      reads this
      ensures r == Err(UserNotFoundById) <==> forall i | 0 <= i < |users| :: users[i].id != Some(userId)
      ensures r == Err(IsDeletedUser) ==> exists i | 0 <= i < |users| ::
                users[i].id == Some(userId) && users[i].isDeleted
      ensures r.Ok? ==> r.value in users && r.value.id == Some(userId) && !r.value.isDeleted
      ensures r.Ok? || r == Err(UserNotFoundById) || r == Err(IsDeletedUser)
      ensures Valid() ==> (r == Err(IsDeletedUser) <==>
                exists i | 0 <= i < |users| :: users[i].id == Some(userId) && users[i].isDeleted)
      ensures Valid() ==> (r.Ok? <==>
                exists i | 0 <= i < |users| :: users[i].id == Some(userId) && !users[i].isDeleted)
    {
      match FindById(users, userId)
      case None => Err(UserNotFoundById)
      case Some(u) => if u.isDeleted then Err(IsDeletedUser) else Ok(u)
    }

    /** The active user with this nickname, or none. */
    function FindUserByNickname(nickname: string): (r: Result<Option<User>>)
      reads this
      ensures r == Ok(None) <==> forall i | 0 <= i < |users| :: !ActiveWithNickname(nickname)(users[i])
      ensures r.Ok? && r.value.Some? ==> r.value.value in users && ActiveWithNickname(nickname)(r.value.value)
      ensures r == Err(IncorrectResultSize) <==> FindSingle(users, ActiveWithNickname(nickname)).Many?
      ensures r.Ok? || r == Err(IncorrectResultSize)
      ensures FindSingle(users, ActiveWithNickname(nickname)).One? ==>
                r == Ok(Some(FindSingle(users, ActiveWithNickname(nickname)).user))
    {
      match FindSingle(users, ActiveWithNickname(nickname))
      case NoneFound => Ok(None)
      case One(u) => Ok(Some(u))
      case Many => Err(IncorrectResultSize)
    }

    /** The active user with this email, or none. */
    function FindUserByEmail(email: string): (r: Result<Option<User>>)
      reads this
      ensures r == Ok(None) <==> forall i | 0 <= i < |users| :: !ActiveWithEmail(email)(users[i])
      ensures r.Ok? && r.value.Some? ==> r.value.value in users && ActiveWithEmail(email)(r.value.value)
      ensures r == Err(IncorrectResultSize) <==> FindSingle(users, ActiveWithEmail(email)).Many?
      ensures r.Ok? || r == Err(IncorrectResultSize)
      ensures FindSingle(users, ActiveWithEmail(email)).One? ==>
                r == Ok(Some(FindSingle(users, ActiveWithEmail(email)).user))
    {
      match FindSingle(users, ActiveWithEmail(email))
      case NoneFound => Ok(None)
      case One(u) => Ok(Some(u))
      case Many => Err(IncorrectResultSize)
    }

    /** An active user with the highest nickname number, or none. */
    function FindUserWithHighestNicknameNumber(): (r: Option<User>)
      reads this
      ensures r.None? <==> forall i | 0 <= i < |users| :: users[i].isDeleted
      ensures r.Some? ==> (r.value in users && !r.value.isDeleted &&
                forall i | 0 <= i < |users| && !users[i].isDeleted :: users[i].nicknameNumber <= r.value.nicknameNumber)
    {
      HighestNicknameNumber(users)
    }

    /** The finding and the failing lookups agree: `get` returns a user
        exactly when `find` does, the same one, and `get`'s not-found error
        is `find`'s empty answer. */
    lemma FindAgreesWithGet(nickname: string, email: string)
      ensures GetUserByNickname(nickname).Ok? <==>
                FindUserByNickname(nickname).Ok? && FindUserByNickname(nickname).value.Some?
      ensures GetUserByNickname(nickname).Ok? ==>
                FindUserByNickname(nickname).value.value == GetUserByNickname(nickname).value
      ensures GetUserByNickname(nickname) == Err(UserNotFoundByNickname) <==> FindUserByNickname(nickname) == Ok(None)
      ensures GetUserByEmail(email).Ok? <==> FindUserByEmail(email).Ok? && FindUserByEmail(email).value.Some?
      ensures GetUserByEmail(email).Ok? ==> FindUserByEmail(email).value.value == GetUserByEmail(email).value
      ensures GetUserByEmail(email) == Err(UserNotFoundByEmail) <==> FindUserByEmail(email) == Ok(None)
    {
    }
  }

  /** `update` can break uniqueness: updating a second user to an active
      user's email leaves two active users with it, after which a lookup by
      that email fails with an incorrect result size. */
  lemma UpdateCanDuplicateEmail()
    ensures var a := User(Some("a"), "x@pmeet", "alpha", false, 1);
            var b := User(Some("b"), "x@pmeet", "beta", false, 2);
            StoreInvariant([a]) &&
            FindSingle(Upsert([a], b), ActiveWithEmail("x@pmeet")).Many?
  {
    var a := User(Some("a"), "x@pmeet", "alpha", false, 1);
    var b := User(Some("b"), "x@pmeet", "beta", false, 2);
    assert !exists i | 0 <= i < |[a]| :: [a][i].id == b.id;
    assert Upsert([a], b) == [a, b];
  }
}
