/**
 * The mutable part of `CampusNexusData` (data.js:2-10, 222-306): the user
 * registry, the signed-in user, and the club list that `addDemoClub` extends.
 * The membership queries over the same object are in module SetAlgebra.
 */
module Store {
  import opened Wrappers
  import opened Seqs
  import opened Entities
  import opened Decimal

  /** The form fields `registerUser` receives. */
  datatype UserData = UserData(name: string, email: string, username: string, password: string, role: string)

  /** `{ success: true, user }` or `{ success: false, message }`. */
  datatype Registration = Registered(user: User) | Rejected(message: string)

  const DuplicateUserMessage: string := "Username or email already exists"

  /** The n-th identifier of a kind: "u" + n for users, "c" + n for clubs. */
  function SequentialId(prefix: char, n: nat): (id: Id)
    ensures |id| >= 2 && id[0] == prefix
  {
    [prefix] + NatToString(n)
  }

  lemma SequentialIdInjective(prefix: char, m: nat, n: nat)
    ensures SequentialId(prefix, m) == SequentialId(prefix, n) ==> m == n
  {
    if SequentialId(prefix, m) == SequentialId(prefix, n) {
      assert NatToString(m) == SequentialId(prefix, m)[1..];
      assert NatToString(n) == SequentialId(prefix, n)[1..];
      NatToStringInjective(m, n);
    }
  }

  /** Users are "u1", "u2", ... in list order, as the demo users and every registration make them. */
  predicate UsersNumbered(users: seq<User>)
  {
    forall i :: 0 <= i < |users| ==> users[i].id == SequentialId('u', i + 1)
  }

  /** Clubs are "c1", "c2", ... in list order, as the demo clubs and `addDemoClub` make them. */
  predicate ClubsNumbered(clubs: seq<Club>)
  {
    forall i :: 0 <= i < |clubs| ==> clubs[i].id == SequentialId('c', i + 1)
  }

  /** The id `registerUser` gives the next user is held by no registered user. */
  lemma NextUserIdIsFresh(users: seq<User>)
    requires UsersNumbered(users)
    ensures forall u :: u in users ==> u.id != SequentialId('u', |users| + 1)
  {
    forall u | u in users ensures u.id != SequentialId('u', |users| + 1) {
      var i :| 0 <= i < |users| && users[i] == u;
      SequentialIdInjective('u', i + 1, |users| + 1);
    }
  }

  /** The id `addDemoClub` gives the next club is held by no existing club. */
  lemma NextClubIdIsFresh(clubs: seq<Club>)
    requires ClubsNumbered(clubs)
    ensures forall c :: c in clubs ==> c.id != SequentialId('c', |clubs| + 1)
  {
    forall c | c in clubs ensures c.id != SequentialId('c', |clubs| + 1) {
      var i :| 0 <= i < |clubs| && clubs[i] == c;
      SequentialIdInjective('c', i + 1, |clubs| + 1);
    }
  }

  /** The login test of `authenticateUser`: username or email, and the password. */
  predicate SignsIn(u: User, username: string, password: string)
  {
    (u.username == username || u.email == username) && u.password == password
  }

  /** The clash test of `registerUser`: same username or same email. */
  predicate Clashes(u: User, data: UserData)
  {
    u.username == data.username || u.email == data.email
  }

  /** `users.find(u => SignsIn(u, username, password))`. */
  function FindSignIn(users: seq<User>, username: string, password: string): (r: Option<User>)
    ensures r.None? <==> forall u :: u in users ==> !SignsIn(u, username, password)
    ensures r.Some? ==> exists i :: 0 <= i < |users| && users[i] == r.value && SignsIn(r.value, username, password) &&
                                    forall j :: 0 <= j < i ==> !SignsIn(users[j], username, password)
  {
    Find(users, (u: User) => SignsIn(u, username, password))
  }

  /** `users.find(u => Clashes(u, data))`. */
  function FindClash(users: seq<User>, data: UserData): (r: Option<User>)
    ensures r.None? <==> forall u :: u in users ==> !Clashes(u, data)
    ensures r.Some? ==> r.value in users && Clashes(r.value, data)
  {
    Find(users, (u: User) => Clashes(u, data))
  }

  class CampusNexusData {
    var students: seq<Student>
    var clubs: seq<Club>
    var memberships: seq<Membership>
    var users: seq<User>
    var currentUser: Option<User>

    /**
     * What the store's own operations keep true: sequential user and club
     * ids, and a signed-in user who is a registered one.
     */
    ghost predicate Valid()
      reads this
    {
      && UsersNumbered(users)
      && ClubsNumbered(clubs)
      && (currentUser.Some? ==> currentUser.value in users)
    }

    /** A store holding the given tables, as `loadFromStorage` restores them. */
    constructor (students: seq<Student>, clubs: seq<Club>, memberships: seq<Membership>,
                 users: seq<User>, currentUser: Option<User>)
      ensures this.students == students && this.clubs == clubs && this.memberships == memberships
      ensures this.users == users && this.currentUser == currentUser
    {
      this.students := students;
      this.clubs := clubs;
      this.memberships := memberships;
      this.users := users;
      this.currentUser := currentUser;
    }

    /** `isAuthenticated()`. */
    predicate IsAuthenticated()
      reads this
    {
      currentUser.Some?
    }

    /** `getCurrentUser()`: the signed-in user, `None` exactly when nobody is signed in. */
    function GetCurrentUser(): (r: Option<User>)
      reads this
      ensures r.Some? <==> IsAuthenticated()
      ensures r.Some? ==> r == currentUser
    {
      currentUser
    }

    /**
     * `authenticateUser(username, password)`: on a match, the first matching
     * user becomes the current user and is returned; otherwise nothing changes.
     */
    method AuthenticateUser(username: string, password: string) returns (user: Option<User>)
      modifies this`currentUser
      ensures user.Some? <==> exists u :: u in users && SignsIn(u, username, password)
      ensures user.Some? ==> exists i :: 0 <= i < |users| && users[i] == user.value && SignsIn(user.value, username, password) &&
                                         forall j :: 0 <= j < i ==> !SignsIn(users[j], username, password)
      ensures user.Some? ==> currentUser == user && IsAuthenticated()
      ensures user.None? ==> currentUser == old(currentUser)
      ensures old(Valid()) ==> Valid()
    {
      user := FindSignIn(users, username, password);
      if user.Some? {
        currentUser := user;
      }
    }

    /**
     * `registerUser(userData)`: refused, with nothing changed, when a user has
     * the same username or email; otherwise appends one user numbered after
     * the existing ones.
     */
    method RegisterUser(userData: UserData, createdAt: Timestamp) returns (result: Registration)
      modifies this`users
      ensures result.Rejected? <==> exists u :: u in old(users) && Clashes(u, userData)
      ensures result.Rejected? ==> users == old(users) && result.message == DuplicateUserMessage
      ensures result.Registered? ==>
        && result.user == User(SequentialId('u', |old(users)| + 1), userData.username, userData.email,
                               userData.password, userData.name, userData.role, createdAt)
        && users == old(users) + [result.user]
      ensures old(Valid()) && result.Registered? ==> forall u :: u in old(users) ==> u.id != result.user.id
      ensures old(Valid()) ==> Valid()
    {
      var existing := FindClash(users, userData);
      if existing.Some? {
        return Rejected(DuplicateUserMessage);
      }
      if Valid() {
        NextUserIdIsFresh(users);
      }
      var newUser := User(SequentialId('u', |users| + 1), userData.username, userData.email,
                          userData.password, userData.name, userData.role, createdAt);
      users := users + [newUser];
      result := Registered(newUser);
    }

    /** `logout()`. */
    method Logout()
      modifies this`currentUser
      ensures currentUser == None && !IsAuthenticated()
      ensures old(Valid()) ==> Valid()
    {
      currentUser := None;
    }

    /** `addDemoClub()`, with the randomly drawn category and colour passed in. */
    method AddDemoClub(category: Category, color: string) returns (club: Club)
      modifies this`clubs
      ensures club == Club(SequentialId('c', |old(clubs)| + 1), "New Club " + NatToString(|old(clubs)| + 1), category, color)
      ensures clubs == old(clubs) + [club]
      ensures old(Valid()) ==> forall c :: c in old(clubs) ==> c.id != club.id
      ensures old(Valid()) ==> Valid()
    {
      if Valid() {
        NextClubIdIsFresh(clubs);
      }
      var n := |clubs| + 1;
      club := Club(SequentialId('c', n), "New Club " + NatToString(n), category, color);
      clubs := clubs + [club];
    }
  }
}
