/**
 * The records the data store keeps (data.js): students, clubs, membership
 * edges and user accounts. Identifiers are strings such as "s12", "c3", "u4".
 */
module Entities {

  type Id = string

  /** Milliseconds since the epoch, as a JavaScript `Date` holds them; never inspected. */
  type Timestamp = int

  datatype Year = Freshman | Sophomore | Junior | Senior

  /** `engagement` is a percentage; only its comparison with a threshold matters. */
  datatype Student = Student(id: Id, name: string, email: string, major: string, year: Year, engagement: real)

  datatype Category = Academic | Sports | Arts | Service

  /** `color` is a CSS colour string such as "#6366f1". */
  datatype Club = Club(id: Id, name: string, category: Category, color: string)

  datatype Role = Member | Officer

  /** One edge of the many-to-many relation; nothing stops the same pair from occurring twice. */
  datatype Membership = Membership(studentId: Id, clubId: Id, role: Role, joinDate: Timestamp)

  /** `role` is free text ("admin", "student", "club_leader"); the password is kept as given. */
  datatype User = User(id: Id, username: string, email: string, password: string, name: string, role: string, createdAt: Timestamp)

  /** The identifiers occurring in a list of students. */
  function Ids(s: seq<Student>): set<Id>
  {
    set x | x in s :: x.id
  }

  /** No two entries of `s` share an identifier. */
  predicate UniqueIds(s: seq<Student>)
  {
    forall i, j :: 0 <= i < j < |s| ==> s[i].id != s[j].id
  }

  lemma IdsAppend(a: seq<Student>, b: seq<Student>)
    ensures Ids(a + b) == Ids(a) + Ids(b)
  {
    forall id | id in Ids(a + b) ensures id in Ids(a) + Ids(b) {
      var x :| x in a + b && x.id == id;
      assert x in a || x in b;
    }
  }
}
