/**
 * The membership queries of the data store (data.js:140-210): which students
 * belong to a club, which clubs a student belongs to, the four set operations
 * over two clubs' member lists, and the at-risk filter.
 *
 * The store's methods read only its `students`, `clubs` and `memberships`
 * arrays; here those arrays are parameters. Every result except that of
 * `GetStudentClubs` (one club lookup per edge, in edge order) is a list of
 * student records. All of them but `Union` keep table order, and `Selects`
 * (module Seqs) says exactly which records of the table they keep; `Union`
 * keeps club A's members in order, then club B's new ones.
 */
module SetAlgebra {
  import opened Wrappers
  import opened Seqs
  import opened Entities
  import opened Deduplication

  /** Some membership edge links the student to the club. */
  predicate HasEdge(memberships: seq<Membership>, studentId: Id, clubId: Id)
  {
    exists m :: m in memberships && m.studentId == studentId && m.clubId == clubId
  }

  /** Some membership edge starts at the student, whatever club it names. */
  predicate HasAnyEdge(memberships: seq<Membership>, studentId: Id)
  {
    exists m :: m in memberships && m.studentId == studentId
  }

  /** The student ids on the club's edges, one per edge (data.js:180-182). */
  function MemberIds(memberships: seq<Membership>, clubId: Id): (r: seq<Id>)
    ensures forall id :: id in r <==> HasEdge(memberships, id, clubId)
  {
    var edges := Filter(memberships, (m: Membership) => m.clubId == clubId);
    var ids := Map(edges, (m: Membership) => m.studentId);
    assert forall id :: HasEdge(memberships, id, clubId) ==> id in ids by {
      forall id | HasEdge(memberships, id, clubId) ensures id in ids {
        var m :| m in memberships && m.studentId == id && m.clubId == clubId;
        assert m in edges;
        var k :| 0 <= k < |edges| && edges[k] == m;
        assert ids[k] == id;
      }
    }
    assert forall k :: 0 <= k < |ids| ==> edges[k] in edges;
    ids
  }

  /**
   * `getClubMembers(clubId)`: the students, in table order, with an edge to the
   * club. A student record appears as often as in the table, however many
   * edges link it to the club.
   */
  function GetClubMembers(students: seq<Student>, memberships: seq<Membership>, clubId: Id): (r: seq<Student>)
    ensures Selects(r, students, (s: Student) => HasEdge(memberships, s.id, clubId))
    ensures forall x :: x in r <==> x in students && HasEdge(memberships, x.id, clubId)
    ensures forall id :: id in Ids(r) <==> id in Ids(students) && HasEdge(memberships, id, clubId)
  {
    var memberIds := MemberIds(memberships, clubId);
    var isMember := (s: Student) => s.id in memberIds;
    FilterSelects(students, isMember, (s: Student) => HasEdge(memberships, s.id, clubId));
    Filter(students, isMember)
  }

  /** The club `clubs.find(c => c.id === clubId)` returns; `None` for `undefined`. */
  function FindClub(clubs: seq<Club>, clubId: Id): (r: Option<Club>)
    ensures r.Some? ==> exists i :: 0 <= i < |clubs| && clubs[i] == r.value && r.value.id == clubId &&
                                    forall j :: 0 <= j < i ==> clubs[j].id != clubId
    ensures r.None? <==> forall c :: c in clubs ==> c.id != clubId
  {
    Find(clubs, (c: Club) => c.id == clubId)
  }

  /** The student's membership edges, in table order (data.js:188-189). */
  function StudentEdges(memberships: seq<Membership>, studentId: Id): (e: seq<Membership>)
    ensures Selects(e, memberships, (m: Membership) => m.studentId == studentId)
    ensures forall m :: m in e <==> m in memberships && m.studentId == studentId
  {
    FilterSelects(memberships, (m: Membership) => m.studentId == studentId, (m: Membership) => m.studentId == studentId);
    Filter(memberships, (m: Membership) => m.studentId == studentId)
  }

  /**
   * `getStudentClubs(studentId)`: one entry per edge of the student, in edge
   * order, holding the club the edge names, or `None` when no club has that id.
   */
  function GetStudentClubs(clubs: seq<Club>, memberships: seq<Membership>, studentId: Id): (r: seq<Option<Club>>)
    ensures |r| == |StudentEdges(memberships, studentId)|
    ensures forall k :: 0 <= k < |r| ==> r[k] == FindClub(clubs, StudentEdges(memberships, studentId)[k].clubId)
    ensures |r| == 0 <==> !HasAnyEdge(memberships, studentId)
  {
    var edges := StudentEdges(memberships, studentId);
    assert edges != [] ==> edges[0] in edges;
    LookUpClubs(clubs, edges)
  }

  /** Every entry of `getStudentClubs` is the lookup of some edge of the student. */
  lemma StudentClubsFromEdges(clubs: seq<Club>, memberships: seq<Membership>, studentId: Id)
    ensures var r := GetStudentClubs(clubs, memberships, studentId);
      forall k :: 0 <= k < |r| ==>
        exists m :: m in memberships && m.studentId == studentId && r[k] == FindClub(clubs, m.clubId)
  {
    var edges := StudentEdges(memberships, studentId);
    assert forall k :: 0 <= k < |edges| ==> edges[k] in edges;
  }

  /** Every edge of the student has its lookup among the entries of `getStudentClubs`. */
  lemma StudentClubsCoverEdges(clubs: seq<Club>, memberships: seq<Membership>, studentId: Id)
    ensures var r := GetStudentClubs(clubs, memberships, studentId);
      forall m :: m in memberships && m.studentId == studentId ==>
        exists k :: 0 <= k < |r| && r[k] == FindClub(clubs, m.clubId)
  {
    var edges := StudentEdges(memberships, studentId);
    var r := GetStudentClubs(clubs, memberships, studentId);
    forall m | m in memberships && m.studentId == studentId
      ensures exists k :: 0 <= k < |r| && r[k] == FindClub(clubs, m.clubId)
    {
      assert m in edges;
      var k :| 0 <= k < |edges| && edges[k] == m;
      assert r[k] == FindClub(clubs, m.clubId);
    }
  }

  /** The club lookup of each edge, `edges.map(m => clubs.find(c => c.id === m.clubId))`. */
  function LookUpClubs(clubs: seq<Club>, edges: seq<Membership>): (r: seq<Option<Club>>)
    ensures |r| == |edges| && forall k :: 0 <= k < |r| ==> r[k] == FindClub(clubs, edges[k].clubId)
  {
    Map(edges, (m: Membership) => FindClub(clubs, m.clubId))
  }

  /**
   * `intersection(clubA, clubB)`: club A's members whose id occurs among club
   * B's members; exactly the students, in table order, linked to both clubs.
   */
  function Intersection(students: seq<Student>, memberships: seq<Membership>, clubA: Id, clubB: Id): (r: seq<Student>)
    ensures Selects(r, students, (s: Student) => HasEdge(memberships, s.id, clubA) && HasEdge(memberships, s.id, clubB))
    ensures forall x :: x in r <==> x in students && HasEdge(memberships, x.id, clubA) && HasEdge(memberships, x.id, clubB)
  {
    var membersA := GetClubMembers(students, memberships, clubA);
    var membersB := GetClubMembers(students, memberships, clubB);
    var inB := (s: Student) => s.id in Ids(membersB);
    SelectsThenFilter(membersA, students, (s: Student) => HasEdge(memberships, s.id, clubA), inB,
                      (s: Student) => HasEdge(memberships, s.id, clubA) && HasEdge(memberships, s.id, clubB));
    Filter(membersA, inB)
  }

  /**
   * `difference(clubA, clubB)`: club A's members whose id occurs nowhere among
   * club B's members; exactly the students linked to A and not to B.
   */
  function Difference(students: seq<Student>, memberships: seq<Membership>, clubA: Id, clubB: Id): (r: seq<Student>)
    ensures Selects(r, students, (s: Student) => HasEdge(memberships, s.id, clubA) && !HasEdge(memberships, s.id, clubB))
    ensures forall x :: x in r <==> x in students && HasEdge(memberships, x.id, clubA) && !HasEdge(memberships, x.id, clubB)
    ensures forall x :: x in r ==> x.id !in Ids(GetClubMembers(students, memberships, clubB))
  {
    var membersA := GetClubMembers(students, memberships, clubA);
    var membersB := GetClubMembers(students, memberships, clubB);
    var notInB := (s: Student) => s.id !in Ids(membersB);
    SelectsThenFilter(membersA, students, (s: Student) => HasEdge(memberships, s.id, clubA), notInB,
                      (s: Student) => HasEdge(memberships, s.id, clubA) && !HasEdge(memberships, s.id, clubB));
    Filter(membersA, notInB)
  }

  /**
   * `union(clubA, clubB)`: A's members followed by B's, with every id after
   * its first occurrence removed.
   */
  function Union(students: seq<Student>, memberships: seq<Membership>, clubA: Id, clubB: Id): (r: seq<Student>)
    ensures UniqueIds(r)
    ensures Ids(r) == Ids(GetClubMembers(students, memberships, clubA)) + Ids(GetClubMembers(students, memberships, clubB))
    ensures IsSubseq(r, GetClubMembers(students, memberships, clubA) + GetClubMembers(students, memberships, clubB))
    ensures forall x :: x in r ==> x in students && (HasEdge(memberships, x.id, clubA) || HasEdge(memberships, x.id, clubB))
  {
    var membersA := GetClubMembers(students, memberships, clubA);
    var membersB := GetClubMembers(students, memberships, clubB);
    var r := Dedup(membersA + membersB);
    IdsAppend(membersA, membersB);
    SubseqMultiset(r, membersA + membersB);
    assert forall x :: x in r ==> x in multiset(membersA + membersB);
    r
  }

  /** The threshold `getAtRiskStudents` uses when called without one. */
  const DefaultRiskThreshold: real := 30.0

  /**
   * `getAtRiskStudents(threshold)`: the students, in table order, with no
   * membership edge at all (even one naming a missing club still counts as
   * an edge) or with engagement below the threshold.
   */
  function GetAtRiskStudents(students: seq<Student>, clubs: seq<Club>, memberships: seq<Membership>,
                             threshold: real := DefaultRiskThreshold): (r: seq<Student>)
    ensures Selects(r, students, (s: Student) => !HasAnyEdge(memberships, s.id) || s.engagement < threshold)
    ensures forall x :: x in r <==> x in students && (!HasAnyEdge(memberships, x.id) || x.engagement < threshold)
  {
    var atRisk := (s: Student) => |GetStudentClubs(clubs, memberships, s.id)| == 0 || s.engagement < threshold;
    FilterSelects(students, atRisk, (s: Student) => !HasAnyEdge(memberships, s.id) || s.engagement < threshold);
    Filter(students, atRisk)
  }

  /** Intersection and difference split club A's member list between them. */
  lemma IntersectionDifferencePartition(students: seq<Student>, memberships: seq<Membership>, clubA: Id, clubB: Id)
    ensures multiset(Intersection(students, memberships, clubA, clubB)) + multiset(Difference(students, memberships, clubA, clubB))
            == multiset(GetClubMembers(students, memberships, clubA))
    ensures |Intersection(students, memberships, clubA, clubB)| + |Difference(students, memberships, clubA, clubB)|
            == |GetClubMembers(students, memberships, clubA)|
  {
    var membersA := GetClubMembers(students, memberships, clubA);
    var membersB := GetClubMembers(students, memberships, clubB);
    FilterPartition(membersA, (s: Student) => s.id in Ids(membersB), (s: Student) => s.id !in Ids(membersB));
  }

  /** The intersection does not depend on the order of the two clubs, list order included. */
  lemma IntersectionCommutes(students: seq<Student>, memberships: seq<Membership>, clubA: Id, clubB: Id)
    ensures Intersection(students, memberships, clubA, clubB) == Intersection(students, memberships, clubB, clubA)
  {
    var ab := (s: Student) => HasEdge(memberships, s.id, clubA) && HasEdge(memberships, s.id, clubB);
    var ba := (s: Student) => HasEdge(memberships, s.id, clubB) && HasEdge(memberships, s.id, clubA);
    SelectsUnique(Intersection(students, memberships, clubA, clubB), students, ab);
    SelectsUnique(Intersection(students, memberships, clubB, clubA), students, ba);
    FilterExt(students, ab, ba);
  }

  /** The intersection is a subsequence of both clubs' member lists. */
  lemma IntersectionWithinBoth(students: seq<Student>, memberships: seq<Membership>, clubA: Id, clubB: Id)
    ensures IsSubseq(Intersection(students, memberships, clubA, clubB), GetClubMembers(students, memberships, clubA))
    ensures IsSubseq(Intersection(students, memberships, clubA, clubB), GetClubMembers(students, memberships, clubB))
  {
    var inA := (s: Student) => HasEdge(memberships, s.id, clubA);
    var inB := (s: Student) => HasEdge(memberships, s.id, clubB);
    var inBoth := (s: Student) => HasEdge(memberships, s.id, clubA) && HasEdge(memberships, s.id, clubB);
    SelectsUnique(Intersection(students, memberships, clubA, clubB), students, inBoth);
    SelectsUnique(GetClubMembers(students, memberships, clubA), students, inA);
    SelectsUnique(GetClubMembers(students, memberships, clubB), students, inB);
    FilterMono(students, inBoth, inA);
    FilterMono(students, inBoth, inB);
  }

  /**
   * When student ids are unique, the union is club A's member list followed
   * by the members of B that are not in A, in table order.
   */
  lemma UnionOfUniqueStudents(students: seq<Student>, memberships: seq<Membership>, clubA: Id, clubB: Id)
    requires UniqueIds(students)
    ensures Union(students, memberships, clubA, clubB)
            == GetClubMembers(students, memberships, clubA) + Difference(students, memberships, clubB, clubA)
  {
    var membersA := GetClubMembers(students, memberships, clubA);
    var membersB := GetClubMembers(students, memberships, clubB);
    SubseqUniqueIds(membersA, students);
    SubseqUniqueIds(membersB, students);
    DedupFromAppend(membersA, membersB, {});
    DedupFromUnique(membersA, {});
    assert {} + Ids(membersA) == Ids(membersA);
    DedupFromFilter(membersB, Ids(membersA), (s: Student) => s.id !in Ids(membersA));
  }

  /** |A ∪ B| = |A| + |B| - |A ∩ B| when student ids are unique. */
  lemma UnionSize(students: seq<Student>, memberships: seq<Membership>, clubA: Id, clubB: Id)
    requires UniqueIds(students)
    ensures |Union(students, memberships, clubA, clubB)|
            == |GetClubMembers(students, memberships, clubA)| + |GetClubMembers(students, memberships, clubB)|
               - |Intersection(students, memberships, clubA, clubB)|
  {
    UnionOfUniqueStudents(students, memberships, clubA, clubB);
    IntersectionDifferencePartition(students, memberships, clubB, clubA);
    IntersectionCommutes(students, memberships, clubA, clubB);
  }

  /** The ids on any membership edge: the `Set` `complement([])` builds (data.js:166-167). */
  function EdgeStudentIds(memberships: seq<Membership>): (r: set<Id>)
    ensures forall id :: id in r <==> HasAnyEdge(memberships, id)
  {
    set m | m in memberships :: m.studentId
  }

  /**
   * The ids of the listed clubs' members: the `Set` `complement(clubIds)`
   * builds for a non-empty list (data.js:171-174), one club after another.
   */
  function ListedMemberIds(students: seq<Student>, memberships: seq<Membership>, clubIds: seq<Id>): (r: set<Id>)
    ensures forall id :: id in r <==> id in Ids(students) && exists c :: c in clubIds && HasEdge(memberships, id, c)
  {
    if clubIds == [] then {}
    else
      var last := clubIds[|clubIds| - 1];
      assert forall c :: c in clubIds <==> c in clubIds[..|clubIds| - 1] || c == last;
      ListedMemberIds(students, memberships, clubIds[..|clubIds| - 1]) + Ids(GetClubMembers(students, memberships, last))
  }

  /**
   * What `complement(clubIds)` returns: the students, in table order, whose id
   * is not in the set above.
   */
  function ComplementOf(students: seq<Student>, memberships: seq<Membership>, clubIds: seq<Id>): (r: seq<Student>)
    ensures clubIds == [] ==> Selects(r, students, (s: Student) => !HasAnyEdge(memberships, s.id))
    ensures clubIds != [] ==>
      Selects(r, students, (s: Student) => forall c :: c in clubIds ==> !HasEdge(memberships, s.id, c))
  {
    var excluded := if clubIds == [] then EdgeStudentIds(memberships) else ListedMemberIds(students, memberships, clubIds);
    var kept := (s: Student) => s.id !in excluded;
    assert clubIds == [] ==> Selects(Filter(students, kept), students, (s: Student) => !HasAnyEdge(memberships, s.id)) by {
      if clubIds == [] {
        FilterSelects(students, kept, (s: Student) => !HasAnyEdge(memberships, s.id));
      }
    }
    assert clubIds != [] ==> Selects(Filter(students, kept), students,
                                     (s: Student) => forall c :: c in clubIds ==> !HasEdge(memberships, s.id, c)) by {
      if clubIds != [] {
        FilterSelects(students, kept, (s: Student) => forall c :: c in clubIds ==> !HasEdge(memberships, s.id, c));
      }
    }
    Filter(students, kept)
  }

  /** `this.memberships.forEach(m => allClubMembers.add(m.studentId))`. */
  method CollectEdgeStudentIds(memberships: seq<Membership>) returns (ids: set<Id>)
    ensures ids == EdgeStudentIds(memberships)
  {
    ids := {};
    for i := 0 to |memberships|
      invariant ids == EdgeStudentIds(memberships[..i])
    {
      ids := ids + {memberships[i].studentId};
      assert memberships[..i + 1] == memberships[..i] + [memberships[i]];
    }
    assert memberships[..|memberships|] == memberships;
  }

  /** `members.forEach(student => ids.add(student.id))`. */
  method AddIds(ids: set<Id>, members: seq<Student>) returns (ids': set<Id>)
    ensures ids' == ids + Ids(members)
  {
    ids' := ids;
    for j := 0 to |members|
      invariant ids' == ids + Ids(members[..j])
    {
      ids' := ids' + {members[j].id};
      assert members[..j + 1] == members[..j] + [members[j]];
      IdsAppend(members[..j], [members[j]]);
    }
    assert members[..|members|] == members;
  }

  /** `clubIds.forEach(clubId => getClubMembers(clubId).forEach(student => excludedMembers.add(student.id)))`. */
  method CollectListedMemberIds(students: seq<Student>, memberships: seq<Membership>, clubIds: seq<Id>) returns (ids: set<Id>)
    ensures ids == ListedMemberIds(students, memberships, clubIds)
  {
    ids := {};
    for i := 0 to |clubIds|
      invariant ids == ListedMemberIds(students, memberships, clubIds[..i])
    {
      var members := GetClubMembers(students, memberships, clubIds[i]);
      ids := AddIds(ids, members);
      assert clubIds[..i + 1][..i] == clubIds[..i];
    }
    assert clubIds[..|clubIds|] == clubIds;
  }

  /** `this.students.filter(student => !excluded.has(student.id))`. */
  method KeepStudentsOutside(students: seq<Student>, excluded: set<Id>) returns (r: seq<Student>)
    ensures r == Filter(students, (s: Student) => s.id !in excluded)
  {
    var kept := (s: Student) => s.id !in excluded;
    r := [];
    for i := 0 to |students|
      invariant r == Filter(students[..i], kept)
    {
      if students[i].id !in excluded {
        r := r + [students[i]];
      }
      assert students[..i + 1] == students[..i] + [students[i]];
      FilterAppend(students[..i], [students[i]], kept);
    }
    assert students[..|students|] == students;
  }

  /** `complement(clubIds)`. */
  method Complement(students: seq<Student>, memberships: seq<Membership>, clubIds: seq<Id>) returns (r: seq<Student>)
    ensures r == ComplementOf(students, memberships, clubIds)
  {
    var excluded: set<Id>;
    if |clubIds| == 0 {
      excluded := CollectEdgeStudentIds(memberships);
    } else {
      excluded := CollectListedMemberIds(students, memberships, clubIds);
    }
    r := KeepStudentsOutside(students, excluded);
  }

  /** No student of `complement([clubA, clubB])` shares an id with a student of `union(clubA, clubB)`. */
  lemma ComplementDisjointFromUnion(students: seq<Student>, memberships: seq<Membership>, clubA: Id, clubB: Id)
    ensures Ids(ComplementOf(students, memberships, [clubA, clubB])) !! Ids(Union(students, memberships, clubA, clubB))
  {
    var outside := ComplementOf(students, memberships, [clubA, clubB]);
    var keep := (s: Student) => forall c :: c in [clubA, clubB] ==> !HasEdge(memberships, s.id, c);
    SelectsMembers(outside, students, keep);
    forall x | x in outside ensures x.id !in Ids(Union(students, memberships, clubA, clubB)) {
      assert keep(x);
      assert clubA in [clubA, clubB] && clubB in [clubA, clubB];
    }
  }

  /** Every student `complement([])` returns is at risk, whatever the threshold. */
  lemma ComplementOfNoneIsAtRisk(students: seq<Student>, clubs: seq<Club>, memberships: seq<Membership>, threshold: real)
    ensures IsSubseq(ComplementOf(students, memberships, []), GetAtRiskStudents(students, clubs, memberships, threshold))
  {
    var unlinked := (s: Student) => !HasAnyEdge(memberships, s.id);
    var atRisk := (s: Student) => !HasAnyEdge(memberships, s.id) || s.engagement < threshold;
    SelectsUnique(ComplementOf(students, memberships, []), students, unlinked);
    SelectsUnique(GetAtRiskStudents(students, clubs, memberships, threshold), students, atRisk);
    FilterMono(students, unlinked, atRisk);
  }

  /**
   * Listing every club some edge names gives what the empty list gives: the
   * students with no edge at all. (Listing only the existing clubs can give
   * more, since an edge may name a club that is not in the table.)
   */
  lemma ComplementOfEveryLinkedClub(students: seq<Student>, memberships: seq<Membership>, clubIds: seq<Id>)
    requires clubIds != []
    requires forall m :: m in memberships ==> m.clubId in clubIds
    ensures ComplementOf(students, memberships, clubIds) == ComplementOf(students, memberships, [])
  {
    var unlinked := (s: Student) => !HasAnyEdge(memberships, s.id);
    var unlisted := (s: Student) => forall c :: c in clubIds ==> !HasEdge(memberships, s.id, c);
    SelectsUnique(ComplementOf(students, memberships, clubIds), students, unlisted);
    SelectsUnique(ComplementOf(students, memberships, []), students, unlinked);
    forall x | x in students ensures unlisted(x) == unlinked(x) {
      if !unlinked(x) {
        var m :| m in memberships && m.studentId == x.id;
        assert HasEdge(memberships, x.id, m.clubId);
      }
    }
    FilterExt(students, unlisted, unlinked);
  }
}
