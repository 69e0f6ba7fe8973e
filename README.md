# CampusNexus data store, modelled in Dafny

This project models the data store of the CampusNexus campus club dashboard: the class `CampusNexusData` in `data.js`. The store holds four tables. They are students, clubs, membership edges (a student id and a club id, with a role and a join date) and user accounts, plus the signed-in user. On top of these tables it offers:

- **Membership set algebra.** It answers which students belong to a club and which clubs a student belongs to. It computes the intersection, union, difference and complement of club member lists, and the "at-risk" student list. Every answer except `getStudentClubs` (one club lookup per membership edge, in edge order) is a list of student records. All of those keep table order except `union`, which keeps club A's members in order, then club B's new ones.
- **Registry and session.** Users sign in by username or email plus a password. New users register with a sequential id, the session can be cleared, and demo clubs are appended with a sequential id.

Modules:

- `Wrappers`: `Option`, which stands for `null` and `undefined`.
- `Seqs`: `filter`, `map`, `find` and `findIndex` as functions on sequences. It also defines `IsSubseq`, an order-preserving sub-list relation. `Selects(r, s, keep)` says that `r` is `s` with exactly the rejected elements removed: `r` is a sub-list of `s`, and each accepted element occurs in `r` as often as in `s`. `SelectsUnique` proves that only `Filter(s, keep)` fits this description. Contracts written with `Selects` therefore pin down a result exactly, without repeating how it is computed.
- `Entities`: the four record types, plus identifier sets (`Ids`) and uniqueness (`UniqueIds`).
- `Decimal`: how a template literal prints a number, used for the ids `u<n>` and `c<n>`. Also a parser, and the proof that printing is injective.
- `Deduplication`: `removeDuplicates`. `Dedup` is its specification and `RemoveDuplicates` is its loop.
- `SetAlgebra`: the membership queries over explicit `students`, `clubs` and `memberships` tables. `complement` builds an id `Set` in `forEach` loops, so its loops are methods proved against the function `ComplementOf`.
- `Store`: the class `CampusNexusData`. It has `seq` fields for the tables and an `Option` field for the signed-in user. Its methods update those fields in place.

Two behaviours of the code that the model keeps as written:

- `getAtRiskStudents` counts membership edges, not existing clubs. It tests the length of `getStudentClubs`, which maps each edge through `clubs.find`. So an edge that names a club missing from the table still counts, and such a student is not at risk on that ground (`GetAtRiskStudents`).
- `|union| = |A| + |B| - |A ∩ B|` is proved for unique student ids and can fail when a member's id repeats. The set operations compare students only by id, and nothing in the store enforces unique ids (`UnionSize`).

## Model

| member | source | states |
|---|---|---|
| `SetAlgebra.MemberIds` | data.js:180-182 | an id occurs in the result exactly when some edge links it to the club |
| `SetAlgebra.GetClubMembers` | data.js:179-185 | the result selects, in table order, exactly the students with an edge to the club; each record appears as often as in the table, however many edges repeat it; its ids are the table ids with such an edge |
| `SetAlgebra.FindClub` | data.js:190 | returns the first club of the table with the requested id, or `None` exactly when no club has that id |
| `SetAlgebra.StudentEdges` | data.js:188-189 | selects, in table order, exactly the membership edges that start at the student |
| `SetAlgebra.GetStudentClubs` | data.js:187-191 | one entry per edge of the student, in edge order: entry `k` is the lookup of the club named by the student's `k`-th edge (`None` for a missing club); the result is empty exactly when the student has no edge |
| `SetAlgebra.StudentClubsFromEdges` | data.js:187-191 | every entry of the result is the lookup of some edge of the student |
| `SetAlgebra.StudentClubsCoverEdges` | data.js:187-191 | every edge of the student has its lookup among the entries of the result |
| `SetAlgebra.Intersection` | data.js:140-146 | the result selects, in table order, exactly the students linked to both clubs |
| `SetAlgebra.Difference` | data.js:155-161 | the result selects exactly the students linked to club A and not to club B; no id in it is an id of a B member |
| `SetAlgebra.Union` | data.js:148-153 | the result has no repeated id; its id set is the union of both member lists' id sets; it is a sub-list of A's members followed by B's; every entry is a student linked to A or B |
| `SetAlgebra.GetAtRiskStudents` | data.js:205-210 | the result selects, in table order, exactly the students with no membership edge at all or with engagement below the threshold (30 by default) |
| `SetAlgebra.IntersectionDifferencePartition` | data.js:140-161 | intersection and difference together hold every member of A exactly once (as multisets, hence also by length) |
| `SetAlgebra.IntersectionCommutes` | data.js:140-146 | swapping the two clubs gives the same list, order included |
| `SetAlgebra.IntersectionWithinBoth` | data.js:140-146 | the intersection is a sub-list of A's members and of B's members |
| `SetAlgebra.UnionOfUniqueStudents` | data.js:148-153 | with unique student ids, the union is A's members followed by `difference(B, A)`: first occurrence kept, A's order then B's new members |
| `SetAlgebra.UnionSize` | data.js:148-153 | with unique student ids, the union's length is the sum of both member counts minus the intersection's length |
| `SetAlgebra.EdgeStudentIds` | data.js:166-167 | an id is in the set exactly when some edge starts at it |
| `SetAlgebra.ListedMemberIds` | data.js:171-174 | an id is in the set exactly when it is a student's id and that student has an edge to one of the listed clubs |
| `SetAlgebra.ComplementOf` | data.js:163-177 | with an empty list, the result selects exactly the students on no edge; otherwise exactly the students with no edge to any listed club |
| `SetAlgebra.CollectEdgeStudentIds` | data.js:166-167 | the loop over the edges builds exactly the set of ids on some edge |
| `SetAlgebra.AddIds` | data.js:173 | the inner loop adds exactly the ids of the given members |
| `SetAlgebra.CollectListedMemberIds` | data.js:171-174 | the loop over the listed clubs builds exactly the ids of their members |
| `SetAlgebra.KeepStudentsOutside` | data.js:176 | the filtering loop keeps, in order, the students whose id is not excluded |
| `SetAlgebra.Complement` | data.js:163-177 | the method returns exactly the list `ComplementOf` specifies |
| `SetAlgebra.ComplementDisjointFromUnion` | data.js:148-177 | no student of the complement of clubs A and B shares an id with a student of their union |
| `SetAlgebra.ComplementOfNoneIsAtRisk` | data.js:163-169 | every student with no edge is in the at-risk list, in the same relative order, whatever the threshold |
| `SetAlgebra.ComplementOfEveryLinkedClub` | data.js:163-177 | listing every club that some edge names gives the same list as the empty list |
| `Deduplication.DedupFrom` | data.js:212-219 | the result has no repeated id, its ids are the input's ids minus those already seen, and it is a sub-list of the input |
| `Deduplication.Dedup` | data.js:212-219 | the result has no repeated id, has the same id set as the input and is a sub-list of it |
| `Deduplication.DedupFromAppend` | data.js:212-219 | deduplicating a concatenation is deduplicating the first part, then the second part with the first part's ids already seen |
| `Deduplication.DedupSnoc` | data.js:212-219 | appending an item keeps it exactly when no earlier item has its id, so exactly the first occurrence of each id is kept, in order |
| `Deduplication.DedupFromUnique` | data.js:212-219 | a list whose ids are distinct and not yet seen comes back unchanged |
| `Deduplication.DedupIdempotent` | data.js:212-219 | deduplicating twice is the same as once |
| `Deduplication.DedupFromFilter` | data.js:212-219 | on a list with distinct ids, skipping the already-seen ids is a plain filter |
| `Deduplication.RemoveDuplicates` | data.js:212-219 | the loop with its `seen` set returns exactly `Dedup` of its input |
| `Decimal.NatToString` | data.js:247 | a number prints as a non-empty string of digits with no leading zero |
| `Decimal.ParseNatToString` | data.js:247 | reading the printed digits back gives the number |
| `Decimal.NatToStringInjective` | data.js:247 | different numbers print differently |
| `Store.SequentialIdInjective` | data.js:247 | ids `u<m>` and `u<n>` (or `c<m>` and `c<n>`) are equal only when `m = n` |
| `Store.NextUserIdIsFresh` | data.js:246-252 | when users are numbered `u1..un`, the id given to the next registration belongs to no registered user |
| `Store.NextClubIdIsFresh` | data.js:297-303 | when clubs are numbered `c1..cn`, the id given to the next demo club belongs to no existing club |
| `Store.FindSignIn` | data.js:223-225 | returns the first user whose username or email and password match, and `None` exactly when none does |
| `Store.FindClash` | data.js:235-237 | returns a user sharing the username or the email, and `None` exactly when none does |
| `Store.CampusNexusData.constructor` | data.js:3-10 | the store starts with the given tables and signed-in user |
| `Store.CampusNexusData.IsAuthenticated` | data.js:265-267 | true exactly when a user is signed in (used in the contracts of the three session methods) |
| `Store.CampusNexusData.GetCurrentUser` | data.js:269-271 | returns the signed-in user, and `None` exactly when `isAuthenticated()` is false |
| `Store.CampusNexusData.AuthenticateUser` | data.js:222-232 | on a match, returns the first matching user, makes them the current user and so makes `isAuthenticated()` true; without a match, returns `None` and leaves the session as it was; users never change |
| `Store.CampusNexusData.RegisterUser` | data.js:234-258 | rejected with the duplicate message, users unchanged, exactly when some user shares the username or email; otherwise appends exactly one user `u<old length + 1>` carrying the form data, and leaves earlier entries as they were; with the numbering invariant, the new id belongs to no earlier user; keeps the invariant |
| `Store.CampusNexusData.Logout` | data.js:260-263 | clears the current user, so `isAuthenticated()` is false |
| `Store.CampusNexusData.AddDemoClub` | data.js:296-306 | appends and returns exactly one club `c<n>` named `New Club <n>`, where `n` is the old club count plus one, with the given category and colour; with the numbering invariant, the new id belongs to no earlier club; keeps the invariant |

## Left out

- `saveToStorage` and `loadFromStorage` are `localStorage` and JSON I/O. Saving is a no-op here, and the constructor takes the tables that loading would restore.
- `init`, `generateDemoData`, `generateDemoUsers` and `getRandomIndices` are driven by `Math.random` and `Date`. `getRandomIndices` is a loop whose termination depends on chance. Their output is taken as the constructor's input.
- `getClubHealth` is floating-point arithmetic, and it divides by zero for a club with no members.
- script.js is not part of this model. It holds DOM rendering, event wiring and animations. One of its handlers assigns `currentUser` directly after a registration.
- Timestamps (`joinDate`, `createdAt`) are opaque integer parameters. The club colour is an opaque string parameter. The randomly drawn category of `addDemoClub` is a parameter.
- `RegisterUser` takes a record with the five form fields. The source spreads whatever object it gets into the new user, so extra fields, including an `id` that would override the generated one, are not modelled.
- Results are values, not references. The source returns the same student and user objects it stores, so later mutation of a returned object would also change the store. That sharing is not captured.
- `engagement` is a `real`; JavaScript's `NaN` and rounding are not modelled. Only the `<` comparison with the threshold matters.
- `UnionSize`, `UnionOfUniqueStudents`: they require unique student ids. The store never checks that; when a member's id repeats, the union keeps only the first record per id and the size equation can fail.
