# Master's thesis registration service — a Dafny model

This project models `MasterThesisServiceImpl`, the service of the
`vp.magisterski` application that registers master's theses, looks them up by
id, pages through them and filters them by an example thesis.

- **Registration (`save`).** The service resolves the student index, then the
  mentor id, then the first member's id, then the second member's id. The
  first reference that does not resolve decides the exception:
  `StudentDoesNotExistException` carrying the index, or
  `ProfessorDoesNotExistException` carrying the professor id. Only when all
  four resolve does it build a thesis and store it. The thesis has status
  `PROFESSOR_THESIS_REGISTRATION` and a presentation with an empty label and
  the caller's date. The exceptions become the `SaveResult` datatype.
- **Lookup (`findThesisById`).** A map lookup that gives `None` for an
  unknown id.
- **Paging (`findAll(Pageable)`).** One slice of the stored theses, with the
  total count.
- **Filtering (`filterMasterThesis`).** The query lambda adds one predicate
  for each non-null field of the example thesis: student, status, mentor,
  first member, second member. A non-null, non-empty title adds
  `title LIKE '%' + title + '%'`. The store returns the theses that satisfy
  the AND of that list; an empty AND selects every thesis.

The three repositories become maps: student index → student, professor id →
professor, thesis id → thesis. The student and professor stores are only read,
so they are constant fields of the service class. The thesis store is a field
that `Save` extends, next to the counter that fresh ids are drawn from.

`LIKE` is modelled as a matcher (`SqlLike.Like`): `%` matches any run of
characters and `_` matches one character. The model proves that for a title
without `%`, `_` or backslash the title criterion is exactly substring containment
(`SqlLike.LikeContains`). It also proves that `_` in a title acts as a
wildcard, so such a title can select theses that do not contain it
(`SqlLike.UnderscoreIsAWildcard`).

A "Graph" filter selects "Subgraph Mining" only under a case-insensitive
database collation. The code leaves case to the database. The model compares
case-sensitively, and `Scenarios.GraphSelection` proves that "Subgraph Mining"
is not selected.

Files: `wrappers.dfy` (Option), `entities.dfy` (the records),
`sql_like.dfy`, `thesis_filter.dfy`, `paging.dfy`, `thesis_service.dfy`
(the service class), `scenarios.dfy` (clients of the service).

## Model

| member | source | states |
|---|---|---|
| `ThesisService.MasterThesisService.constructor` | src/main/java/vp/magisterski/service/impl/MasterThesisServiceImpl.java:34-38 | the service keeps the given student, professor and thesis stores (a thesis store may already hold theses, each under its own id) and draws new ids from the given first free id on |
| `ThesisService.MasterThesisService.Save` | src/main/java/vp/magisterski/service/impl/MasterThesisServiceImpl.java:41-54 | an unknown student index gives `StudentNotFound(index)` whatever the professor ids are; otherwise the first unknown id among mentor, first member, second member gives `ProfessorNotFound` with that id; success iff all four resolve, with no distinctness required among the professors; on an error the store and the id counter are unchanged; on success exactly one entry is added under an id not used before and all others are kept; the new thesis has status `ProfessorThesisRegistration`, presentation ("", dateTime), the given title, area and description, and the resolved student and professors, whose keys are the requested ones |
| `ThesisService.MasterThesisService.Persist` | src/main/java/vp/magisterski/service/impl/MasterThesisServiceImpl.java:53 | the repository's save of a new thesis stores it under a fresh id, returns it with that id, and keeps every existing entry |
| `ThesisService.MasterThesisService.FindThesisById` | src/main/java/vp/magisterski/service/impl/MasterThesisServiceImpl.java:57-59 | returns a value iff the id is stored, and then the thesis stored under it, whose own id is that id; it changes nothing |
| `ThesisService.MasterThesisService.FindAll` | src/main/java/vp/magisterski/service/impl/MasterThesisServiceImpl.java:62-64 | the page echoes the request, its total is the store size, it holds at most page-size stored theses with none twice, it is empty past the end, and otherwise holds page-size theses or, on a partial last page, store size minus offset |
| `ThesisService.MasterThesisService.FilterMasterThesis` | src/main/java/vp/magisterski/service/impl/MasterThesisServiceImpl.java:67-97 | the result is the set of stored theses that satisfy `Matches` for the example, and each is the thesis stored under its id |
| `ThesisFilter.ToPredicates` | src/main/java/vp/magisterski/service/impl/MasterThesisServiceImpl.java:68-96 | the AND of the assembled predicate list holds of a thesis iff `Matches` does; the list is empty iff the example has no criterion; it has at most six entries |
| `ThesisFilter.EqualityPredicates` | src/main/java/vp/magisterski/service/impl/MasterThesisServiceImpl.java:69-89 | the AND of the five equality predicates holds iff the thesis agrees with every non-null field among student, status, mentor, first and second member; the list is empty iff all five are null |
| `ThesisFilter.Append` | src/main/java/vp/magisterski/service/impl/MasterThesisServiceImpl.java:72 | adding a predicate to the list conjoins it to what the list required |
| `ThesisFilter.ExactConjunction` | src/main/java/vp/magisterski/service/impl/MasterThesisServiceImpl.java:69-95 | for a title without wildcards, a thesis matches iff it equals the example on every non-null equality field and, when the example title is non-null and non-empty, its title contains that title |
| `ThesisFilter.FilteredIsConjunction` | src/main/java/vp/magisterski/service/impl/MasterThesisServiceImpl.java:67-96 | for a title without wildcards, a stored thesis is in the filter result iff it satisfies that exact conjunction |
| `ThesisFilter.FilteredAreStored` | src/main/java/vp/magisterski/service/impl/MasterThesisServiceImpl.java:68 | every thesis the filter returns is the one stored under its id |
| `ThesisFilter.EmptyExampleSelectsAll` | src/main/java/vp/magisterski/service/impl/MasterThesisServiceImpl.java:91-95 | with all five fields null and the title null or empty, every stored thesis is selected |
| `ThesisFilter.AddingCriteriaNarrows` | src/main/java/vp/magisterski/service/impl/MasterThesisServiceImpl.java:69-95 | an example that keeps every criterion of another and adds more selects a subset of what the other selects |
| `ThesisFilter.Holds` | src/main/java/vp/magisterski/service/impl/MasterThesisServiceImpl.java:72-92 | an equality predicate holds iff the thesis field equals the example's value; a title `LIKE` whose pattern wraps a wildcard-free literal in `%` holds iff the title contains the literal |
| `ThesisFilter.Conjunction` | src/main/java/vp/magisterski/service/impl/MasterThesisServiceImpl.java:95 | `criteriaBuilder.and` over the list holds iff every predicate of the list holds, so the AND of the empty list is true |
| `SqlLike.Like` | src/main/java/vp/magisterski/service/impl/MasterThesisServiceImpl.java:92 | the `LIKE` match, with `%` matching any run of characters and `_` one character; a pattern without wildcards matches exactly itself |
| `SqlLike.LikeWrapped` | src/main/java/vp/magisterski/service/impl/MasterThesisServiceImpl.java:92 | a pattern that is a wildcard-free literal wrapped in `%` matches exactly the strings containing that literal |
| `SqlLike.ContainsPattern` | src/main/java/vp/magisterski/service/impl/MasterThesisServiceImpl.java:92 | the pattern is the title wrapped in one `%` on each side |
| `SqlLike.PercentMatchesAll` | src/main/java/vp/magisterski/service/impl/MasterThesisServiceImpl.java:92 | `LIKE '%'` matches every string, the empty one included |
| `SqlLike.LikePrefix` | src/main/java/vp/magisterski/service/impl/MasterThesisServiceImpl.java:92 | a wildcard-free pattern followed by `%` matches exactly the strings it is a prefix of |
| `SqlLike.LikeContains` | src/main/java/vp/magisterski/service/impl/MasterThesisServiceImpl.java:92 | `LIKE '%' + p + '%'` with a wildcard-free `p` holds exactly when the string contains `p` |
| `SqlLike.UnderscoreIsAWildcard` | src/main/java/vp/magisterski/service/impl/MasterThesisServiceImpl.java:91-92 | the title criterion "a_c" selects the title "abc", which does not contain "a_c" |
| `Paging.InIdOrder` | src/main/java/vp/magisterski/service/impl/MasterThesisServiceImpl.java:63 | the store's listing holds only stored theses and every thesis stored under an id below the bound |
| `Paging.InIdOrderLength` | src/main/java/vp/magisterski/service/impl/MasterThesisServiceImpl.java:63 | the listing has one entry per stored id below the bound |
| `Paging.InIdOrderIncreasing` | src/main/java/vp/magisterski/service/impl/MasterThesisServiceImpl.java:63 | in a store keyed by id the listing's ids are below the bound and strictly increasing |
| `Paging.ListingOfKeyedStore` | src/main/java/vp/magisterski/service/impl/MasterThesisServiceImpl.java:63 | the listing of a valid store has the store's size, holds every stored thesis and none twice |
| `Paging.Slice` | src/main/java/vp/magisterski/service/impl/MasterThesisServiceImpl.java:63 | a page holds at most page-size entries, its i-th entry is the listing's entry at offset + i, it is empty past the end, otherwise its length is page size or, on a partial last page, listing length minus offset, and it has no repeats when the listing has none |
| `Scenarios.RegisterThenFind` | src/main/java/vp/magisterski/service/impl/MasterThesisServiceImpl.java:41-59 | a thesis that was just saved is found under the id it was given, equal to what was returned |
| `Scenarios.RegisterTwice` | src/main/java/vp/magisterski/service/impl/MasterThesisServiceImpl.java:41-53 | two saves with the same arguments both succeed or both fail; on success they store two theses that differ only in their ids |
| `Scenarios.SameProfessorInEveryRole` | src/main/java/vp/magisterski/service/impl/MasterThesisServiceImpl.java:44-52 | a save naming one professor as mentor, first and second member succeeds |
| `Scenarios.UnknownMentorReportedFirst` | src/main/java/vp/magisterski/service/impl/MasterThesisServiceImpl.java:44-49 | with the mentor and both members unknown, the error carries the mentor's id and nothing is stored |
| `Scenarios.GraphSelection` | src/main/java/vp/magisterski/service/impl/MasterThesisServiceImpl.java:91-92 | the title criterion "Graph" selects "Graph Algorithms" and neither "Subgraph Mining" nor "Tree Search" |
| `Scenarios.GraphStoreSelection` | src/main/java/vp/magisterski/service/impl/MasterThesisServiceImpl.java:67-96 | over a store of those three theses, the "Graph" filter returns exactly the first |
| `Scenarios.FilterByTitle` | src/main/java/vp/magisterski/service/impl/MasterThesisServiceImpl.java:41-97 | after registering the three theses through the service, filtering by "Graph" returns exactly "Graph Algorithms" |

## Left out

- Spring and JPA machinery is not modelled: the `@Service` wiring, the repository interfaces, `Specification`, `CriteriaBuilder`, `root.get(...)` and `Predicate` objects. Repositories are maps; predicates are the `Criterion` datatype evaluated by `ThesisFilter.Holds`.
- The entity classes are not part of this model. Students and professors are records holding only their key. An SQL comparison of an association compares keys, which is what `==` on these records does. A thesis keeps only the fields the service sets or reads.
- The thesis statuses other than `PROFESSOR_THESIS_REGISTRATION` are not visible. They are represented by `OtherStage(name)`.
- `LocalDateTime` is an opaque value that is only copied. `DateTimeFormatter` is imported but unused.
- `LIKE` has no escape character here. Several databases (PostgreSQL, MySQL, H2) use backslash as the default escape when a query names none, and that is not modelled. `SqlLike.Literal` excludes the backslash, so the containment lemmas hold on those databases too. The database collation is not modelled either; comparison is case-sensitive.
- Id generation: ids come from a counter that starts at the first free id given to the constructor. No claim is made about the numbering a real store uses, only that a new id is not already in use. Overflow of the 64-bit id is not modelled.
- `FindAll`: the store's default order is taken to be ascending id, and sort requests and `Pageable.unpaged()` are not modelled. The contract promises only what any ordering gives: membership, no repeats, page size, total count, empty and full pages.
- `FilterMasterThesis`: the Java method returns a `List` in the store's order. The model returns a set; each stored thesis appears once because it carries its own id.
- Null arguments are not modelled: a null id passed to a repository's `findById` makes Spring throw `IllegalArgumentException`. Strings and ids here are never null; a null field of the filter example is `None`.
- The student and professor stores are constant for the lifetime of a service object. Changes to them made by other code are not modelled.
- Database failures, transactions and concurrent saves are not modelled.
