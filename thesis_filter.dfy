/** `filterMasterThesis`: an example thesis whose non-null fields are criteria,
    the list of criteria the query lambda assembles from it, and what the
    conjunction of that list selects. */
module ThesisFilter {
  import opened Wrappers
  import opened Entities
  import opened SqlLike

  /** The example thesis handed to the filter. Only the six fields the filter
      consults are kept; `None` stands for a null field. */
  datatype ThesisExample = ThesisExample(
    student: Option<Student>,
    status: Option<MasterThesisStatus>,
    mentor: Option<Professor>,
    firstMember: Option<Professor>,
    secondMember: Option<Professor>,
    title: Option<string>)

  /** One query predicate, as added to the `predicates` list. */
  datatype Criterion =
    | StudentEquals(student: Student)
    | StatusEquals(status: MasterThesisStatus)
    | MentorEquals(mentor: Professor)
    | FirstMemberEquals(firstMember: Professor)
    | SecondMemberEquals(secondMember: Professor)
    | TitleLike(pattern: string)

  /** What the database decides for one predicate and one stored thesis:
      an equality predicate compares one field, and a title pattern that
      wraps a literal in `%` selects the titles containing that literal. */
  predicate Holds(c: Criterion, t: MasterThesis): (r: bool)
    ensures c.TitleLike? && WrapsLiteral(c.pattern) ==>
      (r <==> Contains(t.title, c.pattern[1..|c.pattern| - 1]))
  {
    match c
    case StudentEquals(s) => t.student == s
    case StatusEquals(st) => t.status == st
    case MentorEquals(p) => t.mentor == p
    case FirstMemberEquals(p) => t.firstMember == p
    case SecondMemberEquals(p) => t.secondMember == p
    case TitleLike(pattern) =>
      if WrapsLiteral(pattern) then LikeWrapped(t.title, pattern); Like(t.title, pattern)
      else Like(t.title, pattern)
  }

  /** `criteriaBuilder.and(...)`, folded over the list: it holds iff every
      predicate of the list holds, so the empty AND is true. */
  predicate Conjunction(predicates: seq<Criterion>, t: MasterThesis): (r: bool)
    ensures r <==> forall i :: 0 <= i < |predicates| ==> Holds(predicates[i], t)
  {
    if predicates == [] then true
    else Holds(predicates[0], t) && Conjunction(predicates[1..], t)
  }

  /** The title criterion is only added for a non-null, non-empty title. */
  predicate TitleActive(example: ThesisExample)
  {
    example.title.Some? && example.title.value != ""
  }

  /** The example adds no criterion at all. */
  predicate NoCriteria(example: ThesisExample)
  {
    && example.student.None?
    && example.status.None?
    && example.mentor.None?
    && example.firstMember.None?
    && example.secondMember.None?
    && !TitleActive(example)
  }

  /** The thesis agrees with the example on every non-null equality field. */
  predicate AgreesOnSetFields(example: ThesisExample, t: MasterThesis)
  {
    && (example.student.Some? ==> t.student == example.student.value)
    && (example.status.Some? ==> t.status == example.status.value)
    && (example.mentor.Some? ==> t.mentor == example.mentor.value)
    && (example.firstMember.Some? ==> t.firstMember == example.firstMember.value)
    && (example.secondMember.Some? ==> t.secondMember == example.secondMember.value)
  }

  /** Field by field, what the filter asks of a stored thesis. */
  predicate Matches(example: ThesisExample, t: MasterThesis)
  {
    && AgreesOnSetFields(example, t)
    && (TitleActive(example) ==> Like(t.title, ContainsPattern(example.title.value)))
  }

  /** The theses of a store that the filter selects. */
  function Filtered(store: map<int, MasterThesis>, example: ThesisExample): set<MasterThesis>
  {
    set id | id in store && Matches(example, store[id]) :: store[id]
  }

  /** The body of the query lambda: one predicate per criterion present in
      the example, in the order student, status, mentor, first member,
      second member, title. */
  method ToPredicates(example: ThesisExample) returns (predicates: seq<Criterion>)
    ensures forall t :: Conjunction(predicates, t) <==> Matches(example, t)
    ensures predicates == [] <==> NoCriteria(example)
    ensures |predicates| <= 6
  {
    predicates := EqualityPredicates(example);
    if example.title.Some? && example.title.value != "" {
      predicates := Append(predicates, TitleLike(ContainsPattern(example.title.value)));
    }
  }

  /** The first five steps of the lambda: an equality predicate for each
      non-null field among student, status, mentor, first and second member. */
  method EqualityPredicates(example: ThesisExample) returns (predicates: seq<Criterion>)
    ensures forall t :: Conjunction(predicates, t) <==> AgreesOnSetFields(example, t)
    ensures predicates == [] <==>
      && example.student.None? && example.status.None? && example.mentor.None?
      && example.firstMember.None? && example.secondMember.None?
    ensures |predicates| <= 5
  {
    predicates := [];
    if example.student.Some? {
      predicates := Append(predicates, StudentEquals(example.student.value));
    }
    if example.status.Some? {
      predicates := Append(predicates, StatusEquals(example.status.value));
    }
    if example.mentor.Some? {
      predicates := Append(predicates, MentorEquals(example.mentor.value));
    }
    if example.firstMember.Some? {
      predicates := Append(predicates, FirstMemberEquals(example.firstMember.value));
    }
    if example.secondMember.Some? {
      predicates := Append(predicates, SecondMemberEquals(example.secondMember.value));
    }
  }

  /** `predicates.add(c)`: the conjunction of the longer list is the old
      conjunction and `c`. */
  method Append(predicates: seq<Criterion>, c: Criterion) returns (longer: seq<Criterion>)
    ensures longer == predicates + [c]
    ensures forall t :: Conjunction(longer, t) <==> Conjunction(predicates, t) && Holds(c, t)
  {
    longer := predicates + [c];
    assert forall i :: 0 <= i < |predicates| ==> longer[i] == predicates[i];
    assert longer[|predicates|] == c;
  }

  /** For a title without wildcards, the filter is exactly the conjunction of
      equality on the non-null fields and substring containment of a
      non-empty title. */
  lemma ExactConjunction(example: ThesisExample, t: MasterThesis)
    requires example.title.Some? ==> Literal(example.title.value)
    ensures Matches(example, t) <==>
      && AgreesOnSetFields(example, t)
      && (TitleActive(example) ==> Contains(t.title, example.title.value))
  {
    if TitleActive(example) {
      LikeContains(t.title, example.title.value);
    }
  }

  /** The filter with a literal title selects a stored thesis exactly when it
      satisfies the field-by-field conjunction. */
  lemma FilteredIsConjunction(store: map<int, MasterThesis>, example: ThesisExample, id: int)
    requires id in store
    requires example.title.Some? ==> Literal(example.title.value)
    ensures store[id] in Filtered(store, example) <==>
      && AgreesOnSetFields(example, store[id])
      && (TitleActive(example) ==> Contains(store[id].title, example.title.value))
  {
    ExactConjunction(example, store[id]);
  }

  /** Every selected thesis is the one stored under its id. */
  lemma FilteredAreStored(store: map<int, MasterThesis>, example: ThesisExample)
    requires KeyedById(store)
    ensures forall t :: t in Filtered(store, example) ==> t.id in store && store[t.id] == t
  {
  }

  /** An example without criteria selects every stored thesis. */
  lemma EmptyExampleSelectsAll(store: map<int, MasterThesis>, example: ThesisExample)
    requires NoCriteria(example)
    ensures forall id :: id in store ==> store[id] in Filtered(store, example)
  {
  }

  /** `finer` keeps every criterion of `coarser` and may add more. */
  predicate AddsCriteria(finer: ThesisExample, coarser: ThesisExample)
  {
    && (coarser.student.Some? ==> finer.student == coarser.student)
    && (coarser.status.Some? ==> finer.status == coarser.status)
    && (coarser.mentor.Some? ==> finer.mentor == coarser.mentor)
    && (coarser.firstMember.Some? ==> finer.firstMember == coarser.firstMember)
    && (coarser.secondMember.Some? ==> finer.secondMember == coarser.secondMember)
    && (TitleActive(coarser) ==> finer.title == coarser.title)
  }

  /** Adding a criterion never enlarges the result. */
  lemma AddingCriteriaNarrows(store: map<int, MasterThesis>, finer: ThesisExample, coarser: ThesisExample)
    requires AddsCriteria(finer, coarser)
    ensures Filtered(store, finer) <= Filtered(store, coarser)
  {
  }
}
