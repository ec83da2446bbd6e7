/** `MasterThesisServiceImpl`: the service over a student store, a professor
    store and a thesis store. The student and professor stores are only read,
    so they are constant maps; the thesis store is a map from id to thesis
    that `Save` extends, with the counter the store draws fresh ids from. */
module ThesisService {
  import opened Wrappers
  import opened Entities
  import opened ThesisFilter
  import opened Paging

  /** The outcome of `save`: the stored thesis, or the exception it throws. */
  datatype SaveResult =
    | Ok(thesis: MasterThesis)
    | StudentNotFound(index: string)
    | ProfessorNotFound(id: string)

  class MasterThesisService {
    const students: map<string, Student>
    const professors: map<string, Professor>
    var theses: map<int, MasterThesis>
    var nextId: int

    /** Every stored thesis sits under its own id, and every id in use is
        below the next fresh one. */
    ghost predicate Valid()
      reads this
    {
      && (forall index :: index in students ==> students[index].index == index)
      && (forall id :: id in professors ==> professors[id].id == id)
      && 0 <= nextId
      && (forall id :: id in theses ==> 0 <= id < nextId && theses[id].id == id)
    }

    /** A service over the given stores. The thesis store may already hold
        theses, each under its own id, and ids from `firstFreeId` on are
        unused. */
    constructor (students: map<string, Student>, professors: map<string, Professor>,
                 theses: map<int, MasterThesis>, firstFreeId: nat)
      requires forall index :: index in students ==> students[index].index == index
      requires forall id :: id in professors ==> professors[id].id == id
      requires KeyedById(theses)
      requires forall id :: id in theses ==> 0 <= id < firstFreeId
      ensures Valid()
      ensures this.students == students && this.professors == professors
      ensures this.theses == theses && nextId == firstFreeId
    {
      this.students := students;
      this.professors := professors;
      this.theses := theses;
      nextId := firstFreeId;
    }

    /** `masterThesisRepository.save` for a new thesis: the store assigns a
        fresh id (the id carried by `unsaved` is ignored, as JPA ignores a
        null id) and keeps every existing entry. */
    method Persist(unsaved: MasterThesis) returns (saved: MasterThesis)
      requires Valid()
      modifies this
      ensures Valid()
      ensures saved == unsaved.(id := saved.id)
      ensures saved.id !in old(theses)
      ensures theses == old(theses)[saved.id := saved]
    {
      saved := unsaved.(id := nextId);
      theses := theses[nextId := saved];
      nextId := nextId + 1;
    }

    /** Registers a thesis. The student is resolved first, then the mentor,
        the first member and the second member; the first reference that does
        not resolve decides the error, and nothing is stored. The three
        professor ids need not differ. */
    method Save(studentIndex: string, dateTime: LocalDateTime, title: string, area: string,
                description: string, mentorId: string, firstMemberId: string, secondMemberId: string)
      returns (r: SaveResult)
      requires Valid()
      modifies this
      ensures Valid()
      ensures studentIndex !in students ==> r == StudentNotFound(studentIndex)
      ensures studentIndex in students && mentorId !in professors ==> r == ProfessorNotFound(mentorId)
      ensures studentIndex in students && mentorId in professors && firstMemberId !in professors ==>
        r == ProfessorNotFound(firstMemberId)
      ensures
        (studentIndex in students && mentorId in professors && firstMemberId in professors
         && secondMemberId !in professors) ==> r == ProfessorNotFound(secondMemberId)
      ensures r.Ok? <==>
        && studentIndex in students && mentorId in professors
        && firstMemberId in professors && secondMemberId in professors
      ensures !r.Ok? ==> theses == old(theses) && nextId == old(nextId)
      ensures r.Ok? ==> r.thesis.id !in old(theses) && theses == old(theses)[r.thesis.id := r.thesis]
      ensures r.Ok? ==>
        && r.thesis.status == ProfessorThesisRegistration
        && r.thesis.presentation == MasterThesisPresentation("", dateTime)
        && r.thesis.student == students[studentIndex] && r.thesis.student.index == studentIndex
        && r.thesis.title == title && r.thesis.area == area && r.thesis.description == description
        && r.thesis.mentor == professors[mentorId] && r.thesis.mentor.id == mentorId
        && r.thesis.firstMember == professors[firstMemberId] && r.thesis.firstMember.id == firstMemberId
        && r.thesis.secondMember == professors[secondMemberId] && r.thesis.secondMember.id == secondMemberId
    {
      if studentIndex !in students {
        return StudentNotFound(studentIndex);
      }
      var student := students[studentIndex];
      if mentorId !in professors {
        return ProfessorNotFound(mentorId);
      }
      var mentor := professors[mentorId];
      if firstMemberId !in professors {
        return ProfessorNotFound(firstMemberId);
      }
      var firstMember := professors[firstMemberId];
      if secondMemberId !in professors {
        return ProfessorNotFound(secondMemberId);
      }
      var secondMember := professors[secondMemberId];
      var presentation := MasterThesisPresentation("", dateTime);
      var unsaved := MasterThesis(nextId, ProfessorThesisRegistration, presentation,
        student, title, area, description, mentor, firstMember, secondMember);
      var saved := Persist(unsaved);
      r := Ok(saved);
    }

    /** Looks a thesis up by id; an unknown id gives `None`, not an error. */
    method FindThesisById(id: int) returns (r: Option<MasterThesis>)
      requires Valid()
      ensures r.Some? <==> id in theses
      ensures r.Some? ==> r.value == theses[id] && r.value.id == id
    {
      r := if id in theses then Some(theses[id]) else None;
    }

    /** One page of the stored theses, with the total count of the store. */
    method FindAll(pageable: Pageable) returns (page: Page)
      requires Valid()
      ensures page.pageable == pageable
      ensures page.totalElements == |theses|
      ensures |page.content| <= pageable.pageSize
      ensures forall i :: 0 <= i < |page.content| ==> page.content[i] in theses.Values
      ensures Distinct(page.content)
      ensures Offset(pageable) >= |theses| ==> page.content == []
      ensures Offset(pageable) < |theses| ==>
        |page.content| == if Offset(pageable) + pageable.pageSize <= |theses| then pageable.pageSize
                          else |theses| - Offset(pageable)
    {
      var listing := InIdOrder(theses, nextId);
      ListingOfKeyedStore(theses, nextId);
      page := Page(Slice(listing, pageable), pageable, |theses|);
    }

    /** The stored theses that satisfy every criterion of the example: the
        lambda's predicate list, evaluated by the store. */
    method FilterMasterThesis(example: ThesisExample) returns (result: set<MasterThesis>)
      requires Valid()
      ensures result == Filtered(theses, example)
      ensures forall t :: t in result ==> t.id in theses && theses[t.id] == t
    {
      var predicates := ToPredicates(example);
      result := set id | id in theses && Conjunction(predicates, theses[id]) :: theses[id];
      FilteredAreStored(theses, example);
    }
  }
}
