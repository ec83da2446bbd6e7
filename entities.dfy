/** The records the service reads and builds. Only the attributes that the
    service touches are modelled; the JPA entity classes themselves are not
    part of this model. */
module Entities {

  /** A student is looked up by its index; equality of two students is
      equality of their keys, as an SQL comparison of the association does. */
  datatype Student = Student(index: string)

  /** A professor is looked up by its id. */
  datatype Professor = Professor(id: string)

  /** The workflow stage of a thesis. The service only ever sets the first
      stage; the remaining constants of the enumeration are not visible here
      and are represented by their names. */
  datatype MasterThesisStatus =
    | ProfessorThesisRegistration
    | OtherStage(name: string)

  /** An opaque stand-in for `java.time.LocalDateTime`: it is only copied. */
  datatype LocalDateTime = LocalDateTime(instant: int)

  /** The (label, scheduled time) pair of a thesis defence. */
  datatype MasterThesisPresentation = MasterThesisPresentation(labelText: string, dateTime: LocalDateTime)

  /** A thesis as stored: its id is the key the store assigned to it. */
  datatype MasterThesis = MasterThesis(
    id: int,
    status: MasterThesisStatus,
    presentation: MasterThesisPresentation,
    student: Student,
    title: string,
    area: string,
    description: string,
    mentor: Professor,
    firstMember: Professor,
    secondMember: Professor)

  /** Every thesis of a store is stored under its own id. */
  predicate KeyedById(store: map<int, MasterThesis>)
  {
    forall id :: id in store ==> store[id].id == id
  }
}
