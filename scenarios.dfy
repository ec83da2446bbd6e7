/** Clients of the service: what a caller can conclude from the contracts of
    `Save`, `FindThesisById` and `FilterMasterThesis` alone. */
module Scenarios {
  import opened Wrappers
  import opened Entities
  import opened SqlLike
  import opened ThesisFilter
  import opened ThesisService

  /** A thesis that was just registered is found under the id it was given. */
  method RegisterThenFind(service: MasterThesisService, studentIndex: string, dateTime: LocalDateTime,
                          title: string, area: string, description: string,
                          mentorId: string, firstMemberId: string, secondMemberId: string)
    returns (r: SaveResult, found: Option<MasterThesis>)
    requires service.Valid()
    modifies service
    ensures service.Valid()
    ensures r.Ok? ==> found == Some(r.thesis)
    ensures !r.Ok? ==> found == None
  {
    r := service.Save(studentIndex, dateTime, title, area, description, mentorId, firstMemberId, secondMemberId);
    found := None;
    if r.Ok? {
      found := service.FindThesisById(r.thesis.id);
    }
  }

  /** Registration does not deduplicate: two calls with the same arguments
      store two theses under two different ids. */
  method RegisterTwice(service: MasterThesisService, studentIndex: string, dateTime: LocalDateTime,
                       title: string, area: string, description: string,
                       mentorId: string, firstMemberId: string, secondMemberId: string)
    returns (first: SaveResult, second: SaveResult)
    requires service.Valid()
    modifies service
    ensures service.Valid()
    ensures first.Ok? <==> second.Ok?
    ensures first.Ok? ==>
      && first.thesis.id != second.thesis.id
      && first.thesis == second.thesis.(id := first.thesis.id)
      && service.theses == old(service.theses)[first.thesis.id := first.thesis][second.thesis.id := second.thesis]
    ensures !first.Ok? ==> first == second && service.theses == old(service.theses)
  {
    first := service.Save(studentIndex, dateTime, title, area, description, mentorId, firstMemberId, secondMemberId);
    second := service.Save(studentIndex, dateTime, title, area, description, mentorId, firstMemberId, secondMemberId);
  }

  /** One professor may fill all three roles of a thesis. */
  method SameProfessorInEveryRole(dateTime: LocalDateTime) returns (r: SaveResult)
    ensures r.Ok?
    ensures r.thesis.mentor == r.thesis.firstMember == r.thesis.secondMember == Professor("p1")
  {
    var service := new MasterThesisService(map["161001" := Student("161001")], map["p1" := Professor("p1")], map[], 0);
    r := service.Save("161001", dateTime, "Graph Algorithms", "Algorithms", "", "p1", "p1", "p1");
  }

  /** An unknown mentor is reported even when the later members are unknown
      too, and the store keeps its contents. */
  method UnknownMentorReportedFirst(dateTime: LocalDateTime) returns (r: SaveResult, stored: set<MasterThesis>)
    ensures r == ProfessorNotFound("nobody")
    ensures stored == {}
  {
    var service := new MasterThesisService(map["161001" := Student("161001")], map["p1" := Professor("p1")], map[], 0);
    r := service.Save("161001", dateTime, "Graph Algorithms", "Algorithms", "", "nobody", "p2", "p3");
    stored := service.FilterMasterThesis(ThesisExample(None, None, None, None, None, None));
    assert service.theses == map[];
  }

  /** The example whose only criterion is the title "Graph". */
  function GraphExample(): (example: ThesisExample)
    ensures TitleActive(example) && Literal(example.title.value)
  {
    ThesisExample(None, None, None, None, None, Some("Graph"))
  }

  /** A title criterion selects by case-sensitive containment: "Graph"
      selects "Graph Algorithms" but neither "Subgraph Mining" nor
      "Tree Search". */
  lemma GraphSelection(a: MasterThesis, b: MasterThesis, c: MasterThesis)
    requires a.title == "Graph Algorithms" && b.title == "Subgraph Mining" && c.title == "Tree Search"
    ensures Matches(GraphExample(), a)
    ensures !Matches(GraphExample(), b) && !Matches(GraphExample(), c)
  {
    assert "Graph" <= "Graph Algorithms";
    MissingFirstCharacter("Subgraph Mining", "Graph");
    MissingFirstCharacter("Tree Search", "Graph");
    ExactConjunction(GraphExample(), a);
    ExactConjunction(GraphExample(), b);
    ExactConjunction(GraphExample(), c);
  }

  /** In a store holding these three theses, the title "Graph" selects the
      first one only. */
  lemma GraphStoreSelection(store: map<int, MasterThesis>, a: MasterThesis, b: MasterThesis, c: MasterThesis)
    requires a.title == "Graph Algorithms" && b.title == "Subgraph Mining" && c.title == "Tree Search"
    requires store == map[a.id := a, b.id := b, c.id := c]
    requires a.id != b.id && a.id != c.id && b.id != c.id
    ensures Filtered(store, GraphExample()) == {a}
  {
    GraphSelection(a, b, c);
    assert store[a.id] == a;
    assert a in Filtered(store, GraphExample());
    forall t | t in Filtered(store, GraphExample()) ensures t == a {
      var id :| id in store && Matches(GraphExample(), store[id]) && store[id] == t;
    }
  }

  /** Filtering a store of three registrations by the title "Graph" returns
      the one whose title contains it. */
  method FilterByTitle(dateTime: LocalDateTime) returns (result: set<MasterThesis>, graphAlgorithms: MasterThesis)
    ensures graphAlgorithms.title == "Graph Algorithms"
    ensures result == {graphAlgorithms}
  {
    var service := new MasterThesisService(map["161001" := Student("161001")], map["p1" := Professor("p1")], map[], 0);
    var r1 := service.Save("161001", dateTime, "Graph Algorithms", "Algorithms", "", "p1", "p1", "p1");
    var r2 := service.Save("161001", dateTime, "Subgraph Mining", "Data", "", "p1", "p1", "p1");
    var r3 := service.Save("161001", dateTime, "Tree Search", "Algorithms", "", "p1", "p1", "p1");
    GraphStoreSelection(service.theses, r1.thesis, r2.thesis, r3.thesis);
    graphAlgorithms := r1.thesis;
    result := service.FilterMasterThesis(GraphExample());
  }
}
