/** `findAll(Pageable)`: one page of the stored theses. The store's own
    ordering is taken to be ascending id; sorting requests are not part of
    this model. */
module Paging {
  import opened Entities

  /** Spring refuses a page size below one. */
  type PageSize = n: nat | n > 0 witness 1

  /** The page request: a zero-based page number and a page size. */
  datatype Pageable = Pageable(pageNumber: nat, pageSize: PageSize)

  /** One page of results with the total count of the store. */
  datatype Page = Page(content: seq<MasterThesis>, pageable: Pageable, totalElements: nat)

  /** The ids of `store` in `[0, bound)`. */
  function KeysBelow(store: map<int, MasterThesis>, bound: nat): set<int>
  {
    set id | id in store && 0 <= id < bound
  }

  /** The theses stored under ids in `[0, bound)`, in ascending id order. */
  function InIdOrder(store: map<int, MasterThesis>, bound: nat): (listing: seq<MasterThesis>)
    ensures forall i :: 0 <= i < |listing| ==> listing[i] in store.Values
    ensures forall id :: 0 <= id < bound && id in store ==> store[id] in listing
  {
    if bound == 0 then []
    else InIdOrder(store, bound - 1) + (if bound - 1 in store then [store[bound - 1]] else [])
  }

  /** The listing holds one entry per id below the bound. */
  lemma {:induction false} InIdOrderLength(store: map<int, MasterThesis>, bound: nat)
    ensures |InIdOrder(store, bound)| == |KeysBelow(store, bound)|
  {
    if bound > 0 {
      InIdOrderLength(store, bound - 1);
      var below := KeysBelow(store, bound - 1);
      if bound - 1 in store {
        assert KeysBelow(store, bound) == below + {bound - 1};
        assert bound - 1 !in below;
      } else {
        assert KeysBelow(store, bound) == below;
      }
    }
  }

  /** In a store keyed by id, the listing is strictly increasing in id, so no
      thesis appears twice. */
  lemma {:induction false} InIdOrderIncreasing(store: map<int, MasterThesis>, bound: nat)
    requires KeyedById(store)
    ensures forall i :: 0 <= i < |InIdOrder(store, bound)| ==> 0 <= InIdOrder(store, bound)[i].id < bound
    ensures forall i, j :: 0 <= i < j < |InIdOrder(store, bound)| ==>
      InIdOrder(store, bound)[i].id < InIdOrder(store, bound)[j].id
  {
    if bound > 0 {
      InIdOrderIncreasing(store, bound - 1);
    }
  }

  /** The listing of a store keyed by id whose ids all lie in `[0, bound)`
      holds every stored thesis exactly once. */
  lemma ListingOfKeyedStore(store: map<int, MasterThesis>, bound: nat)
    requires KeyedById(store)
    requires forall id :: id in store ==> 0 <= id < bound
    ensures |InIdOrder(store, bound)| == |store|
    ensures forall t :: t in store.Values ==> t in InIdOrder(store, bound)
    ensures Distinct(InIdOrder(store, bound))
  {
    InIdOrderLength(store, bound);
    InIdOrderIncreasing(store, bound);
    assert KeysBelow(store, bound) == store.Keys;
  }

  /** The position of the first entry of the requested page. */
  function Offset(pageable: Pageable): nat
  {
    pageable.pageNumber * pageable.pageSize
  }

  /** No entry of the sequence appears twice. */
  predicate Distinct(listing: seq<MasterThesis>)
  {
    forall i, j :: 0 <= i < j < |listing| ==> listing[i] != listing[j]
  }

  /** The slice `[Offset, Offset + pageSize)` of a listing, cut at its end. */
  function Slice(listing: seq<MasterThesis>, pageable: Pageable): (content: seq<MasterThesis>)
    ensures |content| <= pageable.pageSize
    ensures forall i :: 0 <= i < |content| ==>
      Offset(pageable) + i < |listing| && content[i] == listing[Offset(pageable) + i]
    ensures Offset(pageable) >= |listing| ==> content == []
    ensures Offset(pageable) < |listing| ==>
      |content| == if Offset(pageable) + pageable.pageSize <= |listing| then pageable.pageSize
                   else |listing| - Offset(pageable)
    ensures Distinct(listing) ==> Distinct(content)
  {
    var start := Offset(pageable);
    if start >= |listing| then []
    else if start + pageable.pageSize <= |listing| then listing[start..start + pageable.pageSize]
    else listing[start..]
  }
}
