/** The work list of the admin screen, narrowed by the search box and the
    type buttons (`filteredWorks`). */
module Works {
  import opened Text
  import JsArray

  /** The fields of a work record the list reads. */
  datatype Work = Work(id: string, name: string, kind: string)

  /** The search term occurs in the name, ignoring case, and the type filter
      is `All` or equals the work's type. */
  predicate Matches(w: Work, search: string, typeFilter: string)
  {
    && Includes(ToLower(w.name), ToLower(search))
    && (typeFilter == "All" || w.kind == typeFilter)
  }

  /** `filteredWorks`: the matching works, in their original order. */
  function FilterWorks(works: seq<Work>, search: string, typeFilter: string): (r: seq<Work>)
    ensures forall w :: w in r <==> w in works && Matches(w, search, typeFilter)
    ensures forall w :: multiset(r)[w] == if Matches(w, search, typeFilter) then multiset(works)[w] else 0
    ensures JsArray.IsSubsequence(r, works)
  {
    JsArray.Filter(works, (w: Work) => Matches(w, search, typeFilter))
  }

  /** The name test is a plain substring test on the lower-cased texts. */
  lemma MatchesIffOccurs(w: Work, search: string, typeFilter: string)
    ensures Matches(w, search, typeFilter) <==>
              && (exists i :: OccursAt(ToLower(w.name), ToLower(search), i))
              && (typeFilter == "All" || w.kind == typeFilter)
  {
    IncludesIffOccurs(ToLower(w.name), ToLower(search));
  }

  /** Typing the search in upper or lower case gives the same list. */
  lemma SearchIgnoresCase(works: seq<Work>, search: string, typeFilter: string)
    ensures FilterWorks(works, search, typeFilter) == FilterWorks(works, ToLower(search), typeFilter)
  {
    ToLowerIdempotent(search);
    JsArray.FilterCongruent(works, (w: Work) => Matches(w, search, typeFilter),
                                   (w: Work) => Matches(w, ToLower(search), typeFilter));
  }

  /** With an empty search and the `All` filter, every work is listed. */
  lemma EmptySearchListsAll(works: seq<Work>)
    ensures FilterWorks(works, [], "All") == works
  {
    forall k | 0 <= k < |works|
      ensures Matches(works[k], [], "All")
    {
      IncludesEmpty(ToLower(works[k].name));
    }
    JsArray.FilterKeepAll(works, (w: Work) => Matches(w, [], "All"));
  }
}
