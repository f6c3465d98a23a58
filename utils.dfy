/** CommaSeparatedListContains of pkg/utils/utils.go. */
module Utils {
  import opened GoStrings

  /** The search string is, as a whole, one of the comma-separated elements. */
  predicate ListHas(commaSeparatedList: string, search: string) {
    search in Split(commaSeparatedList, ',')
  }

  /** CommaSeparatedListContains: split the list on commas and compare each
      element with the search string until one is equal. */
  method CommaSeparatedListContains(commaSeparatedList: string, search: string)
    returns (found: bool)
    ensures found <==> ListHas(commaSeparatedList, search)
  {
    var i := 0;
    found := false;
    var list := Split(commaSeparatedList, ',');
    while !found && i < |list|
      invariant 0 <= i <= |list|
      invariant found <==> search in list[..i]
    {
      assert list[..i + 1] == list[..i] + [list[i]];
      found := list[i] == search;
      i := i + 1;
    }
    assert !found ==> list[..i] == list;
  }

  /** A list written by joining elements that hold no comma contains exactly
      those elements. */
  lemma JoinedListHas(elements: seq<string>, search: string)
    requires elements != []
    requires forall i :: 0 <= i < |elements| ==> ',' !in elements[i]
    ensures ListHas(Join(elements, ","), search) <==> search in elements
  {
    SplitJoin(elements, ',');
  }

  /** Elements are compared whole: a list of one element (no comma) contains
      only that exact string, never a prefix or a part of it. */
  lemma SingleElementList(element: string, search: string)
    requires ',' !in element
    ensures ListHas(element, search) <==> search == element
  {
    SplitNoSeparator(element, ',');
  }

  /** Splitting "" gives [""], so the empty list contains the empty string. */
  lemma EmptyListHasEmpty()
    ensures ListHas("", "")
    ensures forall s :: ListHas("", s) <==> s == ""
  {
  }

  /** A search string holding a comma is never found. */
  lemma CommaNeverFound(commaSeparatedList: string, search: string)
    requires ',' in search
    ensures !ListHas(commaSeparatedList, search)
  {
  }
}
