/**
 * The grocery search of the grocery list screen: a fixed catalog of product
 * names and the list shown for the current search text, which keeps, in
 * catalog order, every name whose lower-cased form includes the lower-cased
 * search text.
 *
 * The search text is a plain parameter here; in the application it is the
 * screen's `search` state, updated on every keystroke.
 */
module GroceryList {
  import opened Text
  import opened Filtering

  /** The product catalog, in display order. */
  const Catalog: seq<string> := [
    "Apples",
    "Bananas",
    "Carrots",
    "Milk",
    "Eggs",
    "Bread",
    "Cheese",
    "Rice",
    "Potatoes",
    "Tomatoes"
  ]

  /**
   * `item.toLowerCase().includes(search.toLowerCase())`: holds exactly when the
   * lower-cased name has the lower-cased search text as a substring.
   */
  predicate Matches(item: string, search: string): (b: bool)
    ensures b <==> Contains(ToLower(item), ToLower(search))
  {
    Includes(ToLower(item), ToLower(search))
  }

  /** The callback handed to `filter` for search text `search`: it accepts exactly the matching names. */
  function MatchesSearch(search: string): (keep: string -> bool)
    ensures forall item :: keep(item) <==> Contains(ToLower(item), ToLower(search))
  {
    item => Matches(item, search)
  }

  /**
   * The list shown for search text `search`: exactly the catalog names whose
   * lower-cased form contains the lower-cased search text, in catalog order,
   * each once.
   */
  function FilteredGroceries(search: string): (r: seq<string>)
    ensures IsSubsequence(r, Catalog) && |r| <= |Catalog|
    ensures Distinct(r)
    ensures forall x :: x in r <==> x in Catalog && Contains(ToLower(x), ToLower(search))
  {
    var keep := MatchesSearch(search);
    FilterSubsequence(Catalog, keep);
    CatalogDistinct();
    FilterDistinct(Catalog, keep);
    forall x ensures x in Filter(Catalog, keep) <==> x in Catalog && Contains(ToLower(x), ToLower(search)) {
      FilterMembers(Catalog, keep, x);
    }
    Filter(Catalog, keep)
  }

  /** The catalog names are pairwise distinct, so the list can use each name as its item key. */
  lemma CatalogDistinct()
    ensures Distinct(Catalog)
  {
  }

  /** An empty search text shows the whole catalog, unchanged. */
  lemma EmptySearchShowsAll()
    ensures FilteredGroceries("") == Catalog
  {
    forall i | 0 <= i < |Catalog|
      ensures MatchesSearch("")(Catalog[i])
    {
      EmptyContained(ToLower(Catalog[i]));
    }
    FilterKeepsAll(Catalog, MatchesSearch(""));
  }

  /** Filtering the shown list again with the same search text changes nothing. */
  lemma SearchIdempotent(search: string)
    ensures Filter(FilteredGroceries(search), MatchesSearch(search)) == FilteredGroceries(search)
  {
    FilterIdempotent(Catalog, MatchesSearch(search));
  }

  /** Two search texts with the same lower-cased form show the same list. */
  lemma SearchCaseInsensitive(s1: string, s2: string)
    requires ToLower(s1) == ToLower(s2)
    ensures FilteredGroceries(s1) == FilteredGroceries(s2)
  {
    forall item ensures MatchesSearch(s1)(item) == MatchesSearch(s2)(item) {
      assert Matches(item, s1) == Includes(ToLower(item), ToLower(s2));
    }
    FilterAgree(Catalog, MatchesSearch(s1), MatchesSearch(s2));
  }

  /**
   * Typing more narrows the list: if the lower-cased `longer` contains the
   * lower-cased `shorter` (whatever the case in which either was typed), the
   * list for `longer` is a subsequence of the list for `shorter`.
   */
  lemma SearchNarrows(shorter: string, longer: string)
    requires Contains(ToLower(longer), ToLower(shorter))
    ensures IsSubsequence(FilteredGroceries(longer), FilteredGroceries(shorter))
  {
    forall i | 0 <= i < |Catalog| && MatchesSearch(longer)(Catalog[i])
      ensures MatchesSearch(shorter)(Catalog[i])
    {
      ContainsTransitive(ToLower(Catalog[i]), ToLower(longer), ToLower(shorter));
    }
    FilterMonotone(Catalog, MatchesSearch(longer), MatchesSearch(shorter));
  }

  /** Typing more in the same case narrows the list: a corollary of `SearchNarrows`. */
  lemma SearchExtends(shorter: string, longer: string)
    requires Contains(longer, shorter)
    ensures IsSubsequence(FilteredGroceries(longer), FilteredGroceries(shorter))
  {
    ToLowerPreservesContains(longer, shorter);
    SearchNarrows(shorter, longer);
  }

  /** None of "Apples", "Bananas" and "Carrots" matches the search text "MILK". */
  lemma MilkSearchApplesToCarrots()
    ensures forall i :: 0 <= i < 3 ==> !MatchesSearch("MILK")(Catalog[i])
  {
  }

  /** "Milk" matches the search text "MILK". */
  lemma MilkSearchFindsMilk()
    ensures MatchesSearch("MILK")(Catalog[3])
  {
  }

  /** None of "Eggs", "Bread" and "Cheese" matches the search text "MILK". */
  lemma MilkSearchEggsToCheese()
    ensures forall i :: 4 <= i < 7 ==> !MatchesSearch("MILK")(Catalog[i])
  {
  }

  /** None of "Rice", "Potatoes" and "Tomatoes" matches the search text "MILK". */
  lemma MilkSearchRiceToTomatoes()
    ensures forall i :: 7 <= i < |Catalog| ==> !MatchesSearch("MILK")(Catalog[i])
  {
  }

  /** Worked example: the upper-case search "MILK" finds "Milk" and nothing else. */
  lemma MilkExample()
    ensures FilteredGroceries("MILK") == ["Milk"]
  {
    var keep := MatchesSearch("MILK");
    MilkSearchApplesToCarrots();
    MilkSearchFindsMilk();
    MilkSearchEggsToCheese();
    MilkSearchRiceToTomatoes();
    var before, milk, after := Catalog[..3], [Catalog[3]], Catalog[4..];
    assert Catalog == before + milk + after;
    FilterKeepsNone(before, keep);
    FilterKeepsAll(milk, keep);
    FilterKeepsNone(after, keep);
    FilterConcat(before, milk, keep);
    FilterConcat(before + milk, after, keep);
  }

  /** Worked example: the lower-case search "milk" shows the same list as "MILK". */
  lemma LowerCaseMilkExample()
    ensures FilteredGroceries("milk") == ["Milk"]
  {
    assert ToLower("milk") == ToLower("MILK");
    SearchCaseInsensitive("milk", "MILK");
    MilkExample();
  }

  /** None of "Apples", "Bananas", "Carrots" and "Milk" contains "toes". */
  lemma ToesSearchApplesToMilk()
    ensures forall i :: 0 <= i < 4 ==> !MatchesSearch("toes")(Catalog[i])
  {
  }

  /** None of "Eggs", "Bread", "Cheese" and "Rice" contains "toes". */
  lemma ToesSearchEggsToRice()
    ensures forall i :: 4 <= i < 8 ==> !MatchesSearch("toes")(Catalog[i])
  {
  }

  /** Both "Potatoes" and "Tomatoes" contain "toes". */
  lemma ToesSearchPotatoesTomatoes()
    ensures forall i :: 8 <= i < |Catalog| ==> MatchesSearch("toes")(Catalog[i])
  {
  }

  /** Worked example: a substring anywhere in the name matches, and the list keeps catalog order. */
  lemma ToesExample()
    ensures FilteredGroceries("toes") == ["Potatoes", "Tomatoes"]
  {
    var keep := MatchesSearch("toes");
    ToesSearchApplesToMilk();
    ToesSearchEggsToRice();
    ToesSearchPotatoesTomatoes();
    var before, after := Catalog[..8], Catalog[8..];
    assert Catalog == before + after;
    FilterKeepsNone(before, keep);
    FilterKeepsAll(after, keep);
    FilterConcat(before, after, keep);
  }
}
