/**
 * `HalalFullChatbot.handle_product_search` (app.py): the query is lower-cased
 * and the three-category table is scanned in its written order (beef, chicken,
 * lamb); the first category whose NAME contains the lowered query as a
 * substring is reported with its items, otherwise a fixed message is returned.
 */
module ProductSearch {
  import opened Wrappers
  import opened PyStr

  /** A category name with its product names, in table order. */
  type Category = (string, seq<string>)

  /** The in-method product table, kept in insertion order. */
  const Catalog: seq<Category> := [
    ("beef", ["Angus Beef Ribeye", "Grass-Fed Beef Tenderloin"]),
    ("chicken", ["Organic Whole Chicken", "Chicken Breast Fillets"]),
    ("lamb", ["New Zealand Lamb Chops", "Lamb Shoulder"])
  ]

  /** "No matching products found. Try a different search term." */
  const NoMatch: string := "No matching products found. " + "Try a different search term."

  const MatchPrefix: string := "Matching products in "

  /** `f"Matching products in {category}: {', '.join(items)}"` */
  function MatchLine(category: string, items: seq<string>): (r: string)
    ensures StartsWith(r, MatchPrefix + category + ": ")
    ensures r != NoMatch
  {
    var line := MatchPrefix + category + ": " + Join(items, ", ");
    assert line[0] == MatchPrefix[0] != NoMatch[0];
    line
  }

  /** Category names are pairwise distinct, as the keys of a dictionary are. */
  predicate DistinctNames(table: seq<Category>) {
    forall i, j :: 0 <= i < j < |table| ==> table[i].0 != table[j].0
  }

  /**
   * Specification of the scan: the position of the first category whose name
   * contains `q`, or None when no name does.
   */
  function FirstMatch(table: seq<Category>, q: string): (r: Option<nat>)
    ensures r.Some? ==> r.value < |table| && Contains(table[r.value].0, q)
    ensures r.Some? ==> forall j :: 0 <= j < r.value ==> !Contains(table[j].0, q)
    ensures r.None? <==> forall j :: 0 <= j < |table| ==> !Contains(table[j].0, q)
  {
    if table == [] then None
    else if Contains(table[0].0, q) then Some(0)
    else match FirstMatch(table[1..], q)
      case None => None
      case Some(k) => Some(k + 1)
  }

  /** What the search answers for the already lower-cased query `q`. */
  function SearchResult(table: seq<Category>, q: string): (r: string)
    ensures r == NoMatch || exists k :: 0 <= k < |table| && r == MatchLine(table[k].0, table[k].1)
  {
    match FirstMatch(table, q)
    case None => NoMatch
    case Some(k) => MatchLine(table[k].0, table[k].1)
  }

  /** The for-loop with its early return on the first hit and the fallback after it. */
  method HandleProductSearch(query: string) returns (r: string)
    ensures r == SearchResult(Catalog, Lower(query))
  {
    var products := Catalog;
    var i := 0;
    while i < |products|
      invariant 0 <= i <= |products|
      invariant forall j :: 0 <= j < i ==> !Contains(products[j].0, Lower(query))
    {
      var (category, items) := products[i];
      if Contains(category, Lower(query)) {
        return MatchLine(category, items);
      }
      i := i + 1;
    }
    return NoMatch;
  }

  /**
   * The first category containing `q` has its line as the answer. (The converse
   * needs lines that tell categories apart; for the catalog it is
   * `SearchCatalogLineIff`.)
   */
  lemma SearchFirstMatch(table: seq<Category>, q: string, k: nat)
    requires k < |table|
    ensures SearchResult(table, q) == MatchLine(table[k].0, table[k].1)
        <== Contains(table[k].0, q) && forall j :: 0 <= j < k ==> !Contains(table[j].0, q)
  {
    if Contains(table[k].0, q) && forall j :: 0 <= j < k ==> !Contains(table[j].0, q) {
      var m := FirstMatch(table, q);
      assert m.Some?;
      assert !(m.value < k) && !(k < m.value);
    }
  }

  /** If the answer is a category line, it is the line of the first category containing `q`. */
  lemma SearchMatchMeans(table: seq<Category>, q: string)
    requires SearchResult(table, q) != NoMatch
    ensures exists k :: (0 <= k < |table| && Contains(table[k].0, q)
                         && (forall j :: 0 <= j < k ==> !Contains(table[j].0, q))
                         && SearchResult(table, q) == MatchLine(table[k].0, table[k].1))
  {
    var k := FirstMatch(table, q).value;
    assert Contains(table[k].0, q);
  }

  /** The fixed message is returned exactly when no category name contains `q`. */
  lemma SearchNoMatchIff(table: seq<Category>, q: string)
    ensures SearchResult(table, q) == NoMatch <==> forall j :: 0 <= j < |table| ==> !Contains(table[j].0, q)
  {
    match FirstMatch(table, q)
    case None =>
    case Some(k) =>
      assert MatchLine(table[k].0, table[k].1) != NoMatch;
  }

  /**
   * Only the query is searched for inside the category name, never the
   * reverse: a query longer than every name cannot match.
   */
  lemma {:induction false} LongQueryNoMatch(table: seq<Category>, q: string)
    requires forall j :: 0 <= j < |table| ==> |table[j].0| < |q|
    ensures SearchResult(table, q) == NoMatch
  {
    forall j | 0 <= j < |table|
      ensures !Contains(table[j].0, q)
    {
      if Contains(table[j].0, q) {
        ContainsShorter(table[j].0, q);
      }
    }
    SearchNoMatchIff(table, q);
  }

  /** The search depends only on the query's lower-cased form. */
  lemma SearchCaseInsensitive(a: string, b: string)
    requires EqualIgnoringCase(a, b)
    ensures SearchResult(Catalog, Lower(a)) == SearchResult(Catalog, Lower(b))
  {
    LowerEqualIff(a, b);
  }

  /** Lower-casing an already lowered query changes nothing. */
  lemma SearchLoweredQuery(query: string)
    ensures SearchResult(Catalog, Lower(Lower(query))) == SearchResult(Catalog, Lower(query))
  {
    LowerIdempotent(query);
  }

  // The three possible answer lines, each literal kept short enough for the verifier to unfold.
  const BeefLine: string :=
    "Matching products in beef: " + "Angus Beef Ribeye, " + "Grass-Fed Beef Tenderloin"
  const ChickenLine: string :=
    "Matching products in chicken: " + "Organic Whole Chicken, " + "Chicken Breast Fillets"
  const LambLine: string :=
    "Matching products in lamb: " + "New Zealand Lamb Chops, " + "Lamb Shoulder"

  lemma CatalogDistinct()
    ensures DistinctNames(Catalog)
  {
  }

  lemma BeefLineSpelled()
    ensures MatchLine(Catalog[0].0, Catalog[0].1) == BeefLine
  {
    assert Join(Catalog[0].1, ", ") == "Angus Beef Ribeye" + ", " + "Grass-Fed Beef Tenderloin";
  }

  lemma ChickenLineSpelled()
    ensures MatchLine(Catalog[1].0, Catalog[1].1) == ChickenLine
  {
    assert Join(Catalog[1].1, ", ") == "Organic Whole Chicken" + ", " + "Chicken Breast Fillets";
  }

  lemma LambLineSpelled()
    ensures MatchLine(Catalog[2].0, Catalog[2].1) == LambLine
  {
    assert Join(Catalog[2].1, ", ") == "New Zealand Lamb Chops" + ", " + "Lamb Shoulder";
  }

  /** The three lines the table can produce, spelled out. */
  lemma CatalogLines()
    ensures MatchLine(Catalog[0].0, Catalog[0].1) == BeefLine
    ensures MatchLine(Catalog[1].0, Catalog[1].1) == ChickenLine
    ensures MatchLine(Catalog[2].0, Catalog[2].1) == LambLine
  {
    BeefLineSpelled();
    ChickenLineSpelled();
    LambLineSpelled();
  }

  /** The three category lines of the catalog differ from one another. */
  lemma CatalogLinesDistinct()
    ensures forall i, j :: 0 <= i < j < |Catalog| ==>
      MatchLine(Catalog[i].0, Catalog[i].1) != MatchLine(Catalog[j].0, Catalog[j].1)
  {
    CatalogLines();
    assert BeefLine[21] == 'b' && ChickenLine[21] == 'c' && LambLine[21] == 'l';
  }

  /** On the catalog, the answer is category k's line if and only if k is the first category containing `q`. */
  lemma SearchCatalogLineIff(q: string, k: nat)
    requires k < |Catalog|
    ensures SearchResult(Catalog, q) == MatchLine(Catalog[k].0, Catalog[k].1)
        <==> Contains(Catalog[k].0, q) && forall j :: 0 <= j < k ==> !Contains(Catalog[j].0, q)
  {
    SearchNoMatchIff(Catalog, q);
    CatalogLinesDistinct();
    match FirstMatch(Catalog, q)
    case None =>
      assert MatchLine(Catalog[k].0, Catalog[k].1) != NoMatch;
    case Some(m) =>
      assert m == k || MatchLine(Catalog[m].0, Catalog[m].1) != MatchLine(Catalog[k].0, Catalog[k].1);
  }

  /** "beef", "Beef" and "BEEF" all give the beef line, items joined by ", " in table order. */
  lemma SearchBeef()
    ensures SearchResult(Catalog, Lower("beef")) == BeefLine
    ensures SearchResult(Catalog, Lower("Beef")) == BeefLine
    ensures SearchResult(Catalog, Lower("BEEF")) == BeefLine
  {
    assert Lower("BEEF") == "beef";
    assert Lower("Beef") == "beef";
    assert Lower("beef") == "beef";
    assert Contains(Catalog[0].0, "beef");
    CatalogLines();
  }

  /** "chicken" skips beef and reaches the second category. */
  lemma SearchChicken()
    ensures SearchResult(Catalog, Lower("chicken")) == ChickenLine
  {
    CatalogLines();
    assert Lower("chicken") == "chicken";
    MissingCharNotContains(Catalog[0].0, "chicken");
    assert StartsWith(Catalog[1].0, "chicken");
    SearchFirstMatch(Catalog, "chicken", 1);
  }

  /** "Lamb" skips beef and chicken and reaches the last category. */
  lemma SearchLamb()
    ensures SearchResult(Catalog, Lower("Lamb")) == LambLine
  {
    CatalogLines();
    assert Lower("Lamb") == "lamb";
    MissingCharNotContains(Catalog[0].0, "lamb");
    MissingCharNotContains(Catalog[1].0, "lamb");
    assert StartsWith(Catalog[2].0, "lamb");
    SearchFirstMatch(Catalog, "lamb", 2);
  }

  /** First match wins: "" and "e" are also in "chicken", yet both give the beef line. */
  lemma SearchFirstCategoryWins()
    ensures Contains("chicken", "") && Contains("chicken", "e")
    ensures SearchResult(Catalog, Lower("")) == BeefLine
    ensures SearchResult(Catalog, Lower("e")) == BeefLine
  {
    CatalogLines();
    assert Lower("") == "";
    assert Lower("e") == "e";
    assert Contains(Catalog[0].0, "");
    assert OccursAt(Catalog[0].0, "e", 1);
    OccursContains(Catalog[0].0, "e", 1);
    assert OccursAt("chicken", "e", 5);
    OccursContains("chicken", "e", 5);
  }

  /** "beefy" contains the name "beef", but the test asks for the query inside the name, so it does not match. */
  lemma SearchBeefy()
    ensures Contains("beefy", "beef")
    ensures SearchResult(Catalog, Lower("beefy")) == NoMatch
  {
    assert StartsWith("beefy", "beef");
    assert Lower("beefy") == "beefy";
    if Contains(Catalog[0].0, "beefy") {
      ContainsShorter(Catalog[0].0, "beefy");
    }
    MissingCharNotContains(Catalog[1].0, "beefy");
    if Contains(Catalog[2].0, "beefy") {
      ContainsShorter(Catalog[2].0, "beefy");
    }
    SearchNoMatchIff(Catalog, "beefy");
  }

  /** "chickens" is longer than every category name, so it matches none. */
  lemma SearchChickens()
    ensures Contains("chickens", "chicken")
    ensures SearchResult(Catalog, Lower("chickens")) == NoMatch
  {
    assert StartsWith("chickens", "chicken");
    assert Lower("chickens") == "chickens";
    forall j | 0 <= j < |Catalog|
      ensures |Catalog[j].0| < |"chickens"|
    {
      assert j == 0 || j == 1 || j == 2;
    }
    LongQueryNoMatch(Catalog, "chickens");
  }

  /** A query found in no category name gets the fixed message. */
  lemma SearchXyz()
    ensures SearchResult(Catalog, Lower("xyz")) == NoMatch
  {
    assert Lower("xyz") == "xyz";
    MissingCharNotContains(Catalog[0].0, "xyz");
    MissingCharNotContains(Catalog[1].0, "xyz");
    MissingCharNotContains(Catalog[2].0, "xyz");
    SearchNoMatchIff(Catalog, "xyz");
  }

  /** Two searches with the same query give the same answer. */
  method SearchTwice(query: string) returns (first: string, second: string)
    ensures first == second
  {
    first := HandleProductSearch(query);
    second := HandleProductSearch(query);
  }
}
