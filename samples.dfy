/**
 * The sample list set up by the package's entry point (`index.ts`) and a few
 * scenarios over it.
 */
module Samples {
  import opened Wrappers
  import opened Text
  import opened Filtering
  import opened SelectMachine
  import opened HeadlessSelect

  const SampleItems: seq<string> := ["Apple", "Banana", "Cherry", "Date", "Elderberry"]

  function Identity(s: string): string { s }

  /** A sample item whose lower-cased text lacks one of the letters of "an" does not match "an". */
  lemma LacksAn(item: string, k: nat)
    requires k < 2 && forall j :: 0 <= j < |item| ==> LowerChar(item[j]) != "an"[k]
    ensures !Matches(item, Identity, "an")
  {
    assert Lower("an") == "an";
    LowerLacks(item, "an"[k]);
    MissingCharNotContained(Lower(item), "an", k);
  }

  lemma BananaHasAn()
    ensures Matches("Banana", Identity, "an")
  {
    assert Lower("an") == "an" && Lower("Banana") == "banana";
    assert Contains("banana", "an");
  }

  /** The sample list under search "an" leaves only "Banana". */
  lemma SampleSearchAn()
    ensures Filter(SampleItems, Identity, "an") == ["Banana"]
  {
    OthersLackAn();
    BananaHasAn();
    FilterSingleMatch(SampleItems, Identity, "an", 1);
  }

  /** Every sample item other than "Banana" lacks an "a" or an "n". */
  lemma OthersLackAn()
    ensures forall j :: 0 <= j < |SampleItems| && j != 1 ==> !Matches(SampleItems[j], Identity, "an")
  {
    LacksAn("Apple", 1);
    LacksAn("Cherry", 0);
    LacksAn("Date", 1);
    LacksAn("Elderberry", 0);
  }

  /**
   * `setSearch` does not re-clamp: highlighting "Elderberry" and then typing
   * "an" leaves index 4 over a one-item list, and Enter then selects nothing
   * and closes.
   */
  lemma SearchStrandsHighlight()
    ensures var s := State(true, "", None, 4);
      && HighlightInRange(s, |Filter(SampleItems, Identity, s.search)|)
      && var t := WithSearch(s, "an");
      && !HighlightInRange(t, |Filter(SampleItems, Identity, t.search)|)
      && KeyDown(t, Filter(SampleItems, Identity, t.search), Enter).next == State(false, "an", None, -1)
  {
    FilterEmptySearch(SampleItems, Identity);
    SampleSearchAn();
  }

  /** The sample list of the package's entry point driven through one search-and-pick session. */
  method SampleSession()
  {
    var c := new SelectController(SampleItems, Identity, None);
    c.Open();
    c.SetSearch("an");
    SampleSearchAn();
    assert c.FilteredItems() == ["Banana"];
    var down := c.OnKeyDown(ArrowDown);
    assert down && c.highlighted == 0 && c.isOpen;
    var down2 := c.OnKeyDown(ArrowDown);
    assert down2 && c.highlighted == 0;
    var enter := c.OnKeyDown(Enter);
    assert !enter && !c.isOpen && c.highlighted == -1 && c.selected == Some("Banana");
    var ignored := c.OnKeyDown(ArrowDown);
    assert !ignored && c.Snapshot() == State(false, "an", Some("Banana"), -1);
  }
}
