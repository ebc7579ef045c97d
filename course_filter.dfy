/** Which course cards stay visible when a category filter button is pressed. */
module CourseFilter {
  import opened JsText

  /** What `includes` searches for: the button's `data-filter`, or the string
      "undefined" when the button has none. */
  function SearchText(filter: Option<string>): string {
    filter.GetOr("undefined")
  }

  /** A card is shown when the filter is "all" or its category text contains the
      filter; a card without a category has the empty one. */
  predicate ShowCard(filter: Option<string>, cat: Option<string>) {
    filter == Some("all") || Includes(cat.GetOr(""), SearchText(filter))
  }

  /** The "all" filter and the empty filter show every card. */
  lemma EverythingFiltersShowAll(cat: Option<string>)
    ensures ShowCard(Some("all"), cat)
    ensures ShowCard(Some(""), cat)
  {
    assert OccursAt(cat.GetOr(""), "", 0);
  }

  /** A card whose category text contains the filter anywhere is shown. */
  lemma MatchingCategoryShown(filter: string, before: string, after: string)
    ensures ShowCard(Some(filter), Some(before + filter + after))
  {
    var cat := before + filter + after;
    assert cat[|before|..|before| + |filter|] == filter;
    assert OccursAt(cat, filter, |before|);
  }

  /** A card that the filter's text does not occur in is hidden, unless the filter
      is "all". */
  lemma UnrelatedCategoryHidden(filter: string, cat: string)
    requires filter != "all"
    requires forall i :: !OccursAt(cat, filter, i)
    ensures !ShowCard(Some(filter), Some(cat))
  {
  }

  /** A card without a category is shown only by "all" and by the empty filter. */
  lemma UncategorisedCardShownIff(filter: Option<string>)
    ensures ShowCard(filter, None) <==> filter == Some("all") || filter == Some("")
  {
    if ShowCard(filter, None) && filter != Some("all") {
      var i :| OccursAt("", SearchText(filter), i);
      assert |SearchText(filter)| == 0;
    }
    if filter == Some("") {
      assert OccursAt("", "", 0);
    }
  }
}
