/**
 * The search entry page: one flag saying a search is in progress, and the
 * form's submit handler. Navigation is returned as a value instead of being
 * handed to the router.
 */
module SearchPage {
  import opened Wrappers
  import opened Slug
  import opened Routes
  import Header

  /** `formData.get("q")?.toString() || ""`: a missing field reads as the empty term. */
  function FormTerm(q: Option<string>): string {
    q.GetOr("")
  }

  class SearchForm {
    var isSearching: bool

    /** The page starts with no search in progress. */
    constructor ()
      ensures !isSearching
    {
      isSearching := false;
    }

    /**
     * Submitting the form with the value of its `q` field, or `None` when the
     * form carried no such field. Every submit marks a search in progress;
     * only a term whose slug is non-empty navigates.
     */
    method HandleSubmit(q: Option<string>) returns (nav: Option<string>)
      modifies this
      ensures isSearching
      ensures nav.Some? <==> HasAsciiAlnum(FormTerm(q))
      ensures nav.Some? ==> nav.value == ResultsPath(Slugify(FormTerm(q)))
      ensures q.None? ==> nav.None?
    {
      isSearching := true;
      var searchTerm := FormTerm(q);
      var slug := BuildSlug(searchTerm);
      SlugifyEmptyIff(searchTerm);
      if slug != "" {
        nav := Some(ResultsPath(slug));
      } else {
        nav := None;
      }
    }
  }

  /**
   * The two search forms submitting the same term: the header's modal with
   * `term` typed into its query box, and the search page with `term` in its
   * `q` field. Whenever the page navigates, the header navigates to the same
   * place; the header alone navigates exactly for the terms that are not
   * blank but hold no ASCII letter or digit (to the bare `/results/`).
   */
  method CompareWithHeader(term: string) returns (headerNav: Option<string>, pageNav: Option<string>)
    ensures pageNav.Some? ==> headerNav == pageNav
    ensures headerNav.None? ==> pageNav.None?
    ensures (headerNav.Some? && pageNav.None?) <==> (!Header.IsBlank(term) && !HasAsciiAlnum(term))
  {
    var modal := new Header.SearchModal();
    modal.EditQuery(term);
    headerNav := modal.Submit();
    var form := new SearchForm();
    pageNav := form.HandleSubmit(Some(term));
    SlugifyEmptyIff(term);
    if Header.IsBlank(term) {
      Header.BlankQueryHasEmptySlug(term);
    }
  }

  /**
   * A term with no ASCII letter or digit gets past the `required` input but
   * does not navigate, and the search stays marked in progress: the input
   * and the button, both `disabled={isSearching}`, stay disabled.
   */
  method PunctuationSubmitLocksForm() returns (nav: Option<string>, disabled: bool)
    ensures nav.None?
    ensures disabled
  {
    var form := new SearchForm();
    assert !HasAsciiAlnum("!!!") by {
      assert forall i :: 0 <= i < |"!!!"| ==> "!!!"[i] == '!';
    }
    nav := form.HandleSubmit(Some("!!!"));
    disabled := form.isSearching;
  }
}
