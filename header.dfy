/**
 * The site header's search modal: whether the dialog is open and the text in
 * its search box, with the events that change them. Navigation is returned as
 * a value instead of being handed to the router.
 */
module Header {
  import opened Wrappers
  import opened Slug
  import opened Routes

  /**
   * A character `String.prototype.trim` removes: ECMAScript WhiteSpace
   * (tab, vertical tab, form feed, space, no-break space, zero width no-break
   * space and the Unicode space separators) and LineTerminator.
   */
  predicate IsTrimmable(c: char) {
    c == '\t' || c == '\U{000B}' || c == '\U{000C}' || c == ' ' ||
    c == '\U{00A0}' || c == '\U{FEFF}' ||
    c == '\U{1680}' || ('\U{2000}' <= c <= '\U{200A}') ||
    c == '\U{202F}' || c == '\U{205F}' || c == '\U{3000}' ||
    c == '\n' || c == '\r' || c == '\U{2028}' || c == '\U{2029}'
  }

  /** `!query.trim()`: nothing is left once the ends are trimmed. */
  predicate IsBlank(query: string) {
    forall i :: 0 <= i < |query| ==> IsTrimmable(query[i])
  }

  /** The key combination that opens the modal: Cmd or Ctrl together with a lower-case `k`. */
  predicate IsOpenShortcut(key: string, metaKey: bool, ctrlKey: bool) {
    (metaKey || ctrlKey) && key == "k"
  }

  class SearchModal {
    var isOpen: bool
    var searchQuery: string

    /** The modal starts closed with an empty query. */
    constructor ()
      ensures !isOpen && searchQuery == ""
    {
      isOpen := false;
      searchQuery := "";
    }

    /**
     * The document-level keydown listener. Returns whether the event's
     * default action was prevented, which happens exactly for the shortcut.
     */
    method KeyDown(key: string, metaKey: bool, ctrlKey: bool) returns (prevented: bool)
      modifies this
      ensures prevented <==> IsOpenShortcut(key, metaKey, ctrlKey)
      ensures isOpen == (old(isOpen) || IsOpenShortcut(key, metaKey, ctrlKey))
      ensures searchQuery == old(searchQuery)
    {
      prevented := false;
      if (metaKey || ctrlKey) && key == "k" {
        prevented := true;
        isOpen := true;
      }
    }

    /** Clicking the "Search..." button opens the modal. */
    method ClickSearchButton()
      modifies this
      ensures isOpen && searchQuery == old(searchQuery)
    {
      isOpen := true;
    }

    /** The dialog reports that it opened or closed (for instance on Escape). */
    method OpenChange(open: bool)
      modifies this
      ensures isOpen == open && searchQuery == old(searchQuery)
    {
      isOpen := open;
    }

    /** The search box's change handler. */
    method EditQuery(value: string)
      modifies this
      ensures searchQuery == value && isOpen == old(isOpen)
    {
      searchQuery := value;
    }

    /**
     * Submitting the form. A blank query changes nothing and does not
     * navigate; any other query closes the modal, clears the box and
     * navigates to the results page of its slug, which may be empty.
     */
    method Submit() returns (nav: Option<string>)
      modifies this
      ensures IsBlank(old(searchQuery)) ==>
                nav == None && isOpen == old(isOpen) && searchQuery == old(searchQuery)
      ensures !IsBlank(old(searchQuery)) ==>
                nav == Some(ResultsPath(Slugify(old(searchQuery)))) &&
                !isOpen && searchQuery == ""
    {
      if IsBlank(searchQuery) {
        return None;
      }
      var slug := BuildSlug(searchQuery);
      isOpen := false;
      searchQuery := "";
      nav := Some(ResultsPath(slug));
    }
  }

  /** A blank query would give an empty slug anyway: the trim check guards nothing the slug does not. */
  lemma BlankQueryHasEmptySlug(query: string)
    requires IsBlank(query)
    ensures Slugify(query) == ""
  {
    SlugifyEmptyIff(query);
  }

  /**
   * The trim check is the only guard: a query such as `!!!` is not blank,
   * yet its slug is empty, so submitting it navigates to the bare `/results/`.
   */
  lemma PunctuationQueryNavigatesToBareResults()
    ensures !IsBlank("!!!") && Slugify("!!!") == ""
    ensures ResultsPath(Slugify("!!!")) == "/results/"
  {
    assert !IsTrimmable("!!!"[0]);
    SlugifyEmptyIff("!!!");
  }
}
