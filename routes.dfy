/** The results route that both search forms navigate to. */
module Routes {
  import opened Slug

  const ResultsPrefix: string := "/results/"

  /** The template literal `/results/${slug}`. */
  function ResultsPath(slug: string): string {
    ResultsPrefix + slug
  }

  /**
   * The path built from any term lies under `/results/` and what follows the
   * prefix is one path segment (it holds no `/`), which is the slug itself.
   */
  lemma ResultsPathIsOneSegment(term: string)
    ensures var p := ResultsPath(Slugify(term));
      |p| >= |ResultsPrefix| && p[..|ResultsPrefix|] == ResultsPrefix &&
      p[|ResultsPrefix|..] == Slugify(term) &&
      forall i :: |ResultsPrefix| <= i < |p| ==> p[i] != '/'
  {
    SlugifyIsSlug(term);
    var p := ResultsPath(Slugify(term));
    assert forall i :: |ResultsPrefix| <= i < |p| ==> p[i] == Slugify(term)[i - |ResultsPrefix|];
  }
}
