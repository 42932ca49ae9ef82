# WikiPlex search forms: slug normalisation and form state

WikiPlex turns a free-text topic into a URL slug and navigates to
`/results/<slug>`. Two forms do this: the header's search modal
(`components/header.tsx`) and the search entry page (`app/search/page.tsx`).
Both compute the slug with the same chain:

    term.toLowerCase().replace(/[^a-z0-9]+/g, "-").replace(/^-|-$/g, "")

This project models that chain once, as `Slug.Slugify`. It also models the
state each form keeps and the events that change it.

- `slug.dfy` (module `Slug`) holds the chain, one step per function:
  - `Lower` and `LowerAll` for `toLowerCase`;
  - `ReplaceRuns` for the run replacement, scanning left to right as a regex engine does, with `LeadingRunLength` as the greedy `[^a-z0-9]+` match;
  - `TrimHyphens` for the edge replacement, as its two alternatives `DropLeadingHyphen` (`^-`) and `DropTrailingHyphen` (`-$`).

  Independently of the regexes, `Words` splits a string into its maximal runs of `[a-z0-9]` and `JoinHyphen` joins them with one `-` between neighbours; the lemmas prove that the chain equals that description.

  `LowerAndReplaceRuns` is a loop over the characters that lowercases each one and emits the replacement as it goes. Its invariant says that the output so far, followed by what the scan would still emit for the unread input (`Pending`), is the whole replacement. `BuildSlug` runs that loop, then trims the ends. The lemmas state the properties of a slug.
- `routes.dfy` (module `Routes`) builds the navigation target `/results/${slug}`.
- `header.dfy` (module `Header`) has the class `SearchModal`, with the fields `isOpen` and `searchQuery`. Its methods are the keydown listener, the search button, the dialog's open-change callback, the query box's change handler and the form submit. A submit returns the navigation target as an `Option<string>` instead of calling the router.
- `search_page.dfy` (module `SearchPage`) has the class `SearchForm`, with the field `isSearching`. `HandleSubmit` takes the form's `q` field as an `Option<string>` and returns the navigation target.

Both submit methods call the same `Slug.BuildSlug`. Both contracts are stated in terms of the same `Slug.Slugify`.

Assumptions of the model:
- Lowercasing is ASCII only: `A`–`Z` become `a`–`z` and every other character stays as it is.
- `trim` removes exactly ECMAScript's WhiteSpace and LineTerminator characters (`Header.IsTrimmable`). The Unicode space separators are listed as of Unicode 15.

## Model

| member | source | states |
|---|---|---|
| `Slug.Slugify` | components/header.tsx:30-33 | the whole chain, `TrimHyphens(ReplaceRuns(LowerAll(s)))`, shared by both forms (app/search/page.tsx:20-23); its properties are the `Slugify…` lemmas below |
| `Slug.LowerAll` | components/header.tsx:31 | `toLowerCase` applied to every character with `Lower`, keeping the length |
| `Slug.LeadingRunLength` | components/header.tsx:32 | the length of the greedy `[^a-z0-9]+` match at the start of a string, 0 when none; never beyond the string, and positive when the first character is outside `[a-z0-9]` |
| `Slug.ReplaceRuns` | components/header.tsx:32 | `replace(/[^a-z0-9]+/g, "-")` as a left-to-right scan: copy a `[a-z0-9]` character, replace each greedy run of other characters by one `-` |
| `Slug.TrimHyphens` | components/header.tsx:33 | `replace(/^-|-$/g, "")`: the `^-` alternative, then the `-$` alternative on what is left, each matching at most once |
| `Slug.DropLeadingHyphen` | components/header.tsx:33 | the `^-` alternative: remove the first character if it is `-` |
| `Slug.DropTrailingHyphen` | components/header.tsx:33 | the `-$` alternative: remove the last character if it is `-` |
| `Routes.ResultsPath` | components/header.tsx:37 | the target `/results/${slug}`, used by the header and by the page (app/search/page.tsx:26) |
| `Header.IsTrimmable` | components/header.tsx:28 | the characters `trim` removes: ECMAScript WhiteSpace and LineTerminator |
| `Header.IsBlank` | components/header.tsx:28 | `!searchQuery.trim()`: every character of the query is one `trim` removes, the empty query included |
| `Header.IsOpenShortcut` | components/header.tsx:16 | the shortcut test: `e.metaKey` or `e.ctrlKey` is held and `e.key === "k"`, with `k` compared case-sensitively |
| `SearchPage.FormTerm` | app/search/page.tsx:18 | the term read from the form: the `q` field's value, or `""` when the field is missing (`q.GetOr("")`): a missing field reads as the empty term, and an empty value is already `""` |
| `Slug.BuildSlug` | components/header.tsx:30-33 | the loop-based computation returns exactly `Slugify(s)`, and the result is a slug |
| `Slug.LowerAndReplaceRuns` | app/search/page.tsx:20-22 | one pass over the characters computes exactly the regex replacement of the lowercased term |
| `Slug.PendingStep` | app/search/page.tsx:22 | reading one more character, in each of three cases (copy a `[a-z0-9]` character, continue a run, start a run with `-`), keeps the output plus what is still to be emitted equal to the whole replacement |
| `Slug.Lower` | components/header.tsx:31 | ASCII lowercasing: the result is never upper case, it is in `[a-z0-9]` exactly when the input is an ASCII letter or digit, and characters other than `A`–`Z` are unchanged |
| `Slug.LeadingRunLengthIsGreedyMatch` | app/search/page.tsx:22 | the run length is the greedy `[^a-z0-9]+` match: every character before it is outside `[a-z0-9]`, and the one it stops at is inside |
| `Slug.ReplaceRunsHead` | components/header.tsx:32 | the replacement of a non-empty string is non-empty and starts with its first character if that is in `[a-z0-9]`, else with `-` |
| `Slug.ReplaceRunsSlugChars` | components/header.tsx:32 | the run replacement yields only `[a-z0-9-]` and never `--` |
| `Slug.ReplaceRunsKeepsAlnums` | components/header.tsx:32 | removing the hyphens from the run replacement gives exactly the `[a-z0-9]` characters of its input, in order |
| `Slug.ReplaceRunsNoLonger` | components/header.tsx:32 | each run becomes one `-`, so the replacement is never longer than its input |
| `Slug.ReplaceRunsFixesSlugChars` | components/header.tsx:32 | the run replacement leaves a string of `[a-z0-9-]` without `--` unchanged |
| `Slug.DropLeadingShape` | components/header.tsx:33 | the `^-` alternative leaves a hyphen-collapsed string that no longer starts with `-`, and removes only a hyphen |
| `Slug.DropTrailingShape` | components/header.tsx:33 | the `-$` alternative then leaves a slug, and removes only a hyphen |
| `Slug.TrimShape` | components/header.tsx:33 | removing one leading and one trailing `-` from a collapsed string gives a slug, removes only hyphens and does not lengthen it |
| `Slug.SlugifyIsSlug` | components/header.tsx:30-33 | every slug contains only `a`–`z`, `0`–`9` and `-`, never `--`, and neither starts nor ends with `-` |
| `Slug.SlugifyKeepsAlnums` | components/header.tsx:31-32 | removing the hyphens from the slug gives exactly the `[a-z0-9]` characters of the lowercased term, in order |
| `Slug.SlugifyEmptyIff` | app/search/page.tsx:20-25 | the slug is non-empty exactly when the term contains an ASCII letter or digit |
| `Slug.SlugifyNoLonger` | app/search/page.tsx:20-23 | the slug is never longer than the term |
| `Slug.ReplaceRunsFromWord` | components/header.tsx:32 | from a `[a-z0-9]` character on, the run replacement is the maximal `[a-z0-9]` runs joined by one `-`, followed by one `-` exactly when the string ends outside `[a-z0-9]` |
| `Slug.TrimmedRunsAreJoinedWords` | components/header.tsx:32-33 | the edge replacement removes exactly the hyphens the run replacement put before the first and after the last run of `[a-z0-9]`, leaving the runs joined by single hyphens |
| `Slug.SlugifyIsJoinedWords` | components/header.tsx:30-33 | the slug is exactly the lowercased term's maximal `[a-z0-9]` runs, in order, with one `-` between neighbours and nothing else |
| `Slug.ShortTermExample` | app/search/page.tsx:20-23 | `A b!` becomes `a-b`: lowercased, the space becomes one `-`, the trailing `!` becomes a `-` that is then trimmed |
| `Slug.SlugifyFixesSlugs` | components/header.tsx:30-33 | a string that already is a slug is its own slug |
| `Slug.SlugifyIdempotent` | components/header.tsx:30-33 | slugifying a slug again changes nothing |
| `Routes.ResultsPathIsOneSegment` | app/search/page.tsx:26 | the navigation target is `/results/` followed by the slug, and the part after the prefix holds no `/`, so it is one path segment |
| `Header.SearchModal.constructor` | components/header.tsx:11-12 | the modal starts closed with an empty query |
| `Header.SearchModal.KeyDown` | components/header.tsx:15-19 | the default action is prevented and the modal opens exactly for Cmd or Ctrl with key `k` (case-sensitive); every other key changes nothing; the query is never touched |
| `Header.SearchModal.ClickSearchButton` | components/header.tsx:52 | the button opens the modal and leaves the query alone |
| `Header.SearchModal.OpenChange` | components/header.tsx:66 | the dialog's open state becomes the reported one and the query is unchanged |
| `Header.SearchModal.EditQuery` | components/header.tsx:74 | the query becomes the box's value and the open state is unchanged |
| `Header.SearchModal.Submit` | components/header.tsx:26-38 | a blank query changes nothing and does not navigate; any other query closes the modal, clears the query and navigates to `/results/` plus the slug of the old query |
| `Header.BlankQueryHasEmptySlug` | components/header.tsx:28-33 | a query that trims to nothing has an empty slug |
| `Header.PunctuationQueryNavigatesToBareResults` | components/header.tsx:28-37 | `!!!` passes the trim check but has an empty slug, so the header navigates to the bare `/results/` |
| `SearchPage.SearchForm.constructor` | app/search/page.tsx:12 | no search is in progress at first |
| `SearchPage.SearchForm.HandleSubmit` | app/search/page.tsx:14-28 | every submit marks a search in progress; it navigates exactly when the term has an ASCII letter or digit, then to `/results/` plus the term's slug; a missing `q` field never navigates |
| `SearchPage.CompareWithHeader` | app/search/page.tsx:14-28 | the header's modal and the search page submitting the same term: whenever the page navigates, the header navigates to the same target; the header falls silent only where the page does too; the header alone navigates exactly for the non-blank terms without an ASCII letter or digit |
| `SearchPage.PunctuationSubmitLocksForm` | app/search/page.tsx:16-25 | submitting `!!!` does not navigate and leaves the search marked in progress, so the `disabled={isSearching}` input and button stay disabled |

## Left out

- The router (`useRouter().push`): the submit methods return the navigation target instead.
- `preventDefault` on the submit events: a submit has no other observable effect in the model.
- Registering and removing the keydown listener in the React effect (components/header.tsx:22-23): the model takes `KeyDown` as called for every keydown while the header is mounted.
- The header's form is rendered only inside the open dialog (components/header.tsx:66-68), so the source submits only while `isOpen` holds; `Header.SearchModal.Submit` requires nothing of `isOpen` and so also covers submits the page cannot produce.
- React's batched, asynchronous state updates: each method applies its updates in order, and `Submit` reads the query as it was when the event fired.
- Full Unicode `toLowerCase`: the model lowercases `A`–`Z` only. Characters that JavaScript lowercases to ASCII come out differently: the Kelvin sign `\u212A` has slug `k` in JavaScript but an empty slug here, so for that term `HandleSubmit` does not navigate where the page would go to `/results/k`; `İstanbul` gives `i-stanbul` in JavaScript (the dotted capital lowercases to `i` plus a combining dot) but `stanbul` here.
- UTF-16: JavaScript strings are sequences of UTF-16 code units, while a Dafny `char` is a Unicode scalar value, so a character outside the Basic Multilingual Plane is one character here and two code units there. Lengths such as the one `Slug.SlugifyNoLonger` bounds count scalar values; slugs themselves are ASCII, where the two agree.
- The `disabled={isSearching}` attributes on the search page's input and button (app/search/page.tsx:66, 72) as rendering: once they are disabled the page never receives a second user submit, but `HandleSubmit` accepts one anyway. Nothing on the page clears `isSearching` (line 16 sets it on every submit), so after a submit that does not navigate, such as `!!!` (`SearchPage.PunctuationSubmitLocksForm`), the input and the button stay disabled until the page is loaded again.
- The display title the results page derives from the slug (app/results/[slug]/page.tsx:16): it belongs to the results page, not to the search forms modelled here.
- app/api/search/route.ts: an outbound network call with a credential from the environment, JSON handling and logging.
- Layout, presentation, theme switching, animations and the footer's clock: these only render.
- The article parser, citations and quick facts: no source for them is part of this model.
