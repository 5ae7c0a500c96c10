# Lab website filters

The lab's single-page website (`src/app/page.tsx`) has two lists that can be
filtered:

- **Group.** A row of role buttons ("All", "PI", "Postdoc", "PhD", "Masters",
  "Alumni") sits above the people list. Pressing a button stores its text as
  the filter. The page then shows the people whose role equals the filter, or
  everyone when the filter is "All".
- **Publications.** A search box and a year selector sit above the
  publication list. The selector offers "All" and then every year that occurs
  in the list, once each and largest first. A publication is listed when two
  things hold:
  - the selected year is "All", or equals the publication's year rendered as
    a string;
  - the lower-cased query occurs in the lower-cased text
    "title authors venue", where the author names are joined by spaces and a
    missing field is empty.

  When nothing is listed, the page shows the placeholder "No publications
  match your filter."

This project models those filters as pure functions and proves what the page
relies on:

- both filters select exactly the right entries and keep them in list order;
- the year options are exactly the distinct years, strictly descending;
- the string comparison of years is exact;
- the search ignores letter case, and can match across field boundaries;
- the placeholder appears exactly when nothing passes.

The built-in demonstration data, four people and three publications, is
included as constants, together with the results the page shows for them.

The files are:

- `wrappers.dfy`: an `Option` type for absent fields.
- `text.dfy`: the string primitives. These are ASCII `toLowerCase`,
  `includes`, `join` and `String(n)`, with a parser that inverts `String(n)`.
- `filtering.dfy`: `Array.prototype.filter`, generic over the callback.
- `group.dfy`: the people list and the role filter.
- `publications.dfy`: the publication filter and the placeholder.
- `year_options.dfy`: the year selector's options.
- `demo.dfy`: the demonstration data and its filter results.

## Model

| member | source | states |
|---|---|---|
| Filtering.Filter | src/app/page.tsx:197 | The result is no longer than the input, and every element in it is in the input and accepted by the callback. |
| Filtering.FilterComplete | src/app/page.tsx:197 | No accepted element of the input is missing from the result. |
| Filtering.FilterMembership | src/app/page.tsx:269-273 | An element is in the result exactly when it is in the input and accepted. |
| Filtering.KeptPositionsExact | src/app/page.tsx:197 | The kept positions are strictly increasing, below the length, and are exactly the indices whose element is accepted. |
| Filtering.FilterAtPositions | src/app/page.tsx:197 | The result has one entry per kept position, and entry k is the input at the k-th kept position: an order-preserving selection. |
| Filtering.FilterKeepsAll | src/app/page.tsx:197 | When every element is accepted, the result is the input unchanged. |
| Filtering.FilterIdempotent | src/app/page.tsx:269-273 | Filtering the result again with the same callback returns it unchanged. |
| Filtering.FilterEmptyIff | src/app/page.tsx:309 | The result is empty exactly when no element is accepted. |
| Filtering.FilterSelectsOne | src/app/page.tsx:197 | When exactly one position is accepted, the result is that single element. |
| Filtering.FilterCongruent | src/app/page.tsx:269-273 | Callbacks that agree on every element give the same result. |
| Group.RoleButtonsComplete | src/app/page.tsx:196 | The first button is "All", every role has a button, and no two buttons carry the same text. |
| Group.ChoiceLabelInjective | src/app/page.tsx:195-197 | Two selections have equal labels exactly when they are equal selections, so storing the label string loses nothing. |
| Group.AllRolesShowsEveryone | src/app/page.tsx:197 | With "All" selected, the whole people list is shown, in its own order. |
| Group.OnlyRoleShowsExactly | src/app/page.tsx:197 | With a role selected, a person is shown exactly when they are in the list and have that role. |
| Group.PeopleShownInOrder | src/app/page.tsx:197 | The people shown are the list read at exactly the passing positions, in increasing order. |
| Text.Lower | src/app/page.tsx:271-272 | Folding keeps the length and maps each character independently: upper-case ASCII letters to lower case, everything else unchanged. |
| Text.LowerIdempotent | src/app/page.tsx:271-272 | No upper-case letter survives folding, and folding twice is folding once. |
| Text.LowerConcat | src/app/page.tsx:271 | Folding the joined haystack is folding each piece. |
| Text.LowerKeepsNonLetter | src/app/page.tsx:271 | A non-letter occurs in the folded text exactly when it occurs in the original. |
| Text.ContainsEmpty | src/app/page.tsx:272 | The empty query occurs in every haystack. |
| Text.ContainsInConcat | src/app/page.tsx:272 | A substring of either part is a substring of the concatenation, and a substring of the concatenation that fits in one part is in that part. |
| Text.ContainsMiddle | src/app/page.tsx:272 | A string framed by any prefix and suffix contains it. |
| Text.ContainsTransitive | src/app/page.tsx:272 | A substring of a substring is a substring. |
| Text.LowerKeepsContains | src/app/page.tsx:271-272 | If a string contains a substring, its folded form contains the folded substring. |
| Text.AbsentFirstCharNotContained | src/app/page.tsx:272 | A query whose first character is absent from the haystack is not found. |
| Text.JoinContainsEach | src/app/page.tsx:271 | Each author's name occurs in the joined author text. |
| Text.JoinLacksChar | src/app/page.tsx:271 | A character in no name and not in the separator is not in the joined text. |
| Text.JoinStartsWithFirst | src/app/page.tsx:271 | The joined author text begins with the first name. |
| Text.NatDecimal | src/app/page.tsx:270 | The decimal rendering of a natural number is non-empty and made only of digits. |
| Text.NatDecimalRoundTrip | src/app/page.tsx:270 | Reading back the digits of a natural number gives the number. |
| Text.IntDecimalRoundTrip | src/app/page.tsx:270 | Parsing `String(n)` gives back n, for negative n too. |
| Text.IntDecimalInjective | src/app/page.tsx:270 | Two years render to the same string exactly when they are equal. |
| Text.IntDecimalIsNotAll | src/app/page.tsx:270 | No year renders as the sentinel "All". |
| Publications.ListedExactly | src/app/page.tsx:269-273 | A publication is listed exactly when it is in the list, its year matches and the folded query occurs in its haystack; the listing is no longer than the list. |
| Publications.ListedInOrder | src/app/page.tsx:269-273 | The listing is the list read at exactly the passing positions, in increasing order. |
| Publications.ListedSelectsOne | src/app/page.tsx:269-273 | When exactly one publication passes, it alone is listed. |
| Publications.EmptyQueryAllYearsListsEverything | src/app/page.tsx:259-261 | In the initial state (empty query, year "All"), every publication is listed, in order. |
| Publications.ListedIdempotent | src/app/page.tsx:269-273 | Filtering the listing again with the same query and year changes nothing. |
| Publications.ListedCaseInsensitive | src/app/page.tsx:272 | Queries that agree after folding list the same publications. |
| Publications.ListedLowerQuery | src/app/page.tsx:272 | A query and its lower-cased form list the same publications. |
| Publications.HaystackParts | src/app/page.tsx:271 | The haystack is the folded title, a space, the folded authors text, a space and the folded venue. |
| Publications.FieldHitIsFound | src/app/page.tsx:271-272 | A query found (ignoring case) in the title, in any one author's name or in the venue is found in the haystack. |
| Publications.QueryAcrossTitleAndFirstAuthor | src/app/page.tsx:271-272 | Any end of the title, a space, then any start of the first author's name is found: matches can cross field boundaries. |
| Publications.AuthorsAfterFirst | src/app/page.tsx:271 | The authors text is the first name followed by the rest. |
| Publications.HaystackLacksChar | src/app/page.tsx:271 | A non-letter, non-space character absent from every field is absent from the haystack. |
| Publications.YearSelectionExact | src/app/page.tsx:270 | Selecting the string of year y admits exactly the publications of year y; "All" admits every publication. |
| Publications.PlaceholderIffNothingMatches | src/app/page.tsx:309 | The placeholder is shown exactly when no publication passes both checks. |
| YearOptions.YearsOf | src/app/page.tsx:268 | The mapped list has one year per publication, position by position. |
| YearOptions.Distinct | src/app/page.tsx:268 | The Set conversion keeps exactly the values of the input, without duplicates. |
| YearOptions.InsertDescending | src/app/page.tsx:268 | Insertion adds one element, and the elements are the old ones plus the new one. |
| YearOptions.InsertPermutes | src/app/page.tsx:268 | Insertion is a permutation of the old list plus the new element. |
| YearOptions.ConsDescending | src/app/page.tsx:268 | Prefixing an upper bound keeps a list descending. |
| YearOptions.ConsNoDuplicates | src/app/page.tsx:268 | Prefixing a new value keeps a list duplicate-free. |
| YearOptions.InsertSorted | src/app/page.tsx:268 | Insertion into a descending list keeps it descending, and duplicate-free when the value is new. |
| YearOptions.SortDescending | src/app/page.tsx:268 | The sort with comparator b - a is a permutation of its input, descending, and keeps a duplicate-free input duplicate-free. |
| YearOptions.ToOptions | src/app/page.tsx:268 | Each sorted year becomes one year option, position by position. |
| YearOptions.ToOptionsMembers | src/app/page.tsx:268 | A year option is present exactly when its year is in the list. |
| YearOptions.YearsOfMembership | src/app/page.tsx:268 | A year is among the mapped years exactly when some publication has it. |
| YearOptions.SortedYears | src/app/page.tsx:268 | The sorted distinct years are strictly descending and are exactly the years some publication has. |
| YearOptions.OptionsShape | src/app/page.tsx:268 | "All" comes first and only first, the remaining options are years in strictly descending order, and a year is offered exactly when some publication has it. |
| YearOptions.HeadIsLargest | src/app/page.tsx:268 | In a strictly descending list the head exceeds every other element. |
| YearOptions.StrictlyDescendingUnique | src/app/page.tsx:268 | Two strictly descending lists with the same elements are equal, so the options do not depend on the sort algorithm. |
| YearOptions.OptionsDeterminedByYears | src/app/page.tsx:268 | The options are "All" followed by any strictly descending list of exactly the years present. |
| YearOptions.OptionValuesDistinct | src/app/page.tsx:284 | No two options hand the same value to the filter, so the option keys are unique. |
| YearOptions.OfferedYearListsItsPublications | src/app/page.tsx:268-273 | Choosing an offered year with an empty query lists exactly that year's publications, and never shows the placeholder. |
| Demo.DemoAllRoles | src/app/page.tsx:31-46 | "All" shows the four people in their order. |
| Demo.DemoPhD | src/app/page.tsx:44 | "PhD" shows only C. Student. |
| Demo.Pub1FieldsLackTwo | src/app/page.tsx:55 | No field of publication 1 contains the digit 2. |
| Demo.Pub1TitleLacksTwo | src/app/page.tsx:55 | The title of publication 1 has no digit 2. |
| Demo.Pub1AuthorsLackTwo | src/app/page.tsx:55 | No author name of publication 1 has the digit 2. |
| Demo.Pub2FieldsLackTwo | src/app/page.tsx:56 | No field of publication 2 contains the digit 2. |
| Demo.FirstTwoLack2d | src/app/page.tsx:55-56 | Publications 1 and 2 are not found by the query "2d". |
| Demo.Pub3Has2d | src/app/page.tsx:57 | Publication 3 is found by "2d", because its title starts with "2D". |
| Demo.OnlyThirdHas2d | src/app/page.tsx:54-58 | Among the demonstration publications only the third passes "2d". |
| Demo.DemoQuery2d | src/app/page.tsx:54-58 | Searching "2d" over all years lists only publication "3". |
| Demo.DemoQueryAcrossFields | src/app/page.tsx:57 | "transport Debnarayan" finds publication 3 across the title/author boundary. |
| Demo.DemoHasYear | src/app/page.tsx:54-58 | The demonstration years are exactly 2018, 2014 and 2009. |
| Demo.DemoYearOptions | src/app/page.tsx:54-58 | The year selector offers "All", 2018, 2014, 2009. |

## Left out

- Rendering is not modelled. This covers the JSX, styling, the `Section`, `Card`, `Tag` and link-button components, the Framer Motion animations, the navigation bar and the footer.
- React state and `useMemo` are not modelled as such. The current filter, query, year selection and publication list become parameters of the functions, and each memoised value is the function applied to them.
- The write to `document.body` styles is left out, because it only affects appearance.
- The publication fetch is left out: it is commented out in the source, so the list is always the demonstration data.
- The footer's current-year clock is left out, because it is not part of either filter.
- The course list and the research areas are left out, because the page renders them unfiltered.
- Lower: folds ASCII letters only. JavaScript's `toLowerCase` also folds non-ASCII letters, and can change the length of some strings.
- IntDecimal: renders integer years only. It does not model JavaScript's exponent notation for magnitudes of 10^21 or more, nor non-integer years.
- Group.IsShown: the stored filter is modelled as a choice among the drawn buttons rather than as a free string. `Group.ChoiceLabelInjective` shows that comparing labels is the same as comparing choices, and a role value outside the five buttons cannot arise from the people data.
- SortDescending: modelled as insertion sort rather than the engine's sort. `YearOptions.StrictlyDescendingUnique` shows that any sort producing a strictly descending order of the same distinct values gives the same options.
- Person and Publication fields are modelled as plain values; the `as any` casts around optional fields become `Option` values.
- The `img`, `email` and link fields of people, and the `doi`, `url` and `pdf` fields of publications, are carried as data but are only rendered, never filtered.
