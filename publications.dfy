/**
 * The "Publications" section: a search box and a year selector over the
 * publication list. A publication is listed when its year matches the
 * selection and the lower-cased query occurs in its lower-cased
 * "title authors venue" text; the placeholder is shown when nothing is listed.
 */
module Publications {
  import opened Wrappers
  import opened Text
  import opened Filtering

  /** One publication. Authors, venue and the three links may be absent. */
  datatype Publication = Publication(
    id: string,
    title: string,
    authors: Option<seq<string>>,
    venue: Option<string>,
    year: int,
    doi: Option<string>,
    url: Option<string>,
    pdf: Option<string>)

  /** The year selector's sentinel. */
  const AllYearsLabel: string := "All"

  /** The author names joined by single spaces, `""` when the list is absent. */
  function AuthorsText(p: Publication): string {
    match p.authors
    case None => ""
    case Some(names) => Join(names, " ")
  }

  /** The text searched: title, authors and venue separated by spaces, lower-cased as a whole. */
  function Haystack(p: Publication): string {
    Lower(p.title + " " + AuthorsText(p) + " " + p.venue.GetOr(""))
  }

  /** The selected year (the string the selector holds) admits `p`. */
  predicate YearMatches(p: Publication, year: string) {
    year == AllYearsLabel || IntDecimal(p.year) == year
  }

  /** The filter callback: the year matches and the lower-cased query occurs in the haystack. */
  predicate IsListed(p: Publication, q: string, year: string) {
    YearMatches(p, year) && Contains(Haystack(p), Lower(q))
  }

  /** The publications listed for query `q` and year selection `year`. */
  function Listed(pubs: seq<Publication>, q: string, year: string): seq<Publication> {
    Filter(pubs, p => IsListed(p, q, year))
  }

  /** The "No publications match your filter." placeholder is drawn. */
  predicate ShowsPlaceholder(listed: seq<Publication>) {
    |listed| == 0
  }

  /**
   * Soundness and completeness: a publication is listed exactly when it is in
   * the collection, its year matches and its haystack contains the query.
   */
  lemma ListedExactly(pubs: seq<Publication>, q: string, year: string)
    ensures |Listed(pubs, q, year)| <= |pubs|
    ensures forall p :: p in Listed(pubs, q, year) <==>
      p in pubs && YearMatches(p, year) && Contains(Haystack(p), Lower(q))
  {
    FilterMembership(pubs, p => IsListed(p, q, year));
  }

  /** The listed publications are the collection read at the passing positions, in source order. */
  lemma ListedInOrder(pubs: seq<Publication>, q: string, year: string)
    ensures var listed, ps := Listed(pubs, q, year), KeptPositions(pubs, p => IsListed(p, q, year));
      && IncreasingBelow(ps, |pubs|)
      && (forall j :: 0 <= j < |pubs| ==> (j in ps <==> IsListed(pubs[j], q, year)))
      && |listed| == |ps|
      && (forall k :: 0 <= k < |ps| ==> listed[k] == pubs[ps[k]])
  {
    KeptPositionsExact(pubs, p => IsListed(p, q, year));
    FilterAtPositions(pubs, p => IsListed(p, q, year));
  }

  /** When exactly one publication passes, the list is that publication alone. */
  lemma ListedSelectsOne(pubs: seq<Publication>, q: string, year: string, i: nat)
    requires i < |pubs| && IsListed(pubs[i], q, year)
    requires forall j :: 0 <= j < |pubs| && j != i ==> !IsListed(pubs[j], q, year)
    ensures Listed(pubs, q, year) == [pubs[i]]
  {
    FilterSelectsOne(pubs, p => IsListed(p, q, year), i);
  }

  /** The initial state (empty query, year "All") lists the whole collection in order. */
  lemma EmptyQueryAllYearsListsEverything(pubs: seq<Publication>)
    ensures Listed(pubs, "", AllYearsLabel) == pubs
  {
    forall p | p in pubs
      ensures IsListed(p, "", AllYearsLabel)
    {
      ContainsEmpty(Haystack(p));
    }
    FilterKeepsAll(pubs, p => IsListed(p, "", AllYearsLabel));
  }

  /** Applying the same query and year to the listed publications lists them all again. */
  lemma ListedIdempotent(pubs: seq<Publication>, q: string, year: string)
    ensures Listed(Listed(pubs, q, year), q, year) == Listed(pubs, q, year)
  {
    FilterIdempotent(pubs, p => IsListed(p, q, year));
  }

  /** Queries that differ only in ASCII letter case list the same publications. */
  lemma ListedCaseInsensitive(pubs: seq<Publication>, q1: string, q2: string, year: string)
    requires Lower(q1) == Lower(q2)
    ensures Listed(pubs, q1, year) == Listed(pubs, q2, year)
  {
    FilterCongruent(pubs, p => IsListed(p, q1, year), p => IsListed(p, q2, year));
  }

  /** In particular a query and its lower-cased form list the same publications. */
  lemma ListedLowerQuery(pubs: seq<Publication>, q: string, year: string)
    ensures Listed(pubs, Lower(q), year) == Listed(pubs, q, year)
  {
    LowerIdempotent(q);
    ListedCaseInsensitive(pubs, Lower(q), q, year);
  }

  /** The three pieces of the haystack, each lower-cased, in order. */
  lemma HaystackParts(p: Publication)
    ensures Haystack(p) == Lower(p.title) + " " + Lower(AuthorsText(p)) + " " + Lower(p.venue.GetOr(""))
  {
    var t, a, v := p.title, AuthorsText(p), p.venue.GetOr("");
    LowerConcat(t + " " + a + " ", v);
    LowerConcat(t + " " + a, " ");
    LowerConcat(t + " ", a);
    LowerConcat(t, " ");
  }

  /** A query occurring in the title, in one author's name or in the venue (ignoring case) finds the publication. */
  lemma FieldHitIsFound(p: Publication, q: string)
    requires || Contains(Lower(p.title), Lower(q))
             || (p.authors.Some? && exists a :: a in p.authors.value && Contains(Lower(a), Lower(q)))
             || (p.venue.Some? && Contains(Lower(p.venue.value), Lower(q)))
    ensures Contains(Haystack(p), Lower(q))
  {
    var t, au, v := Lower(p.title), Lower(AuthorsText(p)), Lower(p.venue.GetOr(""));
    HaystackParts(p);
    assert Haystack(p) == t + " " + au + " " + v;
    if Contains(t, Lower(q)) {
      ContainsInConcat(t, " ", Lower(q));
      ContainsInConcat(t + " ", au, Lower(q));
      ContainsInConcat(t + " " + au, " ", Lower(q));
      ContainsInConcat(t + " " + au + " ", v, Lower(q));
    } else if p.authors.Some? && exists a :: a in p.authors.value && Contains(Lower(a), Lower(q)) {
      var a :| a in p.authors.value && Contains(Lower(a), Lower(q));
      var k :| 0 <= k < |p.authors.value| && p.authors.value[k] == a;
      JoinContainsEach(p.authors.value, " ", k);
      LowerKeepsContains(AuthorsText(p), a);
      ContainsTransitive(au, Lower(a), Lower(q));
      ContainsInConcat(t + " ", au, Lower(q));
      ContainsInConcat(t + " " + au, " ", Lower(q));
      ContainsInConcat(t + " " + au + " ", v, Lower(q));
    } else {
      ContainsInConcat(t + " " + au + " ", v, Lower(q));
    }
  }

  /**
   * The haystack is one string, so a query may run across a field boundary:
   * any end `s` of the title, a space, and any start `t` of the first
   * author's name is found.
   */
  lemma QueryAcrossTitleAndFirstAuthor(p: Publication, u: string, s: string, t: string, w: string)
    requires p.title == u + s
    requires p.authors.Some? && |p.authors.value| > 0 && p.authors.value[0] == t + w
    ensures Contains(Haystack(p), Lower(s + " " + t))
  {
    var v := p.venue.GetOr("");
    var after := AuthorsAfterFirst(p);
    assert AuthorsText(p) == t + (w + after);
    Regroup(u, s, t, w + after, v);
    ContainsMiddle(u, s + " " + t, w + after + " " + v);
    LowerKeepsContains(p.title + " " + AuthorsText(p) + " " + v, s + " " + t);
  }

  /** The joined author text is the first author's name followed by the rest. */
  lemma AuthorsAfterFirst(p: Publication) returns (after: string)
    requires p.authors.Some? && |p.authors.value| > 0
    ensures AuthorsText(p) == p.authors.value[0] + after
  {
    var joined := AuthorsText(p);
    JoinStartsWithFirst(p.authors.value, " ");
    after := joined[|p.authors.value[0]|..];
    assert joined == joined[..|p.authors.value[0]|] + after;
  }

  lemma Regroup(u: string, s: string, t: string, w: string, v: string)
    ensures (u + s) + " " + (t + w) + " " + v == u + (s + " " + t) + (w + " " + v)
  {
  }

  /** A character that is no letter and occurs in no field does not occur in the haystack. */
  lemma HaystackLacksChar(p: Publication, c: char)
    requires !IsUpper(c) && !('a' <= c <= 'z') && c != ' '
    requires c !in p.title
    requires p.authors.Some? ==> forall k :: 0 <= k < |p.authors.value| ==> c !in p.authors.value[k]
    requires p.venue.Some? ==> c !in p.venue.value
    ensures c !in Haystack(p)
  {
    if p.authors.Some? {
      JoinLacksChar(p.authors.value, " ", c);
    }
    LowerKeepsNonLetter(p.title + " " + AuthorsText(p) + " " + p.venue.GetOr(""), c);
  }

  /** Selecting the string of year `y` admits exactly the publications of year `y`; "All" admits all. */
  lemma YearSelectionExact(p: Publication, y: int)
    ensures YearMatches(p, IntDecimal(y)) <==> p.year == y
    ensures YearMatches(p, AllYearsLabel)
  {
    IntDecimalIsNotAll(y);
    IntDecimalInjective(p.year, y);
  }

  /** The placeholder is drawn exactly when no publication passes both checks. */
  lemma PlaceholderIffNothingMatches(pubs: seq<Publication>, q: string, year: string)
    ensures ShowsPlaceholder(Listed(pubs, q, year)) <==> forall p :: p in pubs ==> !IsListed(p, q, year)
  {
    FilterEmptyIff(pubs, p => IsListed(p, q, year));
  }
}
