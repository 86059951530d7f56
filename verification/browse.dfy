/**
 * The "Find Teachers" page: the teaching offers fetched from the store, narrowed by a free
 * text search and two drop-down filters, each offer shown with coloured level and location
 * badges.
 */
module Browse {
  import Seqs
  import Text
  import opened Wrappers

  /** A teaching offer joined with its teacher's profile, which may be missing (null). */
  datatype Offer = Offer(
    id: string,
    subject: string,
    description: string,
    level: string,
    locationType: string,
    pointsPerHour: int,
    teacherId: string,
    teacherName: Option<string>)

  /** The page's filter state: the search box and the level and location selects. */
  datatype Filters = Filters(searchTerm: string, levelFilter: string, locationFilter: string)

  /** The value a select holds when it does not filter. */
  const All: string := "all"

  /** The state "Clear Filters" restores, which is also the initial state. */
  const Cleared: Filters := Filters("", All, All)

  /** The teacher's name as searched; a missing profile searches as the empty name. */
  function SearchedName(o: Offer): string
  {
    match o.teacherName
    case None => ""
    case Some(name) => name
  }

  /**
   * The search matches when the lower-cased term occurs in the lower-cased subject,
   * description or teacher name.
   */
  function MatchesSearch(o: Offer, term: string): (b: bool)
    ensures b <==> var t := Text.Lower(term);
      || (exists i :: Text.OccursAt(t, Text.Lower(o.subject), i))
      || (exists i :: Text.OccursAt(t, Text.Lower(o.description), i))
      || (exists i :: Text.OccursAt(t, Text.Lower(SearchedName(o)), i))
  {
    var t := Text.Lower(term);
    Text.Includes(Text.Lower(o.subject), t)
    || Text.Includes(Text.Lower(o.description), t)
    || Text.Includes(Text.Lower(SearchedName(o)), t)
  }

  /** A select filter accepts every value when set to "all", else only an exact match. */
  function MatchesSelect(value: string, filter: string): (b: bool)
    ensures filter == All ==> b
    ensures filter != All ==> (b <==> value == filter)
  {
    filter == All || value == filter
  }

  /** An offer is kept when it matches the search and both selects. */
  function Keep(o: Offer, f: Filters): (b: bool)
    ensures b ==> MatchesSearch(o, f.searchTerm)
    ensures b ==> (f.levelFilter == All || o.level == f.levelFilter)
    ensures b ==> (f.locationFilter == All || o.locationType == f.locationFilter)
    ensures (MatchesSearch(o, f.searchTerm) && MatchesSelect(o.level, f.levelFilter)
             && MatchesSelect(o.locationType, f.locationFilter)) ==> b
  {
    && MatchesSearch(o, f.searchTerm)
    && MatchesSelect(o.level, f.levelFilter)
    && MatchesSelect(o.locationType, f.locationFilter)
  }

  function KeepFn(f: Filters): Offer -> bool
  {
    o => Keep(o, f)
  }

  /**
   * The offers shown: exactly those passing all three tests, each as often as in the input
   * and in the input's order.
   */
  function FilterOffers(offers: seq<Offer>, f: Filters): (r: seq<Offer>)
    ensures Seqs.IsSubsequence(r, offers)
    ensures forall o :: o in r <==> o in offers && Keep(o, f)
    ensures forall o :: o in offers && Keep(o, f) ==> multiset(r)[o] == multiset(offers)[o]
  {
    Seqs.Filter(offers, KeepFn(f))
  }

  /** An empty search matches every offer, since every string includes the empty string. */
  lemma EmptySearchMatches(o: Offer)
    ensures MatchesSearch(o, "")
  {
    assert Text.Lower("") == "";
    Text.IncludesEmpty(Text.Lower(o.subject));
  }

  /** With the filters cleared, every fetched offer is shown, in the fetched order. */
  lemma ClearedShowsAll(offers: seq<Offer>)
    ensures FilterOffers(offers, Cleared) == offers
  {
    forall o | o in offers
      ensures KeepFn(Cleared)(o)
    {
      EmptySearchMatches(o);
    }
    Seqs.FilterKeepsAll(offers, KeepFn(Cleared));
  }

  /** Filtering the shown offers again with the same filters shows the same offers. */
  lemma FilterOffersIdempotent(offers: seq<Offer>, f: Filters)
    ensures FilterOffers(FilterOffers(offers, f), f) == FilterOffers(offers, f)
  {
    Seqs.FilterIdempotent(offers, KeepFn(f));
  }

  /** The search ignores the letter case of the term. */
  lemma SearchIgnoresTermCase(o: Offer, term: string)
    ensures MatchesSearch(o, Text.Lower(term)) == MatchesSearch(o, term)
  {
    Text.LowerIdempotent(term);
  }

  /**
   * The select filters compare case-sensitively: a level filter of "beginner" hides an
   * offer whose level is stored as "Beginner", whatever the search.
   */
  lemma LevelFilterCaseSensitive(o: Offer, f: Filters)
    requires o.level == "Beginner" && f.levelFilter == "beginner"
    ensures FilterOffers([o], f) == []
  {
  }

  /** A select set to a value other than "all" shows only offers carrying that value. */
  lemma SelectsNarrow(offers: seq<Offer>, f: Filters)
    ensures f.levelFilter != All ==>
      forall o :: o in FilterOffers(offers, f) ==> o.level == f.levelFilter
    ensures f.locationFilter != All ==>
      forall o :: o in FilterOffers(offers, f) ==> o.locationType == f.locationFilter
  {
  }

  const Gray: string := "bg-gray-100 text-gray-800"

  /** Badge classes for the three levels; any other level gets the gray default. */
  function LevelBadgeColor(level: string): (c: string)
    ensures c == Gray <==> level !in {"beginner", "intermediate", "advanced"}
  {
    match level
    case "beginner" => "bg-green-100 text-green-800"
    case "intermediate" => "bg-blue-100 text-blue-800"
    case "advanced" => "bg-purple-100 text-purple-800"
    case _ => Gray
  }

  /** Badge classes for the three location types; any other value gets the gray default. */
  function LocationBadgeColor(location: string): (c: string)
    ensures c == Gray <==> location !in {"online", "in-person", "both"}
  {
    match location
    case "online" => "bg-blue-100 text-blue-800"
    case "in-person" => "bg-amber-100 text-amber-800"
    case "both" => "bg-green-100 text-green-800"
    case _ => Gray
  }

  /** The known levels get pairwise different badges, and so do the known location types. */
  lemma BadgesDistinguishKnownValues(a: string, b: string)
    ensures a in {"beginner", "intermediate", "advanced"} && a != b
      ==> LevelBadgeColor(a) != LevelBadgeColor(b)
    ensures a in {"online", "in-person", "both"} && a != b
      ==> LocationBadgeColor(a) != LocationBadgeColor(b)
  {
  }
}
