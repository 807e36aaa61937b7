/**
 * The catalog listing (`GET /games`): a name filter, one of four sort
 * orders, and a page cut out of the sorted, filtered catalog, together with
 * the number of games that match the filter.
 */
module Catalog {
  import opened Wrappers
  import opened Strings
  import opened Sorting
  import opened Selection
  import opened GameModel

  const DefaultPage: int := 1
  const DefaultLimit: int := 10
  const DefaultSort: string := "name_asc"

  datatype SortField = Name | ReleaseDate
  datatype SortOption = SortOption(field: SortField, descending: bool)

  /** The sort keyword a client sends for each option. */
  function Keyword(o: SortOption): string
  {
    match o
    case SortOption(Name, false) => "name_asc"
    case SortOption(Name, true) => "name_desc"
    case SortOption(ReleaseDate, false) => "release_date_asc"
    case SortOption(ReleaseDate, true) => "release_date_desc"
  }

  predicate IsKeyword(sort: string)
  {
    sort in {"name_asc", "name_desc", "release_date_asc", "release_date_desc"}
  }

  /** The sort switch: three keywords are recognised, anything else sorts by name, ascending. */
  function ParseSort(sort: string): (o: SortOption)
    ensures !IsKeyword(sort) ==> o == SortOption(Name, false)
  {
    if sort == "name_desc" then SortOption(Name, true)
    else if sort == "release_date_asc" then SortOption(ReleaseDate, false)
    else if sort == "release_date_desc" then SortOption(ReleaseDate, true)
    else SortOption(Name, false)
  }

  /** Every sort option is reached by its own keyword. */
  lemma ParseKeyword(o: SortOption)
    ensures ParseSort(Keyword(o)) == o
    ensures IsKeyword(Keyword(o))
  {
  }

  /** Order of two games by one key, ascending. */
  predicate KeyLe(f: SortField, a: Game, b: Game)
  {
    match f
    case Name => StrLe(a.name, b.name)
    case ReleaseDate => a.releaseDate <= b.releaseDate
  }

  /** `a` may come before `b` in a listing sorted by `o`. */
  function Precedes(o: SortOption): (Game, Game) -> bool
  {
    (a: Game, b: Game) => if o.descending then KeyLe(o.field, b, a) else KeyLe(o.field, a, b)
  }

  lemma KeyLeTotalPreorder(f: SortField, a: Game, b: Game, c: Game)
    ensures KeyLe(f, a, b) || KeyLe(f, b, a)
    ensures KeyLe(f, a, b) && KeyLe(f, b, c) ==> KeyLe(f, a, c)
  {
    if f == Name {
      StrLeTotal(a.name, b.name);
      if StrLe(a.name, b.name) && StrLe(b.name, c.name) {
        StrLeTransitive(a.name, b.name, c.name);
      }
    }
  }

  /** Each of the four sort orders is a total preorder, so sorting by it is well defined. */
  lemma PrecedesTotalPreorder(o: SortOption)
    ensures TotalPreorder(Precedes(o))
  {
    var le := Precedes(o);
    forall a: Game, b: Game ensures le(a, b) || le(b, a) {
      KeyLeTotalPreorder(o.field, a, b, a);
    }
    forall a: Game, b: Game, c: Game | le(a, b) && le(b, c) ensures le(a, c) {
      if o.descending {
        KeyLeTotalPreorder(o.field, c, b, a);
      } else {
        KeyLeTotalPreorder(o.field, a, b, c);
      }
    }
  }

  /** The name filter: no filter when the query is missing or empty. */
  predicate Matches(g: Game, query: Option<string>)
  {
    query.None? || query.value == "" || ContainsIgnoreCase(g.name, query.value)
  }

  /** The name filter as a test on games. */
  function MatchesQuery(query: Option<string>): Game -> bool
  {
    (g: Game) => Matches(g, query)
  }

  /** Each kept game is listed as it is. */
  function Same(g: Game): Game { g }

  /** The games of the catalog that match: each matching game once, in catalog order. */
  function Filter(games: seq<Game>, query: Option<string>): (r: seq<Game>)
    ensures |r| <= |games|
    ensures forall g :: g in r <==> g in games && Matches(g, query)
  {
    if games == [] then []
    else if Matches(games[0], query) then [games[0]] + Filter(games[1..], query)
    else Filter(games[1..], query)
  }

  /** Filter keeps each matching game exactly once, in catalog order. */
  lemma {:induction false} FilterSelects(games: seq<Game>, query: Option<string>)
    ensures exists idx :: Picks(Filter(games, query), games, MatchesQuery(query), Same, idx)
  {
    if games == [] {
      assert Picks(Filter(games, query), games, MatchesQuery(query), Same, []);
    } else {
      FilterSelects(games[1..], query);
      var idx :| Picks(Filter(games[1..], query), games[1..], MatchesQuery(query), Same, idx);
      assert [games[0]] + games[1..] == games;
      if MatchesQuery(query)(games[0]) {
        assert Filter(games, query) == [Same(games[0])] + Filter(games[1..], query);
        PicksConsKept(games[0], games[1..], Filter(games[1..], query), MatchesQuery(query), Same, idx);
        assert Picks(Filter(games, query), games, MatchesQuery(query), Same, [0] + Shift(idx));
      } else {
        PicksConsSkipped(games[0], games[1..], Filter(games[1..], query), MatchesQuery(query), Same, idx);
        assert Picks(Filter(games, query), games, MatchesQuery(query), Same, Shift(idx));
      }
    }
  }

  /** The query parameters of a listing request; a missing one takes its default. */
  datatype GamesQuery = GamesQuery(
    query: Option<string>,
    page: Option<int>,
    limit: Option<int>,
    sort: Option<string>)

  function PageOf(q: GamesQuery): int { if q.page.Some? then q.page.value else DefaultPage }
  function LimitOf(q: GamesQuery): int { if q.limit.Some? then q.limit.value else DefaultLimit }
  function SortOf(q: GamesQuery): string { if q.sort.Some? then q.sort.value else DefaultSort }

  /** How many matching games precede the page. */
  function Skip(q: GamesQuery): int
  {
    (PageOf(q) - 1) * LimitOf(q)
  }

  /** The store's reading of a limit: 0 is no limit, a negative one counts by its size. */
  function Take(limit: int): nat
  {
    if limit < 0 then -limit else limit
  }

  /** The window of a sorted list that a skip and a limit select. */
  function Window<T>(s: seq<T>, skip: nat, limit: int): (r: seq<T>)
    ensures Take(limit) != 0 ==> |r| <= Take(limit)
    ensures |r| == if skip >= |s| then 0
                   else if Take(limit) == 0 || skip + Take(limit) >= |s| then |s| - skip
                   else Take(limit)
    ensures forall k :: 0 <= k < |r| ==> r[k] == s[skip + k]
  {
    var lo := if skip < |s| then skip else |s|;
    var hi := if Take(limit) == 0 || skip + Take(limit) >= |s| then |s| else skip + Take(limit);
    s[lo..if hi < lo then lo else hi]
  }

  datatype Listing = Listing(games: seq<Game>, totalGames: nat)

  /** The store refuses a negative skip; the handler answers with a server error. */
  datatype ListError = NegativeSkip

  /** The matching games in the requested order, before paging. */
  function Ranked(catalog: seq<Game>, q: GamesQuery): seq<Game>
  {
    Sort(Filter(catalog, q.query), Precedes(ParseSort(SortOf(q))))
  }

  /**
   * `GET /games`: sort first, then skip and limit (the store applies them in
   * that order whatever the call order), and count the matches without paging.
   */
  function ListGames(catalog: seq<Game>, q: GamesQuery): (r: Result<Listing, ListError>)
    ensures r.Success? <==> Skip(q) >= 0
    ensures r.Success? ==> r.value.totalGames == |Filter(catalog, q.query)|
    ensures r.Success? && Take(LimitOf(q)) != 0 ==> |r.value.games| <= Take(LimitOf(q))
  {
    if Skip(q) < 0 then Failure(NegativeSkip)
    else
      var matching := Filter(catalog, q.query);
      Success(Listing(Window(Ranked(catalog, q), Skip(q), LimitOf(q)), |matching|))
  }

  /** The k-th game of a page is the (skip + k)-th of the sorted, filtered catalog. */
  lemma PageIsWindow(catalog: seq<Game>, q: GamesQuery, k: int)
    requires ListGames(catalog, q).Success?
    requires 0 <= k < |ListGames(catalog, q).value.games|
    ensures Skip(q) + k < |Ranked(catalog, q)|
    ensures ListGames(catalog, q).value.games[k] == Ranked(catalog, q)[Skip(q) + k]
  {
  }

  /** Every listed game is in the catalog and matches the name filter. */
  lemma ListedGamesMatch(catalog: seq<Game>, q: GamesQuery, g: Game)
    requires ListGames(catalog, q).Success?
    requires g in ListGames(catalog, q).value.games
    ensures g in catalog && Matches(g, q.query)
  {
    var r := ListGames(catalog, q).value.games;
    var k :| 0 <= k < |r| && r[k] == g;
    var ranked := Ranked(catalog, q);
    assert g == ranked[Skip(q) + k];
    assert g in multiset(ranked);
    assert g in Filter(catalog, q.query);
  }

  /** A page is in the requested order. */
  lemma ListedGamesSorted(catalog: seq<Game>, q: GamesQuery)
    requires ListGames(catalog, q).Success?
    ensures Sorted(ListGames(catalog, q).value.games, Precedes(ParseSort(SortOf(q))))
  {
    var o := ParseSort(SortOf(q));
    PrecedesTotalPreorder(o);
    SortSorted(Filter(catalog, q.query), Precedes(o));
  }

  /** The total depends only on the filter: not on page, limit or sort. */
  lemma TotalIgnoresPaging(catalog: seq<Game>, q1: GamesQuery, q2: GamesQuery)
    requires q1.query == q2.query
    requires ListGames(catalog, q1).Success? && ListGames(catalog, q2).Success?
    ensures ListGames(catalog, q1).value.totalGames == ListGames(catalog, q2).value.totalGames
  {
  }

  /** A missing or unrecognised sort keyword lists exactly as `name_asc` does. */
  lemma UnknownSortIsNameAsc(catalog: seq<Game>, q: GamesQuery)
    requires q.sort.None? || !IsKeyword(q.sort.value)
    ensures ListGames(catalog, q) == ListGames(catalog, q.(sort := Some("name_asc")))
  {
    var q' := q.(sort := Some("name_asc"));
    assert ParseSort(SortOf(q)) == SortOption(Name, false) == ParseSort(SortOf(q'));
    assert Ranked(catalog, q) == Ranked(catalog, q');
    assert q.query == q'.query && Skip(q) == Skip(q') && LimitOf(q) == LimitOf(q');
  }

  /** Page `page` of size `limit` ends where page `page + 1` starts. */
  lemma PageEnd(page: int, limit: int)
    requires page >= 1 && limit > 0
    ensures 0 <= (page - 1) * limit < page * limit
    ensures (page - 1) * limit + limit == page * limit
  {
  }

  /** A page that lies wholly inside the matches is full. */
  lemma FullPage(catalog: seq<Game>, q: GamesQuery)
    requires PageOf(q) >= 1 && LimitOf(q) > 0
    requires PageOf(q) * LimitOf(q) <= |Filter(catalog, q.query)|
    ensures ListGames(catalog, q).Success?
    ensures |ListGames(catalog, q).value.games| == LimitOf(q)
  {
    var n := |Filter(catalog, q.query)|;
    PageEnd(PageOf(q), LimitOf(q));
    assert 0 <= Skip(q) < n && Skip(q) + LimitOf(q) <= n;
    assert |Ranked(catalog, q)| == n;
    assert Take(LimitOf(q)) == LimitOf(q);
    var page := Window(Ranked(catalog, q), Skip(q), LimitOf(q));
    assert |page| == LimitOf(q);
    assert ListGames(catalog, q) == Success(Listing(page, n));
  }

  /** The first page of size `limit` over `n` matches holds min(n, limit) games. */
  lemma FirstPageSize(catalog: seq<Game>, q: GamesQuery)
    requires PageOf(q) == 1 && LimitOf(q) > 0
    ensures ListGames(catalog, q).Success?
    ensures |ListGames(catalog, q).value.games| ==
            if |Filter(catalog, q.query)| < LimitOf(q) then |Filter(catalog, q.query)| else LimitOf(q)
  {
  }
}
