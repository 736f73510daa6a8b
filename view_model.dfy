/**
 * The state BusViewModel keeps for the search screen: the two query
 * fields, the suggestion lists under them, the results of the last
 * search and its label, the loaded routes and stop names, and the search
 * history it shows. Each LiveData becomes a field holding its current
 * value; each coroutine body runs to completion in one method call.
 */
module ViewModel {
  import opened Text
  import opened BusModel
  import opened Fuzzy
  import opened RouteSearch
  import opened History

  /** How many suggestions a query field offers. */
  const SuggestionLimit: nat := 5

  /** The label searchBuses shows after a successful search. */
  const DirectRoutes: string := "Direct routes"

  /** The suggestion list updateFromSuggestions/updateToSuggestions
      publish: nothing for a blank query or before any stop name is
      loaded, otherwise the five best fuzzy matches among the stop names. */
  function SuggestionsFor(query: string, allStops: seq<string>): (r: seq<string>)
    ensures IsBlank(query) || allStops == [] ==> r == []
    ensures |r| <= SuggestionLimit
    ensures forall i :: 0 <= i < |r| ==> r[i] in allStops && ScoreOf(Lower(Trim(query)), r[i]) > 0
    ensures forall i, j :: 0 <= i < j < |r| ==>
      ScoreOf(Lower(Trim(query)), r[i]) >= ScoreOf(Lower(Trim(query)), r[j])
  {
    if IsBlank(query) || allStops == [] then [] else FuzzySearch(query, allStops, SuggestionLimit)
  }

  /** A stop name the suggestions leave out either scores nothing or is
      beaten by all five offered names. */
  lemma SuggestionsKeepBest(query: string, allStops: seq<string>, x: string)
    requires !IsBlank(query)
    requires x in allStops && ScoreOf(Lower(Trim(query)), x) > 0
    requires x !in SuggestionsFor(query, allStops)
    ensures |SuggestionsFor(query, allStops)| == SuggestionLimit
    ensures forall i :: 0 <= i < SuggestionLimit ==>
      ScoreOf(Lower(Trim(query)), SuggestionsFor(query, allStops)[i]) >= ScoreOf(Lower(Trim(query)), x)
  {
    FuzzySearchKeepsBest(query, allStops, SuggestionLimit, x);
  }

  class BusViewModel {
    /** _busRoutes: every route of the dataset. */
    var busRoutes: seq<BusRoute>
    /** _allStopNames: the master list suggestions are drawn from. */
    var allStopNames: seq<string>
    var fromSearchQuery: string
    var toSearchQuery: string
    var fromSuggestions: seq<string>
    var toSuggestions: seq<string>
    var searchResults: seq<BusRoute>
    /** _searchType: "" before a search or after a blank one. */
    var searchType: string
    /** _recentSearches: the history rows as last loaded. */
    var recentSearches: seq<SearchHistoryItem>
    /** The search_history table the repository writes to. */
    const history: SearchHistoryStore

    ghost predicate Valid()
      reads this, history
    {
      history.Valid()
    }

    /** init: the routes read from the dataset, the stop names derived from
        them, and the history as stored; every field starts empty. */
    constructor (routes: seq<BusRoute>, store: SearchHistoryStore)
      requires store.Valid()
      ensures Valid()
      ensures history == store && busRoutes == routes
      ensures StrictlyAscending(allStopNames)
      ensures forall n :: n in allStopNames <==> IsStopName(routes, n)
      ensures recentSearches == store.rows
      ensures fromSearchQuery == "" && toSearchQuery == ""
      ensures fromSuggestions == [] && toSuggestions == []
      ensures searchResults == [] && searchType == ""
    {
      var names := GetAllStopNames(routes);
      busRoutes := routes;
      allStopNames := names;
      fromSearchQuery := "";
      toSearchQuery := "";
      fromSuggestions := [];
      toSuggestions := [];
      searchResults := [];
      searchType := "";
      recentSearches := store.rows;
      history := store;
    }

    /** updateFromQuery(query): typing into the origin field hides the
        destination suggestions, unless the field was emptied. */
    method UpdateFromQuery(query: string)
      modifies this
      ensures fromSearchQuery == query
      ensures toSuggestions == if query != "" then [] else old(toSuggestions)
      ensures toSearchQuery == old(toSearchQuery) && fromSuggestions == old(fromSuggestions)
      ensures busRoutes == old(busRoutes) && allStopNames == old(allStopNames)
      ensures searchResults == old(searchResults) && searchType == old(searchType)
      ensures recentSearches == old(recentSearches)
    {
      fromSearchQuery := query;
      if query != "" {
        toSuggestions := [];
      }
    }

    /** updateToQuery(query): the mirror image for the destination field. */
    method UpdateToQuery(query: string)
      modifies this
      ensures toSearchQuery == query
      ensures fromSuggestions == if query != "" then [] else old(fromSuggestions)
      ensures fromSearchQuery == old(fromSearchQuery) && toSuggestions == old(toSuggestions)
      ensures busRoutes == old(busRoutes) && allStopNames == old(allStopNames)
      ensures searchResults == old(searchResults) && searchType == old(searchType)
      ensures recentSearches == old(recentSearches)
    {
      toSearchQuery := query;
      if query != "" {
        fromSuggestions := [];
      }
    }

    /** updateFromSuggestions(query), run once the debounce has elapsed. */
    method UpdateFromSuggestions(query: string)
      modifies this
      ensures fromSuggestions == SuggestionsFor(query, allStopNames)
      ensures allStopNames == old(allStopNames) && toSuggestions == old(toSuggestions)
      ensures fromSearchQuery == old(fromSearchQuery) && toSearchQuery == old(toSearchQuery)
      ensures busRoutes == old(busRoutes)
      ensures searchResults == old(searchResults) && searchType == old(searchType)
      ensures recentSearches == old(recentSearches)
    {
      var allStops := allStopNames;
      if IsBlank(query) || allStops == [] {
        fromSuggestions := [];
        return;
      }
      fromSuggestions := FuzzySearch(query, allStops, SuggestionLimit);
    }

    /** updateToSuggestions(query). */
    method UpdateToSuggestions(query: string)
      modifies this
      ensures toSuggestions == SuggestionsFor(query, allStopNames)
      ensures allStopNames == old(allStopNames) && fromSuggestions == old(fromSuggestions)
      ensures fromSearchQuery == old(fromSearchQuery) && toSearchQuery == old(toSearchQuery)
      ensures busRoutes == old(busRoutes)
      ensures searchResults == old(searchResults) && searchType == old(searchType)
      ensures recentSearches == old(recentSearches)
    {
      var allStops := allStopNames;
      if IsBlank(query) || allStops == [] {
        toSuggestions := [];
        return;
      }
      toSuggestions := FuzzySearch(query, allStops, SuggestionLimit);
    }

    /** searchBuses(from, to): a blank field clears the results and the
        label and writes nothing; otherwise the direct routes are shown,
        the search is saved at time now and the history reloaded. */
    method SearchBuses(from: string, to: string, now: int)
      requires Valid()
      modifies this, history
      ensures Valid()
      ensures IsBlank(from) || IsBlank(to) ==>
        searchResults == [] && searchType == "" &&
        history.rows == old(history.rows) && history.nextId == old(history.nextId) &&
        recentSearches == old(recentSearches)
      ensures !IsBlank(from) && !IsBlank(to) ==>
        searchResults == RouteSearch.SearchBuses(busRoutes, from, to) && searchType == DirectRoutes &&
        history.rows == SaveRows(old(history.rows), old(history.nextId), from, to, now) &&
        history.nextId == SaveNextId(old(history.rows), old(history.nextId), from, to) &&
        recentSearches == history.rows
      ensures busRoutes == old(busRoutes) && allStopNames == old(allStopNames)
      ensures fromSearchQuery == old(fromSearchQuery) && toSearchQuery == old(toSearchQuery)
      ensures fromSuggestions == old(fromSuggestions) && toSuggestions == old(toSuggestions)
    {
      if IsBlank(from) || IsBlank(to) {
        searchResults := [];
        searchType := "";
        return;
      }
      var results := RouteSearch.SearchBuses(busRoutes, from, to);
      ShowDirectRoutes(results);
      SaveAndReload(from, to, now);
    }

    /** The part of searchBuses that publishes the results and the label. */
    method ShowDirectRoutes(results: seq<BusRoute>)
      modifies this
      ensures searchResults == results && searchType == DirectRoutes
      ensures busRoutes == old(busRoutes) && allStopNames == old(allStopNames)
      ensures fromSearchQuery == old(fromSearchQuery) && toSearchQuery == old(toSearchQuery)
      ensures fromSuggestions == old(fromSuggestions) && toSuggestions == old(toSuggestions)
      ensures recentSearches == old(recentSearches)
    {
      searchResults := results;
      searchType := DirectRoutes;
    }

    /** The part of searchBuses that saves the search and reloads the
        history it shows. */
    method SaveAndReload(from: string, to: string, now: int)
      requires Valid()
      modifies this, history
      ensures Valid()
      ensures history.rows == SaveRows(old(history.rows), old(history.nextId), from, to, now)
      ensures history.nextId == SaveNextId(old(history.rows), old(history.nextId), from, to)
      ensures recentSearches == history.rows
      ensures searchResults == old(searchResults) && searchType == old(searchType)
      ensures busRoutes == old(busRoutes) && allStopNames == old(allStopNames)
      ensures fromSearchQuery == old(fromSearchQuery) && toSearchQuery == old(toSearchQuery)
      ensures fromSuggestions == old(fromSuggestions) && toSuggestions == old(toSuggestions)
    {
      History.SaveSearch(history, from, to, now);
      recentSearches := history.rows;
    }

    /** clearSearchHistory(): empties the table and the shown history. */
    method ClearSearchHistory()
      requires Valid()
      modifies this, history
      ensures Valid()
      ensures history.rows == [] && recentSearches == []
      ensures history.nextId == old(history.nextId)
      ensures busRoutes == old(busRoutes) && allStopNames == old(allStopNames)
      ensures fromSearchQuery == old(fromSearchQuery) && toSearchQuery == old(toSearchQuery)
      ensures fromSuggestions == old(fromSuggestions) && toSuggestions == old(toSuggestions)
      ensures searchResults == old(searchResults) && searchType == old(searchType)
    {
      history.ClearHistory();
      recentSearches := history.rows;
    }

    /** clearSearches(): empties both fields and both suggestion lists. */
    method ClearSearches()
      modifies this
      ensures fromSearchQuery == "" && toSearchQuery == ""
      ensures fromSuggestions == [] && toSuggestions == []
      ensures busRoutes == old(busRoutes) && allStopNames == old(allStopNames)
      ensures searchResults == old(searchResults) && searchType == old(searchType)
      ensures recentSearches == old(recentSearches)
    {
      fromSearchQuery := "";
      toSearchQuery := "";
      fromSuggestions := [];
      toSuggestions := [];
    }
  }
}
