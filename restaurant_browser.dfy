/**
 * The client-side restaurant search: the list shows the restaurants whose name,
 * lower-cased, contains the lower-cased query, in their original order, and a
 * "No restaurants found." notice when that list is empty.
 */
module RestaurantBrowser {
  import opened Text
  import opened Models

  /** The filter's test: `r.name.toLowerCase().includes(query.toLowerCase())`. */
  function Matches(r: Restaurant, query: string): (b: bool)
    ensures b ==> exists i :: OccursAt(ToLower(r.name), ToLower(query), i)
    ensures (exists i :: OccursAt(ToLower(r.name), ToLower(query), i)) ==> b
  {
    var found := Includes(ToLower(r.name), ToLower(query));
    assert found <==> exists i :: OccursAt(ToLower(r.name), ToLower(query), i);
    found
  }

  /** `restaurants.filter(r => Matches(r, query))`, which visits the list front to back. */
  function FilterRestaurants(restaurants: seq<Restaurant>, query: string): (found: seq<Restaurant>)
    ensures |found| <= |restaurants|
    ensures forall r :: r in found ==> r in restaurants && Matches(r, query)
    decreases |restaurants|
  {
    if restaurants == [] then []
    else
      var rest := FilterRestaurants(restaurants[1..], query);
      if Matches(restaurants[0], query) then [restaurants[0]] + rest else rest
  }

  /** `xs` is `ys` with some elements deleted: the order is kept and nothing is repeated or added. */
  predicate IsSubsequence<T(==)>(xs: seq<T>, ys: seq<T>)
    decreases |ys|
  {
    if ys == [] then xs == []
    else (xs != [] && xs[0] == ys[0] && IsSubsequence(xs[1..], ys[1..])) || IsSubsequence(xs, ys[1..])
  }

  lemma {:induction false} FilterAppend(a: seq<Restaurant>, b: seq<Restaurant>, query: string)
    ensures FilterRestaurants(a + b, query) == FilterRestaurants(a, query) + FilterRestaurants(b, query)
    decreases |a|
  {
    if a == [] {
      assert a + b == b;
    } else {
      assert (a + b)[0] == a[0] && (a + b)[1..] == a[1..] + b;
      FilterAppend(a[1..], b, query);
    }
  }

  /** The listed restaurants are the input with the non-matching ones deleted; their order is kept. */
  lemma {:induction false} FilterIsSubsequence(restaurants: seq<Restaurant>, query: string)
    ensures IsSubsequence(FilterRestaurants(restaurants, query), restaurants)
    decreases |restaurants|
  {
    if restaurants != [] {
      FilterIsSubsequence(restaurants[1..], query);
      var found := FilterRestaurants(restaurants, query);
      if Matches(restaurants[0], query) {
        assert found[0] == restaurants[0] && found[1..] == FilterRestaurants(restaurants[1..], query);
      }
    }
  }

  /** A restaurant is listed exactly when it is in the input and matches the query. */
  lemma {:induction false} FilterMembership(restaurants: seq<Restaurant>, query: string, r: Restaurant)
    ensures r in FilterRestaurants(restaurants, query) <==> r in restaurants && Matches(r, query)
    decreases |restaurants|
  {
    if restaurants != [] {
      FilterMembership(restaurants[1..], query, r);
      assert r in restaurants <==> r == restaurants[0] || r in restaurants[1..];
    }
  }

  /** Each restaurant occurs in the result as often as in the input when it matches, and not at all otherwise. */
  lemma {:induction false} FilterMultiplicity(restaurants: seq<Restaurant>, query: string, r: Restaurant)
    ensures multiset(FilterRestaurants(restaurants, query))[r] ==
            if Matches(r, query) then multiset(restaurants)[r] else 0
    decreases |restaurants|
  {
    if restaurants != [] {
      assert restaurants == [restaurants[0]] + restaurants[1..];
      FilterMultiplicity(restaurants[1..], query, r);
    }
  }

  /** When every restaurant matches, nothing is dropped. */
  lemma {:induction false} FilterKeepsAllMatching(restaurants: seq<Restaurant>, query: string)
    requires forall r :: r in restaurants ==> Matches(r, query)
    ensures FilterRestaurants(restaurants, query) == restaurants
    decreases |restaurants|
  {
    if restaurants != [] {
      FilterKeepsAllMatching(restaurants[1..], query);
    }
  }

  /** The empty query lists every restaurant. */
  lemma FilterEmptyQuery(restaurants: seq<Restaurant>)
    ensures FilterRestaurants(restaurants, "") == restaurants
  {
    forall r | r in restaurants
      ensures Matches(r, "")
    {
      IncludesEmpty(ToLower(r.name));
    }
    FilterKeepsAllMatching(restaurants, "");
  }

  /** Filtering the result again with the same query changes nothing. */
  lemma FilterIdempotent(restaurants: seq<Restaurant>, query: string)
    ensures FilterRestaurants(FilterRestaurants(restaurants, query), query) == FilterRestaurants(restaurants, query)
  {
    FilterKeepsAllMatching(FilterRestaurants(restaurants, query), query);
  }

  /** Queries that lower-case alike select the same restaurants. */
  lemma {:induction false} FilterCaseInsensitive(restaurants: seq<Restaurant>, q1: string, q2: string)
    requires ToLower(q1) == ToLower(q2)
    ensures FilterRestaurants(restaurants, q1) == FilterRestaurants(restaurants, q2)
    decreases |restaurants|
  {
    if restaurants != [] {
      FilterCaseInsensitive(restaurants[1..], q1, q2);
    }
  }

  /** In particular the case of the query's letters does not matter. */
  lemma FilterLowerCaseQuery(restaurants: seq<Restaurant>, query: string)
    ensures FilterRestaurants(restaurants, ToLower(query)) == FilterRestaurants(restaurants, query)
  {
    ToLowerIdempotent(query);
    FilterCaseInsensitive(restaurants, ToLower(query), query);
  }

  /** The result is empty exactly when no restaurant matches. */
  lemma NoResultsExactly(restaurants: seq<Restaurant>, query: string)
    ensures |FilterRestaurants(restaurants, query)| == 0 <==> forall r :: r in restaurants ==> !Matches(r, query)
  {
    var found := FilterRestaurants(restaurants, query);
    if |found| == 0 {
      forall r | r in restaurants
        ensures !Matches(r, query)
      {
        FilterMembership(restaurants, query, r);
      }
    } else {
      assert found[0] in found;
    }
  }

  /** What the browser shows: a card per listed restaurant and, when none is listed, the notice. */
  datatype BrowserView = BrowserView(cards: seq<Restaurant>, showsNoResults: bool)

  function Render(restaurants: seq<Restaurant>, query: string): (v: BrowserView)
    ensures v.cards == FilterRestaurants(restaurants, query)
    ensures IsSubsequence(v.cards, restaurants)
    ensures |v.cards| <= |restaurants|
    ensures forall r :: r in v.cards <==> r in restaurants && Matches(r, query)
    ensures v.showsNoResults <==> forall r :: r in restaurants ==> !Matches(r, query)
  {
    NoResultsExactly(restaurants, query);
    FilterIsSubsequence(restaurants, query);
    var found := FilterRestaurants(restaurants, query);
    assert forall r :: r in restaurants && Matches(r, query) ==> r in found by {
      forall r | r in restaurants && Matches(r, query)
        ensures r in found
      {
        FilterMembership(restaurants, query, r);
      }
    }
    BrowserView(found, |found| == 0)
  }
}
