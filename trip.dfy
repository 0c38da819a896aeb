/** The trip planner's data and its one decision rule, `recommend_trip`:
    keep the trips whose activity and weather match the request
    case-insensitively and whose cost rating lies in 1..5, then return the
    first one kept, or nothing. */
module TripPlanner {
  import opened AsciiCase

  datatype Option<+T> = None | Some(value: T)

  /** A destination: the state's name, the activity offered there, its
      average cost rating (nominally 1..5, but not checked when built) and
      its average weather. */
  datatype Trip = Trip(state: string, activity: string, costRating: int, weather: string)

  /** A traveler with a name, a budget and the list of trips they hold,
      which starts empty. */
  class Traveler {
    var name: string
    var budget: real
    var trips: seq<Trip>

    constructor (name: string, budget: real)
      ensures this.name == name && this.budget == budget && trips == []
    {
      this.name := name;
      this.budget := budget;
      trips := [];
    }
  }

  /** The first test of the loop: activity and weather agree after lower-casing both sides. */
  predicate MatchesPreferences(t: Trip, activity: string, weather: string) {
    Lower(t.activity) == Lower(activity) && Lower(t.weather) == Lower(weather)
  }

  /** The second test of the loop: the cost rating is on the 1..5 scale. */
  predicate CostInRange(t: Trip) {
    1 <= t.costRating <= 5
  }

  /** A trip the loop appends to its list of suitable trips. */
  predicate Suitable(t: Trip, activity: string, weather: string) {
    MatchesPreferences(t, activity, weather) && CostInRange(t)
  }

  /** The list of suitable trips the loop has built after walking `trips`,
      in the order they were met. */
  function SuitableTrips(trips: seq<Trip>, activity: string, weather: string): (r: seq<Trip>)
    ensures |r| <= |trips|
    ensures forall t :: t in r <==> t in trips && Suitable(t, activity, weather)
  {
    if trips == [] then []
    else
      var init, last := trips[..|trips| - 1], trips[|trips| - 1];
      assert trips == init + [last];
      SuitableTrips(init, activity, weather) + (if Suitable(last, activity, weather) then [last] else [])
  }

  /** The answer `recommend_trip` gives, stated as a search from the front:
      the first suitable trip of the list, if there is one. */
  function FirstSuitable(trips: seq<Trip>, activity: string, weather: string): (r: Option<Trip>)
    ensures r.Some? ==> r.value in trips && Suitable(r.value, activity, weather)
    ensures r.None? <==> forall t :: t in trips ==> !Suitable(t, activity, weather)
  {
    if trips == [] then None
    else if Suitable(trips[0], activity, weather) then Some(trips[0])
    else FirstSuitable(trips[1..], activity, weather)
  }

  /** `recommend_trip(trips, budget, activity, weather)`. The budget is taken
      and never read; the input list is a value and is not changed. */
  method RecommendTrip<B>(trips: seq<Trip>, budget: B, activity: string, weather: string)
    returns (r: Option<Trip>)
    ensures r == FirstSuitable(trips, activity, weather)
  {
    var suitable: seq<Trip> := [];
    for i := 0 to |trips|
      invariant suitable == SuitableTrips(trips[..i], activity, weather)
    {
      var trip := trips[i];
      assert trips[..i + 1][..i] == trips[..i];
      if Lower(trip.activity) == Lower(activity) && Lower(trip.weather) == Lower(weather) {
        if 1 <= trip.costRating <= 5 {
          suitable := suitable + [trip];
        }
      }
    }
    assert trips[..|trips|] == trips;
    FirstOfSuitableTrips(trips, activity, weather);
    if |suitable| > 0 {
      r := Some(suitable[0]);
    } else {
      r := None;
    }
  }

  /** Calling `recommend_trip` with two different budgets and otherwise the
      same arguments gives the same answer. */
  method RecommendIgnoresBudget<B>(trips: seq<Trip>, budget1: B, budget2: B, activity: string, weather: string)
    returns (r1: Option<Trip>, r2: Option<Trip>)
    ensures r1 == r2
  {
    r1 := RecommendTrip(trips, budget1, activity, weather);
    r2 := RecommendTrip(trips, budget2, activity, weather);
  }

  /** Putting one trip in front of the list puts it (if suitable) in front of the suitable trips. */
  lemma {:induction false} SuitableTripsCons(x: Trip, s: seq<Trip>, activity: string, weather: string)
    ensures SuitableTrips([x] + s, activity, weather)
         == (if Suitable(x, activity, weather) then [x] else []) + SuitableTrips(s, activity, weather)
  {
    var u := [x] + s;
    if s == [] {
      assert u[..|u| - 1] == [];
    } else {
      assert u[..|u| - 1] == [x] + s[..|s| - 1];
      assert u[|u| - 1] == s[|s| - 1];
      SuitableTripsCons(x, s[..|s| - 1], activity, weather);
    }
  }

  /** The loop's list followed by "take the first element, else None" is the
      front-to-back search. */
  lemma {:induction false} FirstOfSuitableTrips(trips: seq<Trip>, activity: string, weather: string)
    ensures FirstSuitable(trips, activity, weather)
         == (var st := SuitableTrips(trips, activity, weather); if st == [] then None else Some(st[0]))
  {
    if trips != [] {
      assert trips == [trips[0]] + trips[1..];
      SuitableTripsCons(trips[0], trips[1..], activity, weather);
      FirstOfSuitableTrips(trips[1..], activity, weather);
    }
  }

  /** The recommended trip is the earliest suitable one: it sits at some
      index `k` and every trip before `k` fails the tests. */
  lemma {:induction false} FirstSuitableIsEarliest(trips: seq<Trip>, activity: string, weather: string)
    ensures var r := FirstSuitable(trips, activity, weather);
      r.Some? ==> exists k :: 0 <= k < |trips| && trips[k] == r.value
                    && forall j :: 0 <= j < k ==> !Suitable(trips[j], activity, weather)
  {
    var r := FirstSuitable(trips, activity, weather);
    if trips != [] && r.Some? {
      if Suitable(trips[0], activity, weather) {
        assert trips[0] == r.value;
      } else {
        FirstSuitableIsEarliest(trips[1..], activity, weather);
        var k :| 0 <= k < |trips| - 1 && trips[1..][k] == r.value
                 && forall j :: 0 <= j < k ==> !Suitable(trips[1..][j], activity, weather);
        assert trips[k + 1] == r.value;
        forall j | 0 <= j < k + 1
          ensures !Suitable(trips[j], activity, weather)
        {
          if j > 0 { assert trips[j] == trips[1..][j - 1]; }
        }
      }
    }
  }

  /** Conversely: a suitable trip at index `k` with no suitable trip before
      it is exactly what is recommended. */
  lemma {:induction false} FirstSuitableAt(trips: seq<Trip>, activity: string, weather: string, k: nat)
    requires k < |trips| && Suitable(trips[k], activity, weather)
    requires forall j :: 0 <= j < k ==> !Suitable(trips[j], activity, weather)
    ensures FirstSuitable(trips, activity, weather) == Some(trips[k])
  {
    if k > 0 {
      FirstSuitableAt(trips[1..], activity, weather, k - 1);
    }
  }

  /** Only the letter case of the requested activity and weather changing
      never changes the recommendation. */
  lemma {:induction false} FirstSuitableIgnoresCase(trips: seq<Trip>, activity1: string, weather1: string,
                                                   activity2: string, weather2: string)
    requires EqualIgnoringCase(activity1, activity2) && EqualIgnoringCase(weather1, weather2)
    ensures FirstSuitable(trips, activity1, weather1) == FirstSuitable(trips, activity2, weather2)
  {
    LowerEqualIff(activity1, activity2);
    LowerEqualIff(weather1, weather2);
    if trips != [] {
      FirstSuitableIgnoresCase(trips[1..], activity1, weather1, activity2, weather2);
    }
  }
}
