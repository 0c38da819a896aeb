/** The recommendation scenarios of the planner's unit tests, on the
    three-trip catalogue California / New York / Florida. */
module TripExamples {
  import opened TripPlanner

  function Catalogue(): seq<Trip> {
    [ Trip("California", "Hiking", 3, "Sunny"),
      Trip("New York", "Sightseeing", 2, "Rainy"),
      Trip("Florida", "Beach", 4, "Sunny") ]
  }

  /** A constructed trip keeps its four arguments. */
  method ConstructTrip() returns (t: Trip)
    ensures t.state == "California" && t.activity == "Hiking"
    ensures t.costRating == 3 && t.weather == "Sunny"
  {
    t := Trip("California", "Hiking", 3, "Sunny");
  }

  /** Hiking in the sun gives California, the beach in the sun Florida and
      sightseeing in the rain New York, whatever the budget. */
  method RecommendExamples()
    returns (hiking: Option<Trip>, beach: Option<Trip>, sightseeing: Option<Trip>)
    ensures hiking.Some? && hiking.value.state == "California"
    ensures beach.Some? && beach.value.state == "Florida"
    ensures sightseeing.Some? && sightseeing.value.state == "New York"
  {
    var trips := Catalogue();
    FirstSuitableAt(trips, "Hiking", "Sunny", 0);
    FirstSuitableAt(trips, "Beach", "Sunny", 2);
    FirstSuitableAt(trips, "Sightseeing", "Rainy", 1);
    hiking := RecommendTrip(trips, 1000, "Hiking", "Sunny");
    beach := RecommendTrip(trips, 700, "Beach", "Sunny");
    sightseeing := RecommendTrip(trips, 2000, "Sightseeing", "Rainy");
  }
}
