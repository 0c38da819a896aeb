# Trip planner recommendation rule, in Dafny

The trip planner keeps a catalogue of destinations (`Trip`: a state, the
activity offered there, a cost rating and the typical weather) and
recommends one of them for a requested activity and weather. Its decision
rule is `recommend_trip` in `trip.py`. It walks the catalogue in order. It
keeps every trip whose activity and weather equal the requested ones after
lower-casing both sides. Of those it keeps only trips whose cost rating is
between 1 and 5. It returns the first trip kept, or `None`. The budget
argument is accepted and never read.

Files:

- `ascii_case.dfy`, module `AsciiCase`: `str.lower()` on ASCII letters,
  and a reference definition of case-insensitive equality.
- `trip.dfy`, module `TripPlanner`: the `Trip` record, the `Traveler`
  class, the two tests of the loop (`MatchesPreferences`, `CostInRange`),
  the list the loop builds (`SuitableTrips`), the front-to-back search it
  amounts to (`FirstSuitable`), the method `RecommendTrip` with the loop
  itself, and the lemmas about them.
- `trip_examples.dfy`, module `TripExamples`: the unit tests' three-trip
  catalogue, its three expected recommendations, and the construction of
  one `Trip`.

The catalogue is a `seq<Trip>`, a value, so `RecommendTrip` cannot change
the caller's list. Only its local `suitable` sequence grows. The budget is
a type parameter `B` that the method never inspects. A `Trip` is a datatype,
so a constructed `Trip` holds its four arguments unchanged; `ConstructTrip`
states this for the unit test's California trip.

Where the tests and `trip.py` part ways, the model follows `trip.py`:

- `recommend_trip` never reads `budget` (trip.py:72-92). The only cost
  check is that the rating is in 1..5.
- The tests call `get_unique_values` and `get_random_trip`
  (test_trip.py:34, test_trip.py:92). `trip.py` defines neither.

## Model

| member | source | states |
|---|---|---|
| `AsciiCase.LowerEqualIff` | trip.py:85 | Two strings are equal after `lower()` exactly when they are equal up to the case of ASCII letters, in both directions (the reference `EqualIgnoringCase` is defined character by character, without `Lower`). |
| `TripPlanner.SuitableTrips` | trip.py:83-87 | The list the loop builds is no longer than the input. A trip is in it exactly when it is in the input, matches activity and weather case-insensitively, and has a cost rating in 1..5. |
| `TripPlanner.SuitableTripsCons` | trip.py:84-87 | The loop keeps the input order: a trip put in front of the input is, if suitable, in front of the suitable list, followed by the suitable trips of the rest. |
| `TripPlanner.FirstSuitable` | trip.py:84-92 | A returned trip is an element of the input and passes both tests, so its cost rating is in 1..5 and an out-of-range trip is never returned. The result is `None` exactly when no trip of the input passes both tests, which includes the empty list. |
| `TripPlanner.FirstOfSuitableTrips` | trip.py:89-92 | Taking the first element of the built list, or `None` when it is empty, gives the same answer as searching the input from the front. |
| `TripPlanner.FirstSuitableIsEarliest` | trip.py:84-90 | A returned trip sits at some index `k` of the input, and every trip before `k` fails the activity/weather/cost tests. |
| `TripPlanner.FirstSuitableAt` | trip.py:84-90 | Conversely, if the trip at index `k` passes the tests and none before it does, that trip is the answer. |
| `TripPlanner.FirstSuitableIgnoresCase` | trip.py:85 | Changing only the letter case of the requested activity and weather never changes the recommendation. |
| `TripPlanner.RecommendTrip` | trip.py:72-92 | The loop with its local list returns exactly the first suitable trip, `FirstSuitable(trips, activity, weather)`. That answer does not depend on the budget. |
| `TripPlanner.RecommendIgnoresBudget` | trip.py:72-92 | Two calls that differ only in the budget give the same answer. |
| `TripPlanner.Traveler.constructor` | trip.py:19-28 | A new traveler has the given name and budget and an empty trip list. |
| `TripExamples.ConstructTrip` | test_trip.py:14-20 | `Trip("California", "Hiking", 3, "Sunny")` has state California, activity Hiking, cost rating 3 and weather Sunny. |
| `TripExamples.RecommendExamples` | test_trip.py:72-89 | On the three-trip catalogue, (1000, Hiking, Sunny) gives California, (700, Beach, Sunny) gives Florida and (2000, Sightseeing, Rainy) gives New York. |

## Left out

- `Traveler.add_trip` (trip.py:30-39): it calls the four-argument `Trip`
  constructor with three arguments, so every call raises `TypeError` before
  anything is appended. There is no working behaviour to model. The tests
  expect a different signature, which does not exist either.
- `load_states_data` (trip.py:45-59): reading a CSV file and parsing the
  cost with `int()` is file I/O. The model takes the resulting list of trips
  as its input.
- `poll_user_preferences` and `main` (trip.py:61-105): console input and
  output. The budget they read is a `float`. In the model the budget is an
  arbitrary value of a type parameter, because it is never read.
- A budget check before booking: `test_add_trip_budget_exceeded`
  (unittest.py:24-30) expects a 500 budget to refuse the booking, but
  `trip.py` performs no such check. Random choice and unique-value
  extraction (test_trip.py:34, test_trip.py:92) are not defined in
  `trip.py` either.
- `AsciiCase.Lower`: models Python's `str.lower()` on ASCII letters only.
  Full Unicode case mapping is not modelled. Characters outside 'A'..'Z' are
  left unchanged.
- `tripplanner.py` and `unittest.py`: a second `Traveler` that only stores
  fields, and a test module that imports names that do not exist. Neither
  holds logic to model.
