# L4GeoLB routing core, modelled in Dafny

L4GeoLB is a layer-4 TCP load balancer. At startup it reads the public TCP endpoints of the
deployed apps from a Postgres database and groups each endpoint's backends by deployment
location. It also ranks all locations by great-circle distance from the balancer's own location.
Each incoming connection is then sent to a backend of the nearest location that has one. The
backends of that location take turns in round-robin order.

This project models the three pure decisions at the heart of that flow:

- **`select_backend`** (`src/backend.rs`): one atomic selection under both locks. Module
  `Backend` models it as a function from (location order, backend map, cursor map) to the
  chosen address and the new cursor map. `SelectMany` chains selections in the order the lock
  serializes them.
- **The row fold of `get_public_tcp_endpoints`** (`src/endpoints.rs`), in module `Endpoints`.
  Each row is formatted into a listener address and, when placed, a backend address. The rows
  are then grouped per listener and per location. There is one endpoint per distinct listener,
  in first-occurrence order. Every endpoint shares its map with `listeners_map`, so the map it
  ends up with is the one `listeners_map` holds after the last row; the model resolves it that
  way. Module `Decimal` renders the `i32` ports the way `format!("{}")` does, and proves that
  the rendering reads back.
- **`rank_locations_by_proximity`** (`src/location.rs`), in module `Locations`. Each location
  is paired with its distance from the reference and the pairs are stable-sorted (`sort_by` is
  stable). The distance function is a parameter. `Distance.NaN` is the value on which
  `partial_cmp` answers `None` and `unwrap` panics.

Partners used by the proofs that the source does not have:

- `Decimal.Parse` and `Endpoints.SplitHostPort` read addresses back.
- `Endpoints.Collect` is a reference definition of the grouping.
- `Endpoints.FirstIndex` finds the first occurrence of a listener.
- `Backend.AdvanceMany` repeats the advance of one location.
- `Backend.Wrap` is the cursor after `x` single steps from 0. `Backend.WrapIsMod` proves it equals `x % len`.
- `Locations.LocationsAt` and `Locations.AtDistance` take the subsequence at one distance, which states stability.

Two properties one might expect of the ranking do not hold of the code, and the model follows the code:

- `rank_locations_by_proximity` does not check that the reference location is in the list.
  The caller in `src/main.rs` does that lookup.
- It does not guarantee that the reference comes first. It only guarantees that the first
  location is at the smallest distance (`Locations.RankStartsAtZero`).

## Model

| member | source | states |
|---|---|---|
| `Backend.FirstServing` | src/backend.rs:43-52 | The position the scan stops at is the first location in the order with a non-empty backend list. The scan finds nothing exactly when no location in the order has one. |
| `Backend.Advance` | src/backend.rs:46-48 | Returns a backend of the location and keeps its cursor within the list length. |
| `Backend.Select` | src/backend.rs:35-58 | Fails with `NotFound` exactly when no ordered location has a backend, and then leaves the cursors as they were. Otherwise, at the first serving location, it returns the backend at that location's cursor (0 when the location has none yet) and sets that cursor to `(cursor + 1) % len`. The index at line 47 stays safe for the next call, and the "all cursors in range" invariant is preserved. |
| `Backend.SelectMany` | src/backend.rs:40-41 | `n` selections serialized by the locks give `n` outcomes, and each call leaves the next one defined. |
| `Backend.InRangeIsReady` | src/backend.rs:46-47 | Any cursor map whose cursors are all in range makes the index at line 47 safe, and so does the fresh map of a new endpoint. |
| `Backend.SelectTakesFirstServing` | src/backend.rs:43-49 | When position `i` is the first serving location, the selection takes that location's backend at its cursor, advances that cursor, and leaves every other cursor (presence and value) untouched. |
| `Backend.UnorderedNeverSelected` | src/backend.rs:43 | A location outside the order is never chosen: its cursor is neither created nor changed. |
| `Backend.EmptyTableNotFound` | src/backend.rs:54-57 | With an empty backend map every selection fails with `NotFound` and leaves the cursors unchanged. |
| `Backend.FailoverToNext` | src/backend.rs:44-45 | A nearest location with no or an empty backend list is skipped and the next location serves. |
| `Backend.WrapIsMod` | src/backend.rs:48 | Stepping a cursor `x` times from 0 with wrap-around ends at `x % len`, the remainder line 48 computes. |
| `Backend.SelectManyAdvances` | src/backend.rs:43-49 | While the first serving location stays the same, consecutive selections produce the same outcomes and cursors as repeated advances of that one location. |
| `Backend.AdvancePick` | src/backend.rs:46-48 | Advance `k` hands out the backend `k` places after the starting cursor, wrapping around the list. |
| `Backend.AdvanceCursor` | src/backend.rs:48 | `n` advances move the location's cursor to the starting cursor plus `n`, wrapped around the list length. |
| `Backend.AdvanceOthers` | src/backend.rs:46-48 | Advancing one location never creates, removes or changes another location's cursor. |
| `Backend.RoundRobinPick` | src/backend.rs:46-49 | Selection `k` of `n` consecutive selections returns the backend `k` places after the serving location's cursor, wrapping around. |
| `Backend.RoundRobinResults` | src/backend.rs:46-49 | `n` consecutive selections return the serving location's list in order from its cursor, wrapping around. |
| `Backend.RoundRobinCursors` | src/backend.rs:46-48 | After `n` selections the serving cursor has moved `n` places modulo the list length, and every other cursor is as it was. |
| `Backend.RoundRobinFromFresh` | src/backend.rs:46-49 | From a fresh cursor map, `len + 1` selections return the whole list in order and then its first backend again. |
| `Decimal.NatDigits` | src/endpoints.rs:36-40 | The rendering of a natural number is a non-empty string of digits with no leading zero. |
| `Decimal.Format` | src/endpoints.rs:36-40 | The `{}` rendering of an integer is digits, with a minus sign only in front and only for negative values. |
| `Decimal.NatDigitsValue` | src/endpoints.rs:36-40 | Reading the digits of `n` back gives `n`. |
| `Decimal.FormatRoundTrip` | src/endpoints.rs:36-40 | Parsing the rendering of any integer, negative ones included, gives the integer back. |
| `Decimal.FormatHasNoColon` | src/endpoints.rs:47-53 | A rendered port never contains a colon. |
| `Endpoints.ListenerAddress` | src/endpoints.rs:36-40 | A listener address `address:port` splits at its last colon back into the row's external address and port, even when the address itself contains colons. |
| `Endpoints.BackendAddress` | src/endpoints.rs:47-53 | A backend address splits back into the app's in-cluster service host for that location and the endpoint port. |
| `Endpoints.AddRow` | src/endpoints.rs:35-68 | One row adds its listener to `listeners_map` and to the endpoint list, and keeps the listeners of the endpoints distinct. |
| `Endpoints.Fold` | src/endpoints.rs:32-69 | After all rows, the listeners of the endpoints are distinct and are exactly the listeners the rows mention. `listeners_map` has a key for exactly those listeners. |
| `Endpoints.Discover` | src/endpoints.rs:32-71 | Over formatted rows, the endpoints have distinct listeners, every listener belongs to some row, every row's listener has an endpoint, and every cursor map is empty. |
| `Endpoints.DiscoverEndpoints` | src/endpoints.rs:8-72 | The same over the query rows: one endpoint per distinct listener address of the rows, each with a fresh cursor map. |
| `Endpoints.EveryListenerHasEndpoint` | src/endpoints.rs:42-44 | The listener of every row has an endpoint, even when the row has no placement. |
| `Endpoints.EndpointListenerFromRow` | src/endpoints.rs:62-67 | Every endpoint's listener is the listener address of some row. |
| `Endpoints.FoldFirstSeenOrder` | src/endpoints.rs:62-67 | Listeners are pushed in the order of their first occurrence among the rows. |
| `Endpoints.EndpointsInFirstSeenOrder` | src/endpoints.rs:62-68 | Endpoints come in the order in which their listeners first occur in the rows. |
| `Endpoints.CollectAppend` | src/endpoints.rs:56-59 | Backends are appended in row order: the backends of a concatenation of rows are those of the first part followed by those of the second. |
| `Endpoints.CollectOneRow` | src/endpoints.rs:46-59 | A row adds exactly one backend, its formatted service address, under its listener and its own placement location, and nothing anywhere else. A row without placement adds nothing. |
| `Endpoints.FoldGroupsCollect` | src/endpoints.rs:42-59 | For every listener and location, `listeners_map` holds the reference grouping: the key is present exactly when some row placed a backend there, and its list is all such backends in row order, duplicates kept. |
| `Endpoints.CollectNone` | src/endpoints.rs:42-46 | A listener that no row mentions receives no backends. |
| `Endpoints.EndpointBackendsFromAllRows` | src/endpoints.rs:42-65 | An endpoint's backends are those of all rows with its listener, including rows after the one that created the endpoint, because the map is shared. |
| `Endpoints.CollectUnplaced` | src/endpoints.rs:46 | Rows without placement contribute no backend. |
| `Endpoints.UnplacedListenerHasNoBackends` | src/endpoints.rs:42-46 | A listener whose rows all lack a placement gets an endpoint with an empty backend map. |
| `Locations.PairwiseIsComparable` | src/location.rs:80 | Every pair the sort might compare is comparable exactly when there are at most one element or all distances are numbers. |
| `Locations.InsertMultiset` | src/location.rs:80 | Inserting an element into a sorted run adds exactly that element. |
| `Locations.SortByDistance` | src/location.rs:80 | The stable sort by distance returns a permutation of the pairs. |
| `Locations.InsertSorted` | src/location.rs:80 | Inserting a comparable element into a sorted run keeps it sorted. |
| `Locations.SortSorted` | src/location.rs:80 | With comparable distances, the sorted pairs are in non-decreasing order of distance. |
| `Locations.InsertAtDistance` | src/location.rs:80 | Insertion places the new element after every element at the same distance. |
| `Locations.SortStable` | src/location.rs:80 | Stability: the pairs at each distance keep their input order. |
| `Locations.SortProject` | src/location.rs:80-81 | The locations of the sorted pairs are a permutation of the input locations. |
| `Locations.Annotate` | src/location.rs:69-78 | Each location is paired, in input order, with its own distance from the reference. |
| `Locations.SortedHonest` | src/location.rs:80 | Sorting keeps each location paired with its own distance. |
| `Locations.Rank` | src/location.rs:65-82 | The result is a permutation of the input locations, ordered by non-decreasing distance from the reference. It contains the reference exactly when the input does, and there is no membership check and no failure case. |
| `Locations.ProjectAtDistance` | src/location.rs:81 | Dropping distances commutes with taking the locations at one distance. |
| `Locations.RankStable` | src/location.rs:80-81 | The locations at any one distance from the reference come out in their input order. |
| `Locations.RankStartsAtZero` | src/location.rs:65-82 | If the reference is in the list, its distance from itself is zero and no distance is negative, then the first ranked location is at distance zero. |

## Left out

- Database access is not modelled: the connection and the query in `src/endpoints.rs:9-30`, the query and decoding in `src/location.rs:35-63`, and `src/config.rs`. The query rows are an input (`Endpoints.Row`, `Locations.Location`).
- Endpoints.Row holds already-decoded column values. The `row.get` calls at `src/endpoints.rs:38-39`, `46` and `49-52` panic on a NULL or mistyped column, and the query's filter at lines 26-27 rules out NULL only for the external address and port. So a placed row with a NULL endpoint port or project id panics in the code, and that panic is not modelled.
- `haversine` and `to_radians` (`src/location.rs:12-33`) are floating-point trigonometry. The distance function is a parameter, and coordinates are `real` rather than `f64`.
- `handle_client` and `forward_traffic` (`src/backend.rs:7-33`, `60-74`) connect sockets and copy bytes, so they are not modelled. Only `select_backend`, which they call, is modelled.
- `src/main.rs` (finding the balancer's own location, spawning one listener per endpoint) and `src/types.rs` (the `Arc<Mutex<...>>` wrappers) are outside the core. `Types.Endpoint` keeps only their data.
- Mutexes and async tasks are not modelled: each call of `select_backend` holds both locks for its whole run, so it is one atomic step. `Backend.SelectMany` is the serial order the locks impose.
- Backend.Select: requires the cursor of the first serving location to be below its list length, which is where line 47 would panic. `Backend.CursorsInRange` holds for a fresh map and is preserved by every selection, and the backend map never changes after discovery, so the panic does not happen at runtime.
- Locations.Rank: requires every pair of distances to be comparable, which is where `partial_cmp(...).unwrap()` would panic. `partial_cmp` gives `None` whenever either operand is `NaN`, and a stable sort of two or more elements compares every element at least once. So any `NaN` among two or more locations makes the code panic, and the requires is exactly the panic-free condition (`Locations.PairwiseIsComparable`).
- Locations.RankStartsAtZero: states that the first location is at distance zero, not that it is the reference. Another location at distance zero that comes earlier in the input stays ahead of the reference.
- The round-robin lemmas state the cursor arithmetic with `Backend.Wrap`; `Backend.WrapIsMod` proves it equal to the `%` of line 48.
- Ports are `I32` values as the query reads them. Port ranges and address validity are never checked by the code, so they are not checked here either.
