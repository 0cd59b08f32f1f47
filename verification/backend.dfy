/**
 * The backend selector of src/backend.rs. Both locks are held for the whole decision,
 * so one call is one atomic step: `Select` maps (order, backends, cursors) to the chosen
 * address and the new cursor map. The backend map is an input only: nothing here writes it.
 */
module Backend {
  import opened Wrappers
  import opened Types

  /** The only way a selection fails: no location in the order has a backend. */
  datatype SelectError = NotFound

  /** The outcome of one selection and the cursor map it leaves behind. */
  datatype Step = Step(result: Result<Address, SelectError>, cursors: CursorMap)

  /** The outcomes of consecutive selections against one endpoint, and the final cursor map. */
  datatype Run = Run(results: seq<Result<Address, SelectError>>, cursors: CursorMap)

  /** Location `l` has a registered, non-empty backend list. */
  predicate HasBackends(backends: BackendMap, l: LocationId)
  {
    l in backends && |backends[l]| > 0
  }

  /** The cursor of `l`; a location never selected before starts at 0. */
  function CursorOf(cursors: CursorMap, l: LocationId): nat
  {
    if l in cursors then cursors[l] else 0
  }

  /** No location of `order` has a backend. */
  predicate NoneServing(order: seq<LocationId>, backends: BackendMap)
  {
    forall i | 0 <= i < |order| :: !HasBackends(backends, order[i])
  }

  /** Position `i` of `order` is the nearest location that has a backend. */
  predicate IsFirstServing(order: seq<LocationId>, backends: BackendMap, i: int)
  {
    && 0 <= i < |order|
    && HasBackends(backends, order[i])
    && forall j | 0 <= j < i :: !HasBackends(backends, order[j])
  }

  /** The scan of the `for` loop, from position `k` on: the first position with a backend. */
  function FirstServingFrom(order: seq<LocationId>, backends: BackendMap, k: nat): (r: Option<nat>)
    requires k <= |order|
    ensures r.Some? ==> k <= r.value < |order| && HasBackends(backends, order[r.value])
    ensures r.Some? ==> forall j | k <= j < r.value :: !HasBackends(backends, order[j])
    ensures r.None? <==> forall j | k <= j < |order| :: !HasBackends(backends, order[j])
    decreases |order| - k
  {
    if k == |order| then None
    else if HasBackends(backends, order[k]) then Some(k)
    else FirstServingFrom(order, backends, k + 1)
  }

  /** The position the selector settles on, if any. */
  function FirstServing(order: seq<LocationId>, backends: BackendMap): (r: Option<nat>)
    ensures r.Some? ==> IsFirstServing(order, backends, r.value)
    ensures r.None? <==> NoneServing(order, backends)
  {
    FirstServingFrom(order, backends, 0)
  }

  /** The index taken at src/backend.rs:47 is in bounds: the chosen location's cursor is below its list length. */
  predicate CursorReady(order: seq<LocationId>, backends: BackendMap, cursors: CursorMap)
  {
    forall i | 0 <= i < |order| && IsFirstServing(order, backends, i) :: CursorOf(cursors, order[i]) < |backends[order[i]]|
  }

  /** The runtime invariant: every cursor of a location with backends is within its list. */
  predicate CursorsInRange(backends: BackendMap, cursors: CursorMap)
  {
    forall l | l in cursors && HasBackends(backends, l) :: cursors[l] < |backends[l]|
  }

  /** `s` hands out location `l`'s backend at its cursor and advances that cursor by one, modulo the list length. */
  predicate Advanced(l: LocationId, backends: BackendMap, cursors: CursorMap, s: Step)
  {
    && HasBackends(backends, l)
    && CursorOf(cursors, l) < |backends[l]|
    && s.result == Success(backends[l][CursorOf(cursors, l)])
    && s.cursors == cursors[l := (CursorOf(cursors, l) + 1) % |backends[l]|]
  }

  /** The lines after the scan: hand out `l`'s backend at its cursor, then advance that cursor. */
  function Advance(l: LocationId, backends: BackendMap, cursors: CursorMap): (s: Step)
    requires HasBackends(backends, l) && CursorOf(cursors, l) < |backends[l]|
    ensures s.result.Success? && s.result.value in backends[l]
    ensures CursorOf(s.cursors, l) < |backends[l]|
    ensures forall m | m != l :: (m in s.cursors <==> m in cursors) && CursorOf(s.cursors, m) == CursorOf(cursors, m)
  {
    var c := CursorOf(cursors, l);
    Step(Success(backends[l][c]), cursors[l := (c + 1) % |backends[l]|])
  }

  /** `select_backend`: one atomic selection under both locks. */
  function Select(order: seq<LocationId>, backends: BackendMap, cursors: CursorMap): (s: Step)
    requires CursorReady(order, backends, cursors)
    ensures s.result.Failure? <==> NoneServing(order, backends)
    ensures s.result.Failure? ==> s.result.error == NotFound && s.cursors == cursors
    ensures s.result.Success? ==>
      exists i | 0 <= i < |order| :: IsFirstServing(order, backends, i) && Advanced(order[i], backends, cursors, s)
    ensures CursorReady(order, backends, s.cursors)
    ensures CursorsInRange(backends, cursors) ==> CursorsInRange(backends, s.cursors)
  {
    match FirstServing(order, backends)
    case None => Step(Failure(NotFound), cursors)
    case Some(i) =>
      var s := Advance(order[i], backends, cursors);
      assert Advanced(order[i], backends, cursors, s);
      s
  }

  /** `n` consecutive selections against one endpoint, as the lock linearizes them. */
  function SelectMany(order: seq<LocationId>, backends: BackendMap, cursors: CursorMap, n: nat): (r: Run)
    requires CursorReady(order, backends, cursors)
    ensures |r.results| == n
    ensures CursorReady(order, backends, r.cursors)
    decreases n
  {
    if n == 0 then Run([], cursors)
    else
      var s := Select(order, backends, cursors);
      var rest := SelectMany(order, backends, s.cursors, n - 1);
      Run([s.result] + rest.results, rest.cursors)
  }

  /** The fresh cursor map and every map satisfying the invariant make the index at line 47 safe. */
  lemma InRangeIsReady(order: seq<LocationId>, backends: BackendMap, cursors: CursorMap)
    requires CursorsInRange(backends, cursors)
    ensures CursorReady(order, backends, cursors)
  {
  }

  /** Selection takes the nearest location with a backend, its backend at the cursor, and advances only that cursor. */
  lemma SelectTakesFirstServing(order: seq<LocationId>, backends: BackendMap, cursors: CursorMap, i: int)
    requires IsFirstServing(order, backends, i)
    requires CursorOf(cursors, order[i]) < |backends[order[i]]|
    ensures CursorReady(order, backends, cursors)
    ensures Advanced(order[i], backends, cursors, Select(order, backends, cursors))
    ensures forall l | l != order[i] ::
      (l in Select(order, backends, cursors).cursors <==> l in cursors)
      && CursorOf(Select(order, backends, cursors).cursors, l) == CursorOf(cursors, l)
  {
    FirstServingIs(order, backends, i);
  }

  /** The nearest serving position is unique. */
  lemma FirstServingIs(order: seq<LocationId>, backends: BackendMap, i: int)
    requires IsFirstServing(order, backends, i)
    ensures FirstServing(order, backends) == Some(i)
  {
    var r := FirstServing(order, backends);
    assert r.Some?;
  }

  /** A location of the backend map that is not in the order is never chosen: its cursor is untouched. */
  lemma UnorderedNeverSelected(order: seq<LocationId>, backends: BackendMap, cursors: CursorMap, l: LocationId)
    requires CursorReady(order, backends, cursors)
    requires l !in order
    ensures l in Select(order, backends, cursors).cursors <==> l in cursors
    ensures l in cursors ==> Select(order, backends, cursors).cursors[l] == cursors[l]
  {
  }

  /** With no backends at all, every selection fails and the cursors stay as they are. */
  lemma EmptyTableNotFound(order: seq<LocationId>, cursors: CursorMap)
    ensures CursorReady(order, map[], cursors)
    ensures Select(order, map[], cursors) == Step(Failure(NotFound), cursors)
  {
  }

  /** Failover: when the nearest location has no backend and the second one has, the second one serves. */
  lemma FailoverToNext(order: seq<LocationId>, backends: BackendMap, cursors: CursorMap)
    requires |order| >= 2
    requires !HasBackends(backends, order[0]) && HasBackends(backends, order[1])
    requires CursorOf(cursors, order[1]) < |backends[order[1]]|
    ensures CursorReady(order, backends, cursors)
    ensures Select(order, backends, cursors).result
         == Success(backends[order[1]][CursorOf(cursors, order[1])])
  {
    SelectTakesFirstServing(order, backends, cursors, 1);
  }

  /** Euclidean division is unique: `q * len + r` with `0 <= r < len` divides to `q` remainder `r`. */
  lemma DivModUnique(x: int, len: int, q: int, r: int)
    requires len > 0 && 0 <= r < len && x == q * len + r
    ensures x % len == r
  {
    var q', r' := x / len, x % len;
    assert (q - q') * len == r' - r;
    if q > q' {
      MulAtLeast(q - q', len);
    } else if q < q' {
      MulAtLeast(q' - q, len);
    }
  }

  lemma MulAtLeast(a: int, b: int)
    requires a >= 1 && b > 0
    ensures a * b >= b
  {
  }

  /** `x` reduced modulo `len` by repeated subtraction: the cursor after `x` single steps from 0. */
  function Wrap(x: nat, len: nat): (r: nat)
    requires len > 0
    ensures r < len
    decreases x
  {
    if x < len then x else Wrap(x - len, len)
  }

  /** `Wrap` is the remainder of the source's `%` on non-negative operands. */
  lemma {:induction false} WrapIsMod(x: nat, len: nat)
    requires len > 0
    ensures Wrap(x, len) == x % len
    decreases x
  {
    if x < len {
      DivModUnique(x, len, 0, x);
    } else {
      WrapIsMod(x - len, len);
      DivModUnique(x, len, (x - len) / len + 1, (x - len) % len);
    }
  }

  /** A first step of the cursor, `(c + 1) % len`, followed by `k - 1` more is `c + k` steps. */
  lemma WrapStep(c: nat, c1: nat, k: nat, len: nat)
    requires c < len && c1 == (c + 1) % len && k > 0
    ensures Wrap(c1 + (k - 1), len) == Wrap(c + k, len)
  {
    if c + 1 == len {
      DivModUnique(c + 1, len, 1, 0);
      assert Wrap(len + (k - 1), len) == Wrap(k - 1, len);
    } else {
      DivModUnique(c + 1, len, 0, c + 1);
    }
  }

  /** `n` advances of location `l` alone: what consecutive selections do once `l` is the nearest serving location. */
  function AdvanceMany(l: LocationId, backends: BackendMap, cursors: CursorMap, n: nat): (r: Run)
    requires HasBackends(backends, l) && CursorOf(cursors, l) < |backends[l]|
    ensures |r.results| == n
    decreases n
  {
    if n == 0 then Run([], cursors)
    else
      var s := Advance(l, backends, cursors);
      var rest := AdvanceMany(l, backends, s.cursors, n - 1);
      Run([s.result] + rest.results, rest.cursors)
  }

  /** While the nearest serving location stays the same, consecutive selections are advances of that location. */
  lemma {:induction false} SelectManyAdvances(order: seq<LocationId>, backends: BackendMap, cursors: CursorMap, i: int, n: nat)
    requires IsFirstServing(order, backends, i)
    requires CursorOf(cursors, order[i]) < |backends[order[i]]|
    ensures CursorReady(order, backends, cursors)
    ensures SelectMany(order, backends, cursors, n).results == AdvanceMany(order[i], backends, cursors, n).results
    ensures SelectMany(order, backends, cursors, n).cursors == AdvanceMany(order[i], backends, cursors, n).cursors
    decreases n
  {
    FirstServingIs(order, backends, i);
    if n > 0 {
      var s := Select(order, backends, cursors);
      assert s == Advance(order[i], backends, cursors);
      SelectManyAdvances(order, backends, s.cursors, i, n - 1);
    }
  }

  /** Advance `k` of `n` hands out the backend `k` places after the cursor, wrapping around. */
  lemma {:induction false} AdvancePick(l: LocationId, backends: BackendMap, cursors: CursorMap, n: nat, k: nat)
    requires HasBackends(backends, l) && CursorOf(cursors, l) < |backends[l]|
    requires k < n
    ensures AdvanceMany(l, backends, cursors, n).results[k]
         == Success(backends[l][Wrap(CursorOf(cursors, l) + k, |backends[l]|)])
    decreases k
  {
    var c, len := CursorOf(cursors, l), |backends[l]|;
    var s := Advance(l, backends, cursors);
    AdvanceManyUnfold(l, backends, cursors, n, k);
    if k > 0 {
      AdvancePick(l, backends, s.cursors, n - 1, k - 1);
      WrapStep(c, CursorOf(s.cursors, l), k, len);
    }
  }

  /** Advance `k` of `n` is the first advance when `k == 0`, and advance `k - 1` of the remaining `n - 1` otherwise. */
  lemma AdvanceManyUnfold(l: LocationId, backends: BackendMap, cursors: CursorMap, n: nat, k: nat)
    requires HasBackends(backends, l) && CursorOf(cursors, l) < |backends[l]|
    requires k < n
    ensures k == 0 ==> AdvanceMany(l, backends, cursors, n).results[k]
                       == Success(backends[l][Wrap(CursorOf(cursors, l) + k, |backends[l]|)])
    ensures k > 0 ==> AdvanceMany(l, backends, cursors, n).results[k]
                      == AdvanceMany(l, backends, Advance(l, backends, cursors).cursors, n - 1).results[k - 1]
  {
  }

  /** `n` advances move the cursor of `l` by `n`, modulo the list length. */
  lemma {:induction false} AdvanceCursor(l: LocationId, backends: BackendMap, cursors: CursorMap, n: nat)
    requires HasBackends(backends, l) && CursorOf(cursors, l) < |backends[l]|
    ensures CursorOf(AdvanceMany(l, backends, cursors, n).cursors, l) == Wrap(CursorOf(cursors, l) + n, |backends[l]|)
    decreases n
  {
    var c, len := CursorOf(cursors, l), |backends[l]|;
    if n > 0 {
      var s := Advance(l, backends, cursors);
      AdvanceCursor(l, backends, s.cursors, n - 1);
      WrapStep(c, CursorOf(s.cursors, l), n, len);
    }
  }

  /** `n` advances of `l` leave every other cursor as it was. */
  lemma {:induction false} AdvanceOthers(l: LocationId, backends: BackendMap, cursors: CursorMap, n: nat, m: LocationId)
    requires HasBackends(backends, l) && CursorOf(cursors, l) < |backends[l]|
    requires m != l
    ensures m in AdvanceMany(l, backends, cursors, n).cursors <==> m in cursors
    ensures CursorOf(AdvanceMany(l, backends, cursors, n).cursors, m) == CursorOf(cursors, m)
    decreases n
  {
    if n > 0 {
      AdvanceOthers(l, backends, Advance(l, backends, cursors).cursors, n - 1, m);
    }
  }

  /** `AdvanceOthers` quantified over every location other than `l`. */
  lemma AdvanceOthersAll(l: LocationId, backends: BackendMap, cursors: CursorMap, n: nat)
    requires HasBackends(backends, l) && CursorOf(cursors, l) < |backends[l]|
    ensures forall m | m != l ::
      && (m in AdvanceMany(l, backends, cursors, n).cursors <==> m in cursors)
      && CursorOf(AdvanceMany(l, backends, cursors, n).cursors, m) == CursorOf(cursors, m)
  {
    forall m | m != l
      ensures && (m in AdvanceMany(l, backends, cursors, n).cursors <==> m in cursors)
              && CursorOf(AdvanceMany(l, backends, cursors, n).cursors, m) == CursorOf(cursors, m)
    {
      AdvanceOthers(l, backends, cursors, n, m);
    }
  }

  /** Round robin, one pick: selection `k` of `n` hands out the backend `k` places after the cursor, wrapping around. */
  lemma {:induction false} RoundRobinPick(order: seq<LocationId>, backends: BackendMap, cursors: CursorMap, i: int, n: nat, k: nat)
    requires IsFirstServing(order, backends, i)
    requires CursorOf(cursors, order[i]) < |backends[order[i]]|
    requires k < n
    ensures CursorReady(order, backends, cursors)
    ensures SelectMany(order, backends, cursors, n).results[k]
         == Success(backends[order[i]][Wrap(CursorOf(cursors, order[i]) + k, |backends[order[i]]|)])
  {
    SelectManyPick(order, backends, cursors, i, n, k);
    ServingPick(order, backends, cursors, i, n, k);
  }

  /** First half of `RoundRobinPick`: selection `k` is advance `k` of the first serving location. */
  lemma {:induction false} SelectManyPick(order: seq<LocationId>, backends: BackendMap, cursors: CursorMap, i: int, n: nat, k: nat)
    requires IsFirstServing(order, backends, i)
    requires CursorOf(cursors, order[i]) < |backends[order[i]]|
    requires k < n
    ensures CursorReady(order, backends, cursors)
    ensures SelectMany(order, backends, cursors, n).results[k] == AdvanceMany(order[i], backends, cursors, n).results[k]
  {
    SelectManyAdvances(order, backends, cursors, i, n);
  }

  /** Second half of `RoundRobinPick`: advance `k` of the first serving location, in terms of its cursor. */
  lemma {:induction false} ServingPick(order: seq<LocationId>, backends: BackendMap, cursors: CursorMap, i: int, n: nat, k: nat)
    requires IsFirstServing(order, backends, i)
    requires CursorOf(cursors, order[i]) < |backends[order[i]]|
    requires k < n
    ensures AdvanceMany(order[i], backends, cursors, n).results[k]
         == Success(backends[order[i]][Wrap(CursorOf(cursors, order[i]) + k, |backends[order[i]]|)])
  {
    AdvancePick(order[i], backends, cursors, n, k);
  }

  /** Round robin, the addresses: `n` consecutive selections hand out the list from the cursor on, wrapping around. */
  lemma RoundRobinResults(order: seq<LocationId>, backends: BackendMap, cursors: CursorMap, i: int, n: nat)
    requires IsFirstServing(order, backends, i)
    requires CursorOf(cursors, order[i]) < |backends[order[i]]|
    ensures CursorReady(order, backends, cursors)
    ensures forall k | 0 <= k < n ::
      SelectMany(order, backends, cursors, n).results[k]
        == Success(backends[order[i]][Wrap(CursorOf(cursors, order[i]) + k, |backends[order[i]]|)])
  {
    SelectTakesFirstServing(order, backends, cursors, i);
    forall k | 0 <= k < n
      ensures SelectMany(order, backends, cursors, n).results[k]
           == Success(backends[order[i]][Wrap(CursorOf(cursors, order[i]) + k, |backends[order[i]]|)])
    {
      RoundRobinPick(order, backends, cursors, i, n, k);
    }
  }

  /** Round robin, the cursors: `n` selections advance the serving cursor `n` times, modulo the list length, and no other. */
  lemma RoundRobinCursors(order: seq<LocationId>, backends: BackendMap, cursors: CursorMap, i: int, n: nat)
    requires IsFirstServing(order, backends, i)
    requires CursorOf(cursors, order[i]) < |backends[order[i]]|
    ensures CursorReady(order, backends, cursors)
    ensures CursorOf(SelectMany(order, backends, cursors, n).cursors, order[i])
         == Wrap(CursorOf(cursors, order[i]) + n, |backends[order[i]]|)
    ensures forall m | m != order[i] ::
      && (m in SelectMany(order, backends, cursors, n).cursors <==> m in cursors)
      && CursorOf(SelectMany(order, backends, cursors, n).cursors, m) == CursorOf(cursors, m)
  {
    SelectManyAdvances(order, backends, cursors, i, n);
    AdvanceCursor(order[i], backends, cursors, n);
    AdvanceOthersAll(order[i], backends, cursors, n);
  }

  /**
   * From a fresh cursor, `len + 1` selections return the whole list in order and then its
   * first backend again.
   */
  lemma RoundRobinFromFresh(order: seq<LocationId>, backends: BackendMap, i: int)
    requires IsFirstServing(order, backends, i)
    ensures CursorReady(order, backends, map[])
    ensures forall k | 0 <= k < |backends[order[i]]| ::
      SelectMany(order, backends, map[], |backends[order[i]]| + 1).results[k] == Success(backends[order[i]][k])
    ensures SelectMany(order, backends, map[], |backends[order[i]]| + 1).results[|backends[order[i]]|]
         == Success(backends[order[i]][0])
  {
    var len := |backends[order[i]]|;
    var run := SelectMany(order, backends, map[], len + 1);
    RoundRobinResults(order, backends, map[], i, len + 1);
    assert Wrap(0 + len, len) == 0 by { assert Wrap(len, len) == Wrap(0, len); }
  }
}
