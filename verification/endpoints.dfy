/**
 * The row fold of `get_public_tcp_endpoints` (src/endpoints.rs). The query result is taken
 * as given; each row names one endpoint of one app and, through the left join, at most one
 * placement location. Every endpoint shares its backend map with `listeners_map`, so the map
 * an endpoint ends up with is the one `listeners_map` holds for its listener after the last row.
 */
module Endpoints {
  import opened Wrappers
  import opened Types
  import Decimal

  /** One row of the discovery query. */
  datatype Row = Row(
    externalAddress: string,
    externalPort: I32,
    appId: string,
    projectId: string,
    endpointPort: I32,
    placement: Option<LocationId>)

  /** The public listener of a row: `external_address:external_port`. It splits back into the two, even when the address holds colons. */
  function ListenerAddress(row: Row): (s: string)
    ensures SplitHostPort(s) == Some((row.externalAddress, row.externalPort as int))
  {
    HostPortRoundTrip(row.externalAddress, row.externalPort);
    row.externalAddress + ":" + Decimal.Format(row.externalPort)
  }

  /** The in-cluster service name of an app placed at `location`. */
  function BackendHost(row: Row, location: LocationId): string
  {
    "app-" + row.appId + "-" + location + "-svc.proj-" + row.projectId + ".svc.cluster.local"
  }

  /** The backend a placed row contributes: its service host and the endpoint's own port, which it splits back into. */
  function BackendAddress(row: Row, location: LocationId): (s: Address)
    ensures SplitHostPort(s) == Some((BackendHost(row, location), row.endpointPort as int))
  {
    HostPortRoundTrip(BackendHost(row, location), row.endpointPort);
    BackendHost(row, location) + ":" + Decimal.Format(row.endpointPort)
  }

  /** The last position of a colon in `s`, if any. */
  function LastColon(s: string): (r: Option<nat>)
    ensures r.Some? ==> r.value < |s| && s[r.value] == ':' && forall j | r.value < j < |s| :: s[j] != ':'
    ensures r.None? <==> ':' !in s
  {
    if |s| == 0 then None
    else if s[|s| - 1] == ':' then Some(|s| - 1)
    else LastColon(s[..|s| - 1])
  }

  /** Splits a `host:port` string at its last colon and reads the port back. */
  function SplitHostPort(s: string): Option<(string, int)>
  {
    match LastColon(s)
    case None => None
    case Some(i) =>
      match Decimal.Parse(s[i + 1..])
      case None => None
      case Some(port) => Some((s[..i], port))
  }

  lemma {:induction false} LastColonBeforeSuffix(host: string, tail: string)
    requires ':' !in tail
    ensures LastColon(host + ":" + tail) == Some(|host|)
    decreases |tail|
  {
    var s := host + ":" + tail;
    if |tail| > 0 {
      assert s[..|s| - 1] == host + ":" + tail[..|tail| - 1];
      LastColonBeforeSuffix(host, tail[..|tail| - 1]);
    }
  }

  lemma HostPortRoundTrip(host: string, port: int)
    ensures SplitHostPort(host + ":" + Decimal.Format(port)) == Some((host, port))
  {
    var s := host + ":" + Decimal.Format(port);
    Decimal.FormatHasNoColon(port);
    LastColonBeforeSuffix(host, Decimal.Format(port));
    assert s[|host| + 1..] == Decimal.Format(port);
    assert s[..|host|] == host;
    Decimal.FormatRoundTrip(port);
  }

  /**
   * What one row contributes, once formatted: its listener address, and the location and
   * backend address when the row has a placement.
   */
  datatype RowView = RowView(listener: string, placed: Option<(LocationId, Address)>)

  function ViewOf(row: Row): RowView
  {
    RowView(
      ListenerAddress(row),
      match row.placement
      case None => None
      case Some(loc) => Some((loc, BackendAddress(row, loc))))
  }

  /** The rows of the query, each formatted. */
  function Views(rows: seq<Row>): (vs: seq<RowView>)
    ensures |vs| == |rows|
  {
    seq(|rows|, j requires 0 <= j < |rows| => ViewOf(rows[j]))
  }

  /** The fold's state: `listeners_map` and the listeners of `endpoints`, in push order. */
  datatype Discovery = Discovery(groups: map<string, BackendMap>, listeners: seq<string>)

  predicate Distinct(s: seq<string>)
  {
    forall i, j | 0 <= i < j < |s| :: s[i] != s[j]
  }

  /** Some view has listener `l`. */
  predicate Mentions(vs: seq<RowView>, l: string)
  {
    exists i | 0 <= i < |vs| :: vs[i].listener == l
  }

  /** One iteration of the `for row in rows` loop, on the formatted row. */
  function AddRow(d: Discovery, v: RowView): (r: Discovery)
    ensures Distinct(d.listeners) ==> Distinct(r.listeners)
    ensures forall l :: l in r.listeners <==> l in d.listeners || l == v.listener
    ensures forall l :: l in r.groups <==> l in d.groups || l == v.listener
  {
    var existing := if v.listener in d.groups then d.groups[v.listener] else map[];
    var updated :=
      match v.placed
      case None => existing
      case Some((loc, backend)) => existing[loc := (if loc in existing then existing[loc] else []) + [backend]];
    Discovery(
      d.groups[v.listener := updated],
      if v.listener in d.listeners then d.listeners else d.listeners + [v.listener])
  }

  /** A sequence of views mentions a listener exactly when its prefix or its last view does. */
  lemma MentionsSnoc(vs: seq<RowView>, l: string)
    requires |vs| > 0
    ensures Mentions(vs, l) <==> Mentions(vs[..|vs| - 1], l) || vs[|vs| - 1].listener == l
  {
    var prefix := vs[..|vs| - 1];
    if Mentions(prefix, l) {
      var i :| 0 <= i < |prefix| && prefix[i].listener == l;
      assert vs[i] == prefix[i];
    }
    if Mentions(vs, l) && vs[|vs| - 1].listener != l {
      var i :| 0 <= i < |vs| && vs[i].listener == l;
      assert prefix[i] == vs[i];
    }
  }

  /** The loop over all rows, from empty maps. */
  function Fold(vs: seq<RowView>): (d: Discovery)
    ensures Distinct(d.listeners)
    ensures forall l :: l in d.groups <==> l in d.listeners
    ensures forall l :: l in d.listeners <==> Mentions(vs, l)
  {
    if |vs| == 0 then Discovery(map[], [])
    else
      var d := AddRow(Fold(vs[..|vs| - 1]), vs[|vs| - 1]);
      assert forall l :: l in d.listeners <==> Mentions(vs, l) by {
        forall l ensures l in d.listeners <==> Mentions(vs, l) {
          MentionsSnoc(vs, l);
        }
      }
      d
  }

  /** One endpoint per pushed listener, holding the map `listeners_map` has for it at the end and a fresh cursor map. */
  function ToEndpoints(d: Discovery): seq<Endpoint>
    requires forall l :: l in d.listeners ==> l in d.groups
  {
    seq(|d.listeners|, i requires 0 <= i < |d.listeners| => Endpoint(d.listeners[i], d.groups[d.listeners[i]], map[]))
  }

  /** The endpoints of a sequence of formatted rows: one per distinct listener, each with a fresh cursor map. */
  function Discover(vs: seq<RowView>): (es: seq<Endpoint>)
    ensures forall i, j | 0 <= i < j < |es| :: es[i].listener != es[j].listener
    ensures forall i | 0 <= i < |es| :: Mentions(vs, es[i].listener)
    ensures forall l | Mentions(vs, l) :: exists i | 0 <= i < |es| :: es[i].listener == l
    ensures forall i | 0 <= i < |es| :: es[i].currentIndices == map[]
  {
    var d := Fold(vs);
    EveryPushedListenerHasEndpoint(d);
    ToEndpoints(d)
  }

  lemma EveryPushedListenerHasEndpoint(d: Discovery)
    requires forall l :: l in d.listeners ==> l in d.groups
    ensures forall l | l in d.listeners :: exists i | 0 <= i < |ToEndpoints(d)| :: ToEndpoints(d)[i].listener == l
  {
    var es := ToEndpoints(d);
    forall l | l in d.listeners ensures exists i | 0 <= i < |es| :: es[i].listener == l {
      var i :| 0 <= i < |d.listeners| && d.listeners[i] == l;
      assert es[i].listener == l;
    }
  }

  /**
   * The endpoints the fold returns: one per distinct listener of the rows (`Mentions` is over
   * the formatted rows), each with a fresh cursor map.
   */
  function DiscoverEndpoints(rows: seq<Row>): (es: seq<Endpoint>)
    ensures forall i, j | 0 <= i < j < |es| :: es[i].listener != es[j].listener
    ensures forall i | 0 <= i < |es| :: Mentions(Views(rows), es[i].listener)
    ensures forall l | Mentions(Views(rows), l) :: exists i | 0 <= i < |es| :: es[i].listener == l
    ensures forall i | 0 <= i < |es| :: es[i].currentIndices == map[]
  {
    Discover(Views(rows))
  }

  /** Every row's listener address, even of a row without placement, has an endpoint. */
  lemma EveryListenerHasEndpoint(rows: seq<Row>, j: nat)
    requires j < |rows|
    ensures exists i | 0 <= i < |DiscoverEndpoints(rows)| :: DiscoverEndpoints(rows)[i].listener == ListenerAddress(rows[j])
  {
    var l := ListenerAddress(rows[j]);
    assert Views(rows)[j].listener == l;
    assert Mentions(Views(rows), l);
    var es := DiscoverEndpoints(rows);
    var i :| 0 <= i < |es| && es[i].listener == l;
  }

  /** Every endpoint's listener is the listener address of some row. */
  lemma EndpointListenerFromRow(rows: seq<Row>, i: nat)
    requires i < |DiscoverEndpoints(rows)|
    ensures exists j | 0 <= j < |rows| :: ListenerAddress(rows[j]) == DiscoverEndpoints(rows)[i].listener
  {
    var vs := Views(rows);
    var j :| 0 <= j < |vs| && vs[j].listener == DiscoverEndpoints(rows)[i].listener;
    assert vs[j] == ViewOf(rows[j]);
  }

  /** The position of the first view with listener `l`. */
  function FirstIndex(vs: seq<RowView>, l: string): (r: Option<nat>)
    ensures r.Some? ==> r.value < |vs| && vs[r.value].listener == l
    ensures r.Some? ==> forall j | 0 <= j < r.value :: vs[j].listener != l
    ensures r.None? <==> !Mentions(vs, l)
  {
    if |vs| == 0 then None
    else if vs[0].listener == l then Some(0)
    else
      var rest := FirstIndex(vs[1..], l);
      assert forall j | 1 <= j < |vs| :: vs[1..][j - 1] == vs[j];
      if rest.None? then None else Some(rest.value + 1)
  }

  /** The first occurrence is unique: a position holding `l` with no `l` before it is the first index. */
  lemma FirstIndexIs(vs: seq<RowView>, l: string, k: nat)
    requires k < |vs| && vs[k].listener == l
    requires forall j | 0 <= j < k :: vs[j].listener != l
    ensures FirstIndex(vs, l) == Some(k)
  {
    assert Mentions(vs, l);
  }

  lemma FirstIndexSnocSeen(vs: seq<RowView>, l: string)
    requires |vs| > 0 && Mentions(vs[..|vs| - 1], l)
    ensures FirstIndex(vs, l) == FirstIndex(vs[..|vs| - 1], l)
  {
    var prefix := vs[..|vs| - 1];
    var k := FirstIndex(prefix, l).value;
    assert forall j | 0 <= j < |prefix| :: vs[j] == prefix[j];
    FirstIndexIs(vs, l, k);
  }

  lemma FirstIndexSnocNew(vs: seq<RowView>, l: string)
    requires |vs| > 0 && !Mentions(vs[..|vs| - 1], l) && vs[|vs| - 1].listener == l
    ensures FirstIndex(vs, l) == Some(|vs| - 1)
  {
    var prefix := vs[..|vs| - 1];
    assert forall j | 0 <= j < |prefix| :: vs[j] == prefix[j];
    FirstIndexIs(vs, l, |vs| - 1);
  }

  /** Listeners are pushed in the order in which they first occur. */
  lemma {:induction false} FoldFirstSeenOrder(vs: seq<RowView>)
    ensures forall a, b | 0 <= a < b < |Fold(vs).listeners| ::
      && FirstIndex(vs, Fold(vs).listeners[a]).Some?
      && FirstIndex(vs, Fold(vs).listeners[b]).Some?
      && FirstIndex(vs, Fold(vs).listeners[a]).value < FirstIndex(vs, Fold(vs).listeners[b]).value
  {
    if |vs| > 0 {
      var prefix := vs[..|vs| - 1];
      FoldFirstSeenOrder(prefix);
      var before, after := Fold(prefix).listeners, Fold(vs).listeners;
      forall a, b | 0 <= a < b < |after|
        ensures && FirstIndex(vs, after[a]).Some?
                && FirstIndex(vs, after[b]).Some?
                && FirstIndex(vs, after[a]).value < FirstIndex(vs, after[b]).value
      {
        assert after[a] == before[a];
        FirstIndexSnocSeen(vs, after[a]);
        if b == |before| {
          assert after[b] == vs[|vs| - 1].listener;
          FirstIndexSnocNew(vs, after[b]);
        } else {
          assert after[b] == before[b];
          FirstIndexSnocSeen(vs, after[b]);
        }
      }
    }
  }

  /** The endpoints come in the order in which their listeners first occur in the rows. */
  lemma EndpointsInFirstSeenOrder(rows: seq<Row>)
    ensures forall a, b | 0 <= a < b < |DiscoverEndpoints(rows)| ::
      && FirstIndex(Views(rows), DiscoverEndpoints(rows)[a].listener).Some?
      && FirstIndex(Views(rows), DiscoverEndpoints(rows)[b].listener).Some?
      && FirstIndex(Views(rows), DiscoverEndpoints(rows)[a].listener).value
         < FirstIndex(Views(rows), DiscoverEndpoints(rows)[b].listener).value
  {
    var vs := Views(rows);
    var d := Fold(vs);
    var es := DiscoverEndpoints(rows);
    assert es == Discover(vs) == ToEndpoints(d);
    FoldFirstSeenOrder(vs);
    forall a, b | 0 <= a < b < |es|
      ensures && FirstIndex(vs, es[a].listener).Some?
              && FirstIndex(vs, es[b].listener).Some?
              && FirstIndex(vs, es[a].listener).value < FirstIndex(vs, es[b].listener).value
    {
      assert es[a].listener == d.listeners[a];
      assert es[b].listener == d.listeners[b];
    }
  }

  /**
   * The reference grouping: the backends that views with listener `l` placed at `loc`
   * contribute, one per view, in row order.
   */
  function Collect(vs: seq<RowView>, l: string, loc: LocationId): seq<Address>
  {
    if |vs| == 0 then []
    else
      var last := vs[|vs| - 1];
      Collect(vs[..|vs| - 1], l, loc)
        + (if last.listener == l && last.placed.Some? && last.placed.value.0 == loc then [last.placed.value.1] else [])
  }

  /** Rows contribute in order: the backends of a concatenation are those of its parts, one after the other. */
  lemma {:induction false} CollectAppend(a: seq<RowView>, b: seq<RowView>, l: string, loc: LocationId)
    ensures Collect(a + b, l, loc) == Collect(a, l, loc) + Collect(b, l, loc)
    decreases |b|
  {
    if |b| > 0 {
      var b' := b[..|b| - 1];
      assert (a + b)[..|a + b| - 1] == a + b';
      assert (a + b)[|a + b| - 1] == b[|b| - 1];
      CollectAppend(a, b', l, loc);
    } else {
      assert a + b == a;
    }
  }

  /** A single row contributes exactly one backend when it is placed at `loc` under `l`, and none otherwise. */
  lemma CollectOneRow(row: Row, l: string, loc: LocationId)
    ensures Collect(Views([row]), l, loc)
         == if ListenerAddress(row) == l && row.placement == Some(loc) then [BackendAddress(row, loc)] else []
  {
    assert Views([row])[..0] == [];
    assert Views([row])[0] == ViewOf(row);
  }

  /** The fold groups exactly as the reference does, for every listener and location. */
  lemma {:induction false} FoldGroupsCollect(vs: seq<RowView>)
    ensures forall l, loc | l in Fold(vs).groups ::
      loc in Fold(vs).groups[l] <==> Collect(vs, l, loc) != []
    ensures forall l, loc | l in Fold(vs).groups && loc in Fold(vs).groups[l] ::
      Fold(vs).groups[l][loc] == Collect(vs, l, loc)
  {
    if |vs| > 0 {
      var prefix := vs[..|vs| - 1];
      FoldGroupsCollect(prefix);
      var g, g' := Fold(prefix).groups, Fold(vs).groups;
      forall l, loc | l in g'
        ensures loc in g'[l] <==> Collect(vs, l, loc) != []
        ensures loc in g'[l] ==> g'[l][loc] == Collect(vs, l, loc)
      {
        if l !in g {
          CollectNone(prefix, l, loc);
        }
      }
    }
  }

  lemma {:induction false} CollectNone(vs: seq<RowView>, l: string, loc: LocationId)
    requires !Mentions(vs, l)
    ensures Collect(vs, l, loc) == []
  {
    if |vs| > 0 {
      MentionsSnoc(vs, l);
      CollectNone(vs[..|vs| - 1], l, loc);
    }
  }

  /**
   * Every endpoint's backends are those of ALL rows with its listener, including rows after
   * the one that created the endpoint: a location is present exactly when some row places a
   * backend there, and its list is the reference grouping.
   */
  lemma EndpointBackendsFromAllRows(rows: seq<Row>, i: nat, loc: LocationId)
    requires i < |DiscoverEndpoints(rows)|
    ensures var e := DiscoverEndpoints(rows)[i];
      loc in e.backendsByLocation <==> Collect(Views(rows), e.listener, loc) != []
    ensures var e := DiscoverEndpoints(rows)[i];
      loc in e.backendsByLocation ==> e.backendsByLocation[loc] == Collect(Views(rows), e.listener, loc)
  {
    FoldGroupsCollect(Views(rows));
  }

  lemma {:induction false} CollectUnplaced(vs: seq<RowView>, l: string, loc: LocationId)
    requires forall j | 0 <= j < |vs| :: vs[j].listener == l ==> vs[j].placed.None?
    ensures Collect(vs, l, loc) == []
  {
    if |vs| > 0 {
      CollectUnplaced(vs[..|vs| - 1], l, loc);
    }
  }

  /** A listener whose rows all lack a placement still gets an endpoint, with no backends. */
  lemma UnplacedListenerHasNoBackends(rows: seq<Row>, l: string)
    requires forall j | 0 <= j < |rows| :: ListenerAddress(rows[j]) == l ==> rows[j].placement.None?
    ensures forall i | 0 <= i < |DiscoverEndpoints(rows)| && DiscoverEndpoints(rows)[i].listener == l ::
      DiscoverEndpoints(rows)[i].backendsByLocation == map[]
  {
    var es := DiscoverEndpoints(rows);
    forall i | 0 <= i < |es| && es[i].listener == l
      ensures es[i].backendsByLocation == map[]
    {
      forall loc | loc in es[i].backendsByLocation
        ensures false
      {
        EndpointBackendsFromAllRows(rows, i, loc);
        UnplacedRowsCollectNothing(rows, l, loc);
      }
    }
  }

  lemma UnplacedRowsCollectNothing(rows: seq<Row>, l: string, loc: LocationId)
    requires forall j | 0 <= j < |rows| :: ListenerAddress(rows[j]) == l ==> rows[j].placement.None?
    ensures Collect(Views(rows), l, loc) == []
  {
    var vs := Views(rows);
    assert forall j | 0 <= j < |vs| :: vs[j] == ViewOf(rows[j]);
    CollectUnplaced(vs, l, loc);
  }
}
