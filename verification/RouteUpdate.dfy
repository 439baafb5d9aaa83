/** Bringing the routes of an endpoint up to date (updateRoutes, deleteRoutes and addRoutes of
    network/endpoint_linux.go). The kernel's table has one route per destination here. */
module RouteUpdate {

  /** A destination prefix: its address in text and its length. */
  datatype Dst = Dst(ip: string, ones: nat)

  /** `dev` is empty when the route goes through the endpoint's own interface. */
  datatype RouteInfo = RouteInfo(dst: Dst, gw: string, dev: string, priority: int)

  datatype Outcome = Ok | Err | Crash

  type Table = map<Dst, RouteInfo>

  const DEFAULT_DST := "0.0.0.0"

  // ---------- what has to change ----------

  function UpToSlash(s: string): string {
    if s == [] || s[0] == '/' then [] else [s[0]] + UpToSlash(s[1..])
  }

  function InfraKey(enabled: bool, space: string): string { if enabled then UpToSlash(space) else "" }

  /** Default and infra-vnet routes are never taken out. */
  predicate Protected(d: Dst, enabled: bool, space: string) {
    d.ip == DEFAULT_DST || (enabled && d.ip == InfraKey(enabled, space))
  }

  function ByDst(routes: seq<RouteInfo>): (m: Table)
    ensures forall d :: d in m ==> m[d].dst == d
    ensures forall d :: d in m <==> exists i :: 0 <= i < |routes| && routes[i].dst == d
  {
    if routes == [] then map[] else
    var front, last := ByDst(routes[..|routes| - 1]), routes[|routes| - 1];
    assert forall i :: 0 <= i < |routes| - 1 ==> routes[..|routes| - 1][i] == routes[i];
    front[last.dst := last]
  }

  /** The recorded routes that may be taken out, the last one for each destination. */
  function Removable(routes: seq<RouteInfo>, enabled: bool, space: string): (m: Table)
    ensures forall d :: d in m ==> m[d].dst == d && !Protected(d, enabled, space)
  {
    if routes == [] then map[] else
    var front, last := Removable(routes[..|routes| - 1], enabled, space), routes[|routes| - 1];
    if Protected(last.dst, enabled, space) then front else front[last.dst := last]
  }

  lemma {:induction false} RemovableKeys(routes: seq<RouteInfo>, enabled: bool, space: string)
    ensures forall d :: d in Removable(routes, enabled, space) <==>
              !Protected(d, enabled, space) && exists i :: 0 <= i < |routes| && routes[i].dst == d
  {
    if routes != [] {
      var front := routes[..|routes| - 1];
      RemovableKeys(front, enabled, space);
      assert forall i :: 0 <= i < |front| ==> front[i] == routes[i];
      assert routes[|routes| - 1].dst == routes[|routes| - 1].dst;
    }
  }

  /** Route i is the last one to its destination. */
  predicate IsLast(routes: seq<RouteInfo>, i: int) {
    0 <= i < |routes| && forall j :: i < j < |routes| ==> routes[j].dst != routes[i].dst
  }

  /** Of several routes to one destination the last one counts. */
  lemma {:induction false} LastOneCounts(routes: seq<RouteInfo>, enabled: bool, space: string, i: int)
    requires IsLast(routes, i)
    ensures routes[i].dst in ByDst(routes) && ByDst(routes)[routes[i].dst] == routes[i]
    ensures !Protected(routes[i].dst, enabled, space) ==>
              var m := Removable(routes, enabled, space); routes[i].dst in m && m[routes[i].dst] == routes[i]
  {
    var front := routes[..|routes| - 1];
    if i < |front| {
      assert IsLast(front, i);
      LastOneCounts(front, enabled, space, i);
    }
  }

  lemma {:induction false} HasLast(routes: seq<RouteInfo>, k: int) returns (i: int)
    requires 0 <= k < |routes|
    ensures IsLast(routes, i) && routes[i].dst == routes[k].dst
    decreases |routes|
  {
    var n := |routes| - 1;
    if routes[n].dst == routes[k].dst {
      i := n;
    } else {
      i := HasLast(routes[..n], k);
    }
  }

  /** The infra-vnet route is the one to the part of the address space before the slash. */
  lemma {:induction false} BeforeTheSlash(infra: string, rest: string)
    requires '/' !in infra
    ensures UpToSlash(infra + "/" + rest) == infra == UpToSlash(infra)
  {
    if infra == "" {
      assert infra + "/" + rest == "/" + rest;
    } else {
      assert (infra + "/" + rest)[1..] == infra[1..] + "/" + rest;
      BeforeTheSlash(infra[1..], rest);
    }
  }

  /** Whether deleteRoutes acts on a route or passes over it because its interface is gone. */
  predicate HasInterface(r: RouteInfo, ifs: set<string>, ifName: string) {
    if r.dev != "" then r.dev in ifs else ifName == "" || ifName in ifs
  }

  function Doomed(recorded: Table, target: Table, ifs: set<string>, ifName: string): set<Dst> {
    set d | d in recorded && d !in target && HasInterface(recorded[d], ifs, ifName)
  }

  function Wanted(recorded: Table, target: Table): set<Dst> { target.Keys - recorded.Keys }

  /** The table after a successful update. */
  function Updated(table: Table, doomed: set<Dst>, wanted: set<Dst>, target: Table): Table
    requires wanted <= target.Keys
  {
    map d | d in table.Keys + wanted && (d in doomed ==> d in wanted) ::
      if d in table && d !in doomed then table[d] else target[d]
  }

  // ---------- the kernel ----------

  class Kernel {
    var table: Table
    const ifs: set<string>
    const faultless: bool   // no call fails that could succeed

    constructor (table: Table, ifs: set<string>, faultless: bool)
      ensures this.table == table && this.ifs == ifs && this.faultless == faultless
    {
      this.table, this.ifs, this.faultless := table, ifs, faultless;
    }

    /** Deleting succeeds only for a route that is there. */
    method DeleteIPRoute(d: Dst) returns (ok: bool)
      modifies this`table
      ensures ok ==> d in old(table) && table == old(table) - {d}
      ensures !ok ==> table == old(table)
      ensures faultless && d in old(table) ==> ok
    {
      var works := *;
      ok := d in table && (works || faultless);
      if ok { table := table - {d}; }
    }

    /** Adding a destination that is there fails, as "file exists" or otherwise. */
    method AddIPRoute(r: RouteInfo) returns (ok: bool, there: bool)
      modifies this`table
      ensures ok ==> r.dst !in old(table) && table == old(table)[r.dst := r]
      ensures !ok ==> table == old(table)
      ensures !ok && there ==> r.dst in old(table)
      ensures faultless ==> if r.dst in old(table) then there else ok
    {
      var works, told := *, *;
      ok, there := r.dst !in table && (works || faultless), r.dst in table && (told || faultless);
      if ok { table := table[r.dst := r]; }
    }

    /** On success the acted-on routes are gone; in any case nothing else changed. Without faults it
        succeeds exactly if they are all there. */
    method DeleteRoutes(ifName: string, routes: seq<RouteInfo>) returns (o: Outcome)
      modifies this`table
      ensures o != Crash && Between(old(table), table, Targets(routes, ifs, ifName))
      ensures o == Ok ==> table == old(table) - Targets(routes, ifs, ifName)
      ensures faultless && Distinct(routes) ==> (o == Ok <==> Targets(routes, ifs, ifName) <= old(table).Keys)
    {
      ghost var t0 := table;
      for i := 0 to |routes|
        invariant table == t0 - Targets(routes[..i], ifs, ifName)
        invariant Targets(routes[..i], ifs, ifName) <= t0.Keys
      {
        TargetsStep(routes, i, ifs, ifName);
        if routes[i].dev != "" {
          if routes[i].dev !in ifs { continue; }
        } else if ifName != "" {
          if ifName !in ifs { continue; }
        }
        var ok := DeleteIPRoute(routes[i].dst);
        if !ok {
          return Err;
        }
      }
      assert routes[..|routes|] == routes;
      return Ok;
    }

    /** On success all destinations are there, and nothing else changed. Without faults it succeeds
        exactly if every route has its interface; it crashes only for want of a route's own device. */
    method AddRoutes(ifName: string, routes: seq<RouteInfo>) returns (o: Outcome)
      modifies this`table
      ensures Grown(old(table), table, routes)
      ensures o == Ok ==> Dsts(routes) <= table.Keys
      ensures faultless ==>
                (o == Ok <==> forall r <- routes :: if r.dev != "" then r.dev in ifs else ifName in ifs)
      ensures o == Crash ==> exists r <- routes :: r.dev != "" && r.dev !in ifs
    {
      ghost var t0 := table;
      for i := 0 to |routes|
        invariant Grown(t0, table, routes) && Dsts(routes[..i]) <= table.Keys
        invariant forall r <- routes[..i] :: if r.dev != "" then r.dev in ifs else ifName in ifs
      {
        assert routes[..i + 1] == routes[..i] + [routes[i]];
        if routes[i].dev != "" {
          if routes[i].dev !in ifs { return Crash; }   // the missing interface is dereferenced
        } else {
          if ifName !in ifs { return Err; }
        }
        var ok, there := AddIPRoute(routes[i]);
        if !ok && !there {
          return Err;
        }
      }
      assert routes[..|routes|] == routes;
      return Ok;
    }
  }

  predicate Distinct(routes: seq<RouteInfo>) {
    forall i, j :: 0 <= i < j < |routes| ==> routes[i].dst != routes[j].dst
  }

  function Dsts(routes: seq<RouteInfo>): set<Dst> { set i | 0 <= i < |routes| :: routes[i].dst }

  /** The destinations deleteRoutes acts on. */
  function Targets(routes: seq<RouteInfo>, ifs: set<string>, ifName: string): set<Dst> {
    set i | 0 <= i < |routes| && HasInterface(routes[i], ifs, ifName) :: routes[i].dst
  }

  lemma TargetsStep(routes: seq<RouteInfo>, i: nat, ifs: set<string>, ifName: string)
    requires i < |routes|
    ensures Targets(routes[..i + 1], ifs, ifName) ==
            Targets(routes[..i], ifs, ifName) + if HasInterface(routes[i], ifs, ifName) then {routes[i].dst} else {}
    ensures Targets(routes[..i + 1], ifs, ifName) <= Targets(routes, ifs, ifName)
  {
    var a, b := routes[..i], routes[..i + 1];
    assert forall j :: 0 <= j < i ==> b[j] == a[j];
    assert b[i] == routes[i];
  }

  /** t lost some of the given destinations and nothing else. */
  predicate Between(t0: Table, t: Table, doomed: set<Dst>) {
    t.Keys <= t0.Keys && t0.Keys - doomed <= t.Keys && forall d :: d in t ==> t[d] == t0[d]
  }

  /** t gained some of the given routes and nothing else. */
  ghost predicate Grown(t0: Table, t: Table, routes: seq<RouteInfo>) {
    && (forall d :: d in t0 ==> d in t && t[d] == t0[d])
    && (forall d :: d in t && d !in t0 ==> exists i :: 0 <= i < |routes| && routes[i].dst == d && t[d] == routes[i])
  }

  // ---------- updateRoutes ----------

  /** What an update may have done at any point: only doomed routes are gone, only wanted ones are new. */
  ghost predicate Touched(t0: Table, t: Table, doomed: set<Dst>, wanted: set<Dst>, target: Table) {
    && (forall d :: d in t0 && d !in doomed ==> d in t && t[d] == t0[d])
    && (forall d :: d in t && d in t0 && d !in wanted ==> t[d] == t0[d])
    && (forall d :: d in t && d !in t0 ==> d in wanted && d in target && t[d] == target[d])
  }

  /** The routes of m to destinations that `other` lacks, in any order. */
  method Select(m: Table, other: Table) returns (list: seq<RouteInfo>)
    requires forall d :: d in m ==> m[d].dst == d
    ensures Dsts(list) == m.Keys - other.Keys && Distinct(list)
    ensures forall i :: 0 <= i < |list| ==> list[i].dst in m && m[list[i].dst] == list[i]
  {
    list := [];
    var todo := m.Keys;
    while todo != {}
      invariant todo <= m.Keys
      invariant Dsts(list) == m.Keys - todo - other.Keys && Distinct(list)
      invariant forall i :: 0 <= i < |list| ==> list[i].dst in m && m[list[i].dst] == list[i]
      decreases todo
    {
      var d :| d in todo;
      if d !in other {
        assert forall i :: 0 <= i < |list| ==> list[i].dst in Dsts(list);
        DstsGrow(list, m[d]);
        list := list + [m[d]];
      }
      todo := todo - {d};
    }
  }

  lemma DstsGrow(list: seq<RouteInfo>, r: RouteInfo)
    ensures Dsts(list + [r]) == Dsts(list) + {r.dst}
  {
    assert forall i :: 0 <= i < |list| ==> (list + [r])[i] == list[i];
    assert (list + [r])[|list|] == r;
  }

  lemma TargetsAreDoomed(list: seq<RouteInfo>, recorded: Table, target: Table, ifs: set<string>, ifName: string)
    requires Dsts(list) == recorded.Keys - target.Keys
    requires forall i :: 0 <= i < |list| ==> list[i].dst in recorded && recorded[list[i].dst] == list[i]
    ensures Targets(list, ifs, ifName) == Doomed(recorded, target, ifs, ifName)
  {
    forall d | d in Doomed(recorded, target, ifs, ifName)
      ensures d in Targets(list, ifs, ifName)
    {
      assert d in Dsts(list);
    }
    forall d | d in Targets(list, ifs, ifName)
      ensures d in Doomed(recorded, target, ifs, ifName)
    {
      var i :| 0 <= i < |list| && HasInterface(list[i], ifs, ifName) && list[i].dst == d;
      assert d in Dsts(list);
    }
  }

  method CollectRecorded(existing: seq<RouteInfo>, enabled: bool, space: string) returns (m: Table)
    ensures m == Removable(existing, enabled, space)
  {
    var infraKey := InfraKey(enabled, space);
    m := map[];
    for i := 0 to |existing|
      invariant m == Removable(existing[..i], enabled, space)
    {
      assert existing[..i + 1][..i] == existing[..i];
      var r := existing[i];
      if r.dst.ip != DEFAULT_DST && !(enabled && r.dst.ip == infraKey) {
        m := m[r.dst := r];
      }
    }
    assert existing[..|existing|] == existing;
  }

  method CollectTarget(target: seq<RouteInfo>) returns (m: Table)
    ensures m == ByDst(target)
  {
    m := map[];
    for i := 0 to |target|
      invariant m == ByDst(target[..i])
    {
      assert target[..i + 1][..i] == target[..i];
      m := m[target[i].dst := target[i]];
    }
    assert target[..|target|] == target;
  }

  method UpdateRoutes(k: Kernel, ifName: string, existing: seq<RouteInfo>, target: seq<RouteInfo>,
                      enabled: bool, space: string)
    returns (o: Outcome)
    modifies k`table
    ensures var recorded, wantedAll := Removable(existing, enabled, space), ByDst(target);
            var doomed, wanted := Doomed(recorded, wantedAll, k.ifs, ifName), Wanted(recorded, wantedAll);
            && Touched(old(k.table), k.table, doomed, wanted, wantedAll)
            && (o == Ok ==> k.table == Updated(old(k.table), doomed, wanted, wantedAll))
            && (k.faultless ==>
                  (o == Ok <==> doomed <= old(k.table).Keys &&
                                forall d <- wanted :: if wantedAll[d].dev != "" then wantedAll[d].dev in k.ifs
                                                      else ifName in k.ifs))
  {
    hide ByDst, Removable;
    var existingRoutes := CollectRecorded(existing, enabled, space);
    var targetRoutes := CollectTarget(target);
    var tobeDeleted := Select(existingRoutes, targetRoutes);
    var tobeAdded := Select(targetRoutes, existingRoutes);
    TargetsAreDoomed(tobeDeleted, existingRoutes, targetRoutes, k.ifs, ifName);
    hide Doomed, Updated, Touched, Between, Grown, Dsts, Targets;
    ghost var doomed, t0 := Doomed(existingRoutes, targetRoutes, k.ifs, ifName), k.table;
    o := k.DeleteRoutes(ifName, tobeDeleted);
    if o != Ok {
      PartlyDeleted(t0, k.table, doomed, Wanted(existingRoutes, targetRoutes), targetRoutes);
      return;
    }
    o := k.AddRoutes(ifName, tobeAdded);
    SelectedAll(tobeAdded, targetRoutes, Wanted(existingRoutes, targetRoutes));
    DeletedThenAdded(t0, k.table, existingRoutes, targetRoutes, k.ifs, ifName, tobeAdded);
  }

  /** A list of the routes of m to the given destinations has each of them. */
  lemma SelectedAll(list: seq<RouteInfo>, m: Table, wanted: set<Dst>)
    requires Dsts(list) == wanted <= m.Keys
    requires forall i :: 0 <= i < |list| ==> list[i].dst in m && m[list[i].dst] == list[i]
    ensures (forall r <- list :: r.dst in wanted && m[r.dst] == r) && (forall d <- wanted :: m[d] in list)
  {
    forall r | r in list ensures r.dst in wanted {
      var i :| 0 <= i < |list| && list[i] == r;
      assert list[i].dst in Dsts(list);
    }
    forall d | d in wanted ensures m[d] in list {
      var i :| 0 <= i < |list| && list[i].dst == d;
      assert m[d] == list[i];
    }
  }

  lemma PartlyDeleted(t0: Table, t: Table, doomed: set<Dst>, wanted: set<Dst>, target: Table)
    requires Between(t0, t, doomed)
    ensures Touched(t0, t, doomed, wanted, target)
  {}

  lemma DeletedThenAdded(t0: Table, t: Table, recorded: Table, target: Table, ifs: set<string>,
                         ifName: string, list: seq<RouteInfo>)
    requires Dsts(list) == Wanted(recorded, target)
    requires forall i :: 0 <= i < |list| ==> list[i].dst in target && target[list[i].dst] == list[i]
    requires Grown(t0 - Doomed(recorded, target, ifs, ifName), t, list)
    ensures var doomed, wanted := Doomed(recorded, target, ifs, ifName), Wanted(recorded, target);
            && Touched(t0, t, doomed, wanted, target)
            && (Dsts(list) <= t.Keys ==> t == Updated(t0, doomed, wanted, target))
  {
    var doomed, wanted := Doomed(recorded, target, ifs, ifName), Wanted(recorded, target);
    forall d | d in t && d !in t0 - doomed
      ensures d in wanted && t[d] == target[d]
    {
      var i :| 0 <= i < |list| && list[i].dst == d && t[d] == list[i];
      assert d in Dsts(list);
    }
    if Dsts(list) <= t.Keys {
      assert t.Keys == Updated(t0, doomed, wanted, target).Keys;
    }
  }

  // ---------- what a successful update means ----------

  /** Destinations: the old ones, minus the recorded ones that may go, whose interface is there and that
      the target lacks, plus the target's that were not recorded. */
  lemma UpdatedDestinations(table: Table, recorded: Table, target: Table, ifs: set<string>, ifName: string)
    ensures var doomed, wanted := Doomed(recorded, target, ifs, ifName), Wanted(recorded, target);
            && Updated(table, doomed, wanted, target).Keys == table.Keys - doomed + wanted
            && (forall d :: d in table && d !in doomed ==> Updated(table, doomed, wanted, target)[d] == table[d])
  {}

  /** Whether the record has a route to d that may be taken out: any but the default route and, if the
      infra vnet is enabled, the one to its address. */
  ghost predicate MayGo(existing: seq<RouteInfo>, enabled: bool, infra: string, d: Dst) {
    (exists i :: 0 <= i < |existing| && existing[i].dst == d) && d.ip != "0.0.0.0" && !(enabled && d.ip == infra)
  }

  /** The successful update, destination by destination: one that was there is gone exactly if it may go,
      the target lacks it, and the interface of its last recorded route is there; one that was not there
      is there exactly if the target has it and it may not go. What stays is as it was, what is new is the
      last route of the target. */
  lemma UpdateInWords(table: Table, existing: seq<RouteInfo>, target: seq<RouteInfo>, enabled: bool,
                      space: string, infra: string, rest: string, ifs: set<string>, ifName: string, d: Dst)
    requires '/' !in infra && (space == infra || space == infra + "/" + rest)
    ensures var recorded, all := Removable(existing, enabled, space), ByDst(target);
            var after := Updated(table, Doomed(recorded, all, ifs, ifName), Wanted(recorded, all), all);
            var inTarget := exists i :: 0 <= i < |target| && target[i].dst == d;
            if d in table then
              && (d !in after <==>
                    MayGo(existing, enabled, infra, d) && !inTarget &&
                    exists i :: IsLast(existing, i) && existing[i].dst == d &&
                      if existing[i].dev != "" then existing[i].dev in ifs else ifName == "" || ifName in ifs)
              && (d in after ==> after[d] == table[d])
            else
              && (d in after <==> inTarget && !MayGo(existing, enabled, infra, d))
              && (d in after ==> exists i :: IsLast(target, i) && target[i].dst == d && after[d] == target[i])
  {
    RecordInWords(existing, enabled, space, infra, rest, ifs, ifName, d);
    TargetInWords(target, d);
    hide MayGo, Removable, ByDst, IsLast, HasInterface, UpToSlash;
  }

  lemma RecordInWords(existing: seq<RouteInfo>, enabled: bool, space: string, infra: string, rest: string,
                      ifs: set<string>, ifName: string, d: Dst)
    requires '/' !in infra && (space == infra || space == infra + "/" + rest)
    ensures var recorded := Removable(existing, enabled, space);
            && (d in recorded <==> MayGo(existing, enabled, infra, d))
            && (d in recorded ==>
                  (HasInterface(recorded[d], ifs, ifName) <==>
                     exists i :: IsLast(existing, i) && existing[i].dst == d &&
                       if existing[i].dev != "" then existing[i].dev in ifs else ifName == "" || ifName in ifs))
  {
    BeforeTheSlash(infra, rest);
    hide UpToSlash, Removable;
    RemovableKeys(existing, enabled, space);
    if MayGo(existing, enabled, infra, d) {
      var k :| 0 <= k < |existing| && existing[k].dst == d;
      var i := HasLast(existing, k);
      LastOneCounts(existing, enabled, space, i);
      OneLast(existing, i);
    }
  }

  lemma OneLast(routes: seq<RouteInfo>, i: int)
    requires IsLast(routes, i)
    ensures forall j :: IsLast(routes, j) && routes[j].dst == routes[i].dst ==> j == i
  {}

  lemma TargetInWords(target: seq<RouteInfo>, d: Dst)
    ensures d in ByDst(target) <==> exists i :: 0 <= i < |target| && target[i].dst == d
    ensures d in ByDst(target) ==> exists i :: IsLast(target, i) && target[i].dst == d && ByDst(target)[d] == target[i]
  {
    if d in ByDst(target) {
      var k :| 0 <= k < |target| && target[k].dst == d;
      var i := HasLast(target, k);
      LastOneCounts(target, false, "", i);
    }
  }

  /** All of the target is in the table afterwards exactly if the recorded routes it shares were there
      before: those are neither checked nor added again. */
  lemma TargetReachedIff(table: Table, recorded: Table, target: Table, ifs: set<string>, ifName: string)
    ensures var doomed, wanted := Doomed(recorded, target, ifs, ifName), Wanted(recorded, target);
            target.Keys <= Updated(table, doomed, wanted, target).Keys <==> target.Keys * recorded.Keys <= table.Keys
  {
    var doomed, wanted := Doomed(recorded, target, ifs, ifName), Wanted(recorded, target);
    UpdatedDestinations(table, recorded, target, ifs, ifName);
    assert target.Keys == wanted + target.Keys * recorded.Keys;
    assert (target.Keys * recorded.Keys) * wanted == {} && (target.Keys * recorded.Keys) * doomed == {};
  }

  /** With every recorded route in the table and every interface present, the destinations are the old
      ones minus the removable ones the target lacks, plus all of the target. */
  lemma FullUpdate(table: Table, recorded: Table, target: Table, ifs: set<string>, ifName: string)
    requires recorded.Keys <= table.Keys
    requires forall d :: d in recorded ==>
               if recorded[d].dev != "" then recorded[d].dev in ifs else ifName == "" || ifName in ifs
    ensures var doomed, wanted := Doomed(recorded, target, ifs, ifName), Wanted(recorded, target);
            Updated(table, doomed, wanted, target).Keys == table.Keys - (recorded.Keys - target.Keys) + target.Keys
  {
    var doomed, wanted := Doomed(recorded, target, ifs, ifName), Wanted(recorded, target);
    UpdatedDestinations(table, recorded, target, ifs, ifName);
    assert doomed == recorded.Keys - target.Keys;
  }

  /** Default and infra-vnet routes survive as they were, and so does every shared destination. */
  lemma ProtectedAndSharedSurvive(table: Table, existing: seq<RouteInfo>, target: seq<RouteInfo>,
                                  enabled: bool, space: string,
                                  ifs: set<string>, ifName: string, d: Dst)
    requires d in table
    requires Protected(d, enabled, space) || d in ByDst(target)
    ensures var recorded, all := Removable(existing, enabled, space), ByDst(target);
            var after := Updated(table, Doomed(recorded, all, ifs, ifName), Wanted(recorded, all), all);
            d in after && after[d] == table[d]
  {
    assert d !in Removable(existing, enabled, space) || !Protected(d, enabled, space);
  }

  lemma NothingToTouch(t: Table, t': Table, doomed: set<Dst>, wanted: set<Dst>, target: Table)
    requires Touched(t, t', doomed, wanted, target) && doomed !! t.Keys && wanted <= t.Keys
    ensures t' == t
  {
    assert t'.Keys == t.Keys;
  }

  /** Repeating a successful update changes nothing, however it ends: neither with the same record of
      existing routes, nor with the target as the new record, which is what the caller saves. */
  lemma RepeatChangesNothing(t0: Table, existing: seq<RouteInfo>, target: seq<RouteInfo>, enabled: bool, space: string,
                             ifs: set<string>, ifName: string, again: seq<RouteInfo>, t2: Table)
    requires again == existing || again == target
    requires var rec, rec2, all := Removable(existing, enabled, space), Removable(again, enabled, space), ByDst(target);
             var t1 := Updated(t0, Doomed(rec, all, ifs, ifName), Wanted(rec, all), all);
             Touched(t1, t2, Doomed(rec2, all, ifs, ifName), Wanted(rec2, all), all)
    ensures t2 == Updated(t0, Doomed(Removable(existing, enabled, space), ByDst(target), ifs, ifName),
                          Wanted(Removable(existing, enabled, space), ByDst(target)), ByDst(target))
  {
    var rec, rec2, all := Removable(existing, enabled, space), Removable(again, enabled, space), ByDst(target);
    var doomed, wanted := Doomed(rec, all, ifs, ifName), Wanted(rec, all);
    var t1 := Updated(t0, doomed, wanted, all);
    UpdatedDestinations(t0, rec, all, ifs, ifName);
    if again == target {
      RemovableKeys(target, enabled, space);
      assert rec2.Keys <= all.Keys;
      RemovableKeys(existing, enabled, space);
      assert Wanted(rec2, all) <= wanted;
    }
    NothingToTouch(t1, t2, Doomed(rec2, all, ifs, ifName), Wanted(rec2, all), all);
  }
}
