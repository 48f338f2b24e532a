/** The edge loop of `remember`: create an edge between two entities, or give a
    generic one its specific relationship. */
module EdgeUpsert {
  import opened Attempts

  datatype Edge = Edge(source: nat, target: nat, relation: string)

  const NEIGHBOR_LIMIT := 20

  predicate IsGeneric(relation: string) {
    relation == "co_occurs_with" || relation == "related_to"
  }

  predicate Touches(e: Edge, v: nat) {
    e.source == v || e.target == v
  }

  /** The edge runs between the two entities, either way. */
  predicate Joins(e: Edge, a: nat, b: nat) {
    (e.source == a && e.target == b) || (e.source == b && e.target == a)
  }

  predicate NoSelfLoops(edges: seq<Edge>) {
    forall i :: 0 <= i < |edges| ==> edges[i].source != edges[i].target
  }

  /** At most one edge per unordered pair of entities. */
  predicate OnePerPair(edges: seq<Edge>) {
    forall i, j :: 0 <= i < j < |edges| ==> !Joins(edges[i], edges[j].source, edges[j].target)
  }

  // ---- reading the newest edges of an entity -------------------------------

  /** The positions before n whose edge touches the entity; a table lists its
      edges newest first. */
  function Touching(edges: seq<Edge>, v: nat, n: nat): (r: seq<nat>)
    requires n <= |edges|
    ensures |r| <= n
    ensures forall k :: 0 <= k < |r| ==> r[k] < n && Touches(edges[r[k]], v)
  {
    if n == 0 then []
    else Touching(edges, v, n - 1) + if Touches(edges[n - 1], v) then [n - 1] else []
  }

  /** `get_neighbors`. */
  function Neighbours(edges: seq<Edge>, v: nat): (r: seq<nat>)
    ensures forall k :: 0 <= k < |r| ==> r[k] < |edges|
  {
    var all := Touching(edges, v, |edges|);
    if |all| <= NEIGHBOR_LIMIT then all else all[..NEIGHBOR_LIMIT]
  }

  /** Fewer than twenty newer edges touch the entity. */
  predicate IsVisible(edges: seq<Edge>, v: nat, i: nat)
    requires i < |edges|
  {
    Touches(edges[i], v) && |Touching(edges, v, i)| < NEIGHBOR_LIMIT
  }

  lemma {:induction false} TouchingGrows(edges: seq<Edge>, v: nat, m: nat, n: nat)
    requires m <= n <= |edges|
    ensures |Touching(edges, v, m)| <= |Touching(edges, v, n)|
    ensures Touching(edges, v, n)[..|Touching(edges, v, m)|] == Touching(edges, v, m)
  {
    if m < n {
      TouchingGrows(edges, v, m, n - 1);
    }
  }

  lemma {:induction false} TouchingPlaces(edges: seq<Edge>, v: nat, n: nat, k: nat)
    requires n <= |edges| && k < |Touching(edges, v, n)|
    ensures Touching(edges, v, n)[k] < n && |Touching(edges, v, Touching(edges, v, n)[k])| == k
  {
    if k < |Touching(edges, v, n - 1)| {
      TouchingPlaces(edges, v, n - 1, k);
    }
  }

  /** What is read is what is visible. */
  lemma NeighboursAreVisible(edges: seq<Edge>, v: nat, i: nat)
    requires i < |edges|
    ensures i in Neighbours(edges, v) <==> IsVisible(edges, v, i)
  {
    var all, near := Touching(edges, v, |edges|), Neighbours(edges, v);
    if i in near {
      var k :| 0 <= k < |near| && near[k] == i;
      TouchingPlaces(edges, v, |edges|, k);
    }
    if IsVisible(edges, v, i) {
      var k := |Touching(edges, v, i)|;
      TouchingGrows(edges, v, i + 1, |edges|);
      assert Touching(edges, v, i + 1)[k] == i;
      assert all[k] == all[..k + 1][k] == i;
      assert near[k] == i;
    }
  }

  // ---- one step ------------------------------------------------------------

  datatype Relation = Relation(source: nat, relation: string, target: nat)

  function FirstJoin(edges: seq<Edge>, positions: seq<nat>, a: nat, b: nat): (r: Option<nat>)
    requires forall k :: 0 <= k < |positions| ==> positions[k] < |edges|
    ensures r.Some? ==> r.value in positions && Joins(edges[r.value], a, b)
    ensures r.None? ==> forall k :: 0 <= k < |positions| ==> !Joins(edges[positions[k]], a, b)
  {
    if positions == [] then None
    else if Joins(edges[positions[0]], a, b) then Some(positions[0])
    else FirstJoin(edges, positions[1..], a, b)
  }

  /** The new row's place: its time and identifier decide it. */
  function Placed(edges: seq<Edge>, e: Edge, at: nat): seq<Edge> {
    if at <= |edges| then edges[..at] + [e] + edges[at..] else edges + [e]
  }

  /** One relation of the loop, or nothing when `uq_entity_edge_identity` rejects
      the statement. */
  function Upsert(edges: seq<Edge>, r: Relation, at: nat): Option<seq<Edge>> {
    if r.source == r.target then Some(edges)
    else
      var e := Edge(r.source, r.target, r.relation);
      match FirstJoin(edges, Neighbours(edges, r.source), r.source, r.target)
      case None => if e in edges then None else Some(Placed(edges, e, at))
      case Some(i) =>
        if !IsGeneric(edges[i].relation) || IsGeneric(r.relation) then Some(edges)
        else if e in edges then None
        else Some(edges[i := e])
  }

  /** The pair has an edge, but not among those read. */
  predicate IsHidden(edges: seq<Edge>, r: Relation) {
    && r.source != r.target
    && (exists i :: 0 <= i < |edges| && Joins(edges[i], r.source, r.target))
    && (forall i :: 0 <= i < |edges| && Joins(edges[i], r.source, r.target) ==> !IsVisible(edges, r.source, i))
  }

  lemma HiddenIsUnmatched(edges: seq<Edge>, r: Relation)
    requires r.source != r.target
    ensures FirstJoin(edges, Neighbours(edges, r.source), r.source, r.target).None?
            <==> forall i :: 0 <= i < |edges| && Joins(edges[i], r.source, r.target) ==> !IsVisible(edges, r.source, i)
  {
    var near := Neighbours(edges, r.source);
    var found := FirstJoin(edges, near, r.source, r.target);
    if found.Some? {
      NeighboursAreVisible(edges, r.source, found.value);
    } else {
      forall i | 0 <= i < |edges| && Joins(edges[i], r.source, r.target)
        ensures !IsVisible(edges, r.source, i)
      {
        NeighboursAreVisible(edges, r.source, i);
      }
    }
  }

  // ---- what every step keeps -----------------------------------------------

  /** An edge keeps its pair, and its relationship too unless it was generic and
      became specific. */
  predicate Becomes(e: Edge, f: Edge) {
    f == e || (Joins(f, e.source, e.target) && IsGeneric(e.relation) && !IsGeneric(f.relation))
  }

  predicate Survives(e: Edge, after: seq<Edge>) {
    exists j :: 0 <= j < |after| && Becomes(e, after[j])
  }

  /** Every edge of the first table is in the second, or its specific successor. */
  predicate Evolves(before: seq<Edge>, after: seq<Edge>) {
    forall i :: 0 <= i < |before| ==> Survives(before[i], after)
  }

  lemma EvolvesOn(a: seq<Edge>, b: seq<Edge>, c: seq<Edge>)
    requires Evolves(a, b) && Evolves(b, c)
    ensures Evolves(a, c)
  {
    forall i | 0 <= i < |a|
      ensures Survives(a[i], c)
    {
      assert Survives(a[i], b);
      var j :| 0 <= j < |b| && Becomes(a[i], b[j]);
      assert Survives(b[j], c);
      var k :| 0 <= k < |c| && Becomes(b[j], c[k]);
      assert Becomes(a[i], c[k]);
    }
  }

  lemma PlacedHolds(edges: seq<Edge>, e: Edge, at: nat, i: nat) returns (j: nat)
    requires i < |edges|
    ensures j < |Placed(edges, e, at)| && Placed(edges, e, at)[j] == edges[i]
  {
    j := if at <= |edges| && at <= i then i + 1 else i;
  }

  /** Every step makes no self-loop, loses no edge and changes no specific one. */
  lemma StepKeeps(edges: seq<Edge>, r: Relation, at: nat)
    requires NoSelfLoops(edges) && Upsert(edges, r, at).Some?
    ensures NoSelfLoops(Upsert(edges, r, at).value)
    ensures Evolves(edges, Upsert(edges, r, at).value)
  {
    var after := Upsert(edges, r, at).value;
    forall i | 0 <= i < |edges|
      ensures Survives(edges[i], after)
    {
      if after == Placed(edges, Edge(r.source, r.target, r.relation), at) {
        var j := PlacedHolds(edges, Edge(r.source, r.target, r.relation), at, i);
        assert Becomes(edges[i], after[j]);
      } else {
        assert Becomes(edges[i], after[i]);
      }
    }
  }

  /** The pair's newest edge, which the source's newest twenty include. */
  predicate IsRead(edges: seq<Edge>, r: Relation, i: nat) {
    && i < |edges| && Joins(edges[i], r.source, r.target) && IsVisible(edges, r.source, i)
    && forall j :: 0 <= j < i ==> !Joins(edges[j], r.source, r.target)
  }

  lemma NewerIsVisible(edges: seq<Edge>, v: nat, i: nat, j: nat)
    requires j <= i < |edges| && IsVisible(edges, v, i) && Touches(edges[j], v)
    ensures IsVisible(edges, v, j)
  {
    TouchingGrows(edges, v, j, i);
  }

  lemma {:induction false} FirstInOrder(edges: seq<Edge>, positions: seq<nat>, a: nat, b: nat)
    requires forall k :: 0 <= k < |positions| ==> positions[k] < |edges|
    requires forall k, m :: 0 <= k < m < |positions| ==> positions[k] < positions[m]
    requires FirstJoin(edges, positions, a, b).Some?
    ensures forall p :: p in positions && p < FirstJoin(edges, positions, a, b).value ==> !Joins(edges[p], a, b)
  {
    if !Joins(edges[positions[0]], a, b) {
      FirstInOrder(edges, positions[1..], a, b);
      assert forall p :: p in positions ==> p == positions[0] || p in positions[1..];
    } else {
      assert forall p :: p in positions ==> positions[0] <= p;
    }
  }

  lemma {:induction false} TouchingAscends(edges: seq<Edge>, v: nat, n: nat)
    requires n <= |edges|
    ensures forall k, m :: 0 <= k < m < |Touching(edges, v, n)| ==> Touching(edges, v, n)[k] < Touching(edges, v, n)[m]
  {
    if n > 0 {
      TouchingAscends(edges, v, n - 1);
    }
  }

  /** The search finds the pair's newest edge exactly when it is among those read. */
  lemma MatchIsRead(edges: seq<Edge>, r: Relation, i: nat)
    ensures FirstJoin(edges, Neighbours(edges, r.source), r.source, r.target) == Some(i) <==> IsRead(edges, r, i)
  {
    var near := Neighbours(edges, r.source);
    var found := FirstJoin(edges, near, r.source, r.target);
    TouchingAscends(edges, r.source, |edges|);
    hide Neighbours, IsVisible;
    if found.Some? {
      NewestIsRead(edges, r, found.value);
    } else if IsRead(edges, r, i) {
      NeighboursAreVisible(edges, r.source, i);
    }
    if found.Some? && IsRead(edges, r, i) {
      assert i == found.value;
    }
  }

  lemma NewestIsRead(edges: seq<Edge>, r: Relation, i: nat)
    requires FirstJoin(edges, Neighbours(edges, r.source), r.source, r.target) == Some(i)
    ensures IsRead(edges, r, i)
  {
    var near := Neighbours(edges, r.source);
    TouchingAscends(edges, r.source, |edges|);
    FirstInOrder(edges, near, r.source, r.target);
    hide Neighbours, IsVisible;
    NeighboursAreVisible(edges, r.source, i);
    forall j | 0 <= j < i && Joins(edges[j], r.source, r.target)
      ensures false
    {
      NewerIsVisible(edges, r.source, i, j);
      NeighboursAreVisible(edges, r.source, j);
    }
  }

  /** The table with one new edge in it, the others as they were. */
  predicate HasAdded(after: seq<Edge>, edges: seq<Edge>, e: Edge, p: nat) {
    p < |after| && after[p] == e && after[..p] + after[p + 1..] == edges
  }

  predicate MakesSpecific(was: string, relation: string) {
    && (was == "co_occurs_with" || was == "related_to")
    && relation != "co_occurs_with" && relation != "related_to"
  }

  lemma PlacedAdds(edges: seq<Edge>, e: Edge, at: nat)
    ensures HasAdded(Placed(edges, e, at), edges, e, PlaceOf(edges, at))
  {
  }

  /** What a step writes. Of two different entities whose newest edge is not read it
      adds the relation's own edge, from its source to its target; one that is read
      and generic becomes that edge when the relation is specific. All other edges
      stay as they are, in every other case the table does, and the step is rejected
      exactly when it would write an edge that exists. */
  lemma StepWrites(edges: seq<Edge>, r: Relation, at: nat)
    ensures
      var e, after := Edge(r.source, r.target, r.relation), Upsert(edges, r, at);
      if r.source == r.target then after == Some(edges)
      else if exists i: nat :: IsRead(edges, r, i) then
        forall i: nat :: IsRead(edges, r, i) ==>
          if !MakesSpecific(edges[i].relation, r.relation) then after == Some(edges)
          else if e in edges then after == None
          else after == Some(edges[i := e])
      else if e in edges then after == None
      else after.Some? && exists p: nat :: HasAdded(after.value, edges, e, p)
  {
    hide FirstJoin, Neighbours, IsRead, Placed, HasAdded;
    var e := Edge(r.source, r.target, r.relation);
    forall i: nat
      ensures FirstJoin(edges, Neighbours(edges, r.source), r.source, r.target) == Some(i) <==> IsRead(edges, r, i)
    {
      MatchIsRead(edges, r, i);
    }
    PlacedAdds(edges, e, at);
    var found := FirstJoin(edges, Neighbours(edges, r.source), r.source, r.target);
    if found.Some? {
      assert IsRead(edges, r, found.value);
    }
  }

  function PlaceOf(edges: seq<Edge>, at: nat): nat {
    if at <= |edges| then at else |edges|
  }

  /** And the pair of every step it accepts has an edge afterwards, a specific one
      when the relation is specific. */
  lemma StepRecords(edges: seq<Edge>, r: Relation, at: nat)
    requires r.source != r.target && Upsert(edges, r, at).Some?
    ensures var after := Upsert(edges, r, at).value;
      exists j :: 0 <= j < |after| && Joins(after[j], r.source, r.target)
                  && (IsGeneric(after[j].relation) ==> IsGeneric(r.relation))
  {
    var e := Edge(r.source, r.target, r.relation);
    var after := Upsert(edges, r, at).value;
    match FirstJoin(edges, Neighbours(edges, r.source), r.source, r.target)
    case None =>
      PlacedAt(edges, e, at, PlaceOf(edges, at));
      assert after[PlaceOf(edges, at)] == e;
    case Some(i) =>
      assert Joins(after[i], r.source, r.target);
  }

  lemma PlacedAt(edges: seq<Edge>, e: Edge, at: nat, i: nat)
    requires i <= |edges|
    ensures var p := PlaceOf(edges, at);
      Placed(edges, e, at)[i] == if i < p then edges[i] else if i == p then e else edges[i - 1]
  {
  }

  lemma PlacedPerPair(edges: seq<Edge>, e: Edge, at: nat)
    requires OnePerPair(edges)
    ensures OnePerPair(Placed(edges, e, at)) <==> forall i :: 0 <= i < |edges| ==> !Joins(edges[i], e.source, e.target)
  {
    var after, p := Placed(edges, e, at), PlaceOf(edges, at);
    assert |after| == |edges| + 1;
    hide Placed;
    if forall i :: 0 <= i < |edges| ==> !Joins(edges[i], e.source, e.target) {
      forall i, j | 0 <= i < j < |after|
        ensures !Joins(after[i], after[j].source, after[j].target)
      {
        PlacedAt(edges, e, at, i);
        PlacedAt(edges, e, at, j);
      }
    } else {
      var i :| 0 <= i < |edges| && Joins(edges[i], e.source, e.target);
      PlacedAt(edges, e, at, p);
      PlacedAt(edges, e, at, if i < p then i else i + 1);
      assert if i < p then Joins(after[i], after[p].source, after[p].target)
             else Joins(after[p], after[i + 1].source, after[i + 1].target);
    }
  }

  lemma UpgradedPerPair(edges: seq<Edge>, i: nat, e: Edge)
    requires OnePerPair(edges) && i < |edges| && Joins(edges[i], e.source, e.target)
    ensures OnePerPair(edges[i := e])
    ensures e in edges ==> edges[i] == e
  {
    forall k | 0 <= k < |edges| && k != i
      ensures edges[k] != e
    {
      assert if k < i then !Joins(edges[k], edges[i].source, edges[i].target)
             else !Joins(edges[i], edges[k].source, edges[k].target);
    }
  }

  /** One step keeps one edge per pair exactly when the pair's edge is not hidden
      from its source; a hidden one gets a second edge, or the statement is
      rejected because the very same edge exists. */
  lemma StepKeepsOnePerPair(edges: seq<Edge>, r: Relation, at: nat)
    requires OnePerPair(edges)
    ensures Upsert(edges, r, at).None? <==> IsHidden(edges, r) && Edge(r.source, r.target, r.relation) in edges
    ensures Upsert(edges, r, at).Some? ==> (OnePerPair(Upsert(edges, r, at).value) <==> !IsHidden(edges, r))
  {
    hide OnePerPair, Placed, IsVisible, Neighbours;
    var e := Edge(r.source, r.target, r.relation);
    if r.source != r.target {
      HiddenIsUnmatched(edges, r);
      match FirstJoin(edges, Neighbours(edges, r.source), r.source, r.target)
      case None =>
        PlacedPerPair(edges, e, at);
        if e in edges {
          var k :| 0 <= k < |edges| && edges[k] == e;
          assert Joins(edges[k], r.source, r.target);
        }
      case Some(i) =>
        UpgradedPerPair(edges, i, e);
    }
  }

  // ---- whole runs ----------------------------------------------------------

  /** A relation, and where its row would stand. */
  type Step = (Relation, nat)

  /** The loop of one call; a rejected statement fails the call. */
  function Remembered(edges: seq<Edge>, steps: seq<Step>): Option<seq<Edge>> {
    if steps == [] then Some(edges)
    else
      var n := |steps| - 1;
      match Remembered(edges, steps[..n])
      case None => None
      case Some(now) => Upsert(now, steps[n].0, steps[n].1)
  }

  /** The table after a sequence of calls; a failed call leaves it as it was. */
  function After(edges: seq<Edge>, calls: seq<seq<Step>>): seq<Edge> {
    if calls == [] then edges
    else
      var n := |calls| - 1;
      var now := After(edges, calls[..n]);
      match Remembered(now, calls[n])
      case None => now
      case Some(next) => next
  }

  lemma EvolvesSelf(edges: seq<Edge>)
    ensures Evolves(edges, edges)
  {
    forall i | 0 <= i < |edges|
      ensures Survives(edges[i], edges)
    {
      assert Becomes(edges[i], edges[i]);
    }
  }

  lemma {:induction false} CallKeeps(edges: seq<Edge>, steps: seq<Step>)
    requires NoSelfLoops(edges) && Remembered(edges, steps).Some?
    ensures NoSelfLoops(Remembered(edges, steps).value) && Evolves(edges, Remembered(edges, steps).value)
  {
    hide NoSelfLoops, Evolves, Upsert;
    if steps == [] {
      EvolvesSelf(edges);
    } else {
      var n := |steps| - 1;
      CallKeeps(edges, steps[..n]);
      var now := Remembered(edges, steps[..n]).value;
      StepKeeps(now, steps[n].0, steps[n].1);
      EvolvesOn(edges, now, Remembered(edges, steps).value);
    }
  }

  /** Over any calls: no self-loop, no edge lost, no specific relationship ever
      changed, and a generic one changed only to a specific one. */
  lemma {:induction false} RunKeeps(edges: seq<Edge>, calls: seq<seq<Step>>)
    requires NoSelfLoops(edges)
    ensures NoSelfLoops(After(edges, calls)) && Evolves(edges, After(edges, calls))
  {
    hide NoSelfLoops, Evolves, Remembered;
    if calls == [] {
      EvolvesSelf(edges);
    } else {
      var n := |calls| - 1;
      RunKeeps(edges, calls[..n]);
      var now := After(edges, calls[..n]);
      if Remembered(now, calls[n]).Some? {
        CallKeeps(now, calls[n]);
        EvolvesOn(edges, now, After(edges, calls));
      }
    }
  }

  // ---- one edge per pair over runs -----------------------------------------

  lemma PlacedStaysBroken(edges: seq<Edge>, e: Edge, at: nat)
    requires !OnePerPair(edges)
    ensures !OnePerPair(Placed(edges, e, at))
  {
    var after, p := Placed(edges, e, at), PlaceOf(edges, at);
    assert |after| == |edges| + 1;
    hide Placed;
    var i, j :| 0 <= i < j < |edges| && Joins(edges[i], edges[j].source, edges[j].target);
    var x, y := if i < p then i else i + 1, if j < p then j else j + 1;
    PlacedAt(edges, e, at, x);
    PlacedAt(edges, e, at, y);
    assert Joins(after[x], after[y].source, after[y].target);
  }

  lemma UpgradedStaysBroken(edges: seq<Edge>, k: nat, e: Edge)
    requires !OnePerPair(edges) && k < |edges| && Joins(edges[k], e.source, e.target)
    ensures !OnePerPair(edges[k := e])
  {
    var i, j :| 0 <= i < j < |edges| && Joins(edges[i], edges[j].source, edges[j].target);
    assert Joins(edges[k := e][i], edges[k := e][j].source, edges[k := e][j].target);
  }

  /** A pair that has two edges keeps them: no accepted step mends a table. */
  lemma StepStaysBroken(edges: seq<Edge>, r: Relation, at: nat)
    requires !OnePerPair(edges) && Upsert(edges, r, at).Some?
    ensures !OnePerPair(Upsert(edges, r, at).value)
  {
    hide OnePerPair, Placed, Neighbours;
    var e := Edge(r.source, r.target, r.relation);
    if r.source != r.target {
      match FirstJoin(edges, Neighbours(edges, r.source), r.source, r.target)
      case None =>
        PlacedStaysBroken(edges, e, at);
      case Some(k) =>
        UpgradedStaysBroken(edges, k, e);
    }
  }

  /** Every step's pair, in the table the step meets, is not hidden. */
  predicate MeetsNothingHidden(edges: seq<Edge>, steps: seq<Step>) {
    if steps == [] then true
    else
      var n := |steps| - 1;
      && MeetsNothingHidden(edges, steps[..n])
      && Remembered(edges, steps[..n]).Some?
      && !IsHidden(Remembered(edges, steps[..n]).value, steps[n].0)
  }

  /** A call is accepted and keeps one edge per pair exactly when none of its steps
      meets a hidden pair. */
  lemma {:induction false} CallKeepsOnePerPair(edges: seq<Edge>, steps: seq<Step>)
    requires OnePerPair(edges)
    ensures Remembered(edges, steps).Some? && OnePerPair(Remembered(edges, steps).value)
            <==> MeetsNothingHidden(edges, steps)
  {
    hide OnePerPair, Upsert, IsHidden;
    if steps != [] {
      var n := |steps| - 1;
      CallKeepsOnePerPair(edges, steps[..n]);
      if Remembered(edges, steps[..n]).Some? {
        var now := Remembered(edges, steps[..n]).value;
        if OnePerPair(now) {
          StepKeepsOnePerPair(now, steps[n].0, steps[n].1);
        } else if Upsert(now, steps[n].0, steps[n].1).Some? {
          StepStaysBroken(now, steps[n].0, steps[n].1);
        }
      }
    }
  }

  lemma {:induction false} CallStaysBroken(edges: seq<Edge>, steps: seq<Step>)
    requires !OnePerPair(edges) && Remembered(edges, steps).Some?
    ensures !OnePerPair(Remembered(edges, steps).value)
  {
    hide OnePerPair, Upsert;
    if steps != [] {
      var n := |steps| - 1;
      CallStaysBroken(edges, steps[..n]);
      StepStaysBroken(Remembered(edges, steps[..n]).value, steps[n].0, steps[n].1);
    }
  }

  /** Every call that does not fail meets nothing hidden in the table it finds. */
  predicate CallsMeetNothingHidden(edges: seq<Edge>, calls: seq<seq<Step>>) {
    if calls == [] then true
    else
      var n := |calls| - 1;
      var now := After(edges, calls[..n]);
      && CallsMeetNothingHidden(edges, calls[..n])
      && (Remembered(now, calls[n]).Some? ==> MeetsNothingHidden(now, calls[n]))
  }

  /** Over any calls, one edge per pair is kept exactly when no call that succeeds
      has a step whose pair is hidden from its source: a second edge, once there,
      stays. */
  lemma {:induction false} RunKeepsOnePerPair(edges: seq<Edge>, calls: seq<seq<Step>>)
    requires OnePerPair(edges)
    ensures OnePerPair(After(edges, calls)) <==> CallsMeetNothingHidden(edges, calls)
  {
    hide OnePerPair, Remembered, MeetsNothingHidden;
    if calls != [] {
      var n := |calls| - 1;
      RunKeepsOnePerPair(edges, calls[..n]);
      var now := After(edges, calls[..n]);
      if Remembered(now, calls[n]).Some? {
        if OnePerPair(now) {
          CallKeepsOnePerPair(now, calls[n]);
        } else {
          CallStaysBroken(now, calls[n]);
        }
      }
    }
  }

  // ---- when an edge can be hidden ------------------------------------------

  function Other(e: Edge, v: nat): nat {
    if e.source == v then e.target else e.source
  }

  function Others(edges: seq<Edge>, v: nat, n: nat): set<nat>
    requires n <= |edges|
  {
    if n == 0 then {}
    else Others(edges, v, n - 1) + if Touches(edges[n - 1], v) then {Other(edges[n - 1], v)} else {}
  }

  predicate AreAmong(edges: seq<Edge>, entities: set<nat>) {
    forall i :: 0 <= i < |edges| ==> edges[i].source in entities && edges[i].target in entities
  }

  lemma {:induction false} OthersAreJoined(edges: seq<Edge>, v: nat, n: nat, w: nat) returns (i: nat)
    requires n <= |edges| && w in Others(edges, v, n)
    ensures i < n && Joins(edges[i], v, w)
  {
    if w in Others(edges, v, n - 1) {
      i := OthersAreJoined(edges, v, n - 1, w);
    } else {
      i := n - 1;
    }
  }

  lemma NextOtherIsNew(edges: seq<Edge>, v: nat, n: nat)
    requires n < |edges| && OnePerPair(edges) && Touches(edges[n], v)
    ensures Other(edges[n], v) !in Others(edges, v, n)
  {
    if Other(edges[n], v) in Others(edges, v, n) {
      var i := OthersAreJoined(edges, v, n, Other(edges[n], v));
      assert false;
    }
  }

  /** With one edge per pair an entity has an edge per other entity at most. */
  lemma {:induction false} DegreeBounded(edges: seq<Edge>, entities: set<nat>, v: nat, n: nat)
    requires n <= |edges| && OnePerPair(edges) && NoSelfLoops(edges) && AreAmong(edges, entities)
    ensures |Others(edges, v, n)| == |Touching(edges, v, n)|
    ensures Others(edges, v, n) <= entities - {v}
  {
    hide OnePerPair;
    if n > 0 {
      DegreeBounded(edges, entities, v, n - 1);
      if Touches(edges[n - 1], v) {
        NextOtherIsNew(edges, v, n - 1);
      }
    }
  }

  lemma SubsetSize(a: set<nat>, b: set<nat>)
    requires a <= b
    ensures |a| <= |b|
  {
    assert b == a + (b - a);
  }

  /** Among at most twenty-one entities no edge is ever hidden. */
  lemma FewEntitiesHideNothing(edges: seq<Edge>, entities: set<nat>, r: Relation)
    requires OnePerPair(edges) && NoSelfLoops(edges) && AreAmong(edges, entities)
    requires |entities| <= NEIGHBOR_LIMIT + 1 && r.source in entities
    ensures !IsHidden(edges, r)
  {
    forall i | 0 <= i < |edges| && Joins(edges[i], r.source, r.target)
      ensures IsVisible(edges, r.source, i)
    {
      DegreeBounded(edges, entities, r.source, i + 1);
      SubsetSize(Others(edges, r.source, i + 1), entities - {r.source});
      assert Touches(edges[i], r.source);
      assert |Touching(edges, r.source, i + 1)| == |Touching(edges, r.source, i)| + 1;
    }
  }

  predicate StepsAmong(steps: seq<Step>, entities: set<nat>) {
    forall k :: 0 <= k < |steps| ==> steps[k].0.source in entities && steps[k].0.target in entities
  }

  lemma PlacedAmong(edges: seq<Edge>, e: Edge, at: nat, entities: set<nat>)
    requires AreAmong(edges, entities) && e.source in entities && e.target in entities
    ensures AreAmong(Placed(edges, e, at), entities)
  {
  }

  ghost predicate IsSound(edges: seq<Edge>, entities: set<nat>) {
    OnePerPair(edges) && NoSelfLoops(edges) && AreAmong(edges, entities)
  }

  lemma StepIsSound(edges: seq<Edge>, r: Relation, at: nat, entities: set<nat>)
    requires IsSound(edges, entities) && |entities| <= NEIGHBOR_LIMIT + 1
    requires r.source in entities && r.target in entities
    ensures Upsert(edges, r, at).Some? && IsSound(Upsert(edges, r, at).value, entities)
  {
    hide OnePerPair, NoSelfLoops, IsHidden, FirstJoin, Neighbours, Placed;
    FewEntitiesHideNothing(edges, entities, r);
    StepKeepsOnePerPair(edges, r, at);
    StepKeeps(edges, r, at);
    PlacedAmong(edges, Edge(r.source, r.target, r.relation), at, entities);
  }

  lemma {:induction false} CallIsSound(edges: seq<Edge>, steps: seq<Step>, entities: set<nat>)
    requires IsSound(edges, entities) && |entities| <= NEIGHBOR_LIMIT + 1 && StepsAmong(steps, entities)
    ensures Remembered(edges, steps).Some? && IsSound(Remembered(edges, steps).value, entities)
  {
    hide IsSound, Upsert;
    if steps != [] {
      var n := |steps| - 1;
      CallIsSound(edges, steps[..n], entities);
      StepIsSound(Remembered(edges, steps[..n]).value, steps[n].0, steps[n].1, entities);
    }
  }

  /** Among at most twenty-one entities every call succeeds and every run keeps
      one edge per pair. */
  lemma {:induction false} SmallGraphsKeepOnePerPair(edges: seq<Edge>, calls: seq<seq<Step>>, entities: set<nat>)
    requires IsSound(edges, entities) && |entities| <= NEIGHBOR_LIMIT + 1
    requires forall k :: 0 <= k < |calls| ==> StepsAmong(calls[k], entities)
    ensures IsSound(After(edges, calls), entities)
    ensures calls != [] ==> Remembered(After(edges, calls[..|calls| - 1]), calls[|calls| - 1]).Some?
  {
    hide IsSound, Remembered, StepsAmong;
    if calls != [] {
      var n := |calls| - 1;
      SmallGraphsKeepOnePerPair(edges, calls[..n], entities);
      CallIsSound(After(edges, calls[..n]), calls[n], entities);
    }
  }

  // ---- one more entity is too many -----------------------------------------

  /** A hub with an edge to each of twenty-one entities, the last one oldest. */
  function Hub(): (r: seq<Edge>)
    ensures |r| == NEIGHBOR_LIMIT + 1
    ensures forall i :: 0 <= i < |r| ==> r[i] == Edge(0, i + 1, "related_to")
  {
    seq(NEIGHBOR_LIMIT + 1, i requires i >= 0 => Edge(0, i + 1, "related_to"))
  }

  lemma {:induction false} HubTouching(n: nat)
    requires n <= NEIGHBOR_LIMIT + 1
    ensures |Touching(Hub(), 0, n)| == n
  {
    if n > 0 {
      HubTouching(n - 1);
    }
  }

  /** The edges to the last `n` of them. */
  function Spokes(n: nat): (r: seq<Edge>)
    requires n <= NEIGHBOR_LIMIT + 1
    ensures |r| == n
    ensures forall i :: 0 <= i < n ==> r[i] == Edge(0, NEIGHBOR_LIMIT + 2 - n + i, "related_to")
  {
    seq(n, i requires i >= 0 => Edge(0, NEIGHBOR_LIMIT + 2 - n + i, "related_to"))
  }

  /** The calls that relate the hub to each entity, from the last to the first. */
  function HubCalls(n: nat): (r: seq<seq<Step>>)
    requires n <= NEIGHBOR_LIMIT + 1
    ensures |r| == n
  {
    if n == 0 then []
    else HubCalls(n - 1) + [[(Relation(0, "related_to", NEIGHBOR_LIMIT + 2 - n), 0)]]
  }

  lemma SpokeAdded(n: nat)
    requires 1 <= n <= NEIGHBOR_LIMIT + 1
    ensures Upsert(Spokes(n - 1), Relation(0, "related_to", NEIGHBOR_LIMIT + 2 - n), 0) == Some(Spokes(n))
  {
    var edges, r := Spokes(n - 1), Relation(0, "related_to", NEIGHBOR_LIMIT + 2 - n);
    assert forall i :: 0 <= i < |edges| ==> !Joins(edges[i], r.source, r.target);
    hide Touching, Neighbours;
    assert FirstJoin(edges, Neighbours(edges, r.source), r.source, r.target) == None;
    assert Placed(edges, Edge(0, r.target, "related_to"), 0) == Spokes(n);
  }

  lemma OneStep(edges: seq<Edge>, step: Step)
    ensures Remembered(edges, [step]) == Upsert(edges, step.0, step.1)
  {
    assert [step][..0] == [];
  }

  lemma {:induction false} SpokesAfter(n: nat)
    requires n <= NEIGHBOR_LIMIT + 1
    ensures After([], HubCalls(n)) == Spokes(n)
  {
    hide Remembered, Upsert, Spokes;
    if n > 0 {
      SpokesAfter(n - 1);
      SpokeAdded(n);
      OneStep(Spokes(n - 1), (Relation(0, "related_to", NEIGHBOR_LIMIT + 2 - n), 0));
      assert HubCalls(n)[..n - 1] == HubCalls(n - 1);
    }
  }

  /** The hub comes out of calls on an empty table. */
  lemma HubIsReached()
    ensures After([], HubCalls(NEIGHBOR_LIMIT + 1)) == Hub()
  {
    SpokesAfter(NEIGHBOR_LIMIT + 1);
    assert Spokes(NEIGHBOR_LIMIT + 1) == Hub();
  }

  lemma HubHides()
    ensures OnePerPair(Hub()) && NoSelfLoops(Hub())
    ensures IsHidden(Hub(), Relation(0, "works_on", NEIGHBOR_LIMIT + 1))
  {
    hide Touching;
    HubTouching(NEIGHBOR_LIMIT);
    assert Joins(Hub()[NEIGHBOR_LIMIT], 0, NEIGHBOR_LIMIT + 1);
  }

  /** With twenty-two entities a pair can get a second edge: after calls on an
      empty table its only edge is not among the hub's twenty newest. */
  lemma HubForgets(at: nat)
    ensures After([], HubCalls(NEIGHBOR_LIMIT + 1)) == Hub() && OnePerPair(Hub())
    ensures var r := Relation(0, "works_on", NEIGHBOR_LIMIT + 1);
      Upsert(Hub(), r, at).Some? && !OnePerPair(Upsert(Hub(), r, at).value)
  {
    HubIsReached();
    HubHides();
    assert |"works_on"| != |"related_to"|;
    hide Upsert, IsHidden, OnePerPair, NoSelfLoops, After, HubCalls;
    StepKeepsOnePerPair(Hub(), Relation(0, "works_on", NEIGHBOR_LIMIT + 1), at);
  }

  // ---- the loop itself -----------------------------------------------------

  class EdgeStore {
    var edges: seq<Edge>

    constructor (edges: seq<Edge>)
      ensures this.edges == edges
    {
      this.edges := edges;
    }

    method GetNeighbors(v: nat) returns (near: seq<nat>)
      ensures near == Neighbours(edges, v)
    {
      near := Neighbours(edges, v);
    }

    /** The edge between the two entities among the source's newest. */
    method MatchedEdge(a: nat, b: nat) returns (matched: Option<nat>)
      ensures matched == FirstJoin(edges, Neighbours(edges, a), a, b)
    {
      var existing := GetNeighbors(a);
      for k := 0 to |existing|
        invariant FirstJoin(edges, existing, a, b) == FirstJoin(edges, existing[k..], a, b)
      {
        if Joins(edges[existing[k]], a, b) {
          return Some(existing[k]);
        }
        assert existing[k..][1..] == existing[k + 1..];
      }
      matched := None;
    }

    /** Both statements fail on an edge that exists already. */
    method Create(e: Edge, at: nat) returns (ok: bool)
      modifies this
      ensures ok <==> e !in old(edges)
      ensures edges == if ok then Placed(old(edges), e, at) else old(edges)
    {
      ok := e !in edges;
      if ok {
        edges := Placed(edges, e, at);
      }
    }

    method Update(i: nat, e: Edge) returns (ok: bool)
      requires i < |edges|
      modifies this
      ensures ok <==> e !in old(edges)
      ensures edges == if ok then old(edges)[i := e] else old(edges)
    {
      ok := e !in edges;
      if ok {
        edges := edges[i := e];
      }
    }

    /** The loop over the relations of one call. */
    method Remember(steps: seq<Step>) returns (ok: bool)
      modifies this
      ensures ok <==> Remembered(old(edges), steps).Some?
      ensures edges == if ok then Remembered(old(edges), steps).value else old(edges)
    {
      var was := edges;
      for k := 0 to |steps|
        invariant Remembered(was, steps[..k]) == Some(edges)
      {
        assert steps[..k + 1][..k] == steps[..k];
        var r := steps[k].0;
        if r.source == r.target {
          continue;
        }
        var matched := MatchedEdge(r.source, r.target);
        ok := true;
        if matched == None {
          ok := Create(Edge(r.source, r.target, r.relation), steps[k].1);
        } else if IsGeneric(edges[matched.value].relation) && !IsGeneric(r.relation) {
          ok := Update(matched.value, Edge(r.source, r.target, r.relation));
        }
        if !ok {
          CallFails(was, steps, k + 1);
          edges := was;
          return;
        }
      }
      assert steps[..|steps|] == steps;
      ok := true;
    }
  }

  lemma {:induction false} CallFails(edges: seq<Edge>, steps: seq<Step>, k: nat)
    requires k <= |steps| && Remembered(edges, steps[..k]).None?
    ensures Remembered(edges, steps).None?
    decreases |steps| - k
  {
    if k == |steps| {
      assert steps[..k] == steps;
    } else {
      assert steps[..k + 1][..k] == steps[..k];
      CallFails(edges, steps, k + 1);
    }
  }
}
