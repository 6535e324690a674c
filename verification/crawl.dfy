/**
 * The layered crawl both downloader revisions run (`download_related_recursive` in the
 * legacy script, `download_recursive` in the application): starting from a seed
 * artwork, up to `depth + 1` layers are processed one after the other; each id of a
 * layer that is not yet processed is marked processed, fetched and filtered, and while
 * layers remain its related artworks feed the next layer. The revisions differ only in
 * what one visit does, so the engine here takes the visit as a function and each
 * revision supplies its own.
 */
module Crawl {
  import opened Wrappers
  import opened Media

  /** At most this many related artworks of one visit are looked at (`illusts[:30]`). */
  const RelatedCap: nat := 30

  /**
   * The record of one visit of an id: the layer it belongs to, how many detail requests
   * were made and the waits between them, the artwork obtained (if any), whether it was
   * admitted (and so queued for download), whether its related list was fetched, the
   * related artworks looked at, and the ids it added to the next layer.
   */
  datatype Visit = Visit(
    layer: nat,
    id: nat,
    calls: nat,
    waits: seq<nat>,
    illust: Option<Illust>,
    admitted: bool,
    expanded: bool,
    examined: seq<Illust>,
    discovered: seq<nat>
  )

  /** `visit(layer, id, expand, processed)`: visit `id` in `layer`; `expand` says whether
      a further layer may follow, `processed` already includes `id`. */
  type VisitFn = (nat, nat, bool, set<nat>) -> Visit

  /** What the crawl needs of any visit. */
  predicate Coherent(v: Visit, layer: nat, id: nat, expand: bool, processed: set<nat>) {
    && v.layer == layer
    && v.id == id
    && (v.admitted ==> v.illust.Some?)
    && (v.expanded ==> v.admitted && expand)
    && (!v.expanded ==> v.examined == [] && v.discovered == [])
    && |v.examined| <= RelatedCap
    && (forall d :: d in v.discovered ==> d !in processed)
  }

  ghost predicate Sound(visit: VisitFn) {
    forall layer, id, expand, processed ::
      Coherent(visit(layer, id, expand, processed), layer, id, expand, processed)
  }

  function VisitIds(vs: seq<Visit>): set<nat> {
    set v | v in vs :: v.id
  }

  /** Every id some visit in `vs` added to a next layer. */
  function Discovered(vs: seq<Visit>): set<nat> {
    set v, d | v in vs && d in v.discovered :: d
  }

  /** The ids the visits of one layer added to the layer after it. */
  function DiscoveredAt(vs: seq<Visit>, layer: nat): set<nat> {
    set v, d | v in vs && v.layer == layer && d in v.discovered :: d
  }

  /** No id is visited twice, and no visited id had been processed before. */
  predicate Fresh(vs: seq<Visit>, before: set<nat>) {
    && (forall j, k :: 0 <= j < k < |vs| ==> vs[j].id != vs[k].id)
    && (forall k :: 0 <= k < |vs| ==> vs[k].id !in before)
  }

  /** Every id a visit adds to a next layer was unprocessed at that moment: not processed
      before the crawl and not visited up to and including that visit. */
  predicate DiscoveredFresh(vs: seq<Visit>, before: set<nat>) {
    forall k, d :: 0 <= k < |vs| && d in vs[k].discovered ==> d !in before && NotVisitedUpTo(vs, k, d)
  }

  /** None of the first `k + 1` visits is of `d`. */
  predicate NotVisitedUpTo(vs: seq<Visit>, k: int, d: nat) {
    forall j :: 0 <= j <= k && j < |vs| ==> vs[j].id != d
  }

  lemma FreshCons(v: Visit, rest: seq<Visit>, before: set<nat>)
    requires v.id !in before && Fresh(rest, before + {v.id})
    ensures Fresh([v] + rest, before)
  {
    var vs := [v] + rest;
    forall j, k | 0 <= j < k < |vs| ensures vs[j].id != vs[k].id {
      assert vs[k] == rest[k - 1];
      if j > 0 {
        assert vs[j] == rest[j - 1];
      }
    }
  }

  lemma DiscoveredFreshCons(v: Visit, rest: seq<Visit>, before: set<nat>)
    requires forall d :: d in v.discovered ==> d !in before + {v.id}
    requires DiscoveredFresh(rest, before + {v.id})
    ensures DiscoveredFresh([v] + rest, before)
  {
    var vs := [v] + rest;
    forall k, d | 0 <= k < |vs| && d in vs[k].discovered
      ensures d !in before && NotVisitedUpTo(vs, k, d)
    {
      if k > 0 {
        assert vs[k] == rest[k - 1];
        assert d in rest[k - 1].discovered;
        assert NotVisitedUpTo(rest, k - 1, d);
        forall j | 1 <= j <= k ensures vs[j].id != d {
          assert vs[j] == rest[j - 1];
        }
      }
    }
  }

  lemma FreshAppend(a: seq<Visit>, b: seq<Visit>, before: set<nat>)
    requires Fresh(a, before) && Fresh(b, before + VisitIds(a))
    ensures Fresh(a + b, before)
  {
    var vs := a + b;
    forall j, k | 0 <= j < k < |vs| ensures vs[j].id != vs[k].id {
      if k >= |a| {
        assert vs[k] == b[k - |a|];
        if j >= |a| {
          assert vs[j] == b[j - |a|];
        } else {
          assert vs[j] == a[j];
          assert a[j] in a;
        }
      } else {
        assert vs[j] == a[j] && vs[k] == a[k];
      }
    }
    forall k | 0 <= k < |vs| ensures vs[k].id !in before {
      if k >= |a| {
        assert vs[k] == b[k - |a|];
      } else {
        assert vs[k] == a[k];
      }
    }
  }

  lemma DiscoveredFreshAppend(a: seq<Visit>, b: seq<Visit>, before: set<nat>)
    requires DiscoveredFresh(a, before) && DiscoveredFresh(b, before + VisitIds(a))
    ensures DiscoveredFresh(a + b, before)
  {
    var vs := a + b;
    forall k, d | 0 <= k < |vs| && d in vs[k].discovered
      ensures d !in before && NotVisitedUpTo(vs, k, d)
    {
      if k >= |a| {
        assert vs[k] == b[k - |a|];
        assert d in b[k - |a|].discovered;
        assert NotVisitedUpTo(b, k - |a|, d);
        forall j | 0 <= j <= k ensures vs[j].id != d {
          if j >= |a| {
            assert vs[j] == b[j - |a|];
          } else {
            assert vs[j] == a[j];
            assert a[j] in a;
          }
        }
      } else {
        assert vs[k] == a[k];
        assert d in a[k].discovered;
        assert NotVisitedUpTo(a, k, d);
        forall j | 0 <= j <= k ensures vs[j].id != d {
          assert vs[j] == a[j];
        }
      }
    }
  }

  /** The artworks the visits admitted, in visit order: what the crawl hands to the
      downloader. */
  function Admitted(vs: seq<Visit>): (r: seq<Illust>)
    ensures |r| <= |vs|
    ensures forall x :: x in r <==> exists k :: 0 <= k < |vs| && vs[k].admitted && vs[k].illust == Some(x)
  {
    if vs == [] then []
    else
      var rest := Admitted(vs[1..]);
      assert forall k :: 1 <= k < |vs| ==> vs[k] == vs[1..][k - 1];
      if vs[0].admitted && vs[0].illust.Some? then [vs[0].illust.value] + rest else rest
  }

  /** What one layer leaves behind: the processed set, the visits made, the next layer. */
  datatype LayerOut = LayerOut(processed: set<nat>, visits: seq<Visit>, next: set<nat>)

  /** Every visit of `vs` belongs to `layer`, visits an id of `ids`, expands only when
      `expand` allows it and discovers only when it expanded. */
  predicate InLayer(vs: seq<Visit>, ids: seq<nat>, layer: nat, expand: bool) {
    forall k :: 0 <= k < |vs| ==>
      && vs[k].layer == layer && vs[k].id in ids
      && (vs[k].expanded ==> expand)
      && (vs[k].discovered != [] ==> vs[k].expanded)
  }

  lemma ElementsCons(ids: seq<nat>)
    requires ids != []
    ensures (set x | x in ids) == {ids[0]} + (set x | x in ids[1..])
  {
  }

  lemma InLayerCons(v: Visit, rest: seq<Visit>, ids: seq<nat>, layer: nat, expand: bool)
    requires ids != [] && v.id == ids[0] && v.layer == layer
    requires (v.expanded ==> expand) && (v.discovered != [] ==> v.expanded)
    requires InLayer(rest, ids[1..], layer, expand)
    ensures InLayer([v] + rest, ids, layer, expand)
  {
    var vs := [v] + rest;
    forall k | 1 <= k < |vs| ensures vs[k].id in ids {
      assert vs[k] == rest[k - 1];
      assert rest[k - 1].id in ids[1..];
    }
  }

  lemma InLayerTail(vs: seq<Visit>, ids: seq<nat>, layer: nat, expand: bool)
    requires ids != [] && InLayer(vs, ids[1..], layer, expand)
    ensures InLayer(vs, ids, layer, expand)
  {
    forall k | 0 <= k < |vs| ensures vs[k].id in ids {
      assert vs[k].id in ids[1..];
    }
  }

  lemma VisitsCons(v: Visit, vs: seq<Visit>)
    ensures VisitIds([v] + vs) == {v.id} + VisitIds(vs)
    ensures Discovered([v] + vs) == (set d | d in v.discovered) + Discovered(vs)
  {
    assert forall w :: w in [v] + vs <==> w == v || w in vs;
  }

  /** One pass over the ids of a layer, in order; ids already processed are skipped. */
  function Layer(visit: VisitFn, ids: seq<nat>, layer: nat, expand: bool, processed: set<nat>): (r: LayerOut)
    requires Sound(visit)
    ensures r.processed == processed + (set x | x in ids)
    ensures r.processed == processed + VisitIds(r.visits)
    ensures Fresh(r.visits, processed)
    ensures InLayer(r.visits, ids, layer, expand)
    ensures r.next == Discovered(r.visits)
    ensures DiscoveredFresh(r.visits, processed)
    decreases |ids|
  {
    if ids == [] then LayerOut(processed, [], {})
    else if ids[0] in processed then
      var rest := Layer(visit, ids[1..], layer, expand, processed);
      ElementsCons(ids);
      InLayerTail(rest.visits, ids, layer, expand);
      rest
    else
      var p := processed + {ids[0]};
      var v := visit(layer, ids[0], expand, p);
      assert Coherent(v, layer, ids[0], expand, p);
      var rest := Layer(visit, ids[1..], layer, expand, p);
      ElementsCons(ids);
      VisitsCons(v, rest.visits);
      InLayerCons(v, rest.visits, ids, layer, expand);
      FreshCons(v, rest.visits, processed);
      DiscoveredFreshCons(v, rest.visits, processed);
      LayerOut(rest.processed, [v] + rest.visits, (set d | d in v.discovered) + rest.next)
  }

  /** The least member of `s` that is at least `k`, searching upwards from `k`. */
  function LeastFrom(s: set<nat>, k: nat, ghost bound: nat): (m: nat)
    requires bound in s && k <= bound
    requires forall y :: y in s ==> k <= y
    ensures m in s && forall y :: y in s ==> m <= y
    decreases bound - k
  {
    if k in s then k else LeastFrom(s, k + 1, bound)
  }

  function Least(s: set<nat>): (m: nat)
    requires s != {}
    ensures m in s && forall y :: y in s ==> m <= y
  {
    ghost var x :| x in s;
    LeastFrom(s, 0, x)
  }

  /** The next layer as a list: `list(next_layer_ids)`. Python leaves the order of a set
      unspecified; this model takes ascending id order. */
  function Enumerate(s: set<nat>): (r: seq<nat>)
    ensures forall x :: x in r <==> x in s
    decreases |s|
  {
    if s == {} then [] else var m := Least(s); [m] + Enumerate(s - {m})
  }

  /** A finished crawl: the processed set, every visit in order, and how many layers ran. */
  datatype CrawlRun = CrawlRun(processed: set<nat>, visits: seq<Visit>, layers: nat)

  /** Every visit of `vs` belongs to a layer in `lo..hi - 1`, and only visits of layers
      before `depth` expanded. */
  predicate LayersWithin(vs: seq<Visit>, lo: nat, hi: nat, depth: int) {
    forall k :: 0 <= k < |vs| ==> lo <= vs[k].layer < hi && (vs[k].expanded ==> vs[k].layer < depth)
  }

  lemma LayersAppend(a: seq<Visit>, b: seq<Visit>, i: nat, hi: nat, depth: int)
    requires i + 1 <= hi
    requires LayersWithin(a, i, i + 1, depth) && LayersWithin(b, i + 1, hi, depth)
    ensures LayersWithin(a + b, i, hi, depth)
  {
    var vs := a + b;
    forall k | 0 <= k < |vs| ensures i <= vs[k].layer < hi && (vs[k].expanded ==> vs[k].layer < depth) {
      if k >= |a| {
        assert vs[k] == b[k - |a|];
      } else {
        assert vs[k] == a[k];
      }
    }
  }

  lemma VisitIdsAppend(a: seq<Visit>, b: seq<Visit>)
    ensures VisitIds(a + b) == VisitIds(a) + VisitIds(b)
  {
    assert forall v :: v in a + b <==> v in a || v in b;
  }

  /**
   * Layers `i`, `i + 1`, ... of the crawl from the ids in `current`; the source's
   * `for i in range(depth + 1)` loop with its `break` on an empty next layer.
   */
  function Run(visit: VisitFn, current: seq<nat>, i: nat, depth: int, processed: set<nat>): (r: CrawlRun)
    requires Sound(visit)
    ensures i <= depth ==> 1 <= r.layers <= depth + 1 - i
    ensures depth < i ==> r.layers == 0 && r.visits == [] && r.processed == processed
    ensures r.processed == processed + VisitIds(r.visits)
    ensures Fresh(r.visits, processed)
    ensures LayersWithin(r.visits, i, i + r.layers, depth)
    decreases depth + 1 - i
  {
    if depth < i then CrawlRun(processed, [], 0)
    else
      var out := Layer(visit, current, i, i < depth, processed);
      assert LayersWithin(out.visits, i, i + 1, depth);
      var next := Enumerate(out.next);
      if next == [] then CrawlRun(out.processed, out.visits, 1)
      else
        var rest := Run(visit, next, i + 1, depth, out.processed);
        FreshAppend(out.visits, rest.visits, processed);
        VisitIdsAppend(out.visits, rest.visits);
        LayersAppend(out.visits, rest.visits, i, i + 1 + rest.layers, depth);
        CrawlRun(rest.processed, out.visits + rest.visits, rest.layers + 1)
  }

  lemma DiscoveredAtAppend(a: seq<Visit>, b: seq<Visit>, layer: nat)
    ensures DiscoveredAt(a + b, layer) == DiscoveredAt(a, layer) + DiscoveredAt(b, layer)
  {
    forall d | d in DiscoveredAt(a + b, layer) ensures d in DiscoveredAt(a, layer) + DiscoveredAt(b, layer) {
      var v :| v in a + b && v.layer == layer && d in v.discovered;
    }
  }

  /** Within one layer every visit carries that layer's number, so what the layer
      discovered is what was discovered at that layer. */
  lemma DiscoveredAtOneLayer(vs: seq<Visit>, layer: nat)
    requires forall k :: 0 <= k < |vs| ==> vs[k].layer == layer
    ensures DiscoveredAt(vs, layer) == Discovered(vs)
    ensures forall other :: other != layer ==> DiscoveredAt(vs, other) == {}
  {
    forall d | d in Discovered(vs) ensures d in DiscoveredAt(vs, layer) {
      var v :| v in vs && d in v.discovered;
    }
    assert forall v :: v in vs ==> v.layer == layer;
  }

  /** A layer adds ids to the next one only while layers remain. */
  lemma LayerExpandsOnlyWhenAllowed(visit: VisitFn, ids: seq<nat>, layer: nat, expand: bool, processed: set<nat>)
    requires Sound(visit)
    ensures Layer(visit, ids, layer, expand, processed).next != {} ==> expand
  {
    var r := Layer(visit, ids, layer, expand, processed);
    if d :| d in r.next {
      var v :| v in r.visits && d in v.discovered;
      var k :| 0 <= k < |r.visits| && r.visits[k] == v;
    }
  }

  predicate AllVisits(vs: seq<Visit>, good: Visit -> bool) {
    forall k :: 0 <= k < |vs| ==> good(vs[k])
  }

  /** Visits of layer `i` are of ids in `current`; a visit of a later layer is of an id
      the layer before it discovered. */
  predicate Traced(vs: seq<Visit>, current: seq<nat>, i: nat) {
    && (forall k :: 0 <= k < |vs| && vs[k].layer == i ==> vs[k].id in current)
    && (forall k :: 0 <= k < |vs| && vs[k].layer > i ==> vs[k].id in DiscoveredAt(vs, vs[k].layer - 1))
  }

  /** Every layer but the last discovered something; the last discovered nothing. */
  predicate StopsOnEmpty(r: CrawlRun, i: nat) {
    && (r.layers >= 1 ==> DiscoveredAt(r.visits, i + r.layers - 1) == {})
    && (forall l :: i <= l < i + r.layers - 1 ==> DiscoveredAt(r.visits, l) != {})
  }

  /** Every id discovered during the crawl was unprocessed when it was discovered. */
  lemma {:induction false} RunDiscoveredFresh(visit: VisitFn, current: seq<nat>, i: nat, depth: int, processed: set<nat>)
    requires Sound(visit)
    ensures DiscoveredFresh(Run(visit, current, i, depth, processed).visits, processed)
    decreases depth + 1 - i
  {
    if i <= depth {
      var out := Layer(visit, current, i, i < depth, processed);
      var next := Enumerate(out.next);
      if next != [] {
        RunDiscoveredFresh(visit, next, i + 1, depth, out.processed);
        DiscoveredFreshAppend(out.visits, Run(visit, next, i + 1, depth, out.processed).visits, processed);
      }
    }
  }

  lemma TracedAppend(a: seq<Visit>, b: seq<Visit>, current: seq<nat>, next: seq<nat>, i: nat, hi: nat, depth: int)
    requires forall k :: 0 <= k < |a| ==> a[k].layer == i && a[k].id in current
    requires forall x :: x in next ==> x in Discovered(a)
    requires LayersWithin(b, i + 1, hi, depth)
    requires Traced(b, next, i + 1)
    ensures Traced(a + b, current, i)
  {
    assert forall k :: 0 <= k < |b| ==> b[k].layer > i;
    DiscoveredAtOneLayer(a, i);
    var vs := a + b;
    assert forall k :: 0 <= k < |a| ==> vs[k] == a[k];
    forall k | |a| <= k < |vs| ensures vs[k] == b[k - |a|] && vs[k].id in DiscoveredAt(vs, vs[k].layer - 1) {
      DiscoveredAtAppend(a, b, b[k - |a|].layer - 1);
    }
  }

  /** A crawl whose layer `i` discovers nothing ends with that layer's visits. */
  lemma RunLast(visit: VisitFn, current: seq<nat>, i: nat, depth: int, processed: set<nat>)
    requires Sound(visit) && i <= depth
    requires Enumerate(Layer(visit, current, i, i < depth, processed).next) == []
    ensures Run(visit, current, i, depth, processed).visits == Layer(visit, current, i, i < depth, processed).visits
  {
  }

  /** Otherwise the visits of layer `i` come first, then those of the layers after it. */
  lemma RunNext(visit: VisitFn, current: seq<nat>, i: nat, depth: int, processed: set<nat>)
    requires Sound(visit) && i <= depth
    requires Enumerate(Layer(visit, current, i, i < depth, processed).next) != []
    ensures var out := Layer(visit, current, i, i < depth, processed);
      Run(visit, current, i, depth, processed).visits ==
        out.visits + Run(visit, Enumerate(out.next), i + 1, depth, out.processed).visits
  {
  }

  /** The visits of one layer are of that layer and of its ids. */
  lemma LayerTraced(visit: VisitFn, current: seq<nat>, i: nat, expand: bool, processed: set<nat>)
    requires Sound(visit)
    ensures var vs := Layer(visit, current, i, expand, processed).visits;
      forall k :: 0 <= k < |vs| ==> vs[k].layer == i && vs[k].id in current
  {
    var vs := Layer(visit, current, i, expand, processed).visits;
    assert InLayer(vs, current, i, expand);
  }

  lemma TracedOneLayer(a: seq<Visit>, current: seq<nat>, i: nat)
    requires forall k :: 0 <= k < |a| ==> a[k].layer == i && a[k].id in current
    ensures Traced(a, current, i)
  {
  }

  /** Layer `i` visits only ids of the starting list; every later layer visits only ids
      the layer before it discovered. */
  lemma {:induction false} RunProvenance(visit: VisitFn, current: seq<nat>, i: nat, depth: int, processed: set<nat>)
    requires Sound(visit)
    ensures Traced(Run(visit, current, i, depth, processed).visits, current, i)
    decreases depth + 1 - i
  {
    if i <= depth {
      var out := Layer(visit, current, i, i < depth, processed);
      var next := Enumerate(out.next);
      if next == [] {
        RunLast(visit, current, i, depth, processed);
        LayerTraced(visit, current, i, i < depth, processed);
        TracedOneLayer(out.visits, current, i);
      } else {
        RunProvenance(visit, next, i + 1, depth, out.processed);
        TracedStep(visit, current, i, depth, processed);
      }
    }
  }

  /** A layer that discovered something, followed by a traced rest of the crawl. */
  lemma TracedStep(visit: VisitFn, current: seq<nat>, i: nat, depth: int, processed: set<nat>)
    requires Sound(visit) && i <= depth
    requires var out := Layer(visit, current, i, i < depth, processed);
      && Enumerate(out.next) != []
      && Traced(Run(visit, Enumerate(out.next), i + 1, depth, out.processed).visits, Enumerate(out.next), i + 1)
    ensures Traced(Run(visit, current, i, depth, processed).visits, current, i)
  {
    var out := Layer(visit, current, i, i < depth, processed);
    var next := Enumerate(out.next);
    var rest := Run(visit, next, i + 1, depth, out.processed);
    LayerTraced(visit, current, i, i < depth, processed);
    NextDiscovered(visit, current, i, i < depth, processed);
    RunNext(visit, current, i, depth, processed);
    TracedAppend(out.visits, rest.visits, current, next, i, i + 1 + rest.layers, depth);
  }

  /** The next layer's list holds only ids the layer's visits discovered. */
  lemma NextDiscovered(visit: VisitFn, current: seq<nat>, i: nat, expand: bool, processed: set<nat>)
    requires Sound(visit)
    ensures var out := Layer(visit, current, i, expand, processed);
      forall x :: x in Enumerate(out.next) ==> x in Discovered(out.visits)
  {
  }

  lemma StopsAppend(a: seq<Visit>, rest: CrawlRun, processed: set<nat>, i: nat)
    requires forall k :: 0 <= k < |a| ==> a[k].layer == i
    requires Discovered(a) != {}
    requires rest.layers >= 1
    requires forall k :: 0 <= k < |rest.visits| ==> i < rest.visits[k].layer
    requires StopsOnEmpty(rest, i + 1)
    ensures StopsOnEmpty(CrawlRun(processed, a + rest.visits, rest.layers + 1), i)
  {
    DiscoveredAtOneLayer(a, i);
    var vs := a + rest.visits;
    DiscoveredAtAppend(a, rest.visits, i + rest.layers);
    forall l | i <= l < i + rest.layers ensures DiscoveredAt(vs, l) != {} {
      DiscoveredAtAppend(a, rest.visits, l);
    }
  }

  /** The crawl continues past a layer only when that layer discovered something, and it
      always ends on a layer that discovered nothing (an empty next layer). */
  lemma {:induction false} RunStopsOnEmptyFrontier(visit: VisitFn, current: seq<nat>, i: nat, depth: int, processed: set<nat>)
    requires Sound(visit)
    ensures StopsOnEmpty(Run(visit, current, i, depth, processed), i)
    decreases depth + 1 - i
  {
    if i <= depth {
      var out := Layer(visit, current, i, i < depth, processed);
      var next := Enumerate(out.next);
      if next == [] {
        DiscoveredAtOneLayer(out.visits, i);
        assert out.next == {};
        assert Run(visit, current, i, depth, processed) == CrawlRun(out.processed, out.visits, 1);
      } else {
        LayerExpandsOnlyWhenAllowed(visit, current, i, i < depth, processed);
        assert next[0] in out.next;
        var rest := Run(visit, next, i + 1, depth, out.processed);
        RunStopsOnEmptyFrontier(visit, next, i + 1, depth, out.processed);
        StopsAppend(out.visits, rest, rest.processed, i);
        assert Run(visit, current, i, depth, processed) == CrawlRun(rest.processed, out.visits + rest.visits, rest.layers + 1);
      }
    }
  }

  lemma {:induction false} LayerVisitsSatisfy(visit: VisitFn, good: Visit -> bool, ids: seq<nat>, layer: nat, expand: bool, processed: set<nat>)
    requires Sound(visit)
    requires forall l, id, e, p :: good(visit(l, id, e, p))
    ensures AllVisits(Layer(visit, ids, layer, expand, processed).visits, good)
    decreases |ids|
  {
    if ids != [] {
      if ids[0] in processed {
        LayerVisitsSatisfy(visit, good, ids[1..], layer, expand, processed);
        assert Layer(visit, ids, layer, expand, processed) == Layer(visit, ids[1..], layer, expand, processed);
      } else {
        var p := processed + {ids[0]};
        LayerVisitsSatisfy(visit, good, ids[1..], layer, expand, p);
        var v := visit(layer, ids[0], expand, p);
        var rest := Layer(visit, ids[1..], layer, expand, p);
        assert Layer(visit, ids, layer, expand, processed).visits == [v] + rest.visits;
        AllVisitsAppend([v], rest.visits, good);
      }
    }
  }

  lemma AllVisitsAppend(a: seq<Visit>, b: seq<Visit>, good: Visit -> bool)
    requires AllVisits(a, good) && AllVisits(b, good)
    ensures AllVisits(a + b, good)
  {
    var vs := a + b;
    forall k | 0 <= k < |vs| ensures good(vs[k]) {
      if k >= |a| {
        assert vs[k] == b[k - |a|];
      } else {
        assert vs[k] == a[k];
      }
    }
  }

  /** A property every visit of a revision has holds of every visit of its crawls. */
  lemma {:induction false} RunVisitsSatisfy(visit: VisitFn, good: Visit -> bool, current: seq<nat>, i: nat, depth: int, processed: set<nat>)
    requires Sound(visit)
    requires forall l, id, e, p :: good(visit(l, id, e, p))
    ensures AllVisits(Run(visit, current, i, depth, processed).visits, good)
    decreases depth + 1 - i
  {
    if i <= depth {
      var out := Layer(visit, current, i, i < depth, processed);
      LayerVisitsSatisfy(visit, good, current, i, i < depth, processed);
      var next := Enumerate(out.next);
      if next != [] {
        var rest := Run(visit, next, i + 1, depth, out.processed);
        RunVisitsSatisfy(visit, good, next, i + 1, depth, out.processed);
        assert Run(visit, current, i, depth, processed).visits == out.visits + rest.visits;
        AllVisitsAppend(out.visits, rest.visits, good);
      }
    }
  }
}
