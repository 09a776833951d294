/**
 * Whole runs of the instrument: a sequence of load events followed by a
 * sequence of returns of coverage nodes. What remains in the registry depends
 * only on which sections were loaded and which nodes ever returned, not on the
 * order or the repetition of the returns.
 */
module CoverageTrace {

  import opened CoverageTypes
  import opened SimpleCodeCoverage

  /** The registry after the load listener sees `loads`, in order, from `m`. */
  function LoadAll(m: Registry, loads: seq<Section>): Registry
    decreases |loads|
  {
    if loads == [] then m else Load(LoadAll(m, loads[..|loads| - 1]), loads[|loads| - 1])
  }

  /** The registry built from an empty map by `loads` holds exactly the
      non-internal sources loaded, each with exactly its loaded sections, and
      keeps the registry invariant. */
  lemma {:induction false} LoadAllContents(loads: seq<Section>)
    ensures WellFormed(LoadAll(map[], loads))
    ensures forall s :: s in LoadAll(map[], loads) <==>
      !s.internal && exists ss :: ss in loads && ss.source == s
    ensures forall s, x :: s in LoadAll(map[], loads) ==>
      (x in LoadAll(map[], loads)[s] <==> x in loads && x.source == s)
    decreases |loads|
  {
    if loads != [] {
      var prefix, last := loads[..|loads| - 1], loads[|loads| - 1];
      LoadAllContents(prefix);
      assert loads == prefix + [last];
      forall s ensures s in LoadAll(map[], loads) <==> !s.internal && exists ss :: ss in loads && ss.source == s {
        if s in LoadAll(map[], loads) && s != last.source {
          var ss :| ss in prefix && ss.source == s;
          assert ss in loads;
        }
        if !s.internal && s != last.source && (exists ss :: ss in loads && ss.source == s) {
          var ss :| ss in loads && ss.source == s;
          assert ss in prefix;
        }
      }
    }
  }

  /** The flags of all nodes (the indices of the covered ones), the registry,
      and whether some return threw. */
  datatype Run = Run(covered: set<nat>, registry: Registry, threw: bool)

  /** The run after one return of node `i`, which instruments `sites[i]`. */
  function Return(r: Run, sites: seq<Section>, i: nat): Run
    requires i < |sites|
  {
    var step := ReturnValueStep(i in r.covered, r.registry, sites[i]);
    Run(if step.covered then r.covered + {i} else r.covered, step.registry, r.threw || step.outcome.Threw?)
  }

  /** Every event names one of the nodes of `sites`. */
  ghost predicate NodesOf(sites: seq<Section>, events: seq<nat>)
  {
    forall k :: 0 <= k < |events| ==> events[k] < |sites|
  }

  /** The run after the returns `events`, in order, of nodes of `sites`. */
  function ReturnAll(r: Run, sites: seq<Section>, events: seq<nat>): Run
    requires NodesOf(sites, events)
    decreases |events|
  {
    if events == [] then r
    else Return(ReturnAll(r, sites, events[..|events| - 1]), sites, events[|events| - 1])
  }

  /** `after` is `before` less the sections some node among `events`
      instruments, with no source dropped. */
  ghost predicate RemovedExactly(before: Registry, after: Registry, sites: seq<Section>, events: seq<nat>)
  {
    && after.Keys == before.Keys
    && forall s :: s in before ==> forall x :: x in after[s] <==> x in before[s] && !Executed(sites, events, x)
  }

  /** Some node among `events` instruments section `x`. */
  ghost predicate Executed(sites: seq<Section>, events: seq<nat>, x: Section)
  {
    exists e :: e in events && e < |sites| && sites[e] == x
  }

  /** Every non-internal site's source has a set in the registry. */
  ghost predicate SourcesPresent(m: Registry, sites: seq<Section>)
  {
    forall i :: 0 <= i < |sites| && !sites[i].source.internal ==> sites[i].source in m
  }

  /** The section of every covered node is gone from the registry. */
  ghost predicate CoveredGone(r: Run, sites: seq<Section>)
  {
    forall i :: i in r.covered && i < |sites| && sites[i].source in r.registry ==>
      sites[i] !in r.registry[sites[i].source]
  }

  /** One return of node `i`: nothing throws, the node is covered afterwards,
      and exactly its section leaves the registry. */
  lemma ReturnOne(p: Run, sites: seq<Section>, i: nat)
    requires i < |sites|
    requires !p.threw && WellFormed(p.registry)
    requires SourcesPresent(p.registry, sites) && CoveredGone(p, sites)
    ensures var q := Return(p, sites, i);
      && !q.threw && WellFormed(q.registry)
      && SourcesPresent(q.registry, sites) && CoveredGone(q, sites)
      && q.covered == p.covered + {i}
      && q.registry.Keys == p.registry.Keys
      && forall s, x :: s in p.registry ==> (x in q.registry[s] <==> x in p.registry[s] && x != sites[i])
  {
  }

  /** Returns from a well-formed registry that has a set for every
      non-internal site's source and no section of a covered node: nothing
      throws, the covered nodes are those that returned, no source is dropped,
      and a section stays exactly when no node for it returned. */
  lemma {:induction false} ReturnAllRemoves(r: Run, sites: seq<Section>, events: seq<nat>)
    requires NodesOf(sites, events)
    requires !r.threw && WellFormed(r.registry)
    requires SourcesPresent(r.registry, sites) && CoveredGone(r, sites)
    ensures var q := ReturnAll(r, sites, events);
      && !q.threw && WellFormed(q.registry)
      && SourcesPresent(q.registry, sites) && CoveredGone(q, sites)
      && (forall i :: i in q.covered <==> i in r.covered || i in events)
      && RemovedExactly(r.registry, q.registry, sites, events)
    decreases |events|
  {
    if events != [] {
      var prefix, i := events[..|events| - 1], events[|events| - 1];
      assert i < |sites|;
      ReturnAllRemoves(r, sites, prefix);
      var p := ReturnAll(r, sites, prefix);
      ReturnOne(p, sites, i);
      var q := ReturnAll(r, sites, events);
      assert q == Return(p, sites, i);
      assert events == prefix + [i];
      forall x ensures Executed(sites, events, x) <==> Executed(sites, prefix, x) || sites[i] == x {
        if Executed(sites, events, x) && sites[i] != x {
          var e :| e in events && e < |sites| && sites[e] == x;
          assert e in prefix;
        }
        if Executed(sites, prefix, x) {
          var e :| e in prefix && e < |sites| && sites[e] == x;
          assert e in events;
        }
        assert i in events;
      }
      forall s, x | s in r.registry
        ensures x in q.registry[s] <==> x in r.registry[s] && !Executed(sites, events, x)
      {
        assert s in p.registry;
        assert x in p.registry[s] <==> x in r.registry[s] && !Executed(sites, prefix, x);
        assert x in q.registry[s] <==> x in p.registry[s] && x != sites[i];
        assert Executed(sites, events, x) <==> Executed(sites, prefix, x) || sites[i] == x;
      }
    }
  }

  /** A run of loads `loads` followed by returns `events`: each source's set
      is its loaded sections less the ones some returned node instruments,
      provided every node's section was loaded before it could run. */
  lemma {:induction false} RunRemaining(loads: seq<Section>, sites: seq<Section>, events: seq<nat>)
    requires NodesOf(sites, events)
    requires forall i :: 0 <= i < |sites| ==> sites[i] in loads
    ensures var q := ReturnAll(Run({}, LoadAll(map[], loads), false), sites, events);
      && !q.threw
      && (forall i :: i in q.covered <==> i in events)
      && (forall s :: s in q.registry <==> !s.internal && exists ss :: ss in loads && ss.source == s)
      && forall s, x :: s in q.registry ==>
           (x in q.registry[s] <==> x in loads && x.source == s && !Executed(sites, events, x))
  {
    var m := LoadAll(map[], loads);
    LoadAllContents(loads);
    forall i | 0 <= i < |sites| && !sites[i].source.internal ensures sites[i].source in m {
      assert sites[i] in loads;
    }
    var start := Run({}, m, false);
    ReturnAllRemoves(start, sites, events);
    var q := ReturnAll(start, sites, events);
    assert RemovedExactly(m, q.registry, sites, events);
    forall s, x | s in q.registry
      ensures x in q.registry[s] <==> x in loads && x.source == s && !Executed(sites, events, x)
    {
      assert s in m;
      assert x in m[s] <==> x in loads && x.source == s;
    }
  }

  /** Whatever the order and repetition of the returns, a run ends in the same
      state as long as the same nodes returned. */
  lemma {:induction false} RunOrderIndependent(loads: seq<Section>, sites: seq<Section>, events: seq<nat>, events': seq<nat>)
    requires NodesOf(sites, events) && NodesOf(sites, events')
    requires forall e :: e in events' <==> e in events
    requires forall i :: 0 <= i < |sites| ==> sites[i] in loads
    ensures ReturnAll(Run({}, LoadAll(map[], loads), false), sites, events)
         == ReturnAll(Run({}, LoadAll(map[], loads), false), sites, events')
  {
    var m := LoadAll(map[], loads);
    var q := ReturnAll(Run({}, m, false), sites, events);
    var q' := ReturnAll(Run({}, m, false), sites, events');
    RunRemaining(loads, sites, events);
    RunRemaining(loads, sites, events');
    assert q.covered == q'.covered;
    assert q.registry.Keys == q'.registry.Keys;
    forall s | s in q.registry ensures q.registry[s] == q'.registry[s] {
      forall x ensures x in q.registry[s] <==> x in q'.registry[s] {
        SameExecuted(sites, events, events', x);
      }
    }
    assert q.registry == q'.registry;
  }

  /** Two event sequences with the same nodes execute the same sections. */
  lemma SameExecuted(sites: seq<Section>, events: seq<nat>, events': seq<nat>, x: Section)
    requires forall e :: e in events' <==> e in events
    ensures Executed(sites, events, x) <==> Executed(sites, events', x)
  {
  }
}
