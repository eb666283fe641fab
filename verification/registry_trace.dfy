/**
  Sequences of registry calls. In the Go code every call runs under
  `controllersLock`, so any concurrent use is equivalent to some sequence of
  atomic calls; this module runs such a sequence and proves what the
  registry promises across calls: entries only ever accumulate, lookups
  never change the registry, a duplicate halts the process, and distinct
  registrations all land whatever order the lock admits them in.
*/
module RegistryTrace {
  import opened Wrappers
  import opened EndpointsController

  /** One call on the registry. */
  datatype Op<!C, K> =
    | RegisterOp(name: string, f: ControllerFunc<C, K>)
    | GetOp(name: string, client: C)

  /** What a call returns to its caller: nothing for a registration, the
      built controller or nil for a lookup. */
  datatype Reply<K> = Ack | Lookup(controller: Option<K>)

  /** The end of a run: the registry, the duplicate name if the process
      halted fatally, and one reply per call executed before that. */
  datatype Execution<!C, K> = Execution(registry: Registry<C, K>, fatal: Option<string>, replies: seq<Reply<K>>)

  /**
    One call, atomic as under the lock. A registration either adds its entry
    and is acknowledged, or halts fatally with nothing added and no reply.
    A lookup is answered from the registry and leaves it as it was.
  */
  function Step<C, K>(reg: Registry<C, K>, op: Op<C, K>): (e: Execution<C, K>)
    ensures e.fatal.Some? <==> op.RegisterOp? && op.name in reg.controllers
    ensures e.fatal.Some? ==> e.fatal.value == op.name && e.registry == reg && e.replies == []
    ensures e.fatal.None? && op.RegisterOp? ==>
              && e.registry.controllers.Keys == reg.controllers.Keys + {op.name}
              && e.registry.controllers[op.name] == op.f
              && e.replies == [Ack]
    ensures op.GetOp? ==> e.registry == reg && e.replies == [Lookup(Get(reg, op.name, op.client))]
    ensures Submap(reg.controllers, e.registry.controllers)
  {
    match op
    case RegisterOp(n, f) =>
      (match Register(reg, n, f)
       case DuplicateFatal(d) => Execution(reg, Some(d), [])
       case Added(next) => Execution(next, None, [Ack]))
    case GetOp(n, c) => Execution(reg, None, [Lookup(Get(reg, n, c))])
  }

  /**
    Runs `ops` in order from `reg`. A fatal duplicate registration stops the
    process: no later call runs and the registry stays as it was. Entries
    present at the start are still present, with the same constructor, at
    the end, however the run ends.
  */
  function Run<C, K>(reg: Registry<C, K>, ops: seq<Op<C, K>>): (e: Execution<C, K>)
    ensures e.fatal.None? ==> |e.replies| == |ops|
    ensures e.fatal.Some? ==>
              && |e.replies| < |ops|
              && ops[|e.replies|].RegisterOp?
              && ops[|e.replies|].name == e.fatal.value
              && e.fatal.value in e.registry.controllers
    ensures Submap(reg.controllers, e.registry.controllers)
    decreases |ops|
  {
    if |ops| == 0 then Execution(reg, None, [])
    else
      var first := Step(reg, ops[0]);
      if first.fatal.Some? then first
      else
        var rest := Run(first.registry, ops[1..]);
        Execution(rest.registry, rest.fatal, first.replies + rest.replies)
  }

  /** Every call in `ops` is a registration. */
  predicate OnlyRegisters<C, K>(ops: seq<Op<C, K>>)
  {
    forall i :: 0 <= i < |ops| ==> ops[i].RegisterOp?
  }

  /** Every call in `ops` is a lookup. */
  predicate OnlyLookups<C, K>(ops: seq<Op<C, K>>)
  {
    forall i :: 0 <= i < |ops| ==> ops[i].GetOp?
  }

  /** The names the calls in `ops` mention. */
  function Names<C, K>(ops: seq<Op<C, K>>): set<string>
  {
    set i | 0 <= i < |ops| :: ops[i].name
  }

  /** No two calls in `ops` mention the same name. */
  predicate DistinctNames<C, K>(ops: seq<Op<C, K>>)
  {
    forall i, j :: 0 <= i < j < |ops| ==> ops[i].name != ops[j].name
  }

  /** `b` holds the same calls as `a`, each as many times, in some order. */
  ghost predicate SameCalls<C, K>(a: seq<Op<C, K>>, b: seq<Op<C, K>>)
  {
    multiset(a) == multiset(b)
  }

  /** Carries on from the end of a run with the calls `b`, unless that run
      already halted the process. */
  function Continue<C, K>(ea: Execution<C, K>, b: seq<Op<C, K>>): Execution<C, K>
  {
    if ea.fatal.Some? then ea
    else
      var eb := Run(ea.registry, b);
      Execution(eb.registry, eb.fatal, ea.replies + eb.replies)
  }

  /** Running `a` then `b` is running `b` from where `a` left off, unless `a`
      already halted the process. */
  lemma {:induction false} RunAppend<C, K>(reg: Registry<C, K>, a: seq<Op<C, K>>, b: seq<Op<C, K>>)
    ensures Run(reg, a + b) == Continue(Run(reg, a), b)
    decreases |a|
  {
    if |a| == 0 {
      assert a + b == b;
      assert [] + Run(reg, b).replies == Run(reg, b).replies;
    } else {
      var ab := a + b;
      assert ab[0] == a[0];
      assert ab[1..] == a[1..] + b;
      var first := Step(reg, a[0]);
      if first.fatal.None? {
        RunAppend(first.registry, a[1..], b);
        var ea := Run(first.registry, a[1..]);
        if ea.fatal.None? {
          var eb := Run(ea.registry, b);
          assert first.replies + (ea.replies + eb.replies) == (first.replies + ea.replies) + eb.replies;
        }
      }
    }
  }

  /** A fatal halt ends the run: the calls before the halting registration
      all ran without a halt, the registry is the one they left, and nothing
      after the halting call changes the outcome. */
  lemma HaltEndsRun<C, K>(reg: Registry<C, K>, ops: seq<Op<C, K>>)
    ensures var e := Run(reg, ops);
            var k := |e.replies|;
            e.fatal.Some? ==>
              && Run(reg, ops[..k]).fatal.None?
              && e.registry == Run(reg, ops[..k]).registry
              && e.fatal.value in Run(reg, ops[..k]).registry.controllers
              && e == Run(reg, ops[..k + 1])
  {
    var e := Run(reg, ops);
    if e.fatal.Some? {
      var k := |e.replies|;
      var pre := ops[..k];
      assert ops == pre + ops[k..];
      RunAppend(reg, pre, ops[k..]);
      var ea := Run(reg, pre);
      assert ea.fatal.None?;
      var eb := Run(ea.registry, ops[k..]);
      assert |eb.replies| == 0;
      assert ops[k..][0] == ops[k];
      assert eb == Step(ea.registry, ops[k]);
      assert ops[..k + 1] == pre + [ops[k]];
      RunAppend(reg, pre, [ops[k]]);
      assert [ops[k]][1..] == [];
      assert ea.replies + [] == ea.replies;
    }
  }

  /** Lookups never mutate: a run of lookups leaves the registry as it was,
      never halts, and answers each lookup from that same registry, calling
      the constructor afresh every time (nothing is cached). */
  lemma {:induction false} LookupsLeaveRegistryUnchanged<C, K>(reg: Registry<C, K>, ops: seq<Op<C, K>>)
    requires OnlyLookups(ops)
    ensures Run(reg, ops).registry == reg
    ensures Run(reg, ops).fatal == None
    ensures forall i :: 0 <= i < |ops| ==>
              Run(reg, ops).replies[i] == Lookup(Get(reg, ops[i].name, ops[i].client))
    decreases |ops|
  {
    if |ops| > 0 {
      assert OnlyLookups(ops[1..]) by {
        forall i | 0 <= i < |ops[1..]| ensures ops[1..][i].GetOp? {
          assert ops[1..][i] == ops[i + 1];
        }
      }
      LookupsLeaveRegistryUnchanged(reg, ops[1..]);
      var rest := Run(reg, ops[1..]);
      forall i | 0 < i < |ops|
        ensures Run(reg, ops).replies[i] == Lookup(Get(reg, ops[i].name, ops[i].client))
      {
        assert Run(reg, ops).replies[i] == rest.replies[i - 1];
        assert ops[1..][i - 1] == ops[i];
      }
    }
  }

  /** A name no call registers, and that was absent at the start, is absent at
      the end: a lookup of it gives None. */
  lemma {:induction false} NeverRegisteredStaysAbsent<C, K>(reg: Registry<C, K>, ops: seq<Op<C, K>>, name: string, client: C)
    requires name !in reg.controllers
    requires forall i :: 0 <= i < |ops| && ops[i].RegisterOp? ==> ops[i].name != name
    ensures name !in Run(reg, ops).registry.controllers
    ensures Get(Run(reg, ops).registry, name, client) == None
    decreases |ops|
  {
    if |ops| > 0 {
      assert forall i :: 0 <= i < |ops[1..]| ==> ops[1..][i] == ops[i + 1];
      match ops[0]
      case RegisterOp(n, f) =>
        if n !in reg.controllers {
          NeverRegisteredStaysAbsent(Register(reg, n, f).registry, ops[1..], name, client);
        }
      case GetOp(n, c) =>
        NeverRegisteredStaysAbsent(reg, ops[1..], name, client);
    }
  }

  /** A run of registrations completes without a fatal halt exactly when its
      names are pairwise distinct and none was registered before. */
  lemma {:induction false} RegistrationsSucceedIff<C, K>(reg: Registry<C, K>, ops: seq<Op<C, K>>)
    requires OnlyRegisters(ops)
    ensures Run(reg, ops).fatal.None? <==>
              DistinctNames(ops) && Names(ops) !! reg.controllers.Keys
    decreases |ops|
  {
    if |ops| > 0 {
      var tail := ops[1..];
      assert forall i :: 0 <= i < |tail| ==> tail[i] == ops[i + 1];
      assert OnlyRegisters(tail);
      assert Names(ops) == {ops[0].name} + Names(tail) by {
        forall n | n in Names(ops) ensures n in {ops[0].name} + Names(tail) {
          var i :| 0 <= i < |ops| && ops[i].name == n;
          if i > 0 { assert tail[i - 1].name == n; }
        }
      }
      var n := ops[0].name;
      if n in reg.controllers {
        assert n in Names(ops);
      } else {
        var next := Register(reg, n, ops[0].f).registry;
        RegistrationsSucceedIff(next, tail);
        if DistinctNames(tail) && Names(tail) !! next.controllers.Keys {
          forall i, j | 0 <= i < j < |ops| ensures ops[i].name != ops[j].name {
            if i == 0 {
              assert ops[j].name == tail[j - 1].name;
              assert ops[j].name in Names(tail);
            } else {
              assert ops[i] == tail[i - 1] && ops[j] == tail[j - 1];
            }
          }
        }
        if DistinctNames(ops) && Names(ops) !! reg.controllers.Keys {
          assert DistinctNames(tail) by {
            forall i, j | 0 <= i < j < |tail| ensures tail[i].name != tail[j].name {
              assert ops[i + 1].name != ops[j + 1].name;
            }
          }
          forall m | m in Names(tail) ensures m !in next.controllers {
            var i :| 0 <= i < |tail| && tail[i].name == m;
            assert ops[0].name != ops[i + 1].name;
          }
        }
      }
    }
  }

  /** Distinct fresh registrations all land: afterwards the registry holds the
      old entries plus exactly one entry per call, each with that call's
      constructor, so no update is lost. */
  lemma {:induction false} DistinctRegistrationsAllLand<C, K>(reg: Registry<C, K>, ops: seq<Op<C, K>>)
    requires OnlyRegisters(ops)
    requires DistinctNames(ops)
    requires Names(ops) !! reg.controllers.Keys
    ensures Run(reg, ops).fatal == None
    ensures Run(reg, ops).registry.controllers.Keys == reg.controllers.Keys + Names(ops)
    ensures forall i :: 0 <= i < |ops| ==> Run(reg, ops).registry.controllers[ops[i].name] == ops[i].f
    decreases |ops|
  {
    RegistrationsSucceedIff(reg, ops);
    if |ops| > 0 {
      var tail := ops[1..];
      assert forall i :: 0 <= i < |tail| ==> tail[i] == ops[i + 1];
      var n := ops[0].name;
      assert n in Names(ops);
      var next := Register(reg, n, ops[0].f).registry;
      assert Names(ops) == {n} + Names(tail) by {
        forall m | m in Names(ops) ensures m in {n} + Names(tail) {
          var i :| 0 <= i < |ops| && ops[i].name == m;
          if i > 0 { assert tail[i - 1].name == m; }
        }
      }
      assert DistinctNames(tail) by {
        forall i, j | 0 <= i < j < |tail| ensures tail[i].name != tail[j].name {
          assert ops[i + 1].name != ops[j + 1].name;
        }
      }
      assert Names(tail) !! next.controllers.Keys by {
        forall m | m in Names(tail) ensures m !in next.controllers {
          var i :| 0 <= i < |tail| && tail[i].name == m;
          assert ops[0].name != ops[i + 1].name;
        }
      }
      DistinctRegistrationsAllLand(next, tail);
    }
  }

  /** The same calls mention the same names. */
  lemma SameCallsSameNames<C, K>(a: seq<Op<C, K>>, b: seq<Op<C, K>>)
    requires SameCalls(a, b)
    ensures Names(a) == Names(b)
  {
    forall n | n in Names(a) ensures n in Names(b) {
      var i :| 0 <= i < |a| && a[i].name == n;
      assert a[i] in multiset(b);
      var j :| 0 <= j < |b| && b[j] == a[i];
      assert b[j].name == n;
    }
    forall n | n in Names(b) ensures n in Names(a) {
      var j :| 0 <= j < |b| && b[j].name == n;
      assert b[j] in multiset(a);
      var i :| 0 <= i < |a| && a[i] == b[j];
      assert a[i].name == n;
    }
  }

  /** A call that occurs at two positions of `s` occurs at least twice in it. */
  lemma RepeatedCallCountsTwice<C, K>(s: seq<Op<C, K>>, i: int, j: int)
    requires 0 <= i < j < |s| && s[i] == s[j]
    ensures multiset(s)[s[i]] >= 2
  {
    assert s == s[..j] + [s[j]] + s[j + 1..];
    assert s[..j][i] == s[i];
    assert s[i] in multiset(s[..j]);
  }

  /** With pairwise distinct names, each call occurs exactly once. */
  lemma DistinctCallCountsOnce<C, K>(s: seq<Op<C, K>>, p: int)
    requires DistinctNames(s)
    requires 0 <= p < |s|
    ensures multiset(s)[s[p]] == 1
  {
    assert s == s[..p] + [s[p]] + s[p + 1..];
    var before := s[..p];
    assert forall k :: 0 <= k < |before| ==> before[k].name != s[p].name;
    var after := s[p + 1..];
    assert forall k :: 0 <= k < |after| ==> after[k].name != s[p].name;
  }

  /** A permutation of registrations with distinct names is itself made of
      registrations with distinct names. */
  lemma SameCallsKeepShape<C, K>(a: seq<Op<C, K>>, b: seq<Op<C, K>>)
    requires SameCalls(a, b)
    requires OnlyRegisters(a) && DistinctNames(a)
    ensures OnlyRegisters(b) && DistinctNames(b)
  {
    forall j | 0 <= j < |b| ensures b[j].RegisterOp? {
      assert b[j] in multiset(a);
      var i :| 0 <= i < |a| && a[i] == b[j];
    }
    forall i, j | 0 <= i < j < |b| ensures b[i].name != b[j].name {
      assert b[i] in multiset(a);
      var p :| 0 <= p < |a| && a[p] == b[i];
      assert b[j] in multiset(a);
      var q :| 0 <= q < |a| && a[q] == b[j];
      if p == q {
        RepeatedCallCountsTwice(b, i, j);
        DistinctCallCountsOnce(a, p);
        assert false;
      } else if p < q {
        assert a[p].name != a[q].name;
      } else {
        assert a[q].name != a[p].name;
      }
    }
  }

  /** For the same distinct fresh registrations in two orders, each name ends
      up with the same constructor. */
  lemma SameCallsSameEntry<C, K>(reg: Registry<C, K>, a: seq<Op<C, K>>, b: seq<Op<C, K>>, n: string)
    requires OnlyRegisters(a) && DistinctNames(a)
    requires Names(a) !! reg.controllers.Keys
    requires SameCalls(a, b)
    requires n in Run(reg, a).registry.controllers
    ensures n in Run(reg, b).registry.controllers
    ensures Run(reg, a).registry.controllers[n] == Run(reg, b).registry.controllers[n]
  {
    SameCallsSameNames(a, b);
    SameCallsKeepShape(a, b);
    DistinctRegistrationsAllLand(reg, a);
    DistinctRegistrationsAllLand(reg, b);
    if n !in reg.controllers {
      var i :| 0 <= i < |a| && a[i].name == n;
      assert a[i] in multiset(b);
      var j :| 0 <= j < |b| && b[j] == a[i];
      assert Run(reg, b).registry.controllers[b[j].name] == b[j].f;
    }
  }

  /** Concurrent registration of distinct names: whatever order the lock
      serialises the same calls in, none halts and the resulting registry is
      the same. */
  lemma InterleavingIrrelevant<C, K>(reg: Registry<C, K>, a: seq<Op<C, K>>, b: seq<Op<C, K>>)
    requires OnlyRegisters(a) && DistinctNames(a)
    requires Names(a) !! reg.controllers.Keys
    requires SameCalls(a, b)
    ensures Run(reg, a).fatal == None && Run(reg, b).fatal == None
    ensures Run(reg, a).registry == Run(reg, b).registry
  {
    SameCallsSameNames(a, b);
    SameCallsKeepShape(a, b);
    RegistrationsSucceedIff(reg, a);
    RegistrationsSucceedIff(reg, b);
    var ma := Run(reg, a).registry.controllers;
    var mb := Run(reg, b).registry.controllers;
    forall n | n in ma ensures n in mb && ma[n] == mb[n] {
      SameCallsSameEntry(reg, a, b, n);
    }
    forall n | n in mb ensures n in ma {
      SameCallsSameEntry(reg, b, a, n);
    }
    assert ma == mb;
  }

  /** A second registration of a name, after any run that registered it or
      found it registered, halts the process and leaves the first
      constructor in place. */
  lemma DuplicateRegistrationHalts<C, K>(reg: Registry<C, K>, pre: seq<Op<C, K>>, name: string, g: ControllerFunc<C, K>)
    requires Run(reg, pre).fatal.None?
    requires name in Run(reg, pre).registry.controllers
    ensures Run(reg, pre + [RegisterOp(name, g)]).fatal == Some(name)
    ensures Run(reg, pre + [RegisterOp(name, g)]).registry == Run(reg, pre).registry
  {
    RunAppend(reg, pre, [RegisterOp(name, g)]);
  }

  /** Once `name` is registered with `f`, every later lookup of `name` that
      the process lives to answer is present and is `f` applied to that
      lookup's client. */
  lemma OnceRegisteredAlwaysBuilt<C, K>(reg: Registry<C, K>, pre: seq<Op<C, K>>, name: string, f: ControllerFunc<C, K>,
                                         mid: seq<Op<C, K>>, client: C)
    requires Run(reg, pre + [RegisterOp(name, f)] + mid + [GetOp(name, client)]).fatal.None?
    ensures var ops := pre + [RegisterOp(name, f)] + mid + [GetOp(name, client)];
            Run(reg, ops).replies[|ops| - 1] == Lookup(Some(f(client)))
  {
    var first := pre + [RegisterOp(name, f)];
    RunAppend(reg, first + mid, [GetOp(name, client)]);
    RunAppend(reg, first, mid);
    RunAppend(reg, pre, [RegisterOp(name, f)]);
    var e1 := Run(reg, first);
    var e2 := Run(reg, first + mid);
    assert e1.registry.controllers[name] == f;
    assert Submap(e1.registry.controllers, e2.registry.controllers) by {
      assert Run(reg, first + mid).registry == Run(e1.registry, mid).registry;
    }
    var last := Run(e2.registry, [GetOp(name, client)]);
    assert last.replies == [Lookup(Get(e2.registry, name, client))];
  }

  /** The scenario of the package's own test: on an empty registry, register
      a name, look it up, then look up a name that was never registered. */
  lemma RegisterAndGetScenario<C, K>(f: ControllerFunc<C, K>, client: C)
    ensures Run(Empty<C, K>(), [RegisterOp("test", f), GetOp("test", client), GetOp("missing", client)])
            == Execution(Registry(map["test" := f]), None, [Ack, Lookup(Some(f(client))), Lookup(None)])
  {
    var registered := Registry(map["test" := f]);
    assert "missing" != "test" by { assert "missing"[0] != "test"[0]; }

    var lookupMissing := [GetOp("missing", client)];
    assert lookupMissing[1..] == [];
    assert Run(registered, lookupMissing) == Execution(registered, None, [Lookup(None)]);

    var lookups := [GetOp("test", client)] + lookupMissing;
    assert lookups[1..] == lookupMissing;
    assert Run(registered, lookups) == Execution(registered, None, [Lookup(Some(f(client))), Lookup(None)]);

    var all := [RegisterOp("test", f)] + lookups;
    assert all[1..] == lookups;
    assert all == [RegisterOp("test", f), GetOp("test", client), GetOp("missing", client)];
  }
}
