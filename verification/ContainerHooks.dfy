/** The lifecycle hooks of the services in a container (container.go): which of them are called, and in what order. */
module ContainerHooks {
  import opened Options
  import opened Container

  /** A call of OnInit or OnShutdown, for the service at a place of the order. */
  datatype Hook = Init(at: nat) | Shut(at: nat)

  /** Which services have the hooks. */
  datatype Hooked = Hooked(initializer: Instance -> bool, shutdowner: Instance -> bool)

  /** OnInit of the first `n` services that have it, in order. */
  function Inits(order: seq<Instance>, s: Hooked, n: nat): seq<Hook>
    requires n <= |order|
  {
    if n == 0 then [] else Inits(order, s, n - 1) + if s.initializer(order[n - 1]) then [Init(n - 1)] else []
  }

  /** OnShutdown of the first `n` that have it, backwards. */
  function Shuts(order: seq<Instance>, s: Hooked, n: nat): seq<Hook>
    requires n <= |order|
  {
    if n == 0 then [] else (if s.shutdowner(order[n - 1]) then [Shut(n - 1)] else []) + Shuts(order, s, n - 1)
  }

  /** The places among the first `n` of services with OnShutdown: what Start has collected so far. */
  function Collected(order: seq<Instance>, s: Hooked, n: nat): seq<nat>
    requires n <= |order|
  {
    if n == 0 then [] else Collected(order, s, n - 1) + if s.shutdowner(order[n - 1]) then [n - 1] else []
  }

  function Reversed(places: seq<nat>): seq<Hook> {
    if places == [] then [] else [Shut(places[|places| - 1])] + Reversed(places[..|places| - 1])
  }

  lemma {:induction false} CollectedReversed(order: seq<Instance>, s: Hooked, n: nat)
    requires n <= |order|
    ensures Reversed(Collected(order, s, n)) == Shuts(order, s, n)
  {
    if n > 0 {
      CollectedReversed(order, s, n - 1);
      var all, before := Collected(order, s, n), Collected(order, s, n - 1);
      if s.shutdowner(order[n - 1]) {
        assert all[..|all| - 1] == before;
      } else {
        assert all == before;
      }
    }
  }

  // ---------------------------------------------------------------- the two loops

  /** The service at `i` stops Start: the context is cancelled before it, or its OnInit fails. */
  predicate StopsAt(order: seq<Instance>, s: Hooked, cancelled: nat -> bool, succeeds: nat -> bool, i: nat)
    requires i < |order|
  {
    cancelled(i) || (s.initializer(order[i]) && !succeeds(i))
  }

  /** Service `k` is the first that stops Start; the ones before it are shut down again. */
  ghost predicate Undone(order: seq<Instance>, s: Hooked, cancelled: nat -> bool, succeeds: nat -> bool, k: nat,
      hooks: seq<Hook>)
  {
    && k < |order| && StopsAt(order, s, cancelled, succeeds, k)
    && (forall i :: 0 <= i < k ==> !StopsAt(order, s, cancelled, succeeds, i))
    && hooks == Inits(order, s, if cancelled(k) then k else k + 1) + Shuts(order, s, k)
  }

  /** Shuts down what has been collected, the last first. */
  method ShutDown(places: seq<nat>) returns (hooks: seq<Hook>)
    ensures hooks == Reversed(places)
  {
    hooks := [];
    var i := |places|;
    assert places[..i] == places;
    while i > 0
      invariant 0 <= i <= |places|
      invariant hooks + Reversed(places[..i]) == Reversed(places)
    {
      assert places[..i][..i - 1] == places[..i - 1];
      hooks := hooks + [Shut(places[i - 1])];
      i := i - 1;
    }
  }

  /** Start: every OnInit in order, as far as the first service that stops it. */
  method Start(order: seq<Instance>, s: Hooked, cancelled: nat -> bool, succeeds: nat -> bool)
    returns (hooks: seq<Hook>, started: bool)
    ensures started <==> forall i :: 0 <= i < |order| ==> !StopsAt(order, s, cancelled, succeeds, i)
    ensures started ==> hooks == Inits(order, s, |order|)
    ensures !started ==> exists k :: Undone(order, s, cancelled, succeeds, k, hooks)
  {
    hide Shuts, Reversed;
    hooks := [];
    var initialized: seq<nat> := [];
    var i := 0;
    while i < |order|
      invariant 0 <= i <= |order|
      invariant forall j :: 0 <= j < i ==> !StopsAt(order, s, cancelled, succeeds, j)
      invariant hooks == Inits(order, s, i) && initialized == Collected(order, s, i)
    {
      if cancelled(i) {
        var undone := ShutDown(initialized);
        CollectedReversed(order, s, i);
        assert Undone(order, s, cancelled, succeeds, i, hooks + undone);
        return hooks + undone, false;
      }
      if s.initializer(order[i]) {
        hooks := hooks + [Init(i)];
        if !succeeds(i) {
          var undone := ShutDown(initialized);
          CollectedReversed(order, s, i);
          assert Undone(order, s, cancelled, succeeds, i, hooks + undone);
          return hooks + undone, false;
        }
      }
      if s.shutdowner(order[i]) {
        initialized := initialized + [i];
      }
      i := i + 1;
    }
    started := true;
  }

  /** Shutdown: every OnShutdown, backwards, whether or not the others fail; `failed` are the places of those that
      do. */
  method Shutdown(order: seq<Instance>, s: Hooked, succeeds: nat -> bool) returns (hooks: seq<Hook>, failed: seq<nat>)
    ensures hooks == Shuts(order, s, |order|)
    ensures forall i: nat :: i in failed <==> i < |order| && s.shutdowner(order[i]) && !succeeds(i)
  {
    hooks, failed := [], [];
    var i := |order|;
    while i > 0
      invariant 0 <= i <= |order|
      invariant hooks + Shuts(order, s, i) == Shuts(order, s, |order|)
      invariant forall j: nat :: j in failed <==> i <= j < |order| && s.shutdowner(order[j]) && !succeeds(j)
    {
      if s.shutdowner(order[i - 1]) {
        hooks := hooks + [Shut(i - 1)];
        if !succeeds(i - 1) {
          failed := failed + [i - 1];
        }
      }
      i := i - 1;
    }
  }

  // ---------------------------------------------------------------- what the lists are

  ghost function WithInit(order: seq<Instance>, s: Hooked, n: nat): set<nat>
    requires n <= |order|
  {
    set i: nat | i < n && s.initializer(order[i])
  }

  ghost function WithShutdown(order: seq<Instance>, s: Hooked, n: nat): set<nat>
    requires n <= |order|
  {
    set i: nat | i < n && s.shutdowner(order[i])
  }

  /** The hooks are at these places, in this order, and no others. */
  ghost predicate Upwards(hooks: seq<Hook>, places: set<nat>) {
    && (forall i :: 0 <= i < |hooks| ==> hooks[i].Init? && hooks[i].at in places)
    && (forall i, j :: 0 <= i < j < |hooks| ==> hooks[i].at < hooks[j].at)
    && (forall p :: p in places ==> exists i :: 0 <= i < |hooks| && hooks[i].at == p)
  }

  ghost predicate Downwards(hooks: seq<Hook>, places: set<nat>) {
    && (forall i :: 0 <= i < |hooks| ==> hooks[i].Shut? && hooks[i].at in places)
    && (forall i, j :: 0 <= i < j < |hooks| ==> hooks[i].at > hooks[j].at)
    && (forall p :: p in places ==> exists i :: 0 <= i < |hooks| && hooks[i].at == p)
  }

  lemma UpwardsMore(hooks: seq<Hook>, places: set<nat>, p: nat)
    requires Upwards(hooks, places) && forall q :: q in places ==> q < p
    ensures Upwards(hooks + [Init(p)], places + {p})
  {
    var more := hooks + [Init(p)];
    assert more[|hooks|].at == p;
    forall q | q in places ensures exists i :: 0 <= i < |more| && more[i].at == q {
      var i :| 0 <= i < |hooks| && hooks[i].at == q;
      assert more[i].at == q;
    }
  }

  lemma DownwardsMore(hooks: seq<Hook>, places: set<nat>, p: nat)
    requires Downwards(hooks, places) && forall q :: q in places ==> q < p
    ensures Downwards([Shut(p)] + hooks, places + {p})
  {
    var more := [Shut(p)] + hooks;
    assert more[0].at == p && forall i :: 0 < i < |more| ==> more[i] == hooks[i - 1];
    forall i, j | 0 <= i < j < |more| ensures more[i].at > more[j].at {
      assert more[j] == hooks[j - 1] && hooks[j - 1].at in places;
      assert i > 0 ==> more[i] == hooks[i - 1];
    }
    forall q | q in places ensures exists i :: 0 <= i < |more| && more[i].at == q {
      var i :| 0 <= i < |hooks| && hooks[i].at == q;
      assert more[i + 1].at == q;
    }
  }

  lemma {:induction false} InitsExactly(order: seq<Instance>, s: Hooked, n: nat)
    requires n <= |order|
    ensures Upwards(Inits(order, s, n), WithInit(order, s, n))
  {
    if n > 0 {
      hide Upwards;
      InitsExactly(order, s, n - 1);
      var places := WithInit(order, s, n - 1);
      var all := WithInit(order, s, n);
      if s.initializer(order[n - 1]) {
        UpwardsMore(Inits(order, s, n - 1), places, n - 1);
        assert all == places + {n - 1};
      } else {
        assert all == places && Inits(order, s, n) == Inits(order, s, n - 1);
      }
    } else {
      assert WithInit(order, s, n) == {};
    }
  }

  lemma {:induction false} ShutsExactly(order: seq<Instance>, s: Hooked, n: nat)
    requires n <= |order|
    ensures Downwards(Shuts(order, s, n), WithShutdown(order, s, n))
  {
    if n > 0 {
      hide Downwards;
      ShutsExactly(order, s, n - 1);
      var places := WithShutdown(order, s, n - 1);
      var all := WithShutdown(order, s, n);
      if s.shutdowner(order[n - 1]) {
        DownwardsMore(Shuts(order, s, n - 1), places, n - 1);
        assert all == places + {n - 1};
      } else {
        assert all == places && Shuts(order, s, n) == Shuts(order, s, n - 1);
      }
    } else {
      assert WithShutdown(order, s, n) == {};
    }
  }

  lemma LowerIsEarlier(hooks: seq<Hook>, places: set<nat>, i: nat, j: nat)
    requires Upwards(hooks, places) && i in places && i < j
    ensures forall b :: 0 <= b < |hooks| && hooks[b] == Init(j) ==> exists a :: 0 <= a < b && hooks[a] == Init(i)
  {
    var a :| 0 <= a < |hooks| && hooks[a].at == i;
  }

  lemma HigherIsEarlier(hooks: seq<Hook>, places: set<nat>, i: nat, j: nat)
    requires Downwards(hooks, places) && j in places && i < j
    ensures forall b :: 0 <= b < |hooks| && hooks[b] == Shut(i) ==> exists a :: 0 <= a < b && hooks[a] == Shut(j)
  {
    var a :| 0 <= a < |hooks| && hooks[a].at == j;
  }

  /** With dutiful factories, a lazy service is initialised after every lazy service that it depends on, and shut down
      before it, if they have the hooks. */
  lemma HooksFollowDependencies(c: Registry, s: Hooked, walk: seq<Type>) returns (i: nat, j: nat)
    requires c.Valid() && c.dutiful && c.Walk(walk) && |walk| > 1
    requires walk[0] in c.done && walk[|walk| - 1] in c.lazies
    ensures i < j < |c.initOrder| && walk[|walk| - 1] in c.done
    ensures c.initOrder[i] == c.done[walk[|walk| - 1]] && c.initOrder[j] == c.done[walk[0]]
    ensures s.initializer(c.initOrder[i]) ==>
      var hooks := Inits(c.initOrder, s, |c.initOrder|);
      forall b :: 0 <= b < |hooks| && hooks[b] == Init(j) ==> exists a :: 0 <= a < b && hooks[a] == Init(i)
    ensures s.shutdowner(c.initOrder[j]) ==>
      var hooks := Shuts(c.initOrder, s, |c.initOrder|);
      forall b :: 0 <= b < |hooks| && hooks[b] == Shut(i) ==> exists a :: 0 <= a < b && hooks[a] == Shut(j)
  {
    hide Inits, Shuts, Registry.Walk, Registry.Valid;
    i, j := c.DependenciesFirst(walk);
    var order, n := c.initOrder, |c.initOrder|;
    InitsExactly(order, s, n);
    ShutsExactly(order, s, n);
    if s.initializer(order[i]) {
      LowerIsEarlier(Inits(order, s, n), WithInit(order, s, n), i, j);
    }
    if s.shutdowner(order[j]) {
      HigherIsEarlier(Shuts(order, s, n), WithShutdown(order, s, n), i, j);
    }
  }
}
