/** Resolution in the dependency container (container.go), on one goroutine. A factory may ask the container for
    other types, so the graph of types may be cyclic; the stack of types being resolved stops that, unless the first of
    them is being warmed up, which the stack does not know. */
module Container {
  import opened Options

  type Type = nat
  type Instance = nat

  datatype Error =
    | NoProvider(t: Type)
    | Circular(chain: seq<Type>)
    | FactoryFailed(t: Type)

  /** A goroutine that asks for a mutex that it holds is blocked for ever. */
  datatype Outcome = Ok(instance: Instance) | Failed(error: Error) | Blocked

  /** A warm-up comes to an end, or waits for ever. */
  datatype Warmed = Warmed(failed: seq<Type>, cancelled: bool) | Hangs

  /** The types in `s`. */
  ghost function TypesOf(s: seq<Type>): set<Type> {
    set t | t in s
  }

  class Registry {
    const singletons: map<Type, Instance>
    const transients: set<Type>
    const lazies: set<Type>
    const given: seq<Instance>          // singletons and named instances, in order of registration
    const deps: Type -> seq<Type>       // what the factory of a type may ask for
    const dutiful: bool                 // every factory asks for all of that in order, fails if an answer is a failure,
                                        // and only then

    var done: map<Type, Instance>       // lazy entries that have their instance
    var initOrder: seq<Instance>
    var resolving: seq<Type>
    ghost var initTypes: seq<Type>      // the lazy types behind that, and their instances
    ghost var initLazies: seq<Instance>
    var locked: set<Type>               // lazy entries whose mutex is held
    ghost var warming: Option<Type>     // the lazy entry that is being warmed up

    /** All that the factory of `a` asks for before `b` can be built. */
    ghost predicate InTurn(a: Type, b: Type) {
      exists k :: 0 <= k < |deps(a)| && deps(a)[k] == b && forall j :: 0 <= j < k ==> CanBeBuilt(deps(a)[j])
    }

    /** Types in a chain are being resolved, each because of the one before. */
    ghost predicate StackOk(stack: seq<Type>, finished: set<Type>) {
      && Distinct(stack)
      && (forall i :: 0 <= i < |stack| ==> stack[i] in transients + lazies && stack[i] !in finished)
      && (forall i :: 0 < i < |stack| ==> stack[i] in deps(stack[i - 1]))
      && (dutiful ==> forall i :: 0 < i < |stack| ==> InTurn(stack[i - 1], stack[i]))
    }

    /** Everything that is being resolved. */
    ghost function Chain(): seq<Type>
      reads this`resolving, this`warming
    {
      (if warming.Some? then [warming.value] else []) + resolving
    }

    /** A lazy entry is entered into the order once, with the instance that it keeps. */
    static ghost predicate OrderOk(types: seq<Type>, order: seq<Instance>, done: map<Type, Instance>) {
      && |types| == |order| && TypesOf(types) == done.Keys
      && Distinct(types)
      && (forall i :: 0 <= i < |types| ==> types[i] in done && order[i] == done[types[i]])
    }

    ghost predicate Registered() {
      transients !! lazies && singletons.Keys !! transients + lazies
    }

    ghost predicate Valid()
      reads this
    {
      && Registered() && StackOk(Chain(), done.Keys)
      && initOrder == given + initLazies && OrderOk(initTypes, initLazies, done)
      && done.Keys <= lazies && locked <= TypesOf(Chain()) && (warming.Some? ==> warming.value in lazies * locked)
      && (dutiful ==> AllGrounded(done.Keys) && AllSettled(initTypes))
    }

    // -------------------------------------------------------------- types that can be built

    /** `t` can be built from the singletons, by factories that ask for each other to this depth. */
    ghost predicate Grounded(depth: nat, t: Type) {
      t in singletons
      || (depth > 0 && t in transients + lazies && forall d :: d in deps(t) ==> Grounded(depth - 1, d))
    }

    ghost predicate CanBeBuilt(t: Type) {
      exists depth: nat :: Grounded(depth, t)
    }

    ghost predicate AllGrounded(types: set<Type>) {
      forall t :: t in types ==> CanBeBuilt(t)
    }

    /** Every lazy type that a chain of dependencies leads to from `t` is one of these. */
    ghost predicate Settled(t: Type, types: set<Type>) {
      forall walk :: Walk(walk) && |walk| > 1 && walk[0] == t && walk[|walk| - 1] in lazies ==>
        walk[|walk| - 1] in types
    }

    /** Each after all the lazy types that it depends on, however far. */
    ghost predicate AllSettled(types: seq<Type>) {
      forall i :: 0 <= i < |types| ==> Settled(types[i], TypesOf(types[..i]))
    }

    lemma {:induction false} Deeper(depth: nat, more: nat, t: Type)
      requires Grounded(depth, t) && depth <= more
      ensures Grounded(more, t)
    {
      if t !in singletons {
        forall d | d in deps(t) ensures Grounded(more - 1, d) {
          Deeper(depth - 1, more - 1, d);
        }
      }
    }

    /** Dependencies that can be built can be built to a common depth. */
    lemma {:induction false} CommonDepth(ds: seq<Type>) returns (depth: nat)
      requires forall d :: d in ds ==> CanBeBuilt(d)
      ensures forall d :: d in ds ==> Grounded(depth, d)
    {
      if ds == [] {
        depth := 0;
      } else {
        var front, last := ds[..|ds| - 1], ds[|ds| - 1];
        assert last in ds && CanBeBuilt(last);
        var n := CommonDepth(front);
        var m: nat :| Grounded(m, last);
        depth := n + m;
        forall d | d in ds ensures Grounded(depth, d) {
          if d == last {
            Deeper(m, depth, d);
          } else {
            assert d in front;
            Deeper(n, depth, d);
          }
        }
      }
    }

    /** A registered factory's type can be built exactly if all that the factory asks for can. */
    lemma BuiltFromDeps(t: Type)
      requires Registered() && t in transients + lazies
      ensures CanBeBuilt(t) <==> forall d :: d in deps(t) ==> CanBeBuilt(d)
    {
      if forall d :: d in deps(t) ==> CanBeBuilt(d) {
        var depth := CommonDepth(deps(t));
        assert Grounded(depth + 1, t);
      }
      if CanBeBuilt(t) {
        var depth: nat :| Grounded(depth, t);
        assert forall d :: d in deps(t) ==> Grounded(depth - 1, d);
      }
    }

    /** Each type of `walk` but the last is built by a factory that asks for the next. */
    ghost predicate Walk(walk: seq<Type>) {
      && walk != []
      && (forall i :: 0 <= i < |walk| - 1 ==> walk[i] in transients + lazies)
      && (forall i :: 0 < i < |walk| ==> walk[i] in deps(walk[i - 1]))
    }

    /** It leads to a type that nobody provides, or back to one that it has passed. */
    ghost predicate Stuck(walk: seq<Type>)
      requires walk != []
    {
      var end := walk[|walk| - 1];
      end !in singletons.Keys + transients + lazies || end in walk[..|walk| - 1]
    }

    lemma {:induction false} GroundedAlong(depth: nat, walk: seq<Type>)
      requires Registered() && Walk(walk) && Grounded(depth, walk[0])
      ensures |walk| - 1 <= depth && Grounded(depth - (|walk| - 1), walk[|walk| - 1])
      decreases |walk|
    {
      if |walk| > 1 {
        assert walk[0] in transients + lazies && walk[1] in deps(walk[0]);
        GroundedAlong(depth - 1, walk[1..]);
      }
    }

    lemma {:induction false} NotRound(depth: nat, walk: seq<Type>)
      requires Registered() && Walk(walk) && |walk| > 1 && walk[0] == walk[|walk| - 1]
      ensures !Grounded(depth, walk[0])
      decreases depth
    {
      if Grounded(depth, walk[0]) {
        GroundedAlong(depth, walk);
        NotRound(depth - (|walk| - 1), walk);
      }
    }

    lemma StuckIsNotBuilt(walk: seq<Type>)
      requires Registered() && Walk(walk) && Stuck(walk)
      ensures !CanBeBuilt(walk[0])
    {
      if depth: nat :| Grounded(depth, walk[0]) {
        GroundedAlong(depth, walk);
        var end := walk[|walk| - 1];
        if end in walk[..|walk| - 1] {
          var i :| 0 <= i < |walk| - 1 && walk[i] == end;
          var round := walk[i..];
          assert forall k :: 0 <= k < |round| ==> round[k] == walk[i + k];
          NotRound(depth - (|walk| - 1), round);
        }
      }
    }

    lemma {:induction false} NotBuiltIsStuck(walk: seq<Type>) returns (longer: seq<Type>)
      requires Registered() && walk != [] && Walk(walk) && !CanBeBuilt(walk[|walk| - 1])
      requires Distinct(walk)
      ensures longer != [] && Walk(longer) && Stuck(longer) && longer[0] == walk[0]
      decreases |transients + lazies - TypesOf(walk[..|walk| - 1])|
    {
      hide Grounded, CanBeBuilt, Walk, Stuck, TypesOf;
      var front, end := walk[..|walk| - 1], walk[|walk| - 1];
      if end !in transients + lazies {
        NoProviderIsStuck(walk);
        return walk;
      }
      BuiltFromDeps(end);
      var d :| d in deps(end) && !CanBeBuilt(d);
      longer := walk + [d];
      OneMoreStep(walk, d);
      if d !in walk {
        OneLessLeft(transients + lazies, front, end);
        assert walk == front + [end];
        longer := NotBuiltIsStuck(longer);
      }
    }

    lemma NoProviderIsStuck(walk: seq<Type>)
      requires walk != [] && walk[|walk| - 1] !in transients + lazies && !CanBeBuilt(walk[|walk| - 1])
      ensures Stuck(walk)
    {
      assert !Grounded(0, walk[|walk| - 1]);
    }

    lemma OneMoreStep(walk: seq<Type>, d: Type)
      requires Walk(walk) && walk[|walk| - 1] in transients + lazies && d in deps(walk[|walk| - 1])
      requires Distinct(walk)
      ensures var longer := walk + [d];
        Walk(longer) && longer[..|walk|] == walk && longer[0] == walk[0]
        && if d in walk then Stuck(longer) else Distinct(longer)
    {
      assert forall i :: 0 <= i < |walk| ==> (walk + [d])[i] == walk[i];
    }

    static ghost predicate Distinct(s: seq<Type>) {
      forall i, j :: 0 <= i < j < |s| ==> s[i] != s[j]
    }

    static lemma OneLessLeft(all: set<Type>, front: seq<Type>, end: Type)
      requires end in all && end !in front
      ensures |all - TypesOf(front + [end])| < |all - TypesOf(front)|
    {
      assert TypesOf(front + [end]) == TypesOf(front) + {end};
      assert all - TypesOf(front + [end]) == (all - TypesOf(front)) - {end};
    }

    /** A type can be built exactly if no chain of dependencies leads from it to a type without provider or around a
        cycle. */
    lemma BuiltExactly(t: Type)
      requires Registered()
      ensures CanBeBuilt(t) <==> !exists walk :: Walk(walk) && walk[0] == t && Stuck(walk)
    {
      if !CanBeBuilt(t) {
        var walk := NotBuiltIsStuck([t]);
      } else {
        forall walk | Walk(walk) && walk[0] == t ensures !Stuck(walk) {
          if Stuck(walk) {
            StuckIsNotBuilt(walk);
          }
        }
      }
    }

    /** What the chain leads back to cannot be built. */
    lemma OnStackIsNotBuilt(t: Type)
      requires Valid() && Asked(t) && t in Chain()
      ensures !CanBeBuilt(t)
    {
      hide CanBeBuilt, Grounded, InTurn, OrderOk, AllGrounded, AllSettled, Chain;
      ChainLeadsBack(Chain(), done.Keys, t);
    }

    lemma ChainLeadsBack(chain: seq<Type>, finished: set<Type>, t: Type)
      requires Registered() && StackOk(chain, finished) && t in chain && t in deps(chain[|chain| - 1])
      ensures !CanBeBuilt(t)
    {
      hide CanBeBuilt, Grounded, InTurn;
      var i :| 0 <= i < |chain| && chain[i] == t;
      var walk := chain[i..] + [t];
      assert forall k :: 0 <= k < |walk| - 1 ==> walk[k] == chain[i + k];
      assert walk[0] in walk[..|walk| - 1];
      StuckIsNotBuilt(walk);
    }

    // -------------------------------------------------------------- where a warm-up comes back to its entry

    /** Dependencies lead from `t` to `w`. */
    ghost predicate Reaches(t: Type, w: Type) {
      exists walk :: Walk(walk) && walk[0] == t && walk[|walk| - 1] == w
    }

    ghost predicate ReachesOn(t: Type, w: Type) {
      exists d :: d in deps(t) && Reaches(d, w)
    }

    /** The first thing that the factory of `a` asks for and that cannot be built is `b`. */
    ghost predicate FailsAt(a: Type, b: Type) {
      a in transients + lazies && !CanBeBuilt(b) && InTurn(a, b)
    }

    ghost predicate Follows(walk: seq<Type>) {
      walk != [] && forall i :: 0 < i < |walk| ==> FailsAt(walk[i - 1], walk[i])
    }

    /** They lead there by way of the first that cannot be built. */
    ghost predicate LeadsTo(t: Type, w: Type) {
      exists walk :: Follows(walk) && walk[0] == t && walk[|walk| - 1] == w
    }

    ghost predicate LeadsOn(t: Type, w: Type) {
      exists d :: FailsAt(t, d) && LeadsTo(d, w)
    }

    lemma FailsAtOne(a: Type, b: Type, c: Type)
      requires FailsAt(a, b) && FailsAt(a, c)
      ensures b == c
    {
      hide CanBeBuilt;
    }

    lemma LeadsStep(t: Type, w: Type)
      requires t != w
      ensures LeadsTo(t, w) <==> LeadsOn(t, w)
    {
      hide FailsAt;
      if walk :| Follows(walk) && walk[0] == t && walk[|walk| - 1] == w {
        var rest := walk[1..];
        assert FailsAt(walk[0], walk[1]);
        assert Follows(rest) by {
          assert forall i :: 0 < i < |rest| ==> FailsAt(walk[i], walk[i + 1]);
        }
      }
      if d :| FailsAt(t, d) && LeadsTo(d, w) {
        var rest :| Follows(rest) && rest[0] == d && rest[|rest| - 1] == w;
        var walk := [t] + rest;
        assert Follows(walk) by {
          assert forall i :: 0 < i < |walk| ==> walk[i] == rest[i - 1];
        }
      }
    }

    lemma ReachesStep(t: Type, w: Type)
      requires t in transients + lazies && ReachesOn(t, w)
      ensures Reaches(t, w)
    {
      var d :| d in deps(t) && Reaches(d, w);
      var rest :| Walk(rest) && rest[0] == d && rest[|rest| - 1] == w;
      var walk := [t] + rest;
      assert Walk(walk) by {
        assert forall i :: 0 < i < |walk| ==> walk[i] == rest[i - 1];
      }
    }

    /** Nothing leads on from a type that can be built, or has no factory. */
    lemma NothingLeads(t: Type, w: Type)
      requires Registered() && t != w && (t !in transients + lazies || CanBeBuilt(t))
      ensures !LeadsTo(t, w)
    {
      hide CanBeBuilt, LeadsTo;
      LeadsStep(t, w);
      if d :| FailsAt(t, d) && LeadsTo(d, w) {
        BuiltFromDeps(t);
      }
    }

    lemma {:induction false} StaysIn(walk: seq<Type>, types: set<Type>)
      requires Follows(walk) && walk[0] in types
      requires forall a, b :: a in types && FailsAt(a, b) ==> b in types
      ensures walk[|walk| - 1] in types
      decreases |walk|
    {
      hide FailsAt;
      if |walk| > 1 {
        assert FailsAt(walk[0], walk[1]);
        var rest := walk[1..];
        assert forall i :: 0 < i < |rest| ==> FailsAt(walk[i], walk[i + 1]);
        StaysIn(rest, types);
      }
    }

    /** From a type of the chain back to it, every type fails at the next. */
    lemma {:induction false} RoundFails(chain: seq<Type>, finished: set<Type>, t: Type, i: nat)
      requires Registered() && dutiful && StackOk(chain, finished) && t in chain && i < |chain|
      requires AskedBy(chain[|chain| - 1], t)
      ensures !CanBeBuilt(chain[i]) && FailsAt(chain[i], if i + 1 < |chain| then chain[i + 1] else t)
      decreases |chain| - i
    {
      hide CanBeBuilt, InTurn;
      if i + 1 < |chain| {
        RoundFails(chain, finished, t, i + 1);
      } else {
        ChainLeadsBack(chain, finished, t);
      }
      BuiltFromDeps(chain[i]);
    }

    lemma RoundStays(t: Type, w: Type)
      requires Valid() && dutiful && Asked(t) && t in resolving && warming == Some(w)
      ensures !LeadsTo(t, w)
    {
      hide CanBeBuilt, AllGrounded, AllSettled, OrderOk, FailsAt, InTurn;
      var chain := Chain();
      var k :| 0 <= k < |resolving| && resolving[k] == t;
      assert chain[k + 1] == t && chain[0] == w;
      var types := set i | k + 1 <= i < |chain| :: chain[i];
      forall a, b | a in types && FailsAt(a, b) ensures b in types {
        var i :| k + 1 <= i < |chain| && chain[i] == a;
        RoundFails(chain, done.Keys, t, i);
        FailsAtOne(a, b, if i + 1 < |chain| then chain[i + 1] else t);
      }
      forall walk | Follows(walk) && walk[0] == t ensures walk[|walk| - 1] != w {
        StaysIn(walk, types);
      }
    }

    // -------------------------------------------------------------- what comes first in the order

    lemma SettledMore(types: seq<Type>, order: seq<Instance>, done: map<Type, Instance>, t: Type)
      requires OrderOk(types, order, done) && AllSettled(types) && Settled(t, done.Keys)
      ensures AllSettled(types + [t])
    {
      hide Settled, TypesOf;
      var more := types + [t];
      forall i | 0 <= i < |more| ensures Settled(more[i], TypesOf(more[..i])) {
        if i < |types| {
          assert more[..i] == types[..i];
        } else {
          assert more[..i] == types;
        }
      }
    }

    ghost predicate AnswersSettled(ds: seq<Type>, types: set<Type>) {
      forall d :: d in ds ==> Settled(d, types) && (d in lazies ==> d in types)
    }

    lemma OneMoreSettled(ds: seq<Type>, d: Type, types: set<Type>, more: set<Type>)
      requires AnswersSettled(ds, types) && types <= more && Settled(d, more) && (d in lazies ==> d in more)
      ensures AnswersSettled(ds + [d], more)
    {
      hide Settled;
      forall e | e in ds ensures Settled(e, more) && (e in lazies ==> e in more) {
        SettledStays(e, types, more);
      }
    }

    /** What is settled stays so. */
    lemma SettledStays(t: Type, types: set<Type>, more: set<Type>)
      requires Settled(t, types) && types <= more
      ensures Settled(t, more)
    {
    }

    /** A lazy type that has its instance is settled. */
    lemma DoneIsSettled(t: Type)
      requires Valid() && dutiful && t in done
      ensures Settled(t, done.Keys)
    {
      hide Settled, StackOk, AllGrounded;
      assert t in TypesOf(initTypes);
      var i :| 0 <= i < |initTypes| && initTypes[i] == t;
      assert TypesOf(initTypes[..i]) <= TypesOf(initTypes);
      SettledStays(t, TypesOf(initTypes[..i]), done.Keys);
    }

    /** Nothing leads on from a singleton. */
    lemma SingletonIsSettled(t: Type)
      requires Registered() && t in singletons
      ensures Settled(t, done.Keys)
    {
    }

    /** A type is settled if all that its factory asks for is. */
    lemma SettledByDeps(t: Type, types: set<Type>)
      requires AnswersSettled(deps(t), types)
      ensures Settled(t, types)
    {
      forall walk | Walk(walk) && |walk| > 1 && walk[0] == t && walk[|walk| - 1] in lazies
        ensures walk[|walk| - 1] in types
      {
        var rest := walk[1..];
        assert walk[1] in deps(walk[0]);
        assert Walk(rest) by {
          assert forall i :: 0 <= i < |rest| ==> rest[i] == walk[i + 1];
        }
      }
    }

    /** Where a lazy type is in the order. */
    lemma PlaceOf(t: Type) returns (b: nat)
      requires OrderOk(initTypes, initLazies, done) && t in done
      ensures b < |initTypes| == |initLazies| && initTypes[b] == t && initLazies[b] == done[t]
    {
      assert t in TypesOf(initTypes);
      b :| 0 <= b < |initTypes| && initTypes[b] == t;
    }

    /** With dutiful factories, a lazy type is in the order behind every lazy type that it depends on, however far. */
    lemma DependenciesFirst(walk: seq<Type>) returns (i: nat, j: nat)
      requires Valid() && dutiful && Walk(walk) && |walk| > 1 && walk[0] in done && walk[|walk| - 1] in lazies
      ensures |given| <= i < j < |initOrder|
      ensures walk[|walk| - 1] in done && initOrder[i] == done[walk[|walk| - 1]] && initOrder[j] == done[walk[0]]
      ensures j - |given| < |initTypes| && initTypes[i - |given|] == walk[|walk| - 1]
        && initTypes[j - |given|] == walk[0]
    {
      hide StackOk, AllGrounded, OrderOk, Walk, Settled, AllSettled, TypesOf;
      var d, n := walk[|walk| - 1], |given|;
      var b := PlaceOf(walk[0]);
      SettledBefore(walk, b);
      var a := PlaceOf(d);
      OnePlace(d, a, b);
      i, j := n + a, n + b;
    }

    lemma SettledBefore(walk: seq<Type>, b: nat)
      requires AllSettled(initTypes) && OrderOk(initTypes, initLazies, done) && b < |initTypes|
      requires Walk(walk) && |walk| > 1 && walk[0] == initTypes[b] && walk[|walk| - 1] in lazies
      ensures walk[|walk| - 1] in initTypes[..b] && walk[|walk| - 1] in done
    {
      hide Walk;
      assert Settled(walk[0], TypesOf(initTypes[..b]));
      assert walk[|walk| - 1] in TypesOf(initTypes);
    }

    lemma OnePlace(d: Type, a: nat, b: nat)
      requires OrderOk(initTypes, initLazies, done) && a < |initTypes| && b < |initTypes|
      requires initTypes[a] == d && d in initTypes[..b]
      ensures a < b
    {
      var c :| 0 <= c < b && initTypes[c] == d;
    }

    // -------------------------------------------------------------- the stack and the order

    lemma StackFront(stack: seq<Type>, t: Type, finished: set<Type>)
      requires StackOk(stack + [t], finished)
      ensures StackOk(stack, finished + {t}) && StackOk(stack, finished)
      ensures t !in stack && t !in finished && t in transients + lazies
      ensures (stack + [t])[..|stack|] == stack
    {
      var all := stack + [t];
      assert all[|stack|] == t && forall i :: 0 <= i < |stack| ==> all[i] == stack[i];
    }

    static lemma OrderMore(types: seq<Type>, order: seq<Instance>, done: map<Type, Instance>, t: Type,
        instance: Instance)
      requires OrderOk(types, order, done) && t !in done
      ensures OrderOk(types + [t], order + [instance], done[t := instance])
    {
      var more := types + [t];
      assert TypesOf(more) == TypesOf(types) + {t};
      assert forall i :: 0 <= i < |types| ==> types[i] in TypesOf(types);
    }

    /** Registered types that are not being resolved: what bounds the recursion. */
    ghost function Open(): set<Type>
      reads this`resolving
    {
      transients + lazies - TypesOf(resolving)
    }

    /** A dependency asked for by the factory that runs, or by anyone if none does. */
    ghost predicate Asked(t: Type)
      reads this`resolving, this`warming
    {
      Chain() == [] || AskedBy(Chain()[|Chain()| - 1], t)
    }

    ghost predicate AskedBy(a: Type, t: Type) {
      t in deps(a) && (dutiful ==> InTurn(a, t))
    }

    /** A type is registered once. */
    constructor (singletons: map<Type, Instance>, transients: set<Type>, lazies: set<Type>, given: seq<Instance>,
        deps: Type -> seq<Type>, dutiful: bool)
      requires transients !! lazies && singletons.Keys !! transients + lazies
      ensures Valid() && resolving == [] && done == map[] && initOrder == given && locked == {} && warming == None
      ensures this.singletons == singletons && this.transients == transients && this.lazies == lazies
      ensures this.given == given && this.deps == deps && this.dutiful == dutiful
    {
      this.singletons, this.transients, this.lazies, this.given := singletons, transients, lazies, given;
      this.deps, this.dutiful := deps, dutiful;
      done, initOrder, resolving, initTypes, initLazies, locked, warming := map[], given, [], [], [], {}, None;
    }

    /** pushResolving: refused exactly if the type is on the stack already. */
    method PushResolving(t: Type) returns (err: Option<Error>)
      requires Valid() && Asked(t) && t in transients + lazies && t !in done
      modifies this`resolving
      ensures err.Some? || warming != Some(t) ==> Valid()
      ensures err.Some? <==> t in old(resolving)
      ensures if err.Some? then err == Some(Circular(resolving + [t])) && resolving == old(resolving)
              else resolving == old(resolving) + [t]
    {
      hide StackOk, OrderOk, AllGrounded, AllSettled, InTurn;
      var i := 0;
      while i < |resolving|
        invariant 0 <= i <= |resolving| && forall k :: 0 <= k < i ==> resolving[k] != t
      {
        if resolving[i] == t {
          return Some(Circular(resolving + [t]));
        }
        i := i + 1;
      }
      ghost var chain := Chain();
      resolving := resolving + [t];
      assert Chain() == chain + [t];
      if warming != Some(t) {
        ChainGrows(chain, t, done.Keys);
      }
      return None;
    }

    method PopResolving()
      requires resolving != []
      modifies this`resolving
      ensures resolving == old(resolving)[..|old(resolving)| - 1]
    {
      resolving := resolving[..|resolving| - 1];
    }

    // -------------------------------------------------------------- resolution

    /** What every resolution keeps that comes to an end: the stack and the mutexes are as before, and instances
        stay. */
    twostate predicate Kept()
      reads this
    {
      && Valid() && resolving == old(resolving) && locked == old(locked) && warming == old(warming)
      && old(initOrder) <= initOrder && Extends(old(done), done)
    }

    static ghost predicate Extends(before: map<Type, Instance>, after: map<Type, Instance>) {
      forall x :: x in before ==> x in after && after[x] == before[x]
    }

    static lemma ExtendsItself(before: map<Type, Instance>)
      ensures Extends(before, before)
    {
    }

    static lemma ExtendsMore(before: map<Type, Instance>, after: map<Type, Instance>, t: Type, instance: Instance)
      requires Extends(before, after) && t !in after
      ensures Extends(before, after[t := instance])
    {
    }

    /** The answer says whether the type can be built and, if so, all the lazy types behind it are there; or it never
        comes, for the first dependencies that cannot be built lead to the entry that is being warmed up. */
    ghost predicate Answers(t: Type, r: Outcome, w: Option<Type>)
      reads this`done
    {
      && (r.Blocked? ==> w.Some? && Reaches(t, w.value))
      && (dutiful ==> (r.Ok? <==> CanBeBuilt(t)) && (r.Ok? ==> Settled(t, done.Keys)))
      && (dutiful ==> (r.Blocked? <==> w.Some? && LeadsTo(t, w.value)))
    }

    /** The same of a factory, which has not asked for its own type. */
    ghost predicate Makes(t: Type, r: Outcome, w: Option<Type>)
      reads this`done
    {
      && (r.Blocked? ==> w.Some? && ReachesOn(t, w.value))
      && (dutiful ==> (r.Ok? <==> CanBeBuilt(t)) && (r.Ok? ==> Settled(t, done.Keys)))
      && (dutiful ==> (r.Blocked? <==> w.Some? && LeadsOn(t, w.value)))
    }

    // -------------------------------------------------------------- answers

    lemma WarmingIsLazy()
      requires Valid()
      ensures warming.Some? ==>
        var w := warming.value; w in lazies && w !in done && w !in resolving && w in locked
    {
      if warming.Some? {
        assert Chain()[0] == warming.value;
        assert forall i :: 0 <= i < |resolving| ==> Chain()[i + 1] == resolving[i];
      }
    }

    /** The mutex of an entry is free unless the entry is being resolved. */
    lemma LockedAreResolved(stack: seq<Type>, t: Type)
      requires locked <= TypesOf(Before(stack)) && t !in stack && (warming.Some? ==> warming.value in locked)
      ensures t in locked <==> warming == Some(t)
    {
    }

    lemma SingletonAnswers(t: Type)
      requires Valid() && t in singletons
      ensures Answers(t, Ok(singletons[t]), warming)
    {
      hide LeadsTo, Settled, AllSettled, AllGrounded, StackOk, OrderOk;
      WarmingIsLazy();
      assert Grounded(0, t);
      SingletonIsSettled(t);
      if warming.Some? {
        NothingLeads(t, warming.value);
      }
    }

    lemma DoneAnswers(t: Type)
      requires Valid() && t in done
      ensures Answers(t, Ok(done[t]), warming)
    {
      hide LeadsTo, Settled, AllSettled, CanBeBuilt, StackOk, OrderOk;
      WarmingIsLazy();
      if dutiful {
        DoneIsSettled(t);
        if warming.Some? {
          NothingLeads(t, warming.value);
        }
      }
    }

    lemma NobodyAnswers(t: Type)
      requires Valid() && t !in singletons && t !in transients + lazies
      ensures Answers(t, Failed(NoProvider(t)), warming)
    {
      hide LeadsTo, Settled, AllSettled, AllGrounded, StackOk, OrderOk;
      WarmingIsLazy();
      assert forall depth: nat :: !Grounded(depth, t);
      if warming.Some? {
        NothingLeads(t, warming.value);
      }
    }

    lemma RoundAnswers(t: Type)
      requires Valid() && Asked(t) && t in resolving
      ensures Answers(t, Failed(Circular(resolving + [t])), warming)
    {
      hide LeadsTo, Settled, AllSettled, AllGrounded, StackOk, OrderOk, CanBeBuilt;
      assert t in Chain();
      OnStackIsNotBuilt(t);
      if dutiful && warming.Some? {
        RoundStays(t, warming.value);
      }
    }

    lemma WarmingAnswers(t: Type)
      requires Valid() && Asked(t) && warming == Some(t)
      ensures Answers(t, Blocked, warming)
    {
      hide Settled, AllSettled, AllGrounded, StackOk, OrderOk, CanBeBuilt;
      assert Chain()[0] == t;
      OnStackIsNotBuilt(t);
      assert Walk([t]) && Follows([t]);
      assert [t][0] == [t][|[t]| - 1] == t;
    }

    lemma MakesIsAnswer(t: Type, r: Outcome, w: Option<Type>)
      requires t in transients + lazies && w != Some(t) && Makes(t, r, w)
      ensures Answers(t, r, w)
    {
      hide LeadsTo, LeadsOn, Reaches, ReachesOn, Settled, CanBeBuilt;
      if w.Some? {
        LeadsStep(t, w.value);
        if r.Blocked? {
          ReachesStep(t, w.value);
        }
      }
    }

    // -------------------------------------------------------------- the chain

    /** What is being resolved below this much of the stack. */
    ghost function Before(stack: seq<Type>): seq<Type>
      reads this`warming
    {
      (if warming.Some? then [warming.value] else []) + stack
    }

    lemma ChainGrows(chain: seq<Type>, t: Type, finished: set<Type>)
      requires StackOk(chain, finished) && t !in chain && t in transients + lazies && t !in finished
      requires chain == [] || AskedBy(chain[|chain| - 1], t)
      ensures StackOk(chain + [t], finished) && TypesOf(chain) <= TypesOf(chain + [t])
    {
      hide InTurn;
      var all := chain + [t];
      assert all[|chain|] == t && forall i :: 0 <= i < |chain| ==> all[i] == chain[i];
    }

    /** The type on top of the chain leaves it. */
    lemma ChainShrinks(chain: seq<Type>, t: Type, held: set<Type>)
      requires StackOk(chain + [t], done.Keys) && held <= TypesOf(chain + [t]) && t !in held
      ensures StackOk(chain, done.Keys + {t}) && StackOk(chain, done.Keys) && t !in chain && t !in done
      ensures held <= TypesOf(chain)
    {
      hide InTurn;
      StackFront(chain, t, done.Keys);
    }

    /** Use. With dutiful factories it succeeds exactly if the type can be built. */
    method Use(t: Type) returns (r: Outcome)
      requires Valid() && Asked(t)
      modifies this
      ensures !r.Blocked? ==> Kept()
      ensures Answers(t, r, old(warming))
      ensures t in singletons ==> r == Ok(singletons[t]) && done == old(done)
      ensures t in old(done) ==> r == Ok(old(done[t])) && done == old(done) && initOrder == old(initOrder)
      ensures r.Ok? && t in lazies ==> t in done && r.instance == done[t]
      ensures r == Failed(NoProvider(t)) <==> t !in singletons && t !in transients + lazies
      ensures r.Failed? && r.error.Circular? <==> t in transients + lazies && t !in old(done) && t in old(resolving)
      ensures r.Failed? && r.error.Circular? ==> r.error.chain == old(resolving) + [t]
      decreases |Open()|, 0
    {
      hide StackOk, OrderOk, CanBeBuilt, LeadsTo, Reaches, Settled, AllSettled, AllGrounded;
      if t in singletons {
        SingletonAnswers(t);
        return Ok(singletons[t]);
      }
      if t in transients {
        r := UseTransient(t);
        return;
      }
      if t in lazies {
        if t in done {
          DoneAnswers(t);
          return Ok(done[t]);
        }
        r := UseLazy(t);
        return;
      }
      NobodyAnswers(t);
      return Failed(NoProvider(t));
    }

    method UseTransient(t: Type) returns (r: Outcome)
      requires Valid() && Asked(t) && t in transients
      modifies this
      ensures !r.Blocked? ==> Kept()
      ensures Answers(t, r, old(warming))
      ensures r.Failed? ==>
        r == Failed(FactoryFailed(t)) || (t in old(resolving) && r == Failed(Circular(old(resolving) + [t])))
      ensures t in old(resolving) ==> r.Failed? && r.error.Circular?
      decreases |Open()|, 0, 0
    {
      hide StackOk, OrderOk, TypesOf, CanBeBuilt, AllGrounded, Extends, Distinct, LeadsTo, LeadsOn, Reaches,
        ReachesOn, Settled, AllSettled, InTurn;
      ghost var stack, chain := resolving, Chain();
      ghost var w := warming;
      WarmingIsLazy();
      if t in resolving {
        RoundAnswers(t);
      }
      var err := PushResolving(t);
      if err.Some? {
        ExtendsItself(done);
        return Failed(err.value);
      }
      OneLessOpen(stack, t);
      LockedAreResolved(stack, t);
      r := BuildTransient(t, stack);
      MakesIsAnswer(t, r, w);
    }

    /** The transient type on top of the stack is built and leaves the stack. */
    method BuildTransient(t: Type, ghost stack: seq<Type>) returns (r: Outcome)
      requires Valid() && resolving == stack + [t] && t !in locked
      modifies this
      ensures !r.Blocked? ==> Valid() && resolving == stack && locked == old(locked) && warming == old(warming)
      ensures !r.Blocked? ==> old(initOrder) <= initOrder && Extends(old(done), done)
      ensures r.Failed? ==> r == Failed(FactoryFailed(t))
      ensures Makes(t, r, old(warming))
      decreases |Open()|, 3
    {
      hide StackOk, OrderOk, TypesOf, CanBeBuilt, AllGrounded, Extends, Distinct, LeadsOn, ReachesOn, Settled,
        AllSettled;
      ghost var chain := Before(stack);
      assert Chain() == chain + [t];
      r := RunFactory(t);
      if r.Blocked? {
        return;
      }
      ChainShrinks(chain, t, locked);
      PopResolving();
      assert Chain() == chain;
    }

    method UseLazy(t: Type) returns (r: Outcome)
      requires Valid() && Asked(t) && t in lazies && t !in done
      modifies this
      ensures !r.Blocked? ==> Kept()
      ensures Answers(t, r, old(warming))
      ensures r.Failed? ==>
        r == Failed(FactoryFailed(t)) || (t in old(resolving) && r == Failed(Circular(old(resolving) + [t])))
      ensures t in old(resolving) ==> r.Failed? && r.error.Circular?
      ensures r.Ok? ==>
        t in done && r.instance == done[t] && initOrder != [] && initOrder[|initOrder| - 1] == r.instance
      ensures r.Failed? ==> t !in done
      decreases |Open()|, 0, 0
    {
      hide StackOk, OrderOk, TypesOf, CanBeBuilt, AllGrounded, Extends, Distinct, LeadsTo, LeadsOn, Reaches,
        ReachesOn, Settled, AllSettled, InTurn;
      ghost var stack, chain := resolving, Chain();
      ghost var w := warming;
      WarmingIsLazy();
      if t in resolving {
        RoundAnswers(t);
      }
      if w == Some(t) {
        WarmingAnswers(t);
      }
      var err := PushResolving(t);
      if err.Some? {
        ExtendsItself(done);
        return Failed(err.value);
      }
      OneLessOpen(stack, t);
      assert t in locked <==> w == Some(t) by { LockedAreResolved(stack, t); }
      if t in locked {
        r := Resolve(t);
        return;
      }
      r := BuildLazy(t, stack);
      MakesIsAnswer(t, r, w);
    }

    /** The lazy type on top of the stack is resolved and leaves the stack. */
    method BuildLazy(t: Type, ghost stack: seq<Type>) returns (r: Outcome)
      requires Valid() && resolving == stack + [t] && t in lazies && t !in locked
      modifies this
      ensures !r.Blocked? ==> Valid() && resolving == stack && locked == old(locked) && warming == old(warming)
      ensures !r.Blocked? ==> old(initOrder) <= initOrder && Extends(old(done), done)
      ensures r.Failed? ==> r == Failed(FactoryFailed(t))
      ensures r.Ok? ==>
        t in done && r.instance == done[t] && initOrder != [] && initOrder[|initOrder| - 1] == r.instance
      ensures r.Failed? ==> t !in done
      ensures Makes(t, r, old(warming))
      decreases |Open()|, 3
    {
      hide StackOk, OrderOk, TypesOf, CanBeBuilt, AllGrounded, Extends, Distinct, LeadsOn, ReachesOn, Settled,
        AllSettled;
      ghost var chain := Before(stack);
      assert Chain() == chain + [t];
      r := Resolve(t);
      if r.Blocked? {
        return;
      }
      ChainShrinks(chain, t, locked);
      if r.Ok? {
        ExtendsMore(old(done), done, t, r.instance);
        if dutiful {
          SettledStays(t, done.Keys, done.Keys + {t});
        }
        Enter(t, r.instance);
      }
      PopResolving();
      assert Chain() == chain;
    }

    /** What is reported is a cycle: each type of the chain is asked for by the one before, and the last is one of
        those before it. */
    lemma ReportedIsCycle(t: Type)
      requires Valid() && Asked(t) && t in resolving
      ensures var chain := resolving + [t];
        && (forall i :: 0 < i < |chain| ==> chain[i] in deps(chain[i - 1]))
        && (exists i :: 0 <= i < |chain| - 1 && chain[i] == chain[|chain| - 1])
    {
      hide InTurn, OrderOk, AllGrounded, AllSettled;
      var n := |Chain()| - |resolving|;
      assert forall i :: 0 <= i < |resolving| ==> Chain()[n + i] == resolving[i];
      forall i | 0 < i < |resolving| ensures resolving[i] in deps(resolving[i - 1]) {
        assert Chain()[n + i] in deps(Chain()[n + i - 1]);
      }
      var i :| 0 <= i < |resolving| && resolving[i] == t;
      assert (resolving + [t])[i] == t;
    }

    /** Nobody holds the mutex of `t`, which is on top of the stack or about to be warmed up. */
    ghost predicate Free(t: Type)
      reads this
    {
      && Valid() && t !in locked
      && if resolving == [] then warming == None && t in lazies && t !in done else resolving[|resolving| - 1] == t
    }

    /** The factory of a lazy entry runs under the mutex of the entry. */
    method Resolve(t: Type) returns (r: Outcome)
      requires t in locked || Free(t)
      modifies this
      ensures t in old(locked) ==> r == Blocked
      ensures t !in old(locked) ==>
        && (!r.Blocked? ==> Kept() && t !in done)
        && (r.Failed? ==> r == Failed(FactoryFailed(t)))
        && Makes(t, r, if old(resolving) == [] then Some(t) else old(warming))
      decreases |Open()|, 2
    {
      hide StackOk, OrderOk, CanBeBuilt, AllGrounded, Extends, Distinct, LeadsOn, ReachesOn, Settled, AllSettled,
        Asked, TypesOf;
      if t in locked {
        return Blocked;
      }
      ghost var held, w := locked, warming;
      Lock(t);
      r := RunFactory(t);
      if r.Blocked? {
        return;
      }
      TopIsRegistered();
      Unlock(t, held, w);
    }

    method Lock(t: Type)
      requires Free(t)
      modifies this`locked, this`warming
      ensures Valid() && locked == old(locked) + {t} && Chain() != [] && Chain()[|Chain()| - 1] == t
      ensures warming == if resolving == [] then Some(t) else old(warming)
      ensures old(warming) != Some(t)
    {
      hide OrderOk, AllGrounded, AllSettled, InTurn;
      ghost var chain := Chain();
      locked := locked + {t};
      if resolving == [] {
        warming := Some(t);
        assert Chain() == [t];
      }
      assert t in Chain();
    }

    method Unlock(t: Type, ghost held: set<Type>, ghost w: Option<Type>)
      requires Valid() && locked == held + {t} && t !in held && w != Some(t)
      requires if resolving == [] then warming == Some(t) && w == None else warming == w
      modifies this`locked, this`warming
      ensures Valid() && locked == held && warming == w
    {
      hide OrderOk, AllGrounded, AllSettled, InTurn;
      locked := locked - {t};
      assert locked == held;
      if resolving == [] {
        warming := None;
      }
    }

    /** The entry gets its instance, which is recorded for the lifecycle hooks. */
    method Enter(t: Type, instance: Instance)
      requires initOrder == given + initLazies && OrderOk(initTypes, initLazies, done) && t !in done
      requires dutiful ==>
        AllGrounded(done.Keys) && CanBeBuilt(t) && AllSettled(initTypes) && Settled(t, done.Keys)
      modifies this`done, this`initOrder, this`initTypes, this`initLazies
      ensures OrderOk(initTypes, initLazies, done) && done == old(done)[t := instance]
        && done.Keys == old(done.Keys) + {t}
      ensures initOrder == old(initOrder) + [instance] == given + initLazies
      ensures dutiful ==> AllGrounded(done.Keys) && AllSettled(initTypes)
    {
      hide CanBeBuilt, OrderOk, Settled, AllSettled;
      OrderMore(initTypes, initLazies, done, t, instance);
      if dutiful {
        SettledMore(initTypes, initLazies, done, t);
      }
      done := done[t := instance];
      initOrder, initTypes, initLazies := initOrder + [instance], initTypes + [t], initLazies + [instance];
    }

    lemma OneLessOpen(stack: seq<Type>, t: Type)
      requires resolving == stack + [t] && t in transients + lazies && t !in stack
      ensures |Open()| < |transients + lazies - TypesOf(stack)|
    {
      OneLessLeft(transients + lazies, stack, t);
    }

    /** What happens inside a factory. */
    method RunFactory(t: Type) returns (r: Outcome)
      requires Valid() && Chain() != [] && Chain()[|Chain()| - 1] == t
      modifies this
      ensures !r.Blocked? ==> Kept()
      ensures r.Failed? ==> r == Failed(FactoryFailed(t))
      ensures Makes(t, r, old(warming))
      decreases |Open()|, 1, 1
    {
      hide StackOk, OrderOk, CanBeBuilt, AllGrounded, LeadsOn, ReachesOn, Settled, AllSettled;
      if dutiful {
        r := RunDutiful(t);
      } else {
        r := RunAny(t);
      }
    }

    /** A factory asks for what it may ask for, in any order and as often as it likes; it may give up when an answer
        is a failure, and may fail on its own. */
    method RunAny(t: Type) returns (r: Outcome)
      requires Valid() && Chain() != [] && Chain()[|Chain()| - 1] == t && !dutiful
      modifies this
      ensures !r.Blocked? ==> Kept()
      ensures r.Failed? ==> r == Failed(FactoryFailed(t))
      ensures Makes(t, r, old(warming))
      decreases |Open()|, 1, 0
    {
      hide StackOk, OrderOk, CanBeBuilt, AllGrounded, LeadsOn, LeadsTo, Reaches, Settled, AllSettled;
      var questions: nat :| true;
      var i := 0;
      while i < questions
        invariant i <= questions && Kept()
      {
        var question: Type :| true;
        if question in deps(t) {
          var d := Use(question);
          if d.Blocked? {
            return Blocked;
          }
          var givesUp := *;
          if d.Failed? && givesUp {
            return Failed(FactoryFailed(t));
          }
        }
        i := i + 1;
      }
      var fails := *;
      var instance: Instance :| true;
      r := if fails then Failed(FactoryFailed(t)) else Ok(instance);
    }

    method RunDutiful(t: Type) returns (r: Outcome)
      requires Valid() && Chain() != [] && Chain()[|Chain()| - 1] == t && dutiful
      modifies this
      ensures !r.Blocked? ==> Kept()
      ensures r.Failed? ==> r == Failed(FactoryFailed(t))
      ensures Makes(t, r, old(warming))
      decreases |Open()|, 1, 0
    {
      hide StackOk, OrderOk, CanBeBuilt, AllGrounded, LeadsOn, ReachesOn, LeadsTo, Reaches, Settled, AllSettled,
        FailsAt, InTurn, AnswersSettled, TypesOf;
      assert t in transients + lazies by { TopIsRegistered(); }
      BuiltFromDeps(t);
      NothingAsked(done.Keys);
      var i := 0;
      while i < |deps(t)|
        invariant 0 <= i <= |deps(t)| && Kept()
        invariant forall k :: 0 <= k < i ==> CanBeBuilt(deps(t)[k])
        invariant AnswersSettled(deps(t)[..i], done.Keys)
      {
        ghost var before := done.Keys;
        NextInTurn(t, i);
        var d := Use(deps(t)[i]);
        if !d.Ok? {
          FailsHere(t, i, old(warming));
          return if d.Blocked? then Blocked else Failed(FactoryFailed(t));
        }
        OneMoreSettled(deps(t)[..i], deps(t)[i], before, done.Keys);
        assert deps(t)[..i + 1] == deps(t)[..i] + [deps(t)[i]];
        i := i + 1;
      }
      assert deps(t)[..i] == deps(t);
      SettledByDeps(t, done.Keys);
      NoFailure(t, old(warming));
      var instance: Instance :| true;
      return Ok(instance);
    }

    lemma TopIsRegistered()
      requires Valid() && Chain() != []
      ensures var top := Chain()[|Chain()| - 1]; top in transients + lazies && top !in done
    {
    }

    lemma NothingAsked(types: set<Type>)
      ensures AnswersSettled([], types)
    {
    }

    lemma NextInTurn(t: Type, i: nat)
      requires i < |deps(t)| && forall k :: 0 <= k < i ==> CanBeBuilt(deps(t)[k])
      ensures InTurn(t, deps(t)[i])
    {
      hide CanBeBuilt;
    }

    lemma FailsHere(t: Type, i: nat, w: Option<Type>)
      requires t in transients + lazies && i < |deps(t)| && !CanBeBuilt(deps(t)[i])
      requires forall k :: 0 <= k < i ==> CanBeBuilt(deps(t)[k])
      ensures w.Some? ==> (LeadsOn(t, w.value) <==> LeadsTo(deps(t)[i], w.value))
      ensures w.Some? && Reaches(deps(t)[i], w.value) ==> ReachesOn(t, w.value)
    {
      hide CanBeBuilt, LeadsTo, Reaches;
      assert FailsAt(t, deps(t)[i]);
      forall d | FailsAt(t, d) ensures d == deps(t)[i] {
        FailsAtOne(t, d, deps(t)[i]);
      }
    }

    lemma NoFailure(t: Type, w: Option<Type>)
      requires forall k :: 0 <= k < |deps(t)| ==> CanBeBuilt(deps(t)[k])
      ensures w.Some? ==> !LeadsOn(t, w.value)
    {
      hide CanBeBuilt, LeadsTo;
    }

    // -------------------------------------------------------------- warming up

    /** No poll of the context up to the one before entry `i` finds it cancelled. */
    static ghost predicate Tried(cancelled: nat -> bool, i: nat) {
      forall j :: 0 <= j <= i ==> !cancelled(j)
    }

    lemma BuiltDoesNotFail(t: Type)
      requires Registered() && CanBeBuilt(t)
      ensures !LeadsOn(t, t)
    {
      hide CanBeBuilt, LeadsTo;
      if d :| FailsAt(t, d) && LeadsTo(d, t) {
        BuiltFromDeps(t);
      }
    }

    /** One entry, which is not put on the stack. */
    method WarmUp(t: Type) returns (r: Outcome)
      requires Valid() && resolving == [] && warming == None && t in lazies
      modifies this
      ensures !r.Blocked? ==> Kept()
      ensures r.Blocked? ==> ReachesOn(t, t)
      ensures dutiful ==> (r.Blocked? <==> LeadsOn(t, t)) && (r.Ok? <==> CanBeBuilt(t))
      ensures r.Ok? ==> t in done && r.instance == done[t]
      ensures r.Failed? ==> t !in done
    {
      hide StackOk, OrderOk, CanBeBuilt, Grounded, LeadsOn, ReachesOn, Settled, AllSettled, TypesOf;
      if t in done {
        if dutiful {
          BuiltDoesNotFail(t);
        }
        return Ok(done[t]);
      }
      NothingLocked();
      r := Resolve(t);
      if r.Ok? {
        ExtendsMore(old(done), done, t, r.instance);
        Enter(t, r.instance);
        EmptyChain();
      }
    }

    lemma NothingLocked()
      requires Valid() && resolving == [] && warming == None
      ensures locked == {}
    {
    }

    lemma EmptyChain()
      requires resolving == [] && warming == None
      ensures StackOk(Chain(), done.Keys)
    {
    }

    /** Warmup, on the lazy entries in any order. With dutiful factories it waits for ever exactly if it tries an entry
        from which the first dependencies that cannot be built lead back to it; otherwise everything tried that can be
        built is there, and everything else is reported. With any factories it needs some cycle through an entry to
        hang. */
    method Warmup(entries: seq<Type>, cancelled: nat -> bool) returns (r: Warmed)
      requires Valid() && resolving == [] && warming == None
      requires Distinct(entries) && TypesOf(entries) == lazies - done.Keys
      modifies this
      ensures r.Warmed? ==> Kept() && (r.cancelled <==> exists i :: 0 <= i < |entries| && cancelled(i))
      ensures r.Hangs? ==>
        exists i :: 0 <= i < |entries| && Tried(cancelled, i) && ReachesOn(entries[i], entries[i])
      ensures dutiful ==>
        (r.Hangs? <==> exists i :: 0 <= i < |entries| && Tried(cancelled, i) && LeadsOn(entries[i], entries[i]))
      ensures dutiful && r.Warmed? ==>
        forall i :: 0 <= i < |entries| && Tried(cancelled, i) ==>
          (entries[i] in done <==> CanBeBuilt(entries[i])) && (entries[i] in r.failed <==> !CanBeBuilt(entries[i]))
    {
      hide StackOk, OrderOk, CanBeBuilt, Grounded, LeadsOn, ReachesOn, Settled, AllSettled;
      var failed := [];
      var i := 0;
      ExtendsItself(done);
      while i < |entries|
        invariant 0 <= i <= |entries| && Kept()
        invariant forall j :: 0 <= j < i ==> !cancelled(j)
        invariant dutiful ==> forall j :: 0 <= j < i ==> !LeadsOn(entries[j], entries[j])
        invariant dutiful ==> forall j :: 0 <= j < i && CanBeBuilt(entries[j]) ==> entries[j] in done
        invariant dutiful ==> forall j :: 0 <= j < i ==> (entries[j] in failed <==> !CanBeBuilt(entries[j]))
        invariant forall t :: t in failed ==> t in entries[..i]
      {
        if cancelled(i) {
          assert dutiful ==> forall j :: 0 <= j < |entries| && Tried(cancelled, j) ==> j < i;
          return Warmed(failed, true);
        }
        assert entries[i] in TypesOf(entries);
        assert entries[i] !in entries[..i];
        var d := WarmUp(entries[i]);
        if d.Blocked? {
          assert Tried(cancelled, i);
          return Hangs;
        }
        if d.Failed? {
          failed := failed + [entries[i]];
        }
        i := i + 1;
      }
      r := Warmed(failed, false);
    }
  }

  // ---------------------------------------------------------------- a warm-up that hangs

  /** Two lazy types whose factories ask for each other: Use reports the cycle, and Warmup never returns. */
  method RingHangs() returns (used: Outcome, r: Warmed)
    ensures used.Failed? && r.Hangs?
  {
    hide Registry.Grounded, Registry.CanBeBuilt, Registry.LeadsTo, Registry.LeadsOn, Registry.Reaches,
      Registry.ReachesOn, Registry.Settled, Registry.AllSettled, Registry.StackOk, Registry.OrderOk;
    var c := new Registry(map[], {}, {0, 1}, [], t => if t == 0 then [1] else [0], true);
    RingLeadsBack(c);
    used := c.Use(0);
    assert c.done == map[];
    var entries := [0, 1];
    r := c.Warmup(entries, _ => false);
    assert entries[0] == 0 && Registry.Tried(_ => false, 0);
  }

  lemma RingLeadsBack(c: Registry)
    requires c.singletons == map[] && c.transients == {} && c.lazies == {0, 1} && c.deps(0) == [1] && c.deps(1) == [0]
    ensures !c.CanBeBuilt(0) && !c.CanBeBuilt(1) && c.LeadsOn(0, 0)
  {
    hide Registry.Grounded, Registry.CanBeBuilt;
    var walk, other := [0, 1, 0], [1, 0, 1];
    assert walk[..2][0] == 0 && other[..2][0] == 1;
    c.StuckIsNotBuilt(walk);
    c.StuckIsNotBuilt(other);
    assert c.FailsAt(0, 1) && c.FailsAt(1, 0);
    assert c.Follows([1, 0]);
  }
}
