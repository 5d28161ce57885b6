/** The meaning of an automaton, stated over plain values: its transitions,
    the set of states the recursive simulation reaches, the runs that justify
    each reached state, and the frontier formulation of the same simulation. */
module NfaSemantics {
  import opened Filtering

  /** One labelled edge `(transStart, input, transEnd)` of an automaton. */
  datatype Transition<S, A> = Transition(transStart: S, input: A, transEnd: S)

  /** Selects the transitions leaving `s` (the first lookup). */
  function From<S(==), A>(s: S): Transition<S, A> -> bool
  {
    (t: Transition<S, A>) => t.transStart == s
  }

  /** Selects the transitions leaving `s` on symbol `a` (the second lookup). */
  function FromOn<S(==), A(==)>(s: S, a: A): Transition<S, A> -> bool
  {
    (t: Transition<S, A>) => t.transStart == s && t.input == a
  }

  /** The lookup on a state and a symbol is the lookup on the state alone,
      narrowed to that symbol; both keep insertion order. */
  lemma LookupOnNarrowsLookup<S, A>(ts: seq<Transition<S, A>>, s: S, a: A)
    ensures Filter(Filter(ts, From(s)), (t: Transition<S, A>) => t.input == a) == Filter(ts, FromOn(s, a))
  {
    FilterFilter(ts, From(s), (t: Transition<S, A>) => t.input == a, FromOn(s, a));
  }

  /** Every transition starts and ends in `states`. */
  ghost predicate Closed<S, A>(states: set<S>, ts: seq<Transition<S, A>>)
  {
    forall t :: t in ts ==> t.transStart in states && t.transEnd in states
  }

  /** The states reached from `s` after consuming all of `w`: with no symbol
      left, `s` itself; otherwise the union, over the transitions that leave
      `s` on the first symbol, of what is reached from their targets on the
      rest of the word. */
  function Reach<S(==), A(==)>(ts: seq<Transition<S, A>>, s: S, w: seq<A>): set<S>
    decreases |w|, 1, 0
  {
    if w == [] then {s}
    else ReachAll(ts, Filter(ts, FromOn(s, w[0])), w[1..])
  }

  /** The union of `Reach(ts, m.transEnd, rest)` over the transitions `m` of
      `ms`, accumulated in list order like the loop of the simulation. */
  function ReachAll<S(==), A(==)>(ts: seq<Transition<S, A>>, ms: seq<Transition<S, A>>, rest: seq<A>): set<S>
    decreases |rest| + 1, 0, |ms|
  {
    if ms == [] then {}
    else ReachAll(ts, ms[..|ms| - 1], rest) + Reach(ts, ms[|ms| - 1].transEnd, rest)
  }

  /** Some state reached on `w` from `start` is an accepting one. */
  ghost predicate Accepts<S, A>(ts: seq<Transition<S, A>>, start: S, ends: set<S>, w: seq<A>)
  {
    exists q :: q in Reach(ts, start, w) && q in ends
  }

  /** The set accumulated by the simulation loop holds exactly what is
      reached from the target of one of the matching transitions. */
  lemma {:induction false} ReachAllMembership<S, A>(ts: seq<Transition<S, A>>, ms: seq<Transition<S, A>>, rest: seq<A>, q: S)
    ensures q in ReachAll(ts, ms, rest) <==> exists i :: 0 <= i < |ms| && q in Reach(ts, ms[i].transEnd, rest)
  {
    if ms != [] {
      var init := ms[..|ms| - 1];
      ReachAllMembership(ts, init, rest, q);
      if q in ReachAll(ts, ms, rest) && q !in Reach(ts, ms[|ms| - 1].transEnd, rest) {
        var i :| 0 <= i < |init| && q in Reach(ts, init[i].transEnd, rest);
        assert ms[i] == init[i];
      }
      if i :| 0 <= i < |ms| && q in Reach(ts, ms[i].transEnd, rest) {
        if i < |init| {
          assert init[i] == ms[i];
        }
      }
    }
  }

  /** Nondeterministic union: on a non-empty word, a state is reached from `s`
      exactly when it is reached on the rest of the word from the target of
      some transition that leaves `s` on the first symbol. */
  lemma ReachStep<S, A>(ts: seq<Transition<S, A>>, s: S, a: A, rest: seq<A>, q: S)
    ensures q in Reach(ts, s, [a] + rest) <==>
            exists t :: t in ts && t.transStart == s && t.input == a && q in Reach(ts, t.transEnd, rest)
  {
    var w := [a] + rest;
    assert w[0] == a && w[1..] == rest;
    var ms := Filter(ts, FromOn(s, a));
    ReachAllMembership(ts, ms, rest, q);
    if q in Reach(ts, s, w) {
      var i :| 0 <= i < |ms| && q in Reach(ts, ms[i].transEnd, rest);
      FilterMembership(ts, FromOn(s, a), ms[i]);
    }
    if t :| t in ts && t.transStart == s && t.input == a && q in Reach(ts, t.transEnd, rest) {
      FilterMembership(ts, FromOn(s, a), t);
      var i :| 0 <= i < |ms| && ms[i] == t;
    }
  }

  /** Extensionality of sets, stated once for the element type parameter. */
  lemma SameMembers<S>(x: set<S>, y: set<S>)
    requires forall q :: q in x <==> q in y
    ensures x == y
  {
  }

  /** With no transition leaving `s` on `a`, nothing is reached. */
  lemma ReachStuck<S, A>(ts: seq<Transition<S, A>>, s: S, a: A, rest: seq<A>)
    requires forall t :: t in ts ==> !(t.transStart == s && t.input == a)
    ensures Reach(ts, s, [a] + rest) == {}
  {
    forall q | q in Reach(ts, s, [a] + rest)
      ensures false
    {
      ReachStep(ts, s, a, rest, q);
    }
  }

  /** Both branches of a nondeterministic choice are explored. */
  lemma ReachBranches<S, A>(ts: seq<Transition<S, A>>, s: S, a: A, t1: S, t2: S, rest: seq<A>)
    requires Transition(s, a, t1) in ts && Transition(s, a, t2) in ts
    ensures Reach(ts, t1, rest) + Reach(ts, t2, rest) <= Reach(ts, s, [a] + rest)
  {
    forall q | q in Reach(ts, t1, rest) + Reach(ts, t2, rest)
      ensures q in Reach(ts, s, [a] + rest)
    {
      ReachStep(ts, s, a, rest, q);
      if q in Reach(ts, t1, rest) {
        assert Transition(s, a, t1).transEnd == t1;
      } else {
        assert Transition(s, a, t2).transEnd == t2;
      }
    }
  }

  /** Every reached state is a state of the automaton. */
  lemma {:induction false} ReachWithin<S, A>(states: set<S>, ts: seq<Transition<S, A>>, s: S, w: seq<A>)
    requires Closed(states, ts) && s in states
    ensures Reach(ts, s, w) <= states
  {
    if w != [] {
      var a, rest := w[0], w[1..];
      assert w == [a] + rest;
      forall q | q in Reach(ts, s, w)
        ensures q in states
      {
        ReachStep(ts, s, a, rest, q);
        var t :| t in ts && t.transStart == s && t.input == a && q in Reach(ts, t.transEnd, rest);
        ReachWithin(states, ts, t.transEnd, rest);
      }
    }
  }

  /** `p` is the sequence of states visited while reading `w`, each step
      taken along a transition of `ts`. */
  ghost predicate IsRun<S, A>(ts: seq<Transition<S, A>>, w: seq<A>, p: seq<S>)
  {
    |p| == |w| + 1 &&
    forall i :: 0 <= i < |w| ==> Transition(p[i], w[i], p[i + 1]) in ts
  }

  /** Reachability is exactly the end of some run: the recursive simulation
      explores every nondeterministic path and nothing else. */
  lemma {:induction false} ReachIffRun<S, A>(ts: seq<Transition<S, A>>, s: S, w: seq<A>, q: S)
    ensures q in Reach(ts, s, w) <==> exists p :: IsRun(ts, w, p) && p[0] == s && p[|w|] == q
  {
    if w == [] {
      if q == s {
        assert IsRun(ts, w, [s]);
      }
    } else {
      var a, rest := w[0], w[1..];
      assert w == [a] + rest;
      ReachStep(ts, s, a, rest, q);
      if q in Reach(ts, s, w) {
        var t :| t in ts && t.transStart == s && t.input == a && q in Reach(ts, t.transEnd, rest);
        ReachIffRun(ts, t.transEnd, rest, q);
        var p' :| IsRun(ts, rest, p') && p'[0] == t.transEnd && p'[|rest|] == q;
        var p := [s] + p';
        forall i | 0 <= i < |w|
          ensures Transition(p[i], w[i], p[i + 1]) in ts
        {
          if i == 0 {
            assert Transition(p[0], w[0], p[1]) == t;
          } else {
            assert Transition(p'[i - 1], rest[i - 1], p'[i]) in ts;
          }
        }
        assert IsRun(ts, w, p) && p[0] == s && p[|w|] == q;
      }
      if p :| IsRun(ts, w, p) && p[0] == s && p[|w|] == q {
        var t := Transition(p[0], w[0], p[1]);
        assert t in ts;
        var p' := p[1..];
        forall i | 0 <= i < |rest|
          ensures Transition(p'[i], rest[i], p'[i + 1]) in ts
        {
          assert Transition(p[i + 1], w[i + 1], p[i + 2]) in ts;
        }
        assert IsRun(ts, rest, p') && p'[0] == t.transEnd && p'[|rest|] == q;
        ReachIffRun(ts, t.transEnd, rest, q);
      }
    }
  }

  /** Acceptance is the existence of a run from the start state that ends in
      an accepting state. */
  lemma AcceptsIffRun<S, A>(ts: seq<Transition<S, A>>, start: S, ends: set<S>, w: seq<A>)
    ensures Accepts(ts, start, ends, w) <==>
            exists p :: IsRun(ts, w, p) && p[0] == start && p[|w|] in ends
  {
    if Accepts(ts, start, ends, w) {
      var q :| q in Reach(ts, start, w) && q in ends;
      ReachIffRun(ts, start, w, q);
    }
    if p :| IsRun(ts, w, p) && p[0] == start && p[|w|] in ends {
      ReachIffRun(ts, start, w, p[|w|]);
    }
  }

  /** The empty word is accepted exactly when the start state is accepting. */
  lemma AcceptsEmptyWord<S, A>(ts: seq<Transition<S, A>>, start: S, ends: set<S>)
    ensures Accepts(ts, start, ends, []) <==> start in ends
  {
    assert Reach(ts, start, []) == {start};
  }

  /** Adding a transition never loses a reached state: the language of an
      automaton only grows as transitions are appended. */
  lemma ReachGrows<S, A>(ts: seq<Transition<S, A>>, t: Transition<S, A>, s: S, w: seq<A>)
    ensures Reach(ts, s, w) <= Reach(ts + [t], s, w)
  {
    forall q | q in Reach(ts, s, w)
      ensures q in Reach(ts + [t], s, w)
    {
      ReachIffRun(ts, s, w, q);
      var p :| IsRun(ts, w, p) && p[0] == s && p[|w|] == q;
      assert IsRun(ts + [t], w, p);
      ReachIffRun(ts + [t], s, w, q);
    }
  }

  /** The breadth-first view of the simulation: the states one step on `a`
      away from some state of the frontier `f`. */
  function Step<S(==), A(==)>(ts: seq<Transition<S, A>>, f: set<S>, a: A): set<S>
  {
    set t | t in ts && t.transStart in f && t.input == a :: t.transEnd
  }

  /** The frontier after reading all of `w`, starting from frontier `f`. */
  function Frontier<S(==), A(==)>(ts: seq<Transition<S, A>>, f: set<S>, w: seq<A>): set<S>
    decreases |w|
  {
    if w == [] then f else Frontier(ts, Step(ts, f, w[0]), w[1..])
  }

  /** The frontier is the union of the recursive simulations from each of
      its states. */
  lemma {:induction false} FrontierIsReachUnion<S, A>(ts: seq<Transition<S, A>>, f: set<S>, w: seq<A>, q: S)
    ensures q in Frontier(ts, f, w) <==> exists s :: s in f && q in Reach(ts, s, w)
    decreases |w|
  {
    if w != [] {
      var a, rest := w[0], w[1..];
      assert w == [a] + rest;
      var g := Step(ts, f, a);
      FrontierIsReachUnion(ts, g, rest, q);
      if q in Frontier(ts, f, w) {
        var u :| u in g && q in Reach(ts, u, rest);
        var t :| t in ts && t.transStart in f && t.input == a && t.transEnd == u;
        ReachStep(ts, t.transStart, a, rest, q);
      }
      if s :| s in f && q in Reach(ts, s, w) {
        ReachStep(ts, s, a, rest, q);
        var t :| t in ts && t.transStart == s && t.input == a && q in Reach(ts, t.transEnd, rest);
        assert t.transEnd in g;
      }
    }
  }

  /** Starting from the start state alone, the frontier formulation and the
      recursive simulation compute the same set. */
  lemma FrontierIsReach<S, A>(ts: seq<Transition<S, A>>, s: S, w: seq<A>)
    ensures Frontier(ts, {s}, w) == Reach(ts, s, w)
  {
    forall q
      ensures q in Frontier(ts, {s}, w) <==> q in Reach(ts, s, w)
    {
      FrontierIsReachUnion(ts, {s}, w, q);
      if q in Frontier(ts, {s}, w) {
        var s' :| s' in {s} && q in Reach(ts, s', w);
        assert s' == s;
      }
      if q in Reach(ts, s, w) {
        assert s in {s};
      }
    }
    SameMembers(Frontier(ts, {s}, w), Reach(ts, s, w));
  }

  /** Once the frontier is empty it stays empty, so a simulation may stop
      and reject as soon as it gets stuck. */
  lemma {:induction false} FrontierStuck<S, A>(ts: seq<Transition<S, A>>, w: seq<A>)
    ensures Frontier(ts, {}, w) == {}
  {
    if w != [] {
      assert Step(ts, {}, w[0]) == {};
      FrontierStuck(ts, w[1..]);
    }
  }
}
