# NFA: a verified model of a generic nondeterministic finite automaton

This project models the automaton class `NFA<S, A>` of a small regular
expression engine. An automaton has a start state, a set of states, a set of
end (accepting) states and a list of labelled transitions kept in insertion
order. It is built up by three mutators, each of which checks its arguments
and refuses bad ones without changing anything. It answers two transition
lookups and decides acceptance of a word by simulating every
nondeterministic branch.

Files and modules:

- `filtering.dfy`, module `Filtering`: the order-preserving filter that both
  lookups perform, with its membership, multiplicity and subsequence lemmas.
- `semantics.dfy`, module `NfaSemantics`: the `Transition` triple, the
  recursive simulation `Reach` (with `ReachAll`, the union taken by its loop),
  acceptance `Accepts`, runs (`IsRun`) as an independent definition of
  reachability, and the breadth-first `Frontier` formulation, with the lemmas
  that tie them together.
- `automaton.dfy`, module `NfaAutomaton`: the class `NFA` with the source's
  fields, the object invariant `Valid()`, the mutators, the loop-based
  lookups, the recursive `Simulate` method and the nested-loop `Accept`
  method, each proved against the functions of `NfaSemantics`.
- `scenarios.dfy`, module `NfaScenarios`: three automata built through the
  mutators, with the accept/reject answers they must give.

Modelling decisions:

- The exceptions thrown by the mutators become an `Outcome` result
  (`Pass` or `Fail(error)`), one error per guard. Each mutator's contract says
  that on `Fail` nothing changed. `addTransition` checks the start state
  before the end state, so when both are missing the error is
  `UnknownTransitionStart`.
- `startState` is a `const`: the source assigns it only in the constructor.
- The mutators require `Valid()`, the invariant every constructed automaton
  has and every mutator keeps. The source checks nothing beyond the guards.
  `Valid()` holds of every automaton built and changed only through the
  constructor and the three mutators. The source's fields are `protected`,
  so code outside them could break it there; the Dafny fields are public
  `var`s in the same way.
- `HashSet` and `ArrayList` become `set` and `seq`. The order in which
  `accept` iterates over the two hash sets is unspecified, so `Accept` picks
  elements with `:|`. Its result does not depend on that order.
- `simulate` (NFA.java:115-141) recurses on the tail of the word and
  re-explores every branch. `Simulate` and `Reach` model that recursion.
  `Frontier` is the equivalent breadth-first formulation, and
  `FrontierIsReach` proves the two compute the same set.
- The inner class `Transition` (NFA.java:185-206) becomes the datatype
  `NfaSemantics.Transition`, a value triple `(transStart, input, transEnd)`
  whose fields play the role of its three getters.

## Model

| member | source | states |
|---|---|---|
| NfaAutomaton.NFA.constructor | src/main/java/cn/com/codemonkey/research/regex/domain/automaton/NFA.java:20-32 | a new automaton has states == {start}, no end states, no transitions, and satisfies the invariant |
| NfaAutomaton.NFA.SetEndState | src/main/java/cn/com/codemonkey/research/regex/domain/automaton/NFA.java:39-44 | fails with UnknownEndState exactly when the state is unknown, changing nothing; otherwise adds it to the end states (so re-marking is idempotent); states and transitions never change; the invariant (end states within states) is kept |
| NfaAutomaton.NFA.AddState | src/main/java/cn/com/codemonkey/research/regex/domain/automaton/NFA.java:55-60 | fails with DuplicateState exactly when the state is present, changing nothing; otherwise states grows by exactly that state; end states and transitions never change; the invariant is kept |
| NfaAutomaton.NFA.AddTransition | src/main/java/cn/com/codemonkey/research/regex/domain/automaton/NFA.java:69-77 | fails with UnknownTransitionStart if the start is unknown, else with UnknownTransitionEnd if the end is unknown, leaving transitions unchanged; otherwise appends exactly Transition(from, a, to); states and end states never change; the new transition shows up in the lookup from `from` on `a`; every transition stays between known states |
| NfaAutomaton.NFA.Valid | src/main/java/cn/com/codemonkey/research/regex/domain/automaton/NFA.java:20-31 | the object invariant the guards maintain: the start state is a state, every end state is a state, and every transition joins two states; established by the constructor and kept by every mutator |
| NfaAutomaton.NFA.GetStartState | src/main/java/cn/com/codemonkey/research/regex/domain/automaton/NFA.java:102-104 | returns the start state, with no precondition; it is one of the states whenever the invariant holds |
| NfaAutomaton.NFA.GetTransitions | src/main/java/cn/com/codemonkey/research/regex/domain/automaton/NFA.java:149-159 | the result is the order-preserving filter of the transition list by start state; a transition is in it iff it is a transition leaving `s`; the automaton is not modified |
| NfaAutomaton.NFA.GetTransitionsOn | src/main/java/cn/com/codemonkey/research/regex/domain/automaton/NFA.java:168-178 | the result is the order-preserving filter by start state and input; a transition is in it iff it leaves `s` on `a`; the automaton is not modified |
| NfaAutomaton.NFA.Simulate | src/main/java/cn/com/codemonkey/research/regex/domain/automaton/NFA.java:115-141 | the recursive simulation with its union loop returns exactly the reachable set `Reach(transitions, s, words)` |
| NfaAutomaton.NFA.Accept | src/main/java/cn/com/codemonkey/research/regex/domain/automaton/NFA.java:85-95 | the nested search with early return answers true iff some state reached from the start state on the word is an end state |
| NfaSemantics.Transition | src/main/java/cn/com/codemonkey/research/regex/domain/automaton/NFA.java:185-206 | the transition triple as an immutable value with fields transStart, input and transEnd |
| NfaSemantics.Reach | src/main/java/cn/com/codemonkey/research/regex/domain/automaton/NFA.java:123-140 | the recursion of `simulate`: {s} on the empty word, otherwise the union of `ReachAll` over the lookup on s and the first symbol; its meaning is stated by ReachStep, ReachIffRun and FrontierIsReach |
| NfaSemantics.ReachAll | src/main/java/cn/com/codemonkey/research/regex/domain/automaton/NFA.java:132-137 | the `addAll` loop of `simulate`: the union, in list order, of what is reached from the target of each matching transition; its meaning is stated by ReachAllMembership |
| NfaSemantics.Accepts | src/main/java/cn/com/codemonkey/research/regex/domain/automaton/NFA.java:86-94 | the decision of `accept`: some state reached from the start state is an end state; tied to runs by AcceptsIffRun |
| Filtering.Filter | src/main/java/cn/com/codemonkey/research/regex/domain/automaton/NFA.java:149-159 | the filtered list is no longer than the input and every element of it satisfies the predicate |
| Filtering.FilterSnoc | src/main/java/cn/com/codemonkey/research/regex/domain/automaton/NFA.java:152-156 | one scan step: filtering a list extended by one element appends that element exactly when it matches |
| Filtering.FilterMembership | src/main/java/cn/com/codemonkey/research/regex/domain/automaton/NFA.java:171-175 | an element is in the filtered list iff it is in the input and matches |
| Filtering.FilterCount | src/main/java/cn/com/codemonkey/research/regex/domain/automaton/NFA.java:171-175 | each matching element keeps its multiplicity, each non-matching one is dropped entirely |
| Filtering.FilterIsSubsequence | src/main/java/cn/com/codemonkey/research/regex/domain/automaton/NFA.java:168-178 | the lookup result is a subsequence of the transition list (insertion order preserved) |
| Filtering.FilterFilter | src/main/java/cn/com/codemonkey/research/regex/domain/automaton/NFA.java:153-172 | filtering by one predicate and then another equals filtering once by their conjunction |
| NfaSemantics.LookupOnNarrowsLookup | src/main/java/cn/com/codemonkey/research/regex/domain/automaton/NFA.java:149-178 | the lookup on state and symbol is the lookup on the state alone narrowed to the symbol |
| NfaSemantics.ReachAllMembership | src/main/java/cn/com/codemonkey/research/regex/domain/automaton/NFA.java:132-137 | the set accumulated by the simulation loop holds exactly the states reached from the target of some matching transition |
| NfaSemantics.ReachStep | src/main/java/cn/com/codemonkey/research/regex/domain/automaton/NFA.java:128-140 | nondeterministic union: on a non-empty word, q is reached from s iff q is reached on the rest of the word from the target of some transition leaving s on the first symbol |
| NfaSemantics.ReachStuck | src/main/java/cn/com/codemonkey/research/regex/domain/automaton/NFA.java:131-137 | when no transition leaves s on the first symbol, nothing is reached |
| NfaSemantics.ReachBranches | src/main/java/cn/com/codemonkey/research/regex/domain/automaton/NFA.java:131-137 | for two transitions s -a-> t1 and s -a-> t2, everything reached from t1 and from t2 on the rest is reached from s |
| NfaSemantics.ReachWithin | src/main/java/cn/com/codemonkey/research/regex/domain/automaton/NFA.java:115-141 | when every transition joins known states and s is known, every reached state is a known state |
| NfaSemantics.ReachIffRun | src/main/java/cn/com/codemonkey/research/regex/domain/automaton/NFA.java:115-141 | q is reached from s on w iff some run along transitions reads w from s and ends in q |
| NfaSemantics.AcceptsIffRun | src/main/java/cn/com/codemonkey/research/regex/domain/automaton/NFA.java:85-95 | a word is accepted iff some run reads it from the start state and ends in an end state |
| NfaSemantics.AcceptsEmptyWord | src/main/java/cn/com/codemonkey/research/regex/domain/automaton/NFA.java:125-127 | the empty word is accepted iff the start state is an end state |
| NfaSemantics.ReachGrows | src/main/java/cn/com/codemonkey/research/regex/domain/automaton/NFA.java:76 | appending a transition never removes a reached state |
| NfaSemantics.FrontierIsReachUnion | src/main/java/cn/com/codemonkey/research/regex/domain/automaton/NFA.java:115-141 | the breadth-first frontier after w holds exactly the states reached on w from some state of the initial frontier |
| NfaSemantics.FrontierIsReach | src/main/java/cn/com/codemonkey/research/regex/domain/automaton/NFA.java:115-141 | starting from the start state alone, the frontier formulation equals the recursive simulation |
| NfaSemantics.FrontierStuck | src/main/java/cn/com/codemonkey/research/regex/domain/automaton/NFA.java:131-137 | an empty frontier stays empty, so a simulation may reject as soon as it gets stuck |
| NfaScenarios.SingleEdge | src/main/java/cn/com/codemonkey/research/regex/domain/automaton/NFA.java:85-95 | with one edge 0 -a-> 1 and end state 1: "a" accepted; "b", the empty word and "aa" rejected |
| NfaScenarios.AcceptingStart | src/main/java/cn/com/codemonkey/research/regex/domain/automaton/NFA.java:85-95 | with an accepting start state and no edges: the empty word accepted, "x" rejected |
| NfaScenarios.NondeterministicChoice | src/main/java/cn/com/codemonkey/research/regex/domain/automaton/NFA.java:85-95 | with edges 0 -a-> 1 and 0 -a-> 2 and only 2 accepting: "a" accepted through the second branch |

## Left out

- The symbolic name field and its setter and getter: a display label with no effect on behaviour.
- `Transition.toString`: cosmetic text built from a constant defined in another file, which is not part of this model.
- Null states, symbols and words, and the exceptions they cause: the explicit checks in the constructor and in `simulate`, and the `NullPointerException`s the lookups and `simulate` would raise after `addState(null)` or `addTransition` with a null symbol or endpoint. Dafny values are never null, so these paths cannot arise.
- The getters of the inner `Transition` class: they are the fields of the `Transition` datatype.
- The separate type parameters of the inner `Transition` class: they are always instantiated with the automaton's own.
- Hashing, allocation and the iteration order of `HashSet`: sets are Dafny `set`s and `Accept` chooses elements nondeterministically.
- Concurrent use: the source has none.
- NfaAutomaton.NFA.SetEndState, NfaAutomaton.NFA.AddState, NfaAutomaton.NFA.AddTransition: they require the object invariant `Valid()`, which the source does not check; every automaton built by the constructor and the mutators satisfies it.
