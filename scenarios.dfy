/** Small automata built through the mutators and queried through `Accept`:
    a single edge, an accepting start state without edges, and a
    nondeterministic choice of which only one branch accepts. */
module NfaScenarios {
  import opened NfaSemantics
  import opened NfaAutomaton

  /** Start state 0, end state 1, one edge 0 -a-> 1. */
  method SingleEdge() returns (onA: bool, onB: bool, onEmpty: bool, onAA: bool)
    ensures onA && !onB && !onEmpty && !onAA
  {
    var nfa := new NFA<int, char>(0);
    var r := nfa.AddState(1);
    r := nfa.SetEndState(1);
    r := nfa.AddTransition(0, 'a', 1);
    assert nfa.transitions == [Transition(0, 'a', 1)] && nfa.endStates == {1};

    onA := nfa.Accept(['a']);
    ReachStep(nfa.transitions, 0, 'a', [], 1);

    onB := nfa.Accept(['b']);
    ReachStuck(nfa.transitions, 0, 'b', []);

    onEmpty := nfa.Accept([]);
    AcceptsEmptyWord(nfa.transitions, 0, {1});

    onAA := nfa.Accept(['a', 'a']);
    ghost var ts := nfa.transitions;
    ReachStuck(ts, 1, 'a', []);
    assert ['a', 'a'] == ['a'] + ['a'];
    forall q | q in Reach(ts, 0, ['a'] + ['a'])
      ensures q in Reach(ts, 1, ['a'])
    {
      ReachStep(ts, 0, 'a', ['a'], q);
    }
  }

  /** Start state 0 is also its own end state; there are no edges. */
  method AcceptingStart() returns (onEmpty: bool, onX: bool)
    ensures onEmpty && !onX
  {
    var nfa := new NFA<int, char>(0);
    var r := nfa.SetEndState(0);
    assert nfa.transitions == [] && nfa.endStates == {0};

    onEmpty := nfa.Accept([]);
    AcceptsEmptyWord(nfa.transitions, 0, {0});

    onX := nfa.Accept(['x']);
    ReachStuck(nfa.transitions, 0, 'x', []);
  }

  /** Edges 0 -a-> 1 and 0 -a-> 2 with only 2 accepting: the word "a" is
      accepted through the second branch although the first one fails. */
  method NondeterministicChoice() returns (onA: bool)
    ensures onA
  {
    var nfa := new NFA<int, char>(0);
    var r := nfa.AddState(1);
    r := nfa.AddState(2);
    r := nfa.SetEndState(2);
    r := nfa.AddTransition(0, 'a', 1);
    r := nfa.AddTransition(0, 'a', 2);
    assert nfa.transitions == [Transition(0, 'a', 1), Transition(0, 'a', 2)];
    assert nfa.endStates == {2};

    onA := nfa.Accept(['a']);
    ReachBranches(nfa.transitions, 0, 'a', 1, 2, []);
    assert ['a'] + [] == ['a'];
    assert 2 in Reach(nfa.transitions, 2, []);
  }
}
