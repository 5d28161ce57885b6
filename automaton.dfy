/** The automaton object itself: a start state, the set of states, the set of
    end (accepting) states and the insertion-ordered list of transitions,
    grown in place by the mutators and queried by the lookups and the
    acceptance check. */
module NfaAutomaton {
  import opened Filtering
  import opened NfaSemantics

  /** The argument errors the mutators raise, one per guard. */
  datatype NfaError =
    | DuplicateState          // addState on a state already present
    | UnknownEndState         // setEndState on a state not present
    | UnknownTransitionStart  // addTransition whose start is not present
    | UnknownTransitionEnd    // addTransition whose end is not present

  /** Either the mutation happened, or it was refused and nothing changed. */
  datatype Outcome = Pass | Fail(error: NfaError)

  class NFA<S(==), A(==)> {
    const startState: S
    var states: set<S>
    var endStates: set<S>
    var transitions: seq<Transition<S, A>>

    /** The object invariant every mutator keeps: the start state is a
        state, every end state is a state, and every transition joins two
        states. */
    ghost predicate Valid()
      reads this
    {
      startState in states && endStates <= states && Closed(states, transitions)
    }

    /** A new automaton holds its start state and nothing else. */
    constructor (start: S)
      ensures Valid()
      ensures startState == start
      ensures states == {start} && endStates == {} && transitions == []
    {
      startState := start;
      states := {start};
      endStates := {};
      transitions := [];
    }

    /** Marks `s` as accepting; refused when `s` is not a state. Marking a
        state twice leaves the end states as after the first time. */
    method SetEndState(s: S) returns (r: Outcome)
      requires Valid()
      modifies this
      ensures Valid()
      ensures r == if s in old(states) then Pass else Fail(UnknownEndState)
      ensures endStates == if r.Pass? then old(endStates) + {s} else old(endStates)
      ensures states == old(states) && transitions == old(transitions)
    {
      if s !in states {
        return Fail(UnknownEndState);
      }
      endStates := endStates + {s};
      r := Pass;
    }

    /** Adds a new state; refused when `s` is already a state. */
    method AddState(s: S) returns (r: Outcome)
      requires Valid()
      modifies this
      ensures Valid()
      ensures r == if s in old(states) then Fail(DuplicateState) else Pass
      ensures states == if r.Pass? then old(states) + {s} else old(states)
      ensures endStates == old(endStates) && transitions == old(transitions)
    {
      if s in states {
        return Fail(DuplicateState);
      }
      states := states + {s};
      r := Pass;
    }

    /** Appends the transition `(from, a, to)`; refused, start checked first,
        when either endpoint is not a state. The new transition is visible to
        the lookup from `from` on `a`. */
    method AddTransition(from: S, a: A, to: S) returns (r: Outcome)
      requires Valid()
      modifies this
      ensures Valid()
      ensures r == if from !in old(states) then Fail(UnknownTransitionStart)
                   else if to !in old(states) then Fail(UnknownTransitionEnd)
                   else Pass
      ensures transitions == if r.Pass? then old(transitions) + [Transition(from, a, to)]
                             else old(transitions)
      ensures states == old(states) && endStates == old(endStates)
      ensures r.Pass? ==> Transition(from, a, to) in Filter(transitions, FromOn(from, a))
    {
      if from !in states {
        return Fail(UnknownTransitionStart);
      }
      if to !in states {
        return Fail(UnknownTransitionEnd);
      }
      transitions := transitions + [Transition(from, a, to)];
      FilterMembership(transitions, FromOn(from, a), Transition(from, a, to));
      r := Pass;
    }

    /** The start state, which is one of the states whenever the automaton
        satisfies its invariant. */
    function GetStartState(): (s: S)
      reads this
      ensures s == startState
      ensures Valid() ==> s in states
    {
      startState
    }

    /** The transitions leaving `s`, in insertion order. */
    method GetTransitions(s: S) returns (r: seq<Transition<S, A>>)
      ensures r == Filter(transitions, From(s))
      ensures forall t :: t in r <==> t in transitions && t.transStart == s
    {
      r := [];
      var i := 0;
      while i < |transitions|
        invariant 0 <= i <= |transitions|
        invariant r == Filter(transitions[..i], From(s))
      {
        var t := transitions[i];
        assert transitions[..i + 1][..i] == transitions[..i];
        if t.transStart == s {
          r := r + [t];
        }
        i := i + 1;
      }
      assert transitions[..i] == transitions;
      forall t
        ensures t in r <==> t in transitions && t.transStart == s
      {
        FilterMembership(transitions, From(s), t);
      }
    }

    /** The transitions leaving `s` on symbol `a`, in insertion order. */
    method GetTransitionsOn(s: S, a: A) returns (r: seq<Transition<S, A>>)
      ensures r == Filter(transitions, FromOn(s, a))
      ensures forall t :: t in r <==> t in transitions && t.transStart == s && t.input == a
    {
      r := [];
      var i := 0;
      while i < |transitions|
        invariant 0 <= i <= |transitions|
        invariant r == Filter(transitions[..i], FromOn(s, a))
      {
        var t := transitions[i];
        assert transitions[..i + 1][..i] == transitions[..i];
        if t.transStart == s && t.input == a {
          r := r + [t];
        }
        i := i + 1;
      }
      assert transitions[..i] == transitions;
      forall t
        ensures t in r <==> t in transitions && t.transStart == s && t.input == a
      {
        FilterMembership(transitions, FromOn(s, a), t);
      }
    }

    /** The states reached from `s` after consuming `words`, explored branch
        by branch through recursion on the rest of the word. */
    method Simulate(s: S, words: seq<A>) returns (result: set<S>)
      ensures result == Reach(transitions, s, words)
      decreases |words|
    {
      if words == [] {
        return {s};
      }
      var matches := GetTransitionsOn(s, words[0]);
      result := {};
      var i := 0;
      while i < |matches|
        invariant 0 <= i <= |matches|
        invariant result == ReachAll(transitions, matches[..i], words[1..])
      {
        var remaining := words[1..];
        var reached := Simulate(matches[i].transEnd, remaining);
        assert matches[..i + 1][..i] == matches[..i];
        result := result + reached;
        i := i + 1;
      }
      assert matches[..i] == matches;
    }

    /** Whether some state reached from the start state on `words` is an end
        state, searched pairwise with an early exit on the first match. */
    method Accept(words: seq<A>) returns (accepted: bool)
      ensures accepted == Accepts(transitions, startState, endStates, words)
    {
      var resultStates := Simulate(startState, words);
      var pending := resultStates;
      while pending != {}
        invariant pending <= resultStates
        invariant forall q :: q in resultStates && q !in pending ==> q !in endStates
        decreases |pending|
      {
        var resultState :| resultState in pending;
        var ends := endStates;
        while ends != {}
          invariant ends <= endStates
          invariant forall e :: e in endStates && e !in ends ==> e != resultState
          decreases |ends|
        {
          var endState :| endState in ends;
          if resultState == endState {
            return true;
          }
          ends := ends - {endState};
        }
        pending := pending - {resultState};
      }
      accepted := false;
    }
  }
}
