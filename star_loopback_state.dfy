/** The loop-back state of a `*` loop. Its loop-entry state is not stored:
 *  it is found by following the state's first transition, whose target must
 *  be a star-loop-entry state. */
module StarLoopbackState {
  import AtnGraph

  /** `s` is a star-loop-back state whose transition 0 exists and leads to a
   *  star-loop-entry state: the condition under which the loop entry can be
   *  read (otherwise the index or the cast fails). */
  predicate HasLoopEntry(a: AtnGraph.Atn, s: nat) {
    s < |a.states| && s < |a.transitions| && a.states[s] == AtnGraph.StarLoopBack
    && |a.transitions[s]| > 0
    && a.transitions[s][0].target < |a.states|
    && a.states[a.transitions[s][0].target] == AtnGraph.StarLoopEntry
  }

  /** The loop-entry state of loop-back state `s`: the target of its
   *  transition 0, which is a star-loop-entry state. */
  function LoopEntryState(a: AtnGraph.Atn, s: nat): (e: nat)
    requires HasLoopEntry(a, s)
    ensures e == a.transitions[s][0].target
    ensures e < |a.states| && a.states[e] == AtnGraph.StarLoopEntry
  {
    a.transitions[s][0].target
  }

  /** The type a star-loop-back state reports: always `StarLoopBack`, which is
   *  the type tag the state carries in the network. */
  function StateType(a: AtnGraph.Atn, s: nat): (t: AtnGraph.StateType)
    requires s < |a.states| && a.states[s] == AtnGraph.StarLoopBack
    ensures t == AtnGraph.StarLoopBack && t == a.states[s]
  {
    AtnGraph.StarLoopBack
  }

  /** Only transition 0 matters: two networks that agree on transition 0 of
   *  `s` and on the types of `s` and of its target give the same loop entry,
   *  whatever the other transitions of `s` and the other states are. */
  lemma LoopEntryOnlyReadsTransitionZero(a: AtnGraph.Atn, b: AtnGraph.Atn, s: nat)
    requires HasLoopEntry(a, s)
    requires s < |b.states| && s < |b.transitions| && |b.transitions[s]| > 0
    requires b.transitions[s][0] == a.transitions[s][0]
    requires b.states[s] == AtnGraph.StarLoopBack
    requires b.transitions[s][0].target < |b.states|
    requires b.states[b.transitions[s][0].target] == AtnGraph.StarLoopEntry
    ensures HasLoopEntry(b, s) && LoopEntryState(b, s) == LoopEntryState(a, s)
  {
  }

  /** Growing the network never changes which loop a loop-back state belongs
   *  to: the accessor stays defined and gives the same entry state. */
  lemma LoopEntryStable(a: AtnGraph.Atn, b: AtnGraph.Atn, s: nat)
    requires HasLoopEntry(a, s) && a.Extends(b) && |b.transitions| == |b.states|
    ensures HasLoopEntry(b, s) && LoopEntryState(b, s) == LoopEntryState(a, s)
  {
    assert a.transitions[s] <= b.transitions[s];
    assert b.transitions[s][0] == a.transitions[s][0];
  }
}
