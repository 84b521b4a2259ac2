/** The state and transition graph of an augmented transition network (ATN),
 *  held as an arena. A state is its index in the arena; each state has a
 *  type tag and an ordered list of outgoing transitions, whose order is the
 *  alternative order of a decision. Rule start/stop states are indexed by rule
 *  name, decision states are listed in the order they were created, and the
 *  handles of the blocks of alternatives built so far are recorded. */
module AtnGraph {

  /** The closed set of state types. */
  datatype StateType =
    | Basic
    | RuleStart
    | BlockStart
    | RuleStop
    | BlockEnd
    | StarLoopBack
    | StarLoopEntry
    | PlusLoopBack
    | LoopEnd

  /** The state types whose states choose between alternatives. */
  predicate IsDecisionType(t: StateType) {
    t.BlockStart? || t.StarLoopEntry? || t.PlusLoopBack?
  }

  /** What an atom or set transition matches, kept as an opaque payload: a
   *  character of a lexer literal, a token, a character-set literal, a range,
   *  or the complement of a set of labels. Their meaning as token types or
   *  code points is not modelled. */
  datatype Label =
    | Char(c: char)
    | Token(text: string)
    | CharSet(text: string)
    | CharRange(lo: string, hi: string)
    | NotSet(labels: seq<Label>)

  /** The kind of a transition, with its kind-specific payload. A rule
   *  transition's target is the called rule's start state; `follow` is the
   *  state reached when the call returns. */
  datatype TransitionKind =
    | EpsilonKind
    | AtomKind(atom: Label)
    | RangeKind(lo: string, hi: string)
    | SetKind(labels: seq<Label>, invert: bool)
    | WildcardKind
    | RuleKind(rule: string, follow: nat)
    | PredicateKind(pred: string)
    | ActionKind(action: string)

  datatype Transition = Transition(target: nat, kind: TransitionKind)

  /** The left (entry) and right (exit) states of a sub-automaton. */
  datatype Handle = Handle(left: nat, right: nat)

  /** Every state a transition refers to exists among the first `n` states. */
  predicate InRange(t: Transition, n: nat) {
    t.target < n && (t.kind.RuleKind? ==> t.kind.follow < n)
  }

  /** The start and stop states of a rule. */
  datatype RuleEnds = RuleEnds(start: nat, stop: nat)

  datatype Atn = Atn(
    states: seq<StateType>,
    transitions: seq<seq<Transition>>,
    rules: map<string, RuleEnds>,
    decisions: seq<nat>,
    blocks: set<Handle>)
  {
    /** Well-formedness of the arena: one transition list per state, every
     *  reference points at an existing state, the rule tables point at states
     *  of the right type, and the decision list holds, in creation order,
     *  exactly the states of a decision type, and every recorded block runs
     *  from a block start to a block end. */
    predicate Valid() {
      |transitions| == |states| && EdgesInRange() && RulesInRange()
      && decisions == DecisionsOf(states) && BlocksInRange()
    }

    predicate EdgesInRange() {
      forall s, i :: 0 <= s < |transitions| && 0 <= i < |transitions[s]| ==>
        InRange(transitions[s][i], |states|)
    }

    predicate RulesInRange() {
      forall r :: r in rules ==>
        rules[r].start < |states| && states[rules[r].start] == RuleStart
        && rules[r].stop < |states| && states[rules[r].stop] == RuleStop
    }

    predicate BlocksInRange() {
      forall h :: h in blocks ==>
        Holds(h) && states[h.left] == BlockStart && states[h.right] == BlockEnd
    }

    /** Both boundary states of `h` exist. */
    predicate Holds(h: Handle) {
      h.left < |states| && h.right < |states|
    }

    /** `b` is this network grown monotonically: states appended, existing
     *  transition lists only appended to, rule entries and blocks kept. */
    predicate Extends(b: Atn) {
      |states| <= |b.states| && |transitions| <= |b.transitions|
      && (forall s :: 0 <= s < |states| ==> b.states[s] == states[s])
      && (forall s :: 0 <= s < |transitions| ==> transitions[s] <= b.transitions[s])
      && (forall r :: r in rules ==> r in b.rules && b.rules[r] == rules[r])
      && blocks <= b.blocks
    }

    /** Every existing state outside `touched` keeps its transitions in `b`. */
    predicate KeepsOutside(b: Atn, touched: set<nat>) {
      forall s :: 0 <= s < |transitions| && s !in touched ==>
        s < |b.transitions| && b.transitions[s] == transitions[s]
    }

    /** Allocates a state of type `t` with no transitions; a decision state is
     *  registered with the next decision number. */
    function AddState(t: StateType): (r: Atn)
      requires |transitions| == |states|
      ensures r.states == states + [t] && r.transitions == transitions + [[]]
      ensures r.rules == rules && r.blocks == blocks
      ensures r.decisions == if IsDecisionType(t) then decisions + [|states|] else decisions
    {
      this.(states := states + [t], transitions := transitions + [[]],
            decisions := if IsDecisionType(t) then decisions + [|states|] else decisions)
    }

    /** Appends transition `t` to the transitions of state `s`. */
    function AddEdge(s: nat, t: Transition): (r: Atn)
      requires |transitions| == |states| && s < |states|
      ensures r.states == states && r.transitions == transitions[s := transitions[s] + [t]]
      ensures r.rules == rules && r.decisions == decisions && r.blocks == blocks
    {
      this.(transitions := transitions[s := transitions[s] + [t]])
    }

    /** Records `ends` as the start and stop states of rule `name`. */
    function AddRule(name: string, ends: RuleEnds): (r: Atn)
      ensures r.states == states && r.transitions == transitions
      ensures r.rules == rules[name := ends] && r.decisions == decisions && r.blocks == blocks
    {
      this.(rules := rules[name := ends])
    }

    /** Records `h` as the handle of a block of alternatives. */
    function AddBlock(h: Handle): (r: Atn)
      ensures r.states == states && r.transitions == transitions
      ensures r.rules == rules && r.decisions == decisions && r.blocks == blocks + {h}
    {
      this.(blocks := blocks + {h})
    }

    /** The target of alternative `alt` (numbered from 1) of decision `d`. */
    function AltTarget(d: nat, alt: nat): (s: nat)
      requires d < |transitions| && 1 <= alt <= |transitions[d]|
    {
      transitions[d][alt - 1].target
    }
  }

  /** The decision states of a network whose states have types `ts`: the
   *  states of a decision type, in creation order. */
  function DecisionsOf(ts: seq<StateType>): seq<nat>
    decreases |ts|
  {
    if ts == [] then []
    else DecisionsOf(ts[..|ts| - 1]) + (if IsDecisionType(ts[|ts| - 1]) then [|ts| - 1] else [])
  }

  /** A state is registered as a decision exactly when its type is a
   *  decision type. */
  lemma {:induction false} DecisionsAreDecisionTypes(ts: seq<StateType>, s: nat)
    ensures s in DecisionsOf(ts) <==> s < |ts| && IsDecisionType(ts[s])
    decreases |ts|
  {
    if ts != [] {
      var front := ts[..|ts| - 1];
      DecisionsAreDecisionTypes(front, s);
      if s < |front| {
        assert front[s] == ts[s];
      }
    }
  }

  /** The network a construction starts from. */
  function EmptyAtn(): (a: Atn)
    ensures a.Valid() && |a.states| == 0 && a.rules == map[] && a.decisions == [] && a.blocks == {}
  {
    Atn([], [], map[], [], {})
  }

  /** Allocating a state keeps the network well formed and only grows it. */
  lemma AddStateKeepsValid(a: Atn, t: StateType)
    requires a.Valid()
    ensures a.AddState(t).Valid() && a.Extends(a.AddState(t))
  {
    var r := a.AddState(t);
    assert r.states[..|a.states|] == a.states;
  }

  /** Adding a transition between existing states keeps the network well
   *  formed and only grows it. */
  lemma AddEdgeKeepsValid(a: Atn, s: nat, t: Transition)
    requires a.Valid() && s < |a.states| && InRange(t, |a.states|)
    ensures a.AddEdge(s, t).Valid() && a.Extends(a.AddEdge(s, t))
  {
  }

  /** Recording a new rule whose states have the rule start and rule stop
   *  types keeps the network well formed and only grows it. */
  lemma AddRuleKeepsValid(a: Atn, name: string, ends: RuleEnds)
    requires a.Valid() && name !in a.rules
    requires ends.start < |a.states| && a.states[ends.start] == RuleStart
    requires ends.stop < |a.states| && a.states[ends.stop] == RuleStop
    ensures a.AddRule(name, ends).Valid() && a.Extends(a.AddRule(name, ends))
  {
  }

  /** Recording a block that runs from a block start to a block end keeps the
   *  network well formed and only grows it. */
  lemma AddBlockKeepsValid(a: Atn, h: Handle)
    requires a.Valid() && a.Holds(h) && a.states[h.left] == BlockStart && a.states[h.right] == BlockEnd
    ensures a.AddBlock(h).Valid() && a.Extends(a.AddBlock(h))
  {
  }

  /** A network is a growth of itself. */
  lemma ExtendsReflexive(a: Atn)
    ensures a.Extends(a)
  {
  }

  /** `b` grows `a` when it appends states, keeps the transitions of every
   *  state outside `touched`, only appends to those of the touched ones, and
   *  keeps the rule table and the blocks. */
  lemma ExtendsWhenKept(a: Atn, b: Atn, added: seq<StateType>, touched: set<nat>)
    requires b.states == a.states + added && |a.transitions| <= |b.transitions|
    requires a.KeepsOutside(b, touched)
    requires forall s :: s in touched && 0 <= s < |a.transitions| ==> a.transitions[s] <= b.transitions[s]
    requires b.rules == a.rules && a.blocks <= b.blocks
    ensures a.Extends(b)
  {
    forall s | 0 <= s < |a.transitions|
      ensures a.transitions[s] <= b.transitions[s]
    {
      if s !in touched {
        assert b.transitions[s] == a.transitions[s];
      }
    }
  }

  /** `b` grows `a` when it appends states, only appends to the transitions
   *  of every existing state, and keeps the rule table and the blocks. */
  lemma ExtendsWhenAppended(a: Atn, b: Atn, added: seq<StateType>)
    requires b.states == a.states + added && |a.transitions| <= |b.transitions|
    requires forall s :: 0 <= s < |a.transitions| ==> a.transitions[s] <= b.transitions[s]
    requires b.rules == a.rules && a.blocks <= b.blocks
    ensures a.Extends(b)
  {
  }

  /** Growth composes. */
  lemma ExtendsTransitive(a: Atn, b: Atn, c: Atn)
    requires a.Extends(b) && b.Extends(c)
    ensures a.Extends(c)
  {
    forall s | 0 <= s < |a.transitions|
      ensures a.transitions[s] <= c.transitions[s]
    {
      assert a.transitions[s] <= b.transitions[s] <= c.transitions[s];
    }
  }
}
