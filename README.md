# ATN construction laws of the ANTLR grammar compiler

The grammar compiler turns every grammar construct into a fragment of an
augmented transition network (ATN). The fragment is identified by a `Handle`,
the pair of its left (entry) and right (exit) states. The `ATNFactory`
interface has one builder operation per construct:
- token and string literals, sets, ranges and the wildcard;
- rule references and rule bodies;
- epsilon, predicate and action edges;
- alternatives and blocks;
- the `?`, `+` and `*` subrules.

The interface documents a structural law for each operation.
`StarLoopbackState` is the loop-back state of a `*` loop. It finds its
loop-entry state through its transition 0.

The class that implements the factory is not part of this model. The project
is a reference implementation of the documented laws, with proofs:

- `atn_graph.dfy` (module `AtnGraph`) holds the network as an arena value. A
  state is an index with a type tag and an ordered list of outgoing
  transitions; the order is the alternative order of a decision. Each rule
  name maps to its start and stop states, decision states are listed in
  creation order, and the handles of the blocks of alternatives built so far
  are recorded, so that `?` can tell a block from any other fragment. `Atn.Valid` is the well-formedness invariant and
  `Atn.Extends` is monotone growth.
- `construction.dfy` (module `Construction`) has one predicate per construct
  (`IsEdge`, `IsChain`, `IsRuleRef`, `IsRule`, `IsAlt`, `IsBlock`,
  `IsOptional`, `IsPlus`, `IsStar`, …). Each predicate states exactly which
  states are appended, with which types, which transitions every state gains,
  which decisions are added, and that nothing else changes. Its lemmas derive
  the documented laws from these shapes.
- `atn_factory.dfy` (module `AtnFactory`) holds the class `Factory`, which
  owns the network. Its methods allocate states and append transitions; the
  string literal, alternative and block builders do this in loops. Each
  method is proved to keep the network well formed, to only grow it, and to
  build exactly the shape its predicate describes.
- `star_loopback_state.dfy` (module `StarLoopbackState`) holds the
  `LoopEntryState` accessor and the `StateType` constant, as functions over
  the arena.

A `Handle` is a value, `Handle(left, right)`, since no builder operation
reassigns a handle's fields. Transitions are numbered from 0, so alternative
k of a decision is transition k - 1 (`Atn.AltTarget`).

## Model

| member | source | states |
|---|---|---|
| AtnGraph.Atn.AddState | runtime/CSharp/Antlr4.Tool/Automata/ATNFactory.cs:43-44 | a new state gets the next index and no transitions; a state of a decision type also becomes the next decision |
| AtnGraph.DecisionsAreDecisionTypes | runtime/CSharp/Antlr4.Tool/Automata/ATNFactory.cs:186-189 | a state is registered as a decision exactly when its type is a decision type |
| AtnGraph.EmptyAtn | runtime/CSharp/Antlr4.Tool/Automata/ATNFactory.cs:33-34 | construction starts from a well-formed network with no states, rules or decisions |
| AtnGraph.AddStateKeepsValid | runtime/CSharp/Antlr4.Tool/Automata/ATNFactory.cs:43-44 | allocating a state keeps the network well formed and only grows it |
| StarLoopbackState.LoopEntryState | runtime/CSharp/Antlr4.Runtime/Atn/StarLoopbackState.cs:10-16 | defined only when transition 0 exists and leads to a star-loop-entry state; the result is exactly that target |
| StarLoopbackState.StateType | runtime/CSharp/Antlr4.Runtime/Atn/StarLoopbackState.cs:18-24 | always `StarLoopBack`, the type tag the state has in the network |
| StarLoopbackState.LoopEntryOnlyReadsTransitionZero | runtime/CSharp/Antlr4.Runtime/Atn/StarLoopbackState.cs:14 | networks that agree on transition 0 of the state and on the types of the state and of that transition's target give the same loop entry, whatever the other transitions and states are |
| StarLoopbackState.LoopEntryStable | runtime/CSharp/Antlr4.Runtime/Atn/StarLoopbackState.cs:10-16 | once defined, the loop entry stays defined and unchanged however the network grows |
| Construction.ChainStep | runtime/CSharp/Antlr4.Tool/Automata/ATNFactory.cs:64-69 | one fresh state plus one atom edge for the next character extends the chain by that character |
| Construction.ChainSpellsText | runtime/CSharp/Antlr4.Tool/Automata/ATNFactory.cs:64-69 | walking a lexer literal's chain from its left state spells the literal; every chain transition matches one single character |
| Construction.WithRule | runtime/CSharp/Antlr4.Tool/Automata/ATNFactory.cs:73-77 | a rule's start and stop states are the recorded ones when the rule is known, and two fresh states otherwise |
| Construction.WithRuleKeepsValid | runtime/CSharp/Antlr4.Tool/Automata/ATNFactory.cs:40-41 | looking up or creating a rule's states keeps the network well formed; they have the rule start and rule stop types |
| Construction.RuleRefReachesRightOnlyAsFollow | runtime/CSharp/Antlr4.Tool/Automata/ATNFactory.cs:73-79 | the left state's single transition 0 is a rule transition to the rule's start state with the right state as follow; no transition targets the right state |
| Construction.FreshStateUnreached | runtime/CSharp/Antlr4.Tool/Automata/ATNFactory.cs:77-79 | a trailing fresh state with no incoming edge from old states or from the call state is reached by no transition |
| Construction.CallTargetIsSealedStart | runtime/CSharp/Antlr4.Tool/Automata/ATNFactory.cs:73-77 | a reference made before the rule is sealed calls the start state the rule is later sealed with |
| Construction.AltChainsElements | runtime/CSharp/Antlr4.Tool/Automata/ATNFactory.cs:112-113 | each element's right state gains exactly one epsilon to the next element's left state; every other state keeps its transitions |
| Construction.UnionLabels | runtime/CSharp/Antlr4.Tool/Automata/ATNFactory.cs:133-134 | a label is in the collapsed set exactly when some alternative matches it |
| Construction.FanOutStart | runtime/CSharp/Antlr4.Tool/Automata/ATNFactory.cs:125-128 | a fresh block start and block end form a block with no alternative wired yet |
| Construction.FanOutStep | runtime/CSharp/Antlr4.Tool/Automata/ATNFactory.cs:125-128 | wiring alternative i (an epsilon from the start into it, one from its right state to the end) extends the partial block by that alternative |
| Construction.FanOutDone | runtime/CSharp/Antlr4.Tool/Automata/ATNFactory.cs:115-128 | a partial block with every alternative wired is the general block |
| Construction.SetBlockCollapses | runtime/CSharp/Antlr4.Tool/Automata/ATNFactory.cs:133-134 | a block of only token, character, range or set alternatives, inverted sets included, is one set edge between two fresh states with no new decision; an inverted set is carried as its complement label |
| Construction.BlockJoinsAlternatives | runtime/CSharp/Antlr4.Tool/Automata/ATNFactory.cs:115-128 | every alternative's right state gains exactly one epsilon to the one shared block end; no other state changes |
| Construction.BlockNumbersAlternatives | runtime/CSharp/Antlr4.Tool/Automata/ATNFactory.cs:136 | the block start is a new decision whose alternative k enters the k-th fragment, for k in 1..n |
| Construction.OptionalBlockAlternatives | runtime/CSharp/Antlr4.Tool/Automata/ATNFactory.cs:143-150 | `?` on a block appends exactly one alternative, numbered last and leading to the block end, keeps the others and adds no decision |
| Construction.OptionalOfPlusIsBypass | runtime/CSharp/Antlr4.Tool/Automata/ATNFactory.cs:143-150 | `?` on a `+` loop, even one over a block, builds the bypass wrapper as one new decision and leaves the inner block's alternatives unchanged |
| Construction.PlusFollowIsLastAlternative | runtime/CSharp/Antlr4.Tool/Automata/ATNFactory.cs:154-166 | the loop decision re-enters A's alternatives 1..n in order, and its follow edge (transition 1) is alternative n + 1 |
| Construction.StarFromLoopAndBypass | runtime/CSharp/Antlr4.Tool/Automata/ATNFactory.cs:170-180 | the loop of A followed by the optional bypass around A+ (from A's left state to the loop end) is the star shape |
| Construction.StarLoopBackResolvesEntry | runtime/CSharp/Antlr4.Tool/Automata/ATNFactory.cs:170-181 | the loop-back state of `(A)*` finds the loop's own entry state through the accessor |
| Construction.StarDecisionPoints | runtime/CSharp/Antlr4.Tool/Automata/ATNFactory.cs:186-189 | `(A)*` adds exactly two decisions, the loop entry and the bypass, both distinct from A's left state; A's left state is a decision afterwards exactly when it was before, and it is one when A is a block; so two decisions, or three with a block |
| Construction.StarIsNotPlusOfOptional | runtime/CSharp/Antlr4.Tool/Automata/ATNFactory.cs:191-192 | a star over a block leaves the block at its n alternatives and bypasses it from a separate decision, while `+` over the optional block gives the block an (n + 1)-th empty alternative |
| Construction.NestedStarsHaveOwnEnds | runtime/CSharp/Antlr4.Tool/Automata/ATNFactory.cs:182-184 | in `(A*)*` the outer loop end and right state are fresh and distinct from the inner ones |
| AtnFactory.Factory.CreateATN | runtime/CSharp/Antlr4.Tool/Automata/ATNFactory.cs:33-34 | returns the network built so far, which is well formed |
| AtnFactory.Factory.Allocate | runtime/CSharp/Antlr4.Tool/Automata/ATNFactory.cs:43-44 | appends one state of the given type and returns its index |
| AtnFactory.Factory.NewState | runtime/CSharp/Antlr4.Tool/Automata/ATNFactory.cs:43-44 | appends one basic state with no transitions; rules and decisions are unchanged |
| AtnFactory.Factory.TokenRef | runtime/CSharp/Antlr4.Tool/Automata/ATNFactory.cs:52-53 | builds `o-token->o` from two fresh states; nothing else changes |
| AtnFactory.Factory.Set | runtime/CSharp/Antlr4.Tool/Automata/ATNFactory.cs:55-56 | builds `o-set->o` carrying the labels and the inversion flag |
| AtnFactory.Factory.CharSetLiteral | runtime/CSharp/Antlr4.Tool/Automata/ATNFactory.cs:58-59 | builds `o-[set]->o` for the literal |
| AtnFactory.Factory.Range | runtime/CSharp/Antlr4.Tool/Automata/ATNFactory.cs:61-62 | builds `o-lo..hi->o` |
| AtnFactory.Factory.StringLiteral | runtime/CSharp/Antlr4.Tool/Automata/ATNFactory.cs:64-71 | outside a lexer a single token atom; in a lexer the character chain |
| AtnFactory.Factory.Chain | runtime/CSharp/Antlr4.Tool/Automata/ATNFactory.cs:64-69 | n + 1 fresh states, state i joined to state i + 1 by exactly one atom edge for character i |
| AtnFactory.Factory.RuleStates | runtime/CSharp/Antlr4.Tool/Automata/ATNFactory.cs:73-77 | the rule's start and stop states, created the first time the rule is named |
| AtnFactory.Factory.RuleRef | runtime/CSharp/Antlr4.Tool/Automata/ATNFactory.cs:73-90 | builds the rule-reference shape: a call edge to the rule's start state, the right state as the follow |
| AtnFactory.Factory.Call | runtime/CSharp/Antlr4.Tool/Automata/ATNFactory.cs:73-79 | two fresh states; the left one's only transition calls the rule with the right one as follow |
| AtnFactory.Factory.Epsilon | runtime/CSharp/Antlr4.Tool/Automata/ATNFactory.cs:92-94 | builds `o-e->o` |
| AtnFactory.Factory.Sempred | runtime/CSharp/Antlr4.Tool/Automata/ATNFactory.cs:96-101 | builds one predicate transition between two fresh states |
| AtnFactory.Factory.Action | runtime/CSharp/Antlr4.Tool/Automata/ATNFactory.cs:103-110 | builds one action transition between two fresh states |
| AtnFactory.Factory.Rule | runtime/CSharp/Antlr4.Tool/Automata/ATNFactory.cs:40-41 | the rule's start state gains an epsilon into the body and the body's right state one to the stop state; returns (start, stop) |
| AtnFactory.Factory.Seal | runtime/CSharp/Antlr4.Tool/Automata/ATNFactory.cs:40-41 | the two sealing epsilons, on a rule whose states exist; only the start and the body's right state change |
| AtnFactory.Factory.Alt | runtime/CSharp/Antlr4.Tool/Automata/ATNFactory.cs:112-113 | fails, with the network unchanged, exactly on an empty element list; otherwise links the elements in sequence and returns (first left, last right) |
| AtnFactory.Factory.Block | runtime/CSharp/Antlr4.Tool/Automata/ATNFactory.cs:115-139 | fails exactly on no alternatives; one alternative is returned as is; alternatives that are only tokens, characters, ranges or sets, inverted sets included, collapse to one set edge with no decision; otherwise the general block |
| AtnFactory.Factory.FanOut | runtime/CSharp/Antlr4.Tool/Automata/ATNFactory.cs:115-128 | a fresh block start whose transition i enters alternative i + 1, and a fresh block end that every alternative's right state leads to; the pair is recorded as a block |
| AtnFactory.Factory.OpenBlock | runtime/CSharp/Antlr4.Tool/Automata/ATNFactory.cs:125-128 | allocates the block start, a new decision, and the block end right after it, and records the pair as a block |
| AtnFactory.Factory.Bypass | runtime/CSharp/Antlr4.Tool/Automata/ATNFactory.cs:143-148 | a fresh decision whose alternative 1 enters the fragment and alternative 2 bypasses it, both reaching a fresh end |
| AtnFactory.Factory.Optional | runtime/CSharp/Antlr4.Tool/Automata/ATNFactory.cs:143-152 | on a block of alternatives, one empty alternative at the end of that block; on any other fragment, loops and sequences included, the bypass wrapper |
| AtnFactory.Factory.Plus | runtime/CSharp/Antlr4.Tool/Automata/ATNFactory.cs:154-168 | A's right state leads to a fresh loop-back decision: transition 0 back to A's left state, transition 1 to a fresh loop end |
| AtnFactory.Factory.StarLoop | runtime/CSharp/Antlr4.Tool/Automata/ATNFactory.cs:170-181 | the loop of `(A)*`: a loop-entry decision into A or out to the loop end, and a loop-back state from A's right state back to the entry |
| AtnFactory.Factory.Star | runtime/CSharp/Antlr4.Tool/Automata/ATNFactory.cs:170-201 | builds the star shape: a bypass decision whose alternative 1 enters A directly and alternative 2 skips to a fresh right state, and after A a loop decision that re-enters A or leaves to the loop end |
| AtnFactory.Factory.Wildcard | runtime/CSharp/Antlr4.Tool/Automata/ATNFactory.cs:203-205 | builds one wildcard transition between two fresh states |

## Left out

- `Label`, `ListLabel`, `LexerCommand`, `LexerCallCommand`, `LexerAltCommands`, `SetCurrentRuleName` and `SetCurrentOuterAlt`: the interface documents no structural behaviour for them.
- `Handle.ToString`: it only formats states, whose own formatting is not shown.
- Label meanings: token types, code-point intervals and set inversion over the alphabet live in code that is not shown. Tokens, characters, sets and ranges are opaque payloads on one edge; an inverted set joins a collapsed set as one complement label.
- Grammar AST nodes: each operation takes only what it uses (a literal's text, a rule name, a predicate or action text, handles). The `ActionAST` and `string` overloads of `Action` are one method. Greediness and the `ebnfRoot` and rule AST arguments are not modelled.
- `Handle` mutability: the fields are public and mutable in the source, but no builder operation reassigns them, so a handle is a value.
- The "not null" annotations: every result is a value, so there is nothing to annotate.
- Consumers of the finished network (prediction, serialization, code generation) are not part of this model.
- Rule states: the start and stop states of a rule are created the first time the rule is named, by a reference or by its definition. An implementation that creates all rules' states up front gives the same shape apart from state numbering.
- AtnFactory.Factory.Star: the `*` comment counts three new states. The model adds five: a loop entry, a loop back and a loop end, then a bypass block start and end around A+ (the bypass enters A directly, the loop decision comes after A). This keeps the documented two-or-three decision count and the bypass outside the loop. It also matches the star-loop-back state, whose transition 0 must lead to a star-loop-entry state.
- State types: the special block-start types for the blocks that `+` and `*` re-enter, and the token-start type, are not modelled; every block start has the plain block-start type.
- AtnFactory.Factory.Plus: the comment mentions a new begin state. The model reuses A's left state as the loop target and the handle's left state, and adds only the loop-back decision and the loop end. The comment's "Transition 2 from A.right" is not modelled; A's right state gains one epsilon to the loop-back state.
- AtnFactory.Factory.Block: the comment speaks of a new state for each alternative. Each alternative's own left state is entered directly from the block start, so only the block start and block end are new. Alternative numbers are transition positions on the block start, not a stored field.
- AtnFactory.Factory.Block: a set collapse allocates two fresh states. The alternatives' own states stay in the arena unused, because nothing is ever deleted.
- AtnFactory.Factory.Alt and AtnFactory.Factory.Block: the source declares non-null results and documents nothing for empty input. The model returns an explicit error for an empty element or alternative list.
