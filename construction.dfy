/** The construction laws of the ATN factory. For each grammar construct a
 *  predicate states the exact shape of the network after the construct is
 *  built: which states are appended, with which types, which transitions
 *  every state gains, the handle of the new fragment, and that nothing else
 *  changes. The factory's methods are proved to produce these shapes; the
 *  lemmas derive the documented laws from them. */
module Construction {
  import opened AtnGraph
  import StarLoopbackState

  /** Why a construction step cannot build a fragment. */
  datatype ConstructionError = EmptyElementList | EmptyBlock

  datatype Result<T> = Ok(value: T) | Failure(error: ConstructionError)

  /** A network together with the handle of the fragment just built in it. */
  datatype Built = Built(atn: Atn, h: Handle)

  predicate HoldsAll(a: Atn, hs: seq<Handle>) {
    forall i :: 0 <= i < |hs| ==> a.Holds(hs[i])
  }

  /** No two fragments share their right state. */
  predicate DistinctRights(hs: seq<Handle>) {
    forall i, j :: 0 <= i < j < |hs| ==> hs[i].right != hs[j].right
  }

  /** `n` basic state types. */
  function Basics(n: nat): seq<StateType> {
    seq(n, _ => Basic)
  }

  // ---------------------------------------------------------------------
  // Single-edge fragments: epsilon, predicate, action, token, set, range,
  // wildcard, and a string literal outside a lexer.

  /** `o-k->o`: two fresh basic states joined by one transition of kind `k`;
   *  the right state is open (it has no transitions) and nothing else changes. */
  predicate IsEdge(a: Atn, k: TransitionKind, r: Built) {
    var n := |a.states|;
    r.h == Handle(n, n + 1)
    && r.atn.states == a.states + [Basic, Basic]
    && |r.atn.transitions| == n + 2
    && r.atn.transitions[n] == [Transition(n + 1, k)]
    && r.atn.transitions[n + 1] == []
    && a.KeepsOutside(r.atn, {})
    && r.atn.rules == a.rules && r.atn.decisions == a.decisions && r.atn.blocks == a.blocks
  }

  // ---------------------------------------------------------------------
  // String literals

  /** A lexer literal: |text| + 1 fresh basic states, state i joined to state
   *  i + 1 by exactly one atom transition matching character i. */
  predicate IsChain(a: Atn, text: string, r: Built) {
    var n := |a.states|;
    |a.transitions| == n && r.h == Handle(n, n + |text|)
    && r.atn.states == a.states + Basics(|text| + 1)
    && |r.atn.transitions| == n + |text| + 1
    && (forall i :: 0 <= i < |text| ==>
          r.atn.transitions[n + i] == [Transition(n + i + 1, AtomKind(Char(text[i])))])
    && r.atn.transitions[n + |text|] == []
    && a.KeepsOutside(r.atn, {})
    && r.atn.rules == a.rules && r.atn.decisions == a.decisions && r.atn.blocks == a.blocks
  }

  /** Appending one basic state, and an atom transition for character k
   *  from the chain's right state to it, extends the chain for the first k
   *  characters of `text` to the first k + 1. */
  lemma ChainStep(a: Atn, text: string, k: nat, b: Atn, d: Atn)
    requires k < |text| && IsChain(a, text[..k], Built(b, Handle(|a.states|, |a.states| + k)))
    requires d == b.AddState(Basic).AddEdge(|a.states| + k, Transition(|a.states| + k + 1, AtomKind(Char(text[k]))))
    ensures IsChain(a, text[..k + 1], Built(d, Handle(|a.states|, |a.states| + k + 1)))
  {
    var n := |a.states|;
    var t := text[..k + 1];
    assert Basics(k + 1) + [Basic] == Basics(k + 2);
    forall i | 0 <= i < k + 1
      ensures d.transitions[n + i] == [Transition(n + i + 1, AtomKind(Char(t[i])))]
    {
      if i < k {
        assert text[..k][i] == t[i];
      }
    }
    forall s | 0 <= s < |a.transitions|
      ensures s < |d.transitions| && d.transitions[s] == a.transitions[s]
    {
      assert b.transitions[s] == a.transitions[s];
    }
  }

  /** A string literal: in a lexer a chain of one character per transition;
   *  elsewhere a single token atom. */
  predicate IsStringLiteral(a: Atn, lexer: bool, text: string, r: Built) {
    if lexer then IsChain(a, text, r) else IsEdge(a, AtomKind(Token(text)), r)
  }

  /** The characters read by following, from `s`, `k` single character-atom
   *  transitions (stopping early where there is none). */
  function Spelled(a: Atn, s: nat, k: nat): seq<char>
    decreases k
  {
    if k == 0 || s >= |a.transitions| || |a.transitions[s]| != 1 then []
    else
      match a.transitions[s][0].kind
      case AtomKind(Char(c)) => [c] + Spelled(a, a.transitions[s][0].target, k - 1)
      case _ => []
  }

  /** A lexer literal is matched one character per transition: walking the
   *  chain from its left state spells the literal, and every transition of
   *  the chain matches a single character. */
  lemma {:induction false} ChainSpellsText(a: Atn, text: string, r: Built)
    requires IsChain(a, text, r)
    ensures Spelled(r.atn, r.h.left, |text|) == text
    ensures forall s, i :: r.h.left <= s < r.h.right && 0 <= i < |r.atn.transitions[s]| ==>
      r.atn.transitions[s][i].kind.AtomKind? && r.atn.transitions[s][i].kind.atom.Char?
  {
    var n := |a.states|;
    var j := |text|;
    while j > 0
      invariant 0 <= j <= |text|
      invariant Spelled(r.atn, n + j, |text| - j) == text[j..]
      decreases j
    {
      j := j - 1;
      assert r.atn.transitions[n + j] == [Transition(n + j + 1, AtomKind(Char(text[j])))];
      assert text[j..] == [text[j]] + text[j + 1..];
    }
    forall s, i | r.h.left <= s < r.h.right && 0 <= i < |r.atn.transitions[s]|
      ensures r.atn.transitions[s][i].kind == AtomKind(Char(text[s - n]))
    {
      assert r.atn.transitions[n + (s - n)] == [Transition(s + 1, AtomKind(Char(text[s - n])))];
    }
  }

  // ---------------------------------------------------------------------
  // Rules and rule references

  /** The network with start and stop states for rule `name`: the recorded
   *  ones when the rule is known, two fresh ones otherwise. */
  function WithRule(a: Atn, name: string): (r: Atn)
    requires |a.transitions| == |a.states|
    ensures name in r.rules && |r.transitions| == |r.states|
    ensures name in a.rules ==> r == a
    ensures name !in a.rules ==>
      r.states == a.states + [RuleStart, RuleStop] && r.transitions == a.transitions + [[], []]
      && r.rules == a.rules[name := RuleEnds(|a.states|, |a.states| + 1)]
      && r.decisions == a.decisions && r.blocks == a.blocks
  {
    if name in a.rules then a
    else a.AddState(RuleStart).AddState(RuleStop).AddRule(name, RuleEnds(|a.states|, |a.states| + 1))
  }

  /** Looking up or creating the states of a rule keeps the network well
   *  formed, and the rule's entry names a rule start and a rule stop state. */
  lemma WithRuleKeepsValid(a: Atn, name: string)
    requires a.Valid()
    ensures var w := WithRule(a, name);
      w.Valid() && a.Extends(w)
      && w.states[w.rules[name].start] == RuleStart && w.states[w.rules[name].stop] == RuleStop
  {
    if name !in a.rules {
      var n := |a.states|;
      var b := a.AddState(RuleStart);
      AddStateKeepsValid(a, RuleStart);
      var c := b.AddState(RuleStop);
      AddStateKeepsValid(b, RuleStop);
      AddRuleKeepsValid(c, name, RuleEnds(n, n + 1));
      ExtendsTransitive(a, b, c);
      ExtendsTransitive(a, c, c.AddRule(name, RuleEnds(n, n + 1)));
    }
  }

  /** `o-r->(r) o`: after the rule's states are looked up or created, two
   *  fresh basic states; the left one's only transition calls rule `name`,
   *  with the rule's start state as target and the right state as follow. */
  predicate IsRuleRef(a: Atn, name: string, r: Built) {
    |a.transitions| == |a.states| && IsCall(WithRule(a, name), name, r)
  }

  /** The call fragment of a reference to rule `name`, once the rule's states
   *  are in `w`. */
  predicate IsCall(w: Atn, name: string, r: Built) {
    var n := |w.states|;
    name in w.rules
    && r.h == Handle(n, n + 1)
    && r.atn.states == w.states + [Basic, Basic]
    && |r.atn.transitions| == n + 2
    && r.atn.transitions[n] == [Transition(w.rules[name].start, RuleKind(name, n + 1))]
    && r.atn.transitions[n + 1] == []
    && w.KeepsOutside(r.atn, {})
    && r.atn.rules == w.rules && r.atn.decisions == w.decisions && r.atn.blocks == w.blocks
  }

  /** A rule reference's transition 0 is a call of the rule's start state,
   *  and its right state is not the target of any transition: it is only
   *  reached as the follow state of that call. */
  lemma RuleRefReachesRightOnlyAsFollow(a: Atn, name: string, r: Built)
    requires a.Valid() && IsRuleRef(a, name, r)
    ensures name in r.atn.rules && r.atn.states[r.atn.rules[name].start] == RuleStart
    ensures |r.atn.transitions[r.h.left]| == 1
    ensures r.atn.transitions[r.h.left][0].target == r.atn.rules[name].start
    ensures r.atn.transitions[r.h.left][0].kind == RuleKind(name, r.h.right)
    ensures forall s, i :: 0 <= s < |r.atn.transitions| && 0 <= i < |r.atn.transitions[s]| ==>
      r.atn.transitions[s][i].target != r.h.right
  {
    WithRuleKeepsValid(a, name);
    var w := WithRule(a, name);
    FreshStateUnreached(w, r.atn);
  }

  /** Appending two states, where the first one's transitions lead to older
   *  states only and the second one has none, leaves the second one
   *  unreachable by any transition. */
  lemma FreshStateUnreached(w: Atn, b: Atn)
    requires w.Valid() && |b.transitions| == |w.states| + 2 && w.KeepsOutside(b, {})
    requires forall i :: 0 <= i < |b.transitions[|w.states|]| ==> b.transitions[|w.states|][i].target < |w.states|
    requires b.transitions[|w.states| + 1] == []
    ensures forall s, i :: 0 <= s < |b.transitions| && 0 <= i < |b.transitions[s]| ==>
      b.transitions[s][i].target != |w.states| + 1
  {
    forall s, i | 0 <= s < |b.transitions| && 0 <= i < |b.transitions[s]|
      ensures b.transitions[s][i].target != |w.states| + 1
    {
      if s < |w.transitions| {
        assert b.transitions[s] == w.transitions[s];
        assert InRange(w.transitions[s][i], |w.states|);
      }
    }
  }

  /** Seals rule `name` around its body `blk`: start -e-> blk.left and
   *  blk.right -e-> stop, with the rule's start and stop states looked up or
   *  created; the handle is (start, stop). */
  predicate IsRule(a: Atn, name: string, blk: Handle, r: Built) {
    |a.transitions| == |a.states| && a.Holds(blk) && IsSeal(WithRule(a, name), name, blk, r)
  }

  /** The sealing edges of rule `name` around `blk`, once the rule's states
   *  are in `w`. */
  predicate IsSeal(w: Atn, name: string, blk: Handle, r: Built) {
    name in w.rules && w.Holds(blk) && |w.transitions| == |w.states|
    && var start := w.rules[name].start;
    var stop := w.rules[name].stop;
    start < |w.states| && stop < |w.states|
    && r.h == Handle(start, stop)
    && r.atn.states == w.states && |r.atn.transitions| == |w.transitions|
    && (blk.right != start ==>
          r.atn.transitions[start] == w.transitions[start] + [Transition(blk.left, EpsilonKind)]
          && r.atn.transitions[blk.right] == w.transitions[blk.right] + [Transition(stop, EpsilonKind)])
    && (blk.right == start ==>
          r.atn.transitions[start]
            == w.transitions[start] + [Transition(blk.left, EpsilonKind), Transition(stop, EpsilonKind)])
    && w.KeepsOutside(r.atn, {start, blk.right})
    && r.atn.rules == w.rules && r.atn.decisions == w.decisions && r.atn.blocks == w.blocks
  }

  /** A reference to a rule resolves to the start state that the rule is
   *  later sealed with, however much the network grows in between: this is
   *  what lets a rule refer to itself, directly or through other rules. */
  lemma CallTargetIsSealedStart(a: Atn, name: string, call: Built, b: Atn, blk: Handle, sealed: Built)
    requires IsRuleRef(a, name, call) && call.atn.Extends(b) && IsRule(b, name, blk, sealed)
    ensures |sealed.atn.transitions[call.h.left]| > 0
    ensures sealed.atn.transitions[call.h.left][0] == Transition(sealed.h.left, RuleKind(name, call.h.right))
  {
    assert call.atn.transitions[call.h.left] <= b.transitions[call.h.left];
    assert b.transitions[call.h.left][0] == call.atn.transitions[call.h.left][0];
    assert b.rules[name] == call.atn.rules[name];
    assert b.transitions[call.h.left] <= sealed.atn.transitions[call.h.left];
  }

  // ---------------------------------------------------------------------
  // Alternatives: sequential composition

  /** The epsilon transitions that concatenating `els` appends to state `s`:
   *  one to els[i+1].left for every i < |els| - 1 with els[i].right == s. */
  function Links(s: nat, els: seq<Handle>): seq<Transition>
    decreases |els|
  {
    if |els| <= 1 then []
    else
      Links(s, els[..|els| - 1])
      + (if els[|els| - 2].right == s then [Transition(els[|els| - 1].left, EpsilonKind)] else [])
  }

  /** One alternative: the elements in sequence, each element's right state
   *  joined to the next element's left state, from the first element's left
   *  state to the last element's right state. No state is allocated. */
  predicate IsAlt(a: Atn, els: seq<Handle>, r: Built) {
    els != []
    && r.h == Handle(els[0].left, els[|els| - 1].right)
    && r.atn.states == a.states && |r.atn.transitions| == |a.transitions|
    && (forall s :: 0 <= s < |a.transitions| ==> r.atn.transitions[s] == a.transitions[s] + Links(s, els))
    && r.atn.rules == a.rules && r.atn.decisions == a.decisions && r.atn.blocks == a.blocks
  }

  lemma {:induction false} LinksNone(els: seq<Handle>, s: nat)
    requires forall i :: 0 <= i < |els| - 1 ==> els[i].right != s
    ensures Links(s, els) == []
    decreases |els|
  {
    if |els| > 1 {
      LinksNone(els[..|els| - 1], s);
    }
  }

  lemma {:induction false} LinksAt(els: seq<Handle>, i: nat)
    requires DistinctRights(els) && i + 1 < |els|
    ensures Links(els[i].right, els) == [Transition(els[i + 1].left, EpsilonKind)]
    decreases |els|
  {
    var n := |els|;
    var front := els[..n - 1];
    if i == n - 2 {
      LinksNone(front, els[i].right);
    } else {
      LinksAt(front, i);
    }
  }

  /** When the elements' right states are distinct (each fragment has its
   *  own exit), every element but the last gets exactly one new transition,
   *  an epsilon to the next element's left state, and no other state
   *  changes. */
  lemma AltChainsElements(a: Atn, els: seq<Handle>, r: Built)
    requires IsAlt(a, els, r) && HoldsAll(a, els) && |a.transitions| == |a.states| && DistinctRights(els)
    ensures forall i :: 0 <= i < |els| - 1 ==>
      r.atn.transitions[els[i].right] == a.transitions[els[i].right] + [Transition(els[i + 1].left, EpsilonKind)]
    ensures forall s :: 0 <= s < |a.states| && (forall i :: 0 <= i < |els| - 1 ==> els[i].right != s) ==>
      r.atn.transitions[s] == a.transitions[s]
  {
    forall i | 0 <= i < |els| - 1
      ensures Links(els[i].right, els) == [Transition(els[i + 1].left, EpsilonKind)]
    {
      LinksAt(els, i);
    }
    forall s | 0 <= s < |a.states| && (forall i :: 0 <= i < |els| - 1 ==> els[i].right != s)
      ensures Links(s, els) == []
    {
      LinksNone(els, s);
    }
  }

  // ---------------------------------------------------------------------
  // Blocks: alternation

  /** Transition kinds that a list of alternatives can be collapsed over into
   *  one set: tokens and characters (atoms), ranges and sets, inverted or
   *  not. */
  predicate IsCollapsible(k: TransitionKind) {
    k.AtomKind? || k.RangeKind? || k.SetKind?
  }

  /** `h` is just a token, character, range or set: o-x->o. */
  predicate IsSetAlt(a: Atn, h: Handle) {
    a.Holds(h) && |a.transitions| == |a.states| && h.left != h.right
    && |a.transitions[h.left]| == 1 && a.transitions[h.left][0].target == h.right
    && IsCollapsible(a.transitions[h.left][0].kind) && a.transitions[h.right] == []
  }

  predicate AllSetAlts(a: Atn, alts: seq<Handle>) {
    forall i :: 0 <= i < |alts| ==> IsSetAlt(a, alts[i])
  }

  function LabelsOf(k: TransitionKind): seq<Label>
    requires IsCollapsible(k)
  {
    match k
    case AtomKind(l) => [l]
    case RangeKind(lo, hi) => [CharRange(lo, hi)]
    case SetKind(ls, invert) => if invert then [NotSet(ls)] else ls
  }

  /** What a set-like alternative matches. */
  function AltLabels(a: Atn, h: Handle): seq<Label>
    requires IsSetAlt(a, h)
  {
    LabelsOf(a.transitions[h.left][0].kind)
  }

  /** The labels of all alternatives, in order: a label is in the union
   *  exactly when some alternative matches it. */
  function UnionLabels(a: Atn, alts: seq<Handle>): (ls: seq<Label>)
    requires AllSetAlts(a, alts)
    decreases |alts|
    ensures forall l :: l in ls <==> exists i :: 0 <= i < |alts| && l in AltLabels(a, alts[i])
  {
    if alts == [] then []
    else
      var front := alts[..|alts| - 1];
      var ls := UnionLabels(a, front) + AltLabels(a, alts[|alts| - 1]);
      assert forall i :: 0 <= i < |front| ==> front[i] == alts[i];
      ls
  }

  /** The epsilon transitions that joining `alts` to block end `end` appends
   *  to state `s`: one for every alternative whose right state is `s`. */
  function Exits(s: nat, alts: seq<Handle>, end: nat): seq<Transition>
    decreases |alts|
  {
    if alts == [] then []
    else
      Exits(s, alts[..|alts| - 1], end)
      + (if alts[|alts| - 1].right == s then [Transition(end, EpsilonKind)] else [])
  }

  /** A general block: a fresh block start (a new decision) whose transition
   *  i is an epsilon into alternative i + 1 (alternatives are numbered 1..n
   *  in the given order),
   *  and a fresh block end that every alternative's right state leads to;
   *  the pair is recorded as a block. */
  predicate IsFanOut(a: Atn, alts: seq<Handle>, r: Built) {
    var begin := |a.states|;
    var end := begin + 1;
    r.h == Handle(begin, end)
    && r.atn.states == a.states + [BlockStart, BlockEnd]
    && |a.transitions| == begin && |r.atn.transitions| == begin + 2
    && |r.atn.transitions[begin]| == |alts|
    && (forall i :: 0 <= i < |alts| ==> r.atn.transitions[begin][i] == Transition(alts[i].left, EpsilonKind))
    && r.atn.transitions[end] == []
    && (forall s :: 0 <= s < begin ==> r.atn.transitions[s] == a.transitions[s] + Exits(s, alts, end))
    && r.atn.rules == a.rules && r.atn.decisions == a.decisions + [begin]
    && r.atn.blocks == a.blocks + {Handle(begin, end)}
  }

  /** The general block after the first `i` alternatives are wired. */
  predicate FanOutPrefix(a: Atn, alts: seq<Handle>, i: nat, b: Atn) {
    var begin := |a.states|;
    var end := begin + 1;
    i <= |alts|
    && b.states == a.states + [BlockStart, BlockEnd]
    && |a.transitions| == begin && |b.transitions| == begin + 2
    && |b.transitions[begin]| == i
    && (forall j :: 0 <= j < i ==> b.transitions[begin][j] == Transition(alts[j].left, EpsilonKind))
    && b.transitions[end] == []
    && (forall s :: 0 <= s < begin ==> b.transitions[s] == a.transitions[s] + Exits(s, alts[..i], end))
    && b.rules == a.rules && b.decisions == a.decisions + [begin]
    && b.blocks == a.blocks + {Handle(begin, end)}
  }

  /** A fresh block start and block end, before any alternative is wired. */
  lemma FanOutStart(a: Atn, alts: seq<Handle>, b: Atn)
    requires |a.transitions| == |a.states|
    requires b == a.AddState(BlockStart).AddState(BlockEnd).AddBlock(Handle(|a.states|, |a.states| + 1))
    ensures FanOutPrefix(a, alts, 0, b)
  {
    assert alts[..0] == [];
  }

  /** Wiring alternative i: an epsilon from the block start into it, and one
   *  from its right state to the block end. */
  lemma FanOutStep(a: Atn, alts: seq<Handle>, i: nat, b: Atn, d: Atn)
    requires FanOutPrefix(a, alts, i, b) && i < |alts| && alts[i].right < |a.states|
    requires d == b.AddEdge(|a.states|, Transition(alts[i].left, EpsilonKind))
                  .AddEdge(alts[i].right, Transition(|a.states| + 1, EpsilonKind))
    ensures FanOutPrefix(a, alts, i + 1, d)
  {
    assert alts[..i + 1][..i] == alts[..i];
  }

  /** Once every alternative is wired, the block is complete. */
  lemma FanOutDone(a: Atn, alts: seq<Handle>, b: Atn)
    requires FanOutPrefix(a, alts, |alts|, b)
    ensures IsFanOut(a, alts, Built(b, Handle(|a.states|, |a.states| + 1)))
  {
    assert alts[..|alts|] == alts;
  }

  /** Alternatives of a general block are numbered 1..n in the given order:
   *  alternative k of the new decision enters the k-th fragment. */
  lemma BlockNumbersAlternatives(a: Atn, alts: seq<Handle>, r: Built)
    requires IsFanOut(a, alts, r)
    ensures r.h.left == |a.states| && r.atn.decisions == a.decisions + [r.h.left]
    ensures |r.atn.transitions[r.h.left]| == |alts|
    ensures forall k :: 1 <= k <= |alts| ==> r.atn.AltTarget(r.h.left, k) == alts[k - 1].left
  {
  }

  /** A block of one or more alternatives. One alternative: its handle,
   *  unchanged, and nothing allocated. Only tokens, characters, ranges and
   *  sets: a single o-set->o edge over the union of their labels, with no
   *  decision. Otherwise the general block. */
  predicate IsBlock(a: Atn, alts: seq<Handle>, r: Built) {
    if |alts| == 0 then false
    else if |alts| == 1 then r == Built(a, alts[0])
    else if AllSetAlts(a, alts) then IsEdge(a, SetKind(UnionLabels(a, alts), false), r)
    else IsFanOut(a, alts, r)
  }

  /** A block whose alternatives are all tokens, characters, ranges or sets,
   *  inverted sets included, is one set edge between two fresh states: no
   *  decision is added, and an inverted set alternative is carried as its
   *  complement label. */
  lemma SetBlockCollapses(a: Atn, alts: seq<Handle>, r: Built)
    requires |alts| >= 2 && AllSetAlts(a, alts) && IsBlock(a, alts, r)
    ensures r.atn.decisions == a.decisions && |r.atn.states| == |a.states| + 2
    ensures |r.atn.transitions[r.h.left]| == 1 && r.atn.transitions[r.h.left][0].kind.SetKind?
    ensures forall i, ls :: 0 <= i < |alts| && a.transitions[alts[i].left][0].kind == SetKind(ls, true) ==>
      NotSet(ls) in r.atn.transitions[r.h.left][0].kind.labels
  {
    forall i, ls | 0 <= i < |alts| && a.transitions[alts[i].left][0].kind == SetKind(ls, true)
      ensures NotSet(ls) in UnionLabels(a, alts)
    {
      assert NotSet(ls) in AltLabels(a, alts[i]);
    }
  }

  lemma {:induction false} ExitsNone(alts: seq<Handle>, s: nat, end: nat)
    requires forall i :: 0 <= i < |alts| ==> alts[i].right != s
    ensures Exits(s, alts, end) == []
    decreases |alts|
  {
    if alts != [] {
      ExitsNone(alts[..|alts| - 1], s, end);
    }
  }

  lemma {:induction false} ExitsAt(alts: seq<Handle>, i: nat, end: nat)
    requires DistinctRights(alts) && i < |alts|
    ensures Exits(alts[i].right, alts, end) == [Transition(end, EpsilonKind)]
    decreases |alts|
  {
    var n := |alts|;
    var front := alts[..n - 1];
    if i == n - 1 {
      ExitsNone(front, alts[i].right, end);
    } else {
      ExitsAt(front, i, end);
    }
  }

  /** In a general block whose alternatives have distinct right states, every
   *  alternative's right state gets exactly one new transition, an epsilon
   *  to the shared block end, and every other existing state is unchanged. */
  lemma BlockJoinsAlternatives(a: Atn, alts: seq<Handle>, r: Built)
    requires IsFanOut(a, alts, r) && HoldsAll(a, alts) && DistinctRights(alts)
    ensures forall i :: 0 <= i < |alts| ==>
      r.atn.transitions[alts[i].right] == a.transitions[alts[i].right] + [Transition(r.h.right, EpsilonKind)]
    ensures forall s :: 0 <= s < |a.states| && (forall i :: 0 <= i < |alts| ==> alts[i].right != s) ==>
      r.atn.transitions[s] == a.transitions[s]
  {
    var end := |a.states| + 1;
    forall i | 0 <= i < |alts| ensures Exits(alts[i].right, alts, end) == [Transition(end, EpsilonKind)] {
      ExitsAt(alts, i, end);
    }
    forall s | 0 <= s < |a.states| && (forall i :: 0 <= i < |alts| ==> alts[i].right != s)
      ensures Exits(s, alts, end) == []
    {
      ExitsNone(alts, s, end);
    }
  }

  // ---------------------------------------------------------------------
  // Optional, plus and star

  /** `(A)?` on a block: one empty alternative appended at the end of the
   *  block, an epsilon from its start to its end, and the same handle. */
  predicate IsExtraAlt(a: Atn, blk: Handle, r: Built) {
    a.Holds(blk) && |a.transitions| == |a.states|
    && r.h == blk
    && r.atn.states == a.states && |r.atn.transitions| == |a.transitions|
    && r.atn.transitions[blk.left] == a.transitions[blk.left] + [Transition(blk.right, EpsilonKind)]
    && a.KeepsOutside(r.atn, {blk.left})
    && r.atn.rules == a.rules && r.atn.decisions == a.decisions && r.atn.blocks == a.blocks
  }

  /** The optional wrapper around `blk`: a fresh block start s1 (a new
   *  decision) with alternative 1 entering blk and alternative 2 bypassing
   *  it, both reaching a fresh block end s2 that blk's right state also
   *  leads to. */
  predicate IsBypass(a: Atn, blk: Handle, r: Built) {
    var s1 := |a.states|;
    var s2 := s1 + 1;
    a.Holds(blk) && |a.transitions| == |a.states|
    && r.h == Handle(s1, s2)
    && r.atn.states == a.states + [BlockStart, BlockEnd]
    && |r.atn.transitions| == s1 + 2
    && r.atn.transitions[s1] == [Transition(blk.left, EpsilonKind), Transition(s2, EpsilonKind)]
    && r.atn.transitions[s2] == []
    && r.atn.transitions[blk.right] == a.transitions[blk.right] + [Transition(s2, EpsilonKind)]
    && a.KeepsOutside(r.atn, {blk.right})
    && r.atn.rules == a.rules && r.atn.decisions == a.decisions + [s1] && r.atn.blocks == a.blocks
  }

  /** `(A)?`: the extra empty alternative when A is a block of alternatives,
   *  the bypass wrapper otherwise (a loop over a block, a sequence starting
   *  with a block or a single element is not a block). */
  predicate IsOptional(a: Atn, blk: Handle, r: Built) {
    a.Holds(blk) && |a.transitions| == |a.states|
    && if blk in a.blocks then IsExtraAlt(a, blk, r) else IsBypass(a, blk, r)
  }

  /** Optional on a block adds exactly one alternative to the block's own
   *  decision, numbered after the existing ones and leading to the block
   *  end, and adds no decision: `(A|B)?` is one decision with three
   *  alternatives. */
  lemma OptionalBlockAlternatives(a: Atn, blk: Handle, r: Built)
    requires IsOptional(a, blk, r) && blk in a.blocks
    ensures r.h == blk && r.atn.decisions == a.decisions && blk in r.atn.blocks
    ensures |r.atn.transitions[blk.left]| == |a.transitions[blk.left]| + 1
    ensures forall k :: 1 <= k <= |a.transitions[blk.left]| ==>
      r.atn.AltTarget(blk.left, k) == a.AltTarget(blk.left, k)
    ensures r.atn.AltTarget(blk.left, |a.transitions[blk.left]| + 1) == blk.right
  {
  }

  /** `((A|B)+)?`: a `+` loop is not a block, even over a block, so `?` on it
   *  builds the bypass wrapper as a new decision and leaves the inner block's
   *  alternatives alone. */
  lemma OptionalOfPlusIsBypass(a: Atn, blk: Handle, plus: Built, r: Built)
    requires a.Valid() && IsPlus(a, blk, plus) && IsOptional(plus.atn, plus.h, r)
    ensures IsBypass(plus.atn, plus.h, r)
    ensures r.atn.decisions == plus.atn.decisions + [|plus.atn.states|]
    ensures r.atn.transitions[blk.left] == plus.atn.transitions[blk.left]
  {
    assert plus.h !in plus.atn.blocks;
  }

  /** `(A)+`: A's right state leads to a fresh plus-loop-back decision whose
   *  transition 0 goes back to A's left state and whose transition 1, the
   *  follow of the loop, goes to a fresh loop end; the handle is
   *  (A.left, end). */
  predicate IsPlus(a: Atn, blk: Handle, r: Built) {
    var loop := |a.states|;
    var end := loop + 1;
    a.Holds(blk) && |a.transitions| == |a.states|
    && r.h == Handle(blk.left, end)
    && r.atn.states == a.states + [PlusLoopBack, LoopEnd]
    && |r.atn.transitions| == loop + 2
    && r.atn.transitions[loop] == [Transition(blk.left, EpsilonKind), Transition(end, EpsilonKind)]
    && r.atn.transitions[end] == []
    && r.atn.transitions[blk.right] == a.transitions[blk.right] + [Transition(loop, EpsilonKind)]
    && a.KeepsOutside(r.atn, {blk.right})
    && r.atn.rules == a.rules && r.atn.decisions == a.decisions + [loop] && r.atn.blocks == a.blocks
  }

  /** How many alternatives fragment `blk` offers as seen from its left
   *  state: those of a block-start state, or one. This reads the state type,
   *  so the left state of an optional wrapper, itself a block start, counts
   *  with its two alternatives; `?` instead asks whether `blk` was recorded
   *  as a block. */
  function AltCount(a: Atn, blk: Handle): nat
    requires a.Holds(blk) && |a.transitions| == |a.states|
  {
    if a.states[blk.left] == BlockStart then |a.transitions[blk.left]| else 1
  }

  /** The alternatives of a two-way loop decision as analysis numbers them:
   *  the back edge (transition 0) stands for every alternative of the block
   *  it re-enters, and the follow edge (transition 1) comes after them. */
  function LoopAlternatives(a: Atn, loop: nat): seq<nat>
    requires a.Valid() && loop < |a.states| && |a.transitions[loop]| == 2
  {
    var back := a.transitions[loop][0].target;
    var entries :=
      if a.states[back] == BlockStart then
        seq(|a.transitions[back]|, k requires 0 <= k < |a.transitions[back]| => a.transitions[back][k].target)
      else [back];
    entries + [a.transitions[loop][1].target]
  }

  /** In `(A)+` for an n-alternative A, alternatives 1..n of the loop decision
   *  re-enter A's alternatives in order and the follow of the loop is
   *  alternative n + 1. The follow comes last by the definition of
   *  `LoopAlternatives`; what is proved is that transition 0 of the loop
   *  decision leads back to A's left state and that A's own alternatives
   *  are still there, unchanged, when the loop is built. */
  lemma PlusFollowIsLastAlternative(a: Atn, blk: Handle, r: Built)
    requires IsPlus(a, blk, r) && r.atn.Valid() && blk.left != blk.right
    ensures var n := AltCount(a, blk);
      var alts := LoopAlternatives(r.atn, |a.states|);
      |alts| == n + 1 && alts[n] == r.h.right
      && (a.states[blk.left] == BlockStart ==>
            forall k :: 1 <= k <= n ==> alts[k - 1] == a.AltTarget(blk.left, k))
      && (a.states[blk.left] != BlockStart ==> alts[0] == blk.left)
  {
    assert r.atn.transitions[blk.left] == a.transitions[blk.left];
    assert r.atn.states[blk.left] == a.states[blk.left];
  }

  /** The loop of `(A)*`: a fresh star-loop-entry decision whose transition 0
   *  enters A and whose transition 1 exits to a fresh loop end, and A's right
   *  state leading to a fresh star-loop-back state whose only transition
   *  returns to the entry. */
  predicate IsStarLoop(a: Atn, blk: Handle, r: Atn) {
    var entry := |a.states|;
    a.Holds(blk) && |a.transitions| == |a.states|
    && r.states == a.states + [StarLoopEntry, StarLoopBack, LoopEnd]
    && |r.transitions| == entry + 3
    && r.transitions[entry] == [Transition(blk.left, EpsilonKind), Transition(entry + 2, EpsilonKind)]
    && r.transitions[entry + 1] == [Transition(entry, EpsilonKind)]
    && r.transitions[entry + 2] == []
    && r.transitions[blk.right] == a.transitions[blk.right] + [Transition(entry + 1, EpsilonKind)]
    && a.KeepsOutside(r, {blk.right})
    && r.rules == a.rules && r.decisions == a.decisions + [entry] && r.blocks == a.blocks
  }

  /** `(A)*`: the optional bypass around A+, a separate decision outside the
   *  loop with its own fresh right state. Alternative 1 of the bypass enters A
   *  directly, alternative 2 skips it; after A, the loop-entry decision either
   *  re-enters A or leaves to the loop end, which leads to the bypass end.
   *  States, in order: entry, loop back, loop end, bypass start s1, bypass
   *  end s2. */
  predicate IsStar(a: Atn, blk: Handle, r: Built) {
    var entry := |a.states|;
    var loopBack := entry + 1;
    var end := entry + 2;
    var s1 := entry + 3;
    var s2 := entry + 4;
    a.Holds(blk) && |a.transitions| == |a.states|
    && r.h == Handle(s1, s2)
    && r.atn.states == a.states + [StarLoopEntry, StarLoopBack, LoopEnd, BlockStart, BlockEnd]
    && |r.atn.transitions| == entry + 5
    && r.atn.transitions[entry] == [Transition(blk.left, EpsilonKind), Transition(end, EpsilonKind)]
    && r.atn.transitions[loopBack] == [Transition(entry, EpsilonKind)]
    && r.atn.transitions[end] == [Transition(s2, EpsilonKind)]
    && r.atn.transitions[s1] == [Transition(blk.left, EpsilonKind), Transition(s2, EpsilonKind)]
    && r.atn.transitions[s2] == []
    && r.atn.transitions[blk.right] == a.transitions[blk.right] + [Transition(loopBack, EpsilonKind)]
    && a.KeepsOutside(r.atn, {blk.right})
    && r.atn.rules == a.rules && r.atn.decisions == a.decisions + [entry, s1] && r.atn.blocks == a.blocks
  }

  /** The loop of A followed by the bypass around (A.left, loop end), that
   *  is around A+, is the star. */
  lemma StarFromLoopAndBypass(a: Atn, blk: Handle, loop: Atn, r: Built)
    requires IsStarLoop(a, blk, loop)
    requires IsBypass(loop, Handle(blk.left, |a.states| + 2), r)
    ensures IsStar(a, blk, r)
  {
  }

  /** The loop-back state of `(A)*` resolves, through its transition 0, to the
   *  loop's own star-loop-entry state. */
  lemma StarLoopBackResolvesEntry(a: Atn, blk: Handle, r: Built)
    requires IsStar(a, blk, r)
    ensures StarLoopbackState.HasLoopEntry(r.atn, |a.states| + 1)
    ensures StarLoopbackState.LoopEntryState(r.atn, |a.states| + 1) == |a.states|
  {
    assert r.atn.states[|a.states|] == StarLoopEntry;
    assert r.atn.states[|a.states| + 1] == StarLoopBack;
  }

  /** `(A)*` adds exactly two decisions of its own, the loop entry and the
   *  bypass, both distinct from A's left state; A's left state stays a
   *  decision exactly when it was one, which it is when A is a block: two
   *  decision points when A is a single alternative, three when it is a
   *  block. */
  lemma StarDecisionPoints(a: Atn, blk: Handle, r: Built)
    requires a.Valid() && IsStar(a, blk, r)
    ensures var entry := |a.states|;
      var s1 := entry + 3;
      r.atn.decisions == a.decisions + [entry, s1]
      && entry != blk.left && s1 != blk.left
      && (blk.left in r.atn.decisions <==> blk.left in a.decisions)
      && (blk in a.blocks ==> blk.left in r.atn.decisions)
  {
    if blk in a.blocks {
      DecisionsAreDecisionTypes(a.states, blk.left);
    }
  }

  /** The bypass of `(A|B)*` is outside the loop, so `(A|B)*` is not `(A|B|)+`:
   *  the star keeps A's block at its n alternatives and adds a separate
   *  bypass decision, while optional-then-plus gives the block itself an
   *  (n + 1)-th, empty alternative. */
  lemma StarIsNotPlusOfOptional(a: Atn, blk: Handle, star: Built, opt: Built, plus: Built)
    requires blk.left != blk.right && a.Holds(blk) && blk in a.blocks
    requires IsStar(a, blk, star)
    requires IsOptional(a, blk, opt) && IsPlus(opt.atn, opt.h, plus)
    ensures |star.atn.transitions[blk.left]| == |a.transitions[blk.left]|
    ensures star.atn.transitions[star.h.left][1] == Transition(star.h.right, EpsilonKind)
    ensures star.h.left != blk.left
    ensures |plus.atn.transitions[blk.left]| == |a.transitions[blk.left]| + 1
    ensures plus.atn.transitions[blk.left][|a.transitions[blk.left]|] == Transition(blk.right, EpsilonKind)
  {
    assert star.atn.transitions[blk.left] == a.transitions[blk.left];
    assert plus.atn.transitions[blk.left] == opt.atn.transitions[blk.left];
  }

  /** Nested `(A*)*` never shares an end state: the outer loop's end and the
   *  outer right state are fresh, distinct from the inner ones, and the inner
   *  right state only gains the edge into the outer loop-back state. */
  lemma NestedStarsHaveOwnEnds(a: Atn, blk: Handle, inner: Built, outer: Built)
    requires IsStar(a, blk, inner) && IsStar(inner.atn, inner.h, outer)
    ensures var innerEnd := |a.states| + 2;
      var outerEnd := |inner.atn.states| + 2;
      outer.h.right != inner.h.right && outerEnd != innerEnd
      && outer.h.right != innerEnd && outerEnd != inner.h.right
      && outer.atn.transitions[innerEnd] == [Transition(inner.h.right, EpsilonKind)]
      && outer.atn.transitions[inner.h.right] == [Transition(|inner.atn.states| + 1, EpsilonKind)]
      && outer.atn.transitions[outerEnd] == [Transition(outer.h.right, EpsilonKind)]
  {
    assert outer.atn.transitions[|a.states| + 2] == inner.atn.transitions[|a.states| + 2];
  }
}
