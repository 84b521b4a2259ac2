/** The ATN factory: a builder that owns the network under construction and
 *  grows it one grammar construct at a time. Every operation allocates fresh
 *  states and appends transitions, and returns the handle (left and right
 *  states) of the fragment it built; no operation removes a state or a
 *  transition. Each operation is proved to produce the shape its law in
 *  module Construction describes, and to keep the network well formed. */
module AtnFactory {
  import opened AtnGraph
  import opened Construction

  class Factory {
    /** Whether the grammar is a lexer grammar: string literals are then
     *  matched character by character. */
    const lexer: bool

    /** The network built so far. */
    var atn: Atn

    predicate Valid()
      reads this
    {
      atn.Valid()
    }

    /** A factory with an empty network. */
    constructor (lexer: bool)
      ensures Valid() && this.lexer == lexer && atn == EmptyAtn()
    {
      this.lexer := lexer;
      atn := EmptyAtn();
    }

    /** The network built so far, well formed. */
    method CreateATN() returns (a: Atn)
      requires Valid()
      ensures a == atn && a.Valid()
    {
      a := atn;
    }

    // -------------------------------------------------------------------
    // Allocation and linking

    /** Allocates a fresh state of type `t`, with no transitions. */
    method Allocate(t: StateType) returns (s: nat)
      requires Valid()
      modifies this
      ensures Valid()
      ensures s == |old(atn.states)| && atn == old(atn).AddState(t)
    {
      s := |atn.states|;
      AddStateKeepsValid(atn, t);
      atn := atn.AddState(t);
    }

    /** A fresh basic state, with no transitions and not a decision. */
    method NewState() returns (s: nat)
      requires Valid()
      modifies this
      ensures Valid()
      ensures s == |old(atn.states)| && atn == old(atn).AddState(Basic)
      ensures atn.states == old(atn.states) + [Basic] && atn.transitions == old(atn.transitions) + [[]]
      ensures atn.rules == old(atn.rules) && atn.decisions == old(atn.decisions) && atn.blocks == old(atn.blocks)
    {
      s := Allocate(Basic);
    }

    /** Appends transition `t` to state `s`. */
    method AddTransition(s: nat, t: Transition)
      requires Valid() && s < |atn.states| && InRange(t, |atn.states|)
      modifies this
      ensures Valid()
      ensures atn == old(atn).AddEdge(s, t)
    {
      AddEdgeKeepsValid(atn, s, t);
      atn := atn.AddEdge(s, t);
    }

    /** `o-k->o` for any kind but a rule call. */
    method Edge(k: TransitionKind) returns (h: Handle)
      requires Valid() && !k.RuleKind?
      modifies this
      ensures Valid() && old(atn).Extends(atn)
      ensures IsEdge(old(atn), k, Built(atn, h))
    {
      var left := NewState();
      var right := NewState();
      AddTransition(left, Transition(right, k));
      h := Handle(left, right);
      ExtendsWhenKept(old(atn), atn, [Basic, Basic], {});
    }

    // -------------------------------------------------------------------
    // Single-edge fragments

    /** From an empty alternative: o-e->o. */
    method Epsilon() returns (h: Handle)
      requires Valid()
      modifies this
      ensures Valid() && old(atn).Extends(atn)
      ensures IsEdge(old(atn), EpsilonKind, Built(atn, h))
    {
      h := Edge(EpsilonKind);
    }

    /** An epsilon-like transition guarded by semantic predicate `pred`. */
    method Sempred(pred: string) returns (h: Handle)
      requires Valid()
      modifies this
      ensures Valid() && old(atn).Extends(atn)
      ensures IsEdge(old(atn), PredicateKind(pred), Built(atn, h))
    {
      h := Edge(PredicateKind(pred));
    }

    /** An epsilon-like transition carrying `action`. */
    method Action(action: string) returns (h: Handle)
      requires Valid()
      modifies this
      ensures Valid() && old(atn).Extends(atn)
      ensures IsEdge(old(atn), ActionKind(action), Built(atn, h))
    {
      h := Edge(ActionKind(action));
    }

    /** A reference to token `name`: o-name->o. */
    method TokenRef(name: string) returns (h: Handle)
      requires Valid()
      modifies this
      ensures Valid() && old(atn).Extends(atn)
      ensures IsEdge(old(atn), AtomKind(Token(name)), Built(atn, h))
    {
      h := Edge(AtomKind(Token(name)));
    }

    /** A set of alternatives, possibly inverted: o-set->o. */
    method Set(labels: seq<Label>, invert: bool) returns (h: Handle)
      requires Valid()
      modifies this
      ensures Valid() && old(atn).Extends(atn)
      ensures IsEdge(old(atn), SetKind(labels, invert), Built(atn, h))
    {
      h := Edge(SetKind(labels, invert));
    }

    /** A character-set literal: o-[text]->o. */
    method CharSetLiteral(text: string) returns (h: Handle)
      requires Valid()
      modifies this
      ensures Valid() && old(atn).Extends(atn)
      ensures IsEdge(old(atn), SetKind([CharSet(text)], false), Built(atn, h))
    {
      h := Edge(SetKind([CharSet(text)], false));
    }

    /** A range `lo..hi`: o-range->o. */
    method Range(lo: string, hi: string) returns (h: Handle)
      requires Valid()
      modifies this
      ensures Valid() && old(atn).Extends(atn)
      ensures IsEdge(old(atn), RangeKind(lo, hi), Built(atn, h))
    {
      h := Edge(RangeKind(lo, hi));
    }

    /** An atom matching any symbol: o-.->o. */
    method Wildcard() returns (h: Handle)
      requires Valid()
      modifies this
      ensures Valid() && old(atn).Extends(atn)
      ensures IsEdge(old(atn), WildcardKind, Built(atn, h))
    {
      h := Edge(WildcardKind);
    }

    /** A string literal: outside a lexer one token atom; in a lexer a chain
     *  of |text| + 1 states built one character at a time. */
    method StringLiteral(text: string) returns (h: Handle)
      requires Valid()
      modifies this
      ensures Valid() && old(atn).Extends(atn)
      ensures IsStringLiteral(old(atn), lexer, text, Built(atn, h))
    {
      if lexer {
        h := Chain(text);
      } else {
        h := Edge(AtomKind(Token(text)));
      }
    }

    /** The lexer form of a string literal: one fresh state per character
     *  appended after a fresh left state, each joined to the previous one by
     *  an atom transition for its character. */
    method Chain(text: string) returns (h: Handle)
      requires Valid()
      modifies this
      ensures Valid() && old(atn).Extends(atn)
      ensures IsChain(old(atn), text, Built(atn, h))
    {
      ghost var a0 := atn;
      var left := NewState();
      assert Basics(1) == [Basic];
      var prev := left;
      var i := 0;
      while i < |text|
        invariant Valid()
        invariant 0 <= i <= |text| && prev == left + i
        invariant IsChain(a0, text[..i], Built(atn, Handle(left, prev)))
      {
        ghost var before := atn;
        var next := NewState();
        AddTransition(prev, Transition(next, AtomKind(Char(text[i]))));
        ChainStep(a0, text, i, before, atn);
        prev := next;
        i := i + 1;
      }
      assert text[..i] == text;
      h := Handle(left, prev);
      ExtendsWhenKept(a0, atn, Basics(|text| + 1), {});
    }

    // -------------------------------------------------------------------
    // Rules

    /** The start and stop states of rule `name`, allocated the first time
     *  the rule is mentioned. */
    method RuleStates(name: string) returns (ends: RuleEnds)
      requires Valid()
      modifies this
      ensures Valid() && old(atn).Extends(atn)
      ensures atn == WithRule(old(atn), name) && ends == atn.rules[name]
    {
      if name in atn.rules {
        ends := atn.rules[name];
        ExtendsReflexive(atn);
        return;
      }
      WithRuleKeepsValid(atn, name);
      atn := WithRule(atn, name);
      ends := atn.rules[name];
    }

    /** A reference to rule `name`: o-name->(start of name) o, the trailing
     *  state being the follow of the call and not linked to directly. */
    method RuleRef(name: string) returns (h: Handle)
      requires Valid()
      modifies this
      ensures Valid() && old(atn).Extends(atn)
      ensures IsRuleRef(old(atn), name, Built(atn, h))
    {
      var ends := RuleStates(name);
      ghost var w := atn;
      h := Call(name, ends);
      ExtendsTransitive(old(atn), w, atn);
    }

    /** The call edge to rule `name`, whose states `ends` already exist. */
    method Call(name: string, ends: RuleEnds) returns (h: Handle)
      requires Valid() && name in atn.rules && atn.rules[name] == ends
      modifies this
      ensures Valid() && old(atn).Extends(atn)
      ensures IsCall(old(atn), name, Built(atn, h))
    {
      var left := NewState();
      var right := NewState();
      AddTransition(left, Transition(ends.start, RuleKind(name, right)));
      h := Handle(left, right);
      ExtendsWhenKept(old(atn), atn, [Basic, Basic], {});
    }

    /** Seals rule `name` around its body `blk` and returns (start, stop). */
    method Rule(name: string, blk: Handle) returns (h: Handle)
      requires Valid() && atn.Holds(blk)
      modifies this
      ensures Valid() && old(atn).Extends(atn)
      ensures IsRule(old(atn), name, blk, Built(atn, h))
    {
      var ends := RuleStates(name);
      ghost var w := atn;
      h := Seal(name, ends, blk);
      ExtendsTransitive(old(atn), w, atn);
    }

    /** Links the start state of rule `name` to `blk` and `blk` to the rule's
     *  stop state, the rule's states `ends` already existing. */
    method Seal(name: string, ends: RuleEnds, blk: Handle) returns (h: Handle)
      requires Valid() && atn.Holds(blk) && name in atn.rules && atn.rules[name] == ends
      modifies this
      ensures Valid() && old(atn).Extends(atn)
      ensures IsSeal(old(atn), name, blk, Built(atn, h))
    {
      AddTransition(ends.start, Transition(blk.left, EpsilonKind));
      AddTransition(blk.right, Transition(ends.stop, EpsilonKind));
      h := Handle(ends.start, ends.stop);
      ExtendsWhenKept(old(atn), atn, [], {ends.start, blk.right});
    }

    // -------------------------------------------------------------------
    // Alternatives and blocks

    /** The elements of one alternative in sequence; an empty element list
     *  is an error and leaves the network unchanged. */
    method Alt(els: seq<Handle>) returns (r: Result<Handle>)
      requires Valid() && HoldsAll(atn, els)
      modifies this
      ensures Valid() && old(atn).Extends(atn)
      ensures r.Failure? <==> els == []
      ensures r.Failure? ==> r.error == EmptyElementList && atn == old(atn)
      ensures r.Ok? ==> IsAlt(old(atn), els, Built(atn, r.value))
    {
      if els == [] {
        ExtendsReflexive(atn);
        return Failure(EmptyElementList);
      }
      ghost var a0 := atn;
      var i := 1;
      while i < |els|
        invariant 1 <= i <= |els|
        invariant Valid()
        invariant atn.states == a0.states && |atn.transitions| == |a0.transitions|
        invariant atn.rules == a0.rules && atn.decisions == a0.decisions && atn.blocks == a0.blocks
        invariant forall s :: 0 <= s < |a0.transitions| ==>
          atn.transitions[s] == a0.transitions[s] + Links(s, els[..i])
      {
        AddTransition(els[i - 1].right, Transition(els[i].left, EpsilonKind));
        assert els[..i + 1][..i] == els[..i];
        i := i + 1;
      }
      assert els[..i] == els;
      r := Ok(Handle(els[0].left, els[|els| - 1].right));
      ExtendsWhenAppended(a0, atn, []);
    }

    /** A block of alternatives: an error when there is none, the single
     *  alternative itself, a single set edge when every alternative is a
     *  token, character, range or set, and otherwise a block start with one
     *  epsilon per alternative and a shared block end. */
    method Block(alts: seq<Handle>) returns (r: Result<Handle>)
      requires Valid() && HoldsAll(atn, alts)
      modifies this
      ensures Valid() && old(atn).Extends(atn)
      ensures r.Failure? <==> alts == []
      ensures r.Failure? ==> r.error == EmptyBlock && atn == old(atn)
      ensures r.Ok? ==> IsBlock(old(atn), alts, Built(atn, r.value))
    {
      if |alts| <= 1 {
        ExtendsReflexive(atn);
        return if alts == [] then Failure(EmptyBlock) else Ok(alts[0]);
      }
      if AllSetAlts(atn, alts) {
        var h := Edge(SetKind(UnionLabels(atn, alts), false));
        return Ok(h);
      }
      var h := FanOut(alts);
      r := Ok(h);
    }

    /** A fresh block start and block end, recorded as a block. */
    method OpenBlock() returns (begin: nat, end: nat)
      requires Valid()
      modifies this
      ensures Valid() && begin == |old(atn.states)| && end == begin + 1
      ensures atn == old(atn).AddState(BlockStart).AddState(BlockEnd).AddBlock(Handle(begin, end))
    {
      begin := Allocate(BlockStart);
      end := Allocate(BlockEnd);
      AddBlockKeepsValid(atn, Handle(begin, end));
      atn := atn.AddBlock(Handle(begin, end));
    }

    /** The general block: a fresh block start whose transition i enters
     *  alternative i + 1, and a fresh block end that every alternative's
     *  right state leads to. */
    method FanOut(alts: seq<Handle>) returns (h: Handle)
      requires Valid() && HoldsAll(atn, alts)
      modifies this
      ensures Valid() && old(atn).Extends(atn)
      ensures IsFanOut(old(atn), alts, Built(atn, h))
    {
      ghost var a0 := atn;
      var begin, end := OpenBlock();
      FanOutStart(a0, alts, atn);
      var i := 0;
      while i < |alts|
        invariant 0 <= i <= |alts|
        invariant Valid() && begin == |a0.states| && end == begin + 1
        invariant FanOutPrefix(a0, alts, i, atn)
      {
        ghost var before := atn;
        AddTransition(begin, Transition(alts[i].left, EpsilonKind));
        AddTransition(alts[i].right, Transition(end, EpsilonKind));
        FanOutStep(a0, alts, i, before, atn);
        i := i + 1;
      }
      h := Handle(begin, end);
      FanOutDone(a0, alts, atn);
      ExtendsWhenAppended(a0, atn, [BlockStart, BlockEnd]);
    }

    // -------------------------------------------------------------------
    // Optional, plus and star

    /** The optional wrapper: alternative 1 enters `blk`, alternative 2
     *  bypasses it, and both reach a fresh block end. */
    method Bypass(blk: Handle) returns (h: Handle)
      requires Valid() && atn.Holds(blk)
      modifies this
      ensures Valid() && old(atn).Extends(atn)
      ensures IsBypass(old(atn), blk, Built(atn, h))
    {
      var s1 := Allocate(BlockStart);
      var s2 := Allocate(BlockEnd);
      AddTransition(s1, Transition(blk.left, EpsilonKind));
      AddTransition(s1, Transition(s2, EpsilonKind));
      AddTransition(blk.right, Transition(s2, EpsilonKind));
      h := Handle(s1, s2);
      ExtendsWhenKept(old(atn), atn, [BlockStart, BlockEnd], {blk.right});
    }

    /** `(A)?`: an extra empty alternative at the end of A when A is a block
     *  of alternatives, the bypass wrapper otherwise. */
    method Optional(blk: Handle) returns (h: Handle)
      requires Valid() && atn.Holds(blk)
      modifies this
      ensures Valid() && old(atn).Extends(atn)
      ensures IsOptional(old(atn), blk, Built(atn, h))
    {
      if blk in atn.blocks {
        AddTransition(blk.left, Transition(blk.right, EpsilonKind));
        h := blk;
        ExtendsWhenKept(old(atn), atn, [], {blk.left});
      } else {
        h := Bypass(blk);
      }
    }

    /** `(A)+`: A's right state leads to a fresh loop-back decision whose
     *  transition 0 returns to A and whose transition 1 exits the loop. */
    method Plus(blk: Handle) returns (h: Handle)
      requires Valid() && atn.Holds(blk)
      modifies this
      ensures Valid() && old(atn).Extends(atn)
      ensures IsPlus(old(atn), blk, Built(atn, h))
    {
      var loop := Allocate(PlusLoopBack);
      var end := Allocate(LoopEnd);
      AddTransition(blk.right, Transition(loop, EpsilonKind));
      AddTransition(loop, Transition(blk.left, EpsilonKind));
      AddTransition(loop, Transition(end, EpsilonKind));
      h := Handle(blk.left, end);
      ExtendsWhenKept(old(atn), atn, [PlusLoopBack, LoopEnd], {blk.right});
    }

    /** The loop of `(A)*`, without its bypass. */
    method StarLoop(blk: Handle)
      requires Valid() && atn.Holds(blk)
      modifies this
      ensures Valid() && old(atn).Extends(atn)
      ensures IsStarLoop(old(atn), blk, atn)
    {
      var entry := Allocate(StarLoopEntry);
      var loopBack := Allocate(StarLoopBack);
      var end := Allocate(LoopEnd);
      AddTransition(entry, Transition(blk.left, EpsilonKind));
      AddTransition(entry, Transition(end, EpsilonKind));
      AddTransition(blk.right, Transition(loopBack, EpsilonKind));
      AddTransition(loopBack, Transition(entry, EpsilonKind));
      ExtendsWhenKept(old(atn), atn, [StarLoopEntry, StarLoopBack, LoopEnd], {blk.right});
    }

    /** `(A)*`: the loop of A, then the optional bypass around A+. */
    method Star(blk: Handle) returns (h: Handle)
      requires Valid() && atn.Holds(blk)
      modifies this
      ensures Valid() && old(atn).Extends(atn)
      ensures IsStar(old(atn), blk, Built(atn, h))
    {
      var entry := |atn.states|;
      StarLoop(blk);
      ghost var loop := atn;
      h := Bypass(Handle(blk.left, entry + 2));
      StarFromLoopAndBypass(old(atn), blk, loop, Built(atn, h));
      ExtendsTransitive(old(atn), loop, atn);
    }
  }
}
