/** The round state and its transitions: dealing a new round, passing, and
    submitting a formula.

    The game holds the deck, the target card, the hand and the score. The
    hand is a list of slots, because passing pops from the deck without
    looking at how many cards are left, and a pop from an empty deck yields
    `undefined` rather than a card.

    Two collaborators are parameters: the picks that stand in for the random
    source of the shuffle, and `evaluate`, which stands in for the expression
    evaluator.
 */
module Game {
  import opened Cards
  import opened Deck
  import opened Formula
  import opened Validation

  /** A new round starts from a fresh shuffled deck when fewer cards remain. */
  const LowDeckThreshold: nat := 10
  const HandSize: nat := 5
  /** Points for a match that uses exactly five numbers, and for any other match. */
  const FrenzyPoints: nat := 3
  const MatchPoints: nat := 1

  datatype State = State(deck: seq<Card>, target: Card, hand: seq<Slot<Card>>, score: nat)

  /** What the expression evaluator returns for a formula. */
  datatype Evaluation =
    | Number(value: int)  // an integral number
    | OtherValue          // any other result; it is never identical to a card value
    | Throws              // the evaluator rejected the formula

  /** What a submission reports to the player. */
  datatype Outcome =
    | EmptyFormula                        // nothing was typed
    | HandTypeError                       // the hand holds `undefined`, so reading its values throws
    | InvalidCards(handValues: seq<int>)  // a number is not available; the hand values are shown
    | BadMath                             // the evaluator threw
    | Incorrect(result: Evaluation)       // the result is not the target value
    | Correct                             // a match with other than five numbers
    | FormulaFrenzy                       // a match with exactly five numbers

  datatype Reply = Reply(outcome: Outcome, next: State)

  /** The low-deck policy: with fewer than ten cards left, the remaining cards
      are discarded and a freshly built deck is shuffled in their place. */
  function Replenish(deck: seq<Card>, picks: seq<nat>): (d: seq<Card>)
    requires ValidPicks(picks, 52)
    ensures |d| >= LowDeckThreshold
    ensures |deck| >= LowDeckThreshold ==> d == deck
    ensures |deck| < LowDeckThreshold ==> |d| == 52 && multiset(d) == multiset(FullDeck())
  {
    if |deck| < LowDeckThreshold then Shuffle(FullDeck(), picks) else deck
  }

  /** A new round: after the low-deck check the target is popped first and the
      five hand cards after it, so every pop yields a card. The previous
      target and hand are discarded and the score is carried over. */
  function DealNewRound(deck: seq<Card>, score: nat, picks: seq<nat>): (s: State)
    requires ValidPicks(picks, 52)
    ensures var full := Replenish(deck, picks);
      && s.target == full[|full| - 1]
      && |s.hand| == HandSize && AllDealt(s.hand)
      && (forall k :: 0 <= k < HandSize ==> s.hand[k] == Dealt(full[|full| - 2 - k]))
      && s.deck == full[..|full| - 6]
    ensures s.score == score
  {
    var full := Replenish(deck, picks);
    var top := Pop(full);
    var drawn := PopN(top.1, HandSize);
    PopNSafe(top.1, HandSize);
    PopNSlots(top.1, HandSize);
    State(drawn.1, top.0.card, drawn.0, score)
  }

  /** The game as it starts: an empty deck and a score of zero, then a new
      round. */
  function NewGame(picks: seq<nat>): (s: State)
    requires ValidPicks(picks, 52)
    ensures s.score == 0 && |s.deck| == 52 - 6
  {
    DealNewRound([], 0, picks)
  }

  /** Passing replaces the hand with the next five pops and nothing else: the
      target and the score stay. The deck is not checked first, so the new
      hand holds only cards exactly when at least five were left. */
  function PassHand(s: State): (r: State)
    ensures r.target == s.target && r.score == s.score
    ensures |r.hand| == HandSize
    ensures AllDealt(r.hand) <==> |s.deck| >= HandSize
    ensures forall k :: 0 <= k < HandSize ==>
      r.hand[k] == if k < |s.deck| then Dealt(s.deck[|s.deck| - 1 - k]) else Undefined
    ensures r.deck == if |s.deck| >= HandSize then s.deck[..|s.deck| - HandSize] else []
  {
    var drawn := PopN(s.deck, HandSize);
    PopNSafe(s.deck, HandSize);
    PopNSlots(s.deck, HandSize);
    s.(deck := drawn.1, hand := drawn.0)
  }

  /** The values of a hand that holds only cards, in hand order. */
  function HandValues(s: State): (vs: seq<int>)
    requires AllDealt(s.hand)
    ensures |vs| == |s.hand|
    ensures forall k :: 0 <= k < |vs| ==> vs[k] == s.hand[k].card.value
  {
    DealtCardsOfAllDealt(s.hand);
    ValuesOf(DealtCards(s.hand))
  }

  /** Points for a match that claimed `used` numbers. */
  function ScoreDelta(used: nat): nat {
    if used == HandSize then FrenzyPoints else MatchPoints
  }

  /** A submission earns points exactly when the text is not empty, the hand
      holds only cards, the claimed numbers fit inside the hand's values as a
      multiset, and the evaluator returns the target's value. */
  predicate Wins(s: State, formula: string, evaluate: string -> Evaluation) {
    && formula != []
    && AllDealt(s.hand)
    && multiset(ExtractNumbers(formula)) <= multiset(HandValues(s))
    && evaluate(formula) == Number(s.target.value)
  }

  /** Submitting a formula. Every failure leaves the state exactly as it was;
      a match adds three points when exactly five numbers were claimed and one
      point otherwise, and is followed by a new round. */
  function Submit(s: State, formula: string, evaluate: string -> Evaluation, picks: seq<nat>): (r: Reply)
    requires ValidPicks(picks, 52)
    ensures (r.outcome.Correct? || r.outcome.FormulaFrenzy?) <==> Wins(s, formula, evaluate)
    ensures !Wins(s, formula, evaluate) ==> r.next == s
    ensures r.outcome.FormulaFrenzy? ==>
      |ExtractNumbers(formula)| == 5 && r.next == DealNewRound(s.deck, s.score + 3, picks)
    ensures r.outcome.Correct? ==>
      |ExtractNumbers(formula)| != 5 && r.next == DealNewRound(s.deck, s.score + 1, picks)
    ensures r.next.score >= s.score
    ensures r.outcome.EmptyFormula? <==> formula == []
    ensures r.outcome.HandTypeError? <==> formula != [] && !AllDealt(s.hand)
    ensures r.outcome.InvalidCards? <==>
      formula != [] && AllDealt(s.hand) && !(multiset(ExtractNumbers(formula)) <= multiset(HandValues(s)))
    ensures r.outcome.InvalidCards? ==> r.outcome.handValues == HandValues(s)
    ensures r.outcome.BadMath? <==>
      formula != [] && AllDealt(s.hand) && multiset(ExtractNumbers(formula)) <= multiset(HandValues(s))
      && evaluate(formula).Throws?
    ensures r.outcome.Incorrect? ==>
      r.outcome.result == evaluate(formula) && r.outcome.result != Number(s.target.value)
  {
    if formula == [] then Reply(EmptyFormula, s)
    else
      var nums := ExtractNumbers(formula);
      if !AllDealt(s.hand) then Reply(HandTypeError, s)
      else
        var handValues := HandValues(s);
        if Match(nums, handValues).Unmatched? then Reply(InvalidCards(handValues), s)
        else
          var result := evaluate(formula);
          if result.Throws? then Reply(BadMath, s)
          else if result == Number(s.target.value) then
            var delta := ScoreDelta(|nums|);
            var next := DealNewRound(s.deck, s.score + delta, picks);
            if |nums| == HandSize then Reply(FormulaFrenzy, next) else Reply(Correct, next)
          else Reply(Incorrect(result), s)
  }

  /** What the player can do: submit a formula (with the picks for the deal
      that follows a match) or pass. */
  datatype Action = SubmitFormula(formula: string, picks: seq<nat>) | PassAction

  predicate ActionOk(a: Action) {
    a.SubmitFormula? ==> ValidPicks(a.picks, 52)
  }

  function Step(s: State, a: Action, evaluate: string -> Evaluation): State
    requires ActionOk(a)
  {
    match a
    case SubmitFormula(formula, picks) => Submit(s, formula, evaluate, picks).next
    case PassAction => PassHand(s)
  }

  /** The state after a sequence of actions. */
  function Run(s: State, actions: seq<Action>, evaluate: string -> Evaluation): State
    requires forall k :: 0 <= k < |actions| ==> ActionOk(actions[k])
    decreases |actions|
  {
    if actions == [] then s else Run(Step(s, actions[0], evaluate), actions[1..], evaluate)
  }

  /** No sequence of submissions and passes ever lowers the score. */
  lemma {:induction false} ScoreNeverDecreases(s: State, actions: seq<Action>, evaluate: string -> Evaluation)
    requires forall k :: 0 <= k < |actions| ==> ActionOk(actions[k])
    ensures Run(s, actions, evaluate).score >= s.score
    decreases |actions|
  {
    if actions != [] {
      ScoreNeverDecreases(Step(s, actions[0], evaluate), actions[1..], evaluate);
    }
  }

  /** Once passing has emptied the deck the game cannot move on: every pass
      deals a hand of `undefined`, every non-empty submission fails on the
      hand, and only a match would deal a new round. The score and the target
      stay as they are whatever the player does. */
  lemma {:induction false} DrainedGameIsStuck(s: State, actions: seq<Action>, evaluate: string -> Evaluation)
    requires forall k :: 0 <= k < |actions| ==> ActionOk(actions[k])
    requires s.deck == [] && |s.hand| == HandSize && !AllDealt(s.hand)
    ensures var t := Run(s, actions, evaluate);
      t.score == s.score && t.target == s.target && t.deck == [] && !AllDealt(t.hand)
    decreases |actions|
  {
    if actions != [] {
      var next := Step(s, actions[0], evaluate);
      if actions[0].SubmitFormula? {
        assert !Wins(s, actions[0].formula, evaluate);
      }
      DrainedGameIsStuck(next, actions[1..], evaluate);
    }
  }

  /** The cards in play: the deck, the cards in the hand and the target. */
  function InPlay(s: State): seq<Card> {
    s.deck + DealtCards(s.hand) + [s.target]
  }

  /** A state the game can reach: a five-slot hand, and the cards in play are
      drawn from one 52-card deck, so no card is in play more often than the
      deck holds it. */
  predicate Consistent(s: State) {
    |s.hand| == HandSize && multiset(InPlay(s)) <= multiset(FullDeck())
  }

  /** Dealing keeps every card of the replenished deck in play and adds none. */
  lemma DealConserves(deck: seq<Card>, score: nat, picks: seq<nat>)
    requires ValidPicks(picks, 52)
    ensures multiset(InPlay(DealNewRound(deck, score, picks))) == multiset(Replenish(deck, picks))
  {
    var full := Replenish(deck, picks);
    var top := Pop(full);
    var drawn := PopN(top.1, HandSize);
    PopNConserves(top.1, HandSize);
    assert full == top.1 + [top.0.card];
    assert InPlay(DealNewRound(deck, score, picks)) == drawn.1 + DealtCards(drawn.0) + [top.0.card];
  }

  /** The first round leaves all 52 cards in play. */
  lemma NewGameHoldsFullDeck(picks: seq<nat>)
    requires ValidPicks(picks, 52)
    ensures Consistent(NewGame(picks))
    ensures multiset(InPlay(NewGame(picks))) == multiset(FullDeck())
  {
    DealConserves([], 0, picks);
  }

  lemma DealKeepsConsistent(s: State, score: nat, picks: seq<nat>)
    requires ValidPicks(picks, 52)
    requires Consistent(s)
    ensures Consistent(DealNewRound(s.deck, score, picks))
  {
    DealConserves(s.deck, score, picks);
    if |s.deck| >= LowDeckThreshold {
      assert multiset(s.deck) <= multiset(InPlay(s));
    }
  }

  /** Passing discards the old hand, so the cards in play only shrink. */
  lemma PassKeepsConsistent(s: State)
    requires Consistent(s)
    ensures Consistent(PassHand(s))
  {
    var drawn := PopN(s.deck, HandSize);
    PopNConserves(s.deck, HandSize);
    assert InPlay(PassHand(s)) == drawn.1 + DealtCards(drawn.0) + [s.target];
    assert multiset(InPlay(PassHand(s))) == multiset(s.deck) + multiset{s.target};
    assert multiset(InPlay(s)) == multiset(s.deck) + multiset(DealtCards(s.hand)) + multiset{s.target};
  }

  lemma StepKeepsConsistent(s: State, a: Action, evaluate: string -> Evaluation)
    requires ActionOk(a) && Consistent(s)
    ensures Consistent(Step(s, a, evaluate))
  {
    match a
    case SubmitFormula(formula, picks) =>
      var r := Submit(s, formula, evaluate, picks);
      if Wins(s, formula, evaluate) {
        DealKeepsConsistent(s, r.next.score, picks);
      }
    case PassAction =>
      PassKeepsConsistent(s);
  }

  /** Whatever the player does, the game stays consistent, so every card in
      play is a genuine card and none is in play more than four times. */
  lemma {:induction false} RunKeepsConsistent(s: State, actions: seq<Action>, evaluate: string -> Evaluation)
    requires forall k :: 0 <= k < |actions| ==> ActionOk(actions[k])
    requires Consistent(s)
    ensures Consistent(Run(s, actions, evaluate))
    decreases |actions|
  {
    if actions != [] {
      StepKeepsConsistent(s, actions[0], evaluate);
      RunKeepsConsistent(Step(s, actions[0], evaluate), actions[1..], evaluate);
    }
  }

  /** In a consistent state every card in play is genuine and appears at most
      four times. */
  lemma ConsistentCardsAreGenuine(s: State, c: Card)
    requires Consistent(s)
    ensures c in InPlay(s) ==> IsGenuine(c)
    ensures multiset(InPlay(s))[c] <= 4
  {
    FullDeckHasFourOfEachCard(c);
  }
}
