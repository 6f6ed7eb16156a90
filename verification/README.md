# Formula Frenzy — a Dafny model of the game core

Formula Frenzy is a browser card game. The player holds five cards and sees
one target card. They type an arithmetic formula that uses numbers from their
hand. If the formula evaluates exactly to the target's value, they score:
+3 for a "Formula Frenzy" that uses exactly five numbers, +1 otherwise. A new
round is then dealt. They may also pass, which replaces the hand and keeps
the target.

This project models the game logic of `code.js` as pure Dafny functions over
immutable values. Five modules follow the structure of the program:

- `Cards` (`cards.dfy`): the value, rank and suit tables and `createDeck`.
  Cards carry a face text and a value. `FullDeck` is the 52-card deck in
  construction order.
- `Deck` (`deck.dfy`): `shuffleDeck` as a Fisher–Yates swap loop, and
  `pop`. The random index of each swap is supplied as a "pick" `j <= i`.
  A pop from an empty deck yields `undefined` (`Slot.Undefined`) rather
  than failing, exactly as a JavaScript array does.
- `Formula` (`formula.dfy`): reading the numbers a formula claims to use
  (`/\d+/g` followed by `Number`): the maximal runs of ASCII digits, left to
  right.
- `Validation` (`validation.dfy`): the greedy `indexOf`/`splice` check of
  those numbers against a copy of the hand's values.
- `Game` (`game.dfy`): the round state (deck, target, hand, score), the
  low-deck policy, dealing a round, passing, submitting, and runs of player
  actions.

Two collaborators are parameters rather than code:
- the random source of the shuffle, as a sequence of picks;
- the expression evaluator `math.evaluate`, as a function from the formula
  text to an `Evaluation` (an integral number, some other value, or a throw).

## Model

| member | source | states |
|---|---|---|
| Cards.TablesAgree | code.js:2-4 | the rank table lists 13 ranks, exactly the keys of the value table, the rank at index k is worth k+1, and there are 4 suits |
| Cards.CreateDeck | code.js:22-32 | the nested suit/rank loop builds exactly the 52-card deck: each suit contributes the 13 ranks in table order, each with the value its rank is worth |
| Cards.FullDeckHasFourOfEachCard | code.js:22-32 | the fresh deck holds every genuine card (value equals the table's value for its face) exactly 4 times and no other card |
| Cards.FullDeckHasFourOfEachValue | code.js:22-32 | the fresh deck holds each value 1..13 exactly 4 times and no other value |
| Deck.Shuffle | code.js:34-39 | for any picks with 0 <= j <= i, the shuffled deck has the same length and the same multiset of cards |
| Deck.ShuffleDeck | code.js:34-39 | the downward swap loop computes the shuffle and keeps the multiset of cards at every step |
| Deck.ShuffleReachesEveryPermutation | code.js:34-39 | conversely, every rearrangement of the deck is produced by some choice of picks |
| Deck.Pop | code.js:50 | popping takes the last card and leaves the rest; an empty deck yields `undefined` and stays empty |
| Deck.PopN | code.js:53-56 | n successive pops (five for a hand) leave the deck without its top min(n, length) cards |
| Deck.PopNSlots | code.js:53-56 | the i-th pop yields the i-th card from the top while cards remain, and `undefined` after that |
| Deck.PopNSafe | code.js:53-56 | every pop yields a card exactly when the deck holds at least as many cards as pops |
| Deck.PopNConserves | code.js:53-56 | the popped cards together with the remaining deck are exactly the cards of the original deck |
| Deck.DealtCardsOfAllDealt | code.js:90 | a hand of real cards lists those cards slot by slot |
| Game.Replenish | code.js:43-47 | with fewer than 10 cards left the deck is replaced by a shuffled fresh 52-card deck (leftovers discarded); otherwise it is kept; either way at least 10 cards remain |
| Game.DealNewRound | code.js:41-56 | the target is the top card of the replenished deck, the hand is the next five cards in pop order, all real cards, the deck loses its top six, and the score is carried over |
| Game.NewGame | code.js:6-9 | the game starts from the empty deck and score 0 declared here and is dealt its first round by the `dealNewRound()` call at code.js:168, so that deal reshuffles and leaves 46 cards in the deck |
| Game.PassHand | code.js:135-143 | passing keeps target and score, replaces the hand with the next five pops without any low-deck check, and the hand holds only cards exactly when at least five were left |
| Game.HandValues | code.js:90 | the hand's values, in hand order |
| Formula.RunLength | code.js:89 | the leading digit run: all digits, and followed by a non-digit or the end of the text |
| Formula.ExtractNumbers | code.js:89 | the numbers claimed are non-negative; the list is empty exactly when the text has no digit |
| Formula.ExtractSplitsAtNonDigit | code.js:89 | a non-digit separates: the numbers of a+c+b are those of a followed by those of b |
| Formula.DigitRunIsOneNumber | code.js:89 | a text made only of digits is one number, its decimal value |
| Formula.Show | code.js:89 | every natural number has a digit spelling that reads back as that number |
| Formula.ExtractJoinRoundTrip | code.js:89 | numbers written out with a non-digit operator between them are read back exactly, in order |
| Formula.DecimalPointSeparates | code.js:89 | "1.5" claims the two numbers 1 and 5 |
| Validation.IndexOf | code.js:95 | `indexOf`: -1 exactly when the value is absent, otherwise the first position holding it |
| Validation.RemoveAt | code.js:97 | `splice(k, 1)` removes exactly one copy of the element at k |
| Validation.Match | code.js:92-102 | the greedy check succeeds exactly when the numbers, as a multiset, fit inside the hand values; on success each number has used up exactly one hand value; on failure the missing number is a claimed number that the formula claims more often than the hand holds it |
| Validation.ValidateCards | code.js:92-102 | the loop over a working copy, with its `break`, answers valid exactly when the numbers fit inside the hand values as a multiset |
| Validation.MatchIgnoresOrder | code.js:92-102 | the verdict does not depend on the order in which the formula mentions the numbers |
| Validation.DuplicateValues | code.js:92-102 | two 2s fit a hand holding two 2s, leaving the other three values; three 2s do not |
| Game.Submit | code.js:81-133 | a submission scores exactly when the formula is non-empty, the hand holds only cards, the numbers fit the hand and the evaluator returns the target value; every failure (empty, hand error, invalid cards, evaluator throw, wrong result) leaves the whole state unchanged; a match adds 3 for exactly five numbers and 1 otherwise and is followed by a new round |
| Game.ScoreNeverDecreases | code.js:119-128 | no sequence of submissions and passes lowers the score |
| Game.DrainedGameIsStuck | code.js:135-141 | once passing has emptied the deck and left `undefined` in the hand, no sequence of actions changes the score or the target again |
| Game.DealConserves | code.js:41-56 | dealing keeps every card of the replenished deck in play (deck, hand, target) and adds none |
| Game.NewGameHoldsFullDeck | code.js:41-56 | after the first deal all 52 cards are in play |
| Game.DealKeepsConsistent | code.js:41-56 | dealing from a consistent state gives a consistent state: no card is in play more often than one fresh deck holds it |
| Game.PassKeepsConsistent | code.js:135-143 | passing discards the old hand, so a consistent state stays consistent |
| Game.StepKeepsConsistent | code.js:81-143 | any single submission or pass keeps the state consistent |
| Game.RunKeepsConsistent | code.js:81-143 | every run of actions from a consistent state stays consistent |
| Game.ConsistentCardsAreGenuine | code.js:22-32 | in a consistent state every card in play is genuine and none is in play more than four times |

## Left out

- The DOM lookups, `renderGame`, `updateMessage`, the event listeners and the
  `console.log` calls (code.js:12-18, 64-79, 145-164, 46, 167) are
  presentation and I/O. The messages are modelled only as the `Outcome` of a
  submission. Clearing the input box (code.js:59) is not modelled.
- `Math.random` (code.js:36) is replaced by picks with `0 <= j <= i`. The
  model proves that every choice of picks gives a permutation and that every
  permutation is reachable. It does not prove uniformity.
- `math.evaluate` (code.js:112) is a parameter. Its parsing, its
  floating-point arithmetic and the rounding behind `===` are not modelled.
  A result that is not an integral number is `OtherValue`, which never
  equals a card value.
- `setTimeout(dealNewRound, 1500)` (code.js:129): a match is followed
  directly by the new round. While the timer is pending the page still
  accepts submissions and passes, so a second match could be scored against
  the old target. That interleaving is not modelled.
- Each digit run is read as an unbounded natural number, where `Number`
  gives a double. The two agree on everything the game does with the
  numbers: every integer below 2^53 converts exactly, and a longer run
  rounds to a value of at least 14 (or Infinity). So a run equals a card
  value 1..13 under `indexOf` (code.js:95) exactly when its exact value
  does, and the count of numbers (code.js:121) is the same.
- Suits are not stored on cards (neither does the source store them). The
  face text is kept only so that the value table can be checked against it.
- Game.Submit: the empty check follows the code, where `!formula` rejects only
  the empty string. A formula of spaces alone passes that check and is left
  to the evaluator.
- An empty deck does not fail to pop: `deck.pop()` returns `undefined`. Only
  passing can drain the deck, since dealing always reshuffles below 10 cards
  first. A drained pass puts `undefined` into the hand. Rendering it then
  throws after the hand has been replaced, and any later non-empty
  submission throws when reading the hand's values. The model keeps the
  replaced hand and reports `HandTypeError` with the state unchanged.
