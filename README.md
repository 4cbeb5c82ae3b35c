# Flash-card quiz store, modelled in Dafny

This project models the state container of a flashcard quiz application
(`src/stores/flash-cards.ts`). The store holds:

- a deck of cards, each with an id, front and back text and an answer state;
- a shuffled display order of card ids;
- a cursor into that order;
- two score counters;
- a flag that says which face is shown.

Its actions flip the card and move the cursor with wrap-around. They also
record one answer per card, reset the quiz and append a card.

Files:

- `cards.dfy` (module `Cards`) holds the values and the pure logic: the
  card datatypes and the initial-state map (`initialFlashCardState`). It
  also holds the storage projection, the lookup (`getCardById`), the
  one-shot answer transition and the getters (`currentCard`,
  `totalAnswered`, `hasAnsweredAll`). The cursor arithmetic of
  `moveLeft`/`moveRight` is there too.
- `shuffle.dfy` (module `Shuffle`) holds the Fisher–Yates shuffle. It is a
  specification function plus the in-place loop over an array of ids, and
  the loop is proved to compute that function and hence a permutation.
- `store.dfy` (module `Store`) holds the class `FlashCardStore`. Its fields
  are the store's state, and its methods are the actions. Each method
  states the whole new state through its `modifies` frame and its
  `ensures`. The display order built by the constructor and by the reset
  is given as the Fisher–Yates shuffle of the deck's ids under `picks`.
  The methods that touch the deck or the counters also keep the score
  invariant `Consistent()`: the counters equal the number of Correct and
  Incorrect cards. `AnswerSameCardThrice` is a client of the class. It
  answers one card Correct twice and then Incorrect.

Three behaviours of the code are modelled as written:

- `moveLeft`/`moveRight` wrap against the deck length, not the display
  order's length (flash-cards.ts:91, :98). On an empty deck `moveLeft` sets
  the cursor to -1 and `moveRight` sets it to 0.
- `addCard` leaves the display order alone. A deck longer than the order
  lets the cursor go past the order's end, and `currentCard` then yields the
  sentinel (`WrapPastOrderGivesSentinel`).
- `currentCard` also yields the sentinel when the cursor is outside the
  order. Indexing the order there gives `undefined`, which matches no id.

## Model

| member | source | states |
|---|---|---|
| Cards.InitialFlashCardState | src/stores/flash-cards.ts:14-16 | same length, every card Unanswered, and projecting back to `{id, frontText, backText}` gives the input in order |
| Cards.ResetKeepsCards | src/stores/flash-cards.ts:14-16 | re-initialising a deck keeps length, ids and order, and changes each card only in its answer state |
| Cards.SaveThenInitialiseRestoresDeck | src/stores/flash-cards.ts:14-16 | a deck with nothing answered survives projection then re-initialisation unchanged |
| Cards.CardDataOf | src/stores/flash-cards.ts:119-123 | the storage projection keeps one record per card, in deck order, with the card's id, front text and back text |
| Cards.FirstIndexOf | src/stores/flash-cards.ts:33-35 | none exactly when no card has the id; otherwise an index holding the id with no earlier card holding it |
| Cards.GetCardById | src/stores/flash-cards.ts:33-35 | none exactly when no card has the id; otherwise the first card with that id |
| Cards.FirstIndexOfDependsOnIds | src/stores/flash-cards.ts:33-35 | two decks with the same id sequence give the same lookup result |
| Cards.RecordAnswer | src/stores/flash-cards.ts:67-87 | succeeds if and only if the first card with the id is Unanswered; then exactly that card goes from Unanswered to the outcome; no-op when no card has the id or every such card is answered |
| Cards.AnswerIsOneShot | src/stores/flash-cards.ts:67-87 | after a successful answer for an id, answering it again with either outcome is a no-op |
| Cards.AnswerUpdatesCounts | src/stores/flash-cards.ts:67-87 | a successful answer raises the outcome's card count by one, leaves the other outcome's count alone, and lowers the unanswered count by one |
| Cards.TotalAnswered | src/stores/flash-cards.ts:59 | with counters matching a deck, the total is the number of that deck's cards that are not Unanswered |
| Cards.HasAnsweredAll | src/stores/flash-cards.ts:60 | with counters matching the deck, `hasAnsweredAll` holds if and only if no card is Unanswered |
| Cards.CurrentCardOf | src/stores/flash-cards.ts:47-58 | with the cursor inside the order and the id present: the first card with `order[cursor]`; otherwise the sentinel |
| Cards.StepLeft | src/stores/flash-cards.ts:89-95 | on a deck of n > 0 with cursor in range: `(idx - 1 + n) % n`, in range; from 0 or -1 it is n - 1, so -1 on an empty deck |
| Cards.StepRight | src/stores/flash-cards.ts:97-103 | on a deck of n > 0 with cursor in range: `(idx + 1) % n`, in range; from n - 1 or from -1 it is 0; on an empty deck it is 0 |
| Cards.StepsAreInverse | src/stores/flash-cards.ts:89-103 | on a non-empty deck a step left and a step right undo each other |
| Cards.WrapPastOrderGivesSentinel | src/stores/flash-cards.ts:89-95 | when the deck is longer than the display order, a step left from 0 makes the current card the sentinel |
| Shuffle.Swap | src/stores/flash-cards.ts:27 | the two positions exchange their ids and every other position is kept |
| Shuffle.SwapPermutes | src/stores/flash-cards.ts:27 | a swap keeps the multiset of ids |
| Shuffle.SwapInPlace | src/stores/flash-cards.ts:27 | the array afterwards holds the swapped sequence of its old contents |
| Shuffle.FisherYates | src/stores/flash-cards.ts:19-31 | the shuffle keeps the length and leaves positions at or beyond the unplaced count untouched |
| Shuffle.FisherYatesPermutes | src/stores/flash-cards.ts:19-31 | the shuffle keeps the length and the multiset of ids, for any valid draws |
| Shuffle.ShuffleCardOrder | src/stores/flash-cards.ts:19-31 | the in-place loop returns the Fisher–Yates shuffle of the deck's ids, which has the deck's length and is a permutation of its ids |
| Store.FlashCardStore.constructor | src/stores/flash-cards.ts:39-44 | deck initialised from the seed, order the Fisher–Yates shuffle of its ids under `picks` and so a permutation of them, cursor and counters 0, front face shown, counters consistent |
| Store.FlashCardStore.CurrentCard | src/stores/flash-cards.ts:47-58 | the first card of the deck with the id at the cursor, when the cursor is inside the order and that id is in the deck; otherwise the sentinel |
| Store.FlashCardStore.TotalAnswered | src/stores/flash-cards.ts:59 | with consistent counters, the number of answered cards of the deck |
| Store.FlashCardStore.HasAnsweredAll | src/stores/flash-cards.ts:60 | with consistent counters, true if and only if no card of the deck is Unanswered |
| Store.FlashCardStore.FlipCard | src/stores/flash-cards.ts:63-65 | the face flag is negated and nothing else changes |
| Store.FlashCardStore.IncreaseCorrect | src/stores/flash-cards.ts:67-76 | deck and correct count follow the answer transition with Correct, +1 exactly when it succeeds; nothing else changes; the counters stay consistent |
| Store.FlashCardStore.IncreaseIncorrect | src/stores/flash-cards.ts:78-87 | the same with Incorrect and the incorrect count |
| Store.FlashCardStore.MoveLeft | src/stores/flash-cards.ts:89-95 | the cursor takes one wrapping step left against the deck size, and lands in range on a non-empty deck when it started in range or at -1 |
| Store.FlashCardStore.MoveRight | src/stores/flash-cards.ts:97-103 | the cursor takes one wrapping step right against the deck size, and lands in range on a non-empty deck when it started in range or at -1 |
| Store.FlashCardStore.ResetCardsAndScore | src/stores/flash-cards.ts:105-111 | every card Unanswered with the same ids and texts in order, order the Fisher–Yates shuffle of the ids under `picks` and so a permutation of them, cursor and counters 0, face flag kept |
| Store.AnswerSameCardThrice | src/stores/flash-cards.ts:67-87 | Correct twice then Incorrect on one id leaves the deck as the first call left it, counts at most one correct answer and no incorrect one; order, cursor and face flag are outside its frame |
| Store.FlashCardStore.AddCard | src/stores/flash-cards.ts:113-116 | exactly one Unanswered card with the given id and texts is appended. Order, cursor and counters are unchanged. Consistency and id uniqueness are kept (given a fresh id), and a fresh id is absent from the order |

## Left out

- `Math.random` and `Math.floor` (flash-cards.ts:25) are replaced by the
  input `picks`. `picks[i]` is the index drawn when `i + 1` ids are still
  unplaced, in `[0, i]`. That the shuffle is uniform is not modelled.
- `uuidV4()` (flash-cards.ts:114) is replaced by the `id` parameter of
  `AddCard`. The generator's uniqueness is not assumed. Id uniqueness is
  kept only when the caller's id is fresh.
- `localStorage.setItem`, `JSON.stringify`, `loadCardsFromStorage`,
  `localStorage.getItem` and `JSON.parse` (flash-cards.ts:125-133) are
  browser I/O and an unchecked JSON parse, so they are not modelled. Only
  the field projection of `saveCardsToStorage` is modelled, as
  `CardDataOf`. Neither storage function is in the store's returned
  object. A load would replace the deck without resetting counters, so it
  could break `Consistent()`.
- The bundled seed import (flash-cards.ts:2) becomes the constructor's
  `seed` parameter.
- Pinia's `defineStore` and Vue's `ref`/`computed` (flash-cards.ts:37-44)
  are reactivity wiring. The state is plain fields, and the getters are
  functions of them.
- Card objects are updated as values in a sequence, so aliasing is not
  captured. The source mutates the card object found by `getCardById`
  (flash-cards.ts:74, :85), and other holders of that object would see the
  change.
- `initialFlashCardState` also accepts full cards (flash-cards.ts:14). The
  reset first projects each card to its id and texts. The result is the
  same because the answer state is overwritten.
- The counters are unbounded integers. JavaScript numbers lose precision
  only beyond 2^53 answers.
