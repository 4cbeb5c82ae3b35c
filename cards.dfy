// The value side of the flash-card store: cards, the decks built from them,
// the card lookup, the one-shot answer transition, the computed getters and
// the cursor arithmetic. Everything here is a pure function of its inputs.
module Cards {

  datatype Option<T> = None | Some(value: T)

  /** The `answered` field of a card: the source's `false`, 'correct' and 'incorrect'. */
  datatype Answered = Unanswered | Correct | Incorrect

  /** A stored card: what the seed data and the storage projection hold. */
  datatype CardData = CardData(id: string, frontText: string, backText: string)

  /** A card of the deck together with its answer state. */
  datatype FlashCard = FlashCard(id: string, frontText: string, backText: string, answered: Answered)

  /** The placeholder the `currentCard` getter yields when no card is found. */
  const Sentinel: FlashCard := FlashCard("UNDEF", "NO CARDS", "Could be an error", Unanswered)

  /** The ids of a deck, in deck order. */
  function Ids(cards: seq<FlashCard>): (r: seq<string>)
    ensures |r| == |cards| && forall i | 0 <= i < |cards| :: r[i] == cards[i].id
  {
    seq(|cards|, i requires 0 <= i < |cards| => cards[i].id)
  }

  ghost predicate AllUnanswered(cards: seq<FlashCard>)
  {
    forall i | 0 <= i < |cards| :: cards[i].answered == Unanswered
  }

  ghost predicate UniqueIds(cards: seq<FlashCard>)
  {
    forall i, j | 0 <= i < j < |cards| :: cards[i].id != cards[j].id
  }

  /** The record written to storage for each card: answer state is dropped. */
  function CardDataOf(cards: seq<FlashCard>): (r: seq<CardData>)
    ensures |r| == |cards|
    ensures forall i | 0 <= i < |r| :: r[i].id == cards[i].id
    ensures forall i | 0 <= i < |r| :: r[i].frontText == cards[i].frontText && r[i].backText == cards[i].backText
  {
    seq(|cards|, i requires 0 <= i < |cards| => CardData(cards[i].id, cards[i].frontText, cards[i].backText))
  }

  /** A fresh deck from card data: same cards, same order, nothing answered. */
  function InitialFlashCardState(data: seq<CardData>): (r: seq<FlashCard>)
    ensures |r| == |data|
    ensures AllUnanswered(r)
    ensures CardDataOf(r) == data
  {
    var r := seq(|data|, i requires 0 <= i < |data| => FlashCard(data[i].id, data[i].frontText, data[i].backText, Unanswered));
    assert forall i | 0 <= i < |data| :: CardDataOf(r)[i] == data[i];
    r
  }

  /** Re-initialising a deck changes only the answer state of each card. */
  lemma ResetKeepsCards(cards: seq<FlashCard>)
    ensures var r := InitialFlashCardState(CardDataOf(cards));
      |r| == |cards| && Ids(r) == Ids(cards) &&
      forall i | 0 <= i < |r| :: r[i] == cards[i].(answered := Unanswered)
  {
  }

  /** Saving a deck that nothing was answered in and re-initialising it gives the deck back. */
  lemma SaveThenInitialiseRestoresDeck(cards: seq<FlashCard>)
    requires AllUnanswered(cards)
    ensures InitialFlashCardState(CardDataOf(cards)) == cards
  {
  }

  /** The position of the first card whose id is `id`, as `Array.find` scans. */
  function FirstIndexOf(cards: seq<FlashCard>, id: string): (r: Option<nat>)
    ensures r.None? <==> forall i | 0 <= i < |cards| :: cards[i].id != id
    ensures r.Some? ==> r.value < |cards| && cards[r.value].id == id
    ensures r.Some? ==> forall j | 0 <= j < r.value :: cards[j].id != id
  {
    if |cards| == 0 then None
    else if cards[0].id == id then Some(0)
    else match FirstIndexOf(cards[1..], id)
      case None => None
      case Some(k) => Some(k + 1)
  }

  /** `getCardById`: the first card with the given id, if any. */
  function GetCardById(cards: seq<FlashCard>, id: string): (r: Option<FlashCard>)
    ensures r.None? <==> forall i | 0 <= i < |cards| :: cards[i].id != id
    ensures r.Some? ==> r.value.id == id
    ensures r.Some? ==>
      exists k | 0 <= k < |cards| :: r.value == cards[k] && forall j | 0 <= j < k :: cards[j].id != id
  {
    match FirstIndexOf(cards, id)
    case None => None
    case Some(k) => Some(cards[k])
  }

  /** Only ids matter to the lookup: two decks with the same ids find the same position. */
  lemma FirstIndexOfDependsOnIds(a: seq<FlashCard>, b: seq<FlashCard>, id: string)
    requires Ids(a) == Ids(b)
    ensures FirstIndexOf(a, id) == FirstIndexOf(b, id)
  {
  }

  /**
   * The answer transition of `increaseCorrect` / `increaseIncorrect`: None when
   * the action is a no-op (no card has the id, or the first such card is already
   * answered), otherwise the deck with that card's answer set to `outcome`.
   */
  function RecordAnswer(cards: seq<FlashCard>, id: string, outcome: Answered): (r: Option<seq<FlashCard>>)
    requires outcome != Unanswered
    ensures r.Some? <==> exists k | 0 <= k < |cards| ::
      && cards[k].id == id
      && cards[k].answered == Unanswered
      && (forall j | 0 <= j < k :: cards[j].id != id)
    ensures (forall i | 0 <= i < |cards| :: cards[i].id != id) ==> r.None?
    ensures (forall i | 0 <= i < |cards| && cards[i].id == id :: cards[i].answered != Unanswered) ==> r.None?
    ensures r.Some? ==> exists k | 0 <= k < |cards| ::
      && cards[k].id == id
      && cards[k].answered == Unanswered
      && (forall j | 0 <= j < k :: cards[j].id != id)
      && r.value == cards[k := cards[k].(answered := outcome)]
  {
    match FirstIndexOf(cards, id)
    case None => None
    case Some(k) =>
      if cards[k].answered != Unanswered then None
      else Some(cards[k := cards[k].(answered := outcome)])
  }

  /**
   * An answer is recorded at most once per card: after a successful answer for
   * `id`, answering `id` again with either outcome is a no-op.
   */
  lemma AnswerIsOneShot(cards: seq<FlashCard>, id: string, first: Answered, second: Answered)
    requires first != Unanswered && second != Unanswered
    requires RecordAnswer(cards, id, first).Some?
    ensures RecordAnswer(RecordAnswer(cards, id, first).value, id, second).None?
  {
    var k := FirstIndexOf(cards, id).value;
    var after := RecordAnswer(cards, id, first).value;
    assert Ids(after) == Ids(cards) by {
      assert forall i | 0 <= i < |cards| :: Ids(after)[i] == Ids(cards)[i];
    }
    FirstIndexOfDependsOnIds(after, cards, id);
  }

  /** The number of cards of a deck in the given answer state. */
  function Count(cards: seq<FlashCard>, a: Answered): (n: nat)
    ensures n <= |cards|
  {
    if |cards| == 0 then 0
    else (if cards[0].answered == a then 1 else 0) + Count(cards[1..], a)
  }

  lemma {:induction false} CountAppend(cards: seq<FlashCard>, c: FlashCard, a: Answered)
    ensures Count(cards + [c], a) == Count(cards, a) + (if c.answered == a then 1 else 0)
  {
    if |cards| > 0 {
      assert (cards + [c])[1..] == cards[1..] + [c];
      CountAppend(cards[1..], c, a);
    }
  }

  lemma {:induction false} CountUpdate(cards: seq<FlashCard>, k: nat, c: FlashCard, a: Answered)
    requires k < |cards|
    ensures Count(cards[k := c], a) ==
      Count(cards, a) - (if cards[k].answered == a then 1 else 0) + (if c.answered == a then 1 else 0)
  {
    if k > 0 {
      assert cards[k := c][1..] == cards[1..][k - 1 := c];
      CountUpdate(cards[1..], k - 1, c, a);
    } else {
      assert cards[k := c][1..] == cards[1..];
    }
  }

  /** Every card is in exactly one of the three answer states. */
  lemma {:induction false} CountPartition(cards: seq<FlashCard>)
    ensures Count(cards, Unanswered) + Count(cards, Correct) + Count(cards, Incorrect) == |cards|
  {
    if |cards| > 0 {
      CountPartition(cards[1..]);
    }
  }

  lemma {:induction false} CountZero(cards: seq<FlashCard>, a: Answered)
    ensures Count(cards, a) == 0 <==> forall i | 0 <= i < |cards| :: cards[i].answered != a
  {
    if |cards| > 0 {
      CountZero(cards[1..], a);
      assert forall i | 1 <= i < |cards| :: cards[i] == cards[1..][i - 1];
    }
  }

  /** A successful answer moves one card from Unanswered to the outcome's count. */
  lemma AnswerUpdatesCounts(cards: seq<FlashCard>, id: string, outcome: Answered)
    requires outcome != Unanswered
    requires RecordAnswer(cards, id, outcome).Some?
    ensures var after := RecordAnswer(cards, id, outcome).value;
      && Count(after, Correct) == Count(cards, Correct) + (if outcome == Correct then 1 else 0)
      && Count(after, Incorrect) == Count(cards, Incorrect) + (if outcome == Incorrect then 1 else 0)
      && Count(after, Unanswered) == Count(cards, Unanswered) - 1
  {
    var k := FirstIndexOf(cards, id).value;
    var c := cards[k].(answered := outcome);
    CountUpdate(cards, k, c, Correct);
    CountUpdate(cards, k, c, Incorrect);
    CountUpdate(cards, k, c, Unanswered);
  }

  /** The store's score counters agree with the answer states of its deck. */
  ghost predicate ScoreConsistent(cards: seq<FlashCard>, correct: int, incorrect: int)
  {
    correct == Count(cards, Correct) && incorrect == Count(cards, Incorrect)
  }

  /**
   * The `totalAnswered` getter: with counters that agree with a deck, the
   * number of cards of that deck that are answered.
   */
  function TotalAnswered(correct: int, incorrect: int): (r: int)
    ensures forall cards | ScoreConsistent(cards, correct, incorrect) :: r == |cards| - Count(cards, Unanswered)
  {
    assert forall cards | ScoreConsistent(cards, correct, incorrect) ::
      correct + incorrect == |cards| - Count(cards, Unanswered) by {
      forall cards | ScoreConsistent(cards, correct, incorrect)
        ensures correct + incorrect == |cards| - Count(cards, Unanswered)
      {
        CountPartition(cards);
      }
    }
    correct + incorrect
  }

  /**
   * The `hasAnsweredAll` getter: with counters that agree with the deck, it
   * holds exactly when no card is left unanswered.
   */
  function HasAnsweredAll(cards: seq<FlashCard>, correct: int, incorrect: int): (b: bool)
    ensures ScoreConsistent(cards, correct, incorrect) ==>
      (b <==> forall i | 0 <= i < |cards| :: cards[i].answered != Unanswered)
  {
    CountZero(cards, Unanswered);
    TotalAnswered(correct, incorrect) == |cards|
  }

  /**
   * The `currentCard` getter: the first card whose id is `order[idx]`, or the
   * sentinel when `idx` is outside `order` or no card has that id.
   */
  function CurrentCardOf(cards: seq<FlashCard>, order: seq<string>, idx: int): (c: FlashCard)
    ensures 0 <= idx < |order| && (exists i | 0 <= i < |cards| :: cards[i].id == order[idx]) ==>
      c.id == order[idx] &&
      exists k | 0 <= k < |cards| :: c == cards[k] && forall j | 0 <= j < k :: cards[j].id != order[idx]
    ensures !(0 <= idx < |order| && exists i | 0 <= i < |cards| :: cards[i].id == order[idx]) ==>
      c == Sentinel
  {
    if 0 <= idx < |order| then
      match GetCardById(cards, order[idx])
      case Some(card) => card
      case None => Sentinel
    else Sentinel
  }

  /** `moveLeft`'s new cursor: one step back, wrapping against the deck size `n`. */
  function StepLeft(idx: int, n: int): (r: int)
    ensures 0 <= idx < n ==> 0 <= r < n && r == (idx - 1 + n) % n
    ensures idx <= 0 ==> r == n - 1
  {
    if idx - 1 < 0 then n - 1 else idx - 1
  }

  /** `moveRight`'s new cursor: one step forward, wrapping against the deck size `n`. */
  function StepRight(idx: int, n: int): (r: int)
    ensures 0 <= idx < n ==> 0 <= r < n && r == (idx + 1) % n
    ensures idx == -1 && n > 0 ==> r == 0
    ensures idx == n - 1 ==> r == 0
    ensures n == 0 && idx >= -1 ==> r == 0
  {
    if idx + 1 >= n then 0 else idx + 1
  }

  /** On a non-empty deck, a step right undoes a step left and the other way round. */
  lemma StepsAreInverse(idx: int, n: int)
    requires 0 <= idx < n
    ensures StepLeft(StepRight(idx, n), n) == idx
    ensures StepRight(StepLeft(idx, n), n) == idx
  {
  }

  /**
   * The cursor wraps against the deck, not the display order: once the deck is
   * longer than the order (after `addCard`), a step left from 0 lands past the
   * end of the order and the getter yields the sentinel.
   */
  lemma WrapPastOrderGivesSentinel(cards: seq<FlashCard>, order: seq<string>)
    requires |order| < |cards|
    ensures CurrentCardOf(cards, order, StepLeft(0, |cards|)) == Sentinel
  {
  }
}
