// The flash-card store: the deck, its display order, the cursor, the score
// counters and the face flag as fields that the actions update in place.
module Store {
  import opened Cards
  import opened Shuffle

  class FlashCardStore {
    var flashCards: seq<FlashCard>
    var cardOrder: seq<string>
    var currentIdx: int
    var correctCount: int
    var incorrectCount: int
    var isFront: bool

    /** The counters agree with the answer states recorded in the deck. */
    ghost predicate Consistent()
      reads this
    {
      ScoreConsistent(flashCards, correctCount, incorrectCount)
    }

    /**
     * The store's initial state built from the seed deck: every card
     * unanswered, a shuffled display order, cursor and counters at zero,
     * front face shown.
     */
    constructor (seed: seq<CardData>, picks: seq<int>)
      requires ValidPicks(picks, |seed|)
      ensures flashCards == InitialFlashCardState(seed)
      ensures cardOrder == FisherYates(Ids(flashCards), picks, |flashCards|)
      ensures |cardOrder| == |seed| && multiset(cardOrder) == multiset(Ids(flashCards))
      ensures currentIdx == 0 && correctCount == 0 && incorrectCount == 0 && isFront
      ensures Consistent()
    {
      var cards := InitialFlashCardState(seed);
      var order := ShuffleCardOrder(cards, picks);
      flashCards := cards;
      cardOrder := order;
      currentIdx := 0;
      correctCount := 0;
      incorrectCount := 0;
      isFront := true;
      new;
      CountZero(flashCards, Correct);
      CountZero(flashCards, Incorrect);
    }

    /**
     * The `currentCard` getter: the first card whose id is at the cursor in
     * the display order, or the sentinel when there is none.
     */
    function CurrentCard(): (c: FlashCard)
      reads this
      ensures 0 <= currentIdx < |cardOrder| && cardOrder[currentIdx] in Ids(flashCards) ==>
        c.id == cardOrder[currentIdx] &&
        exists k | 0 <= k < |flashCards| ::
          c == flashCards[k] && forall j | 0 <= j < k :: flashCards[j].id != cardOrder[currentIdx]
      ensures !(0 <= currentIdx < |cardOrder| && cardOrder[currentIdx] in Ids(flashCards)) ==> c == Sentinel
    {
      CurrentCardOf(flashCards, cardOrder, currentIdx)
    }

    /** The `totalAnswered` getter: with consistent counters, the number of answered cards. */
    function TotalAnswered(): (r: int)
      reads this
      ensures Consistent() ==> r == |flashCards| - Count(flashCards, Unanswered)
    {
      Cards.TotalAnswered(correctCount, incorrectCount)
    }

    /** The `hasAnsweredAll` getter: with consistent counters, no card is left unanswered. */
    function HasAnsweredAll(): (b: bool)
      reads this
      ensures Consistent() ==> (b <==> forall i | 0 <= i < |flashCards| :: flashCards[i].answered != Unanswered)
    {
      Cards.HasAnsweredAll(flashCards, correctCount, incorrectCount)
    }

    /** `flipCard`: toggle the face shown; nothing else changes. */
    method FlipCard()
      modifies this`isFront
      ensures isFront == !old(isFront)
    {
      isFront := !isFront;
    }

    /**
     * `increaseCorrect`: mark the first card with `id` Correct and count it,
     * unless no card has that id or that card is already answered.
     */
    method IncreaseCorrect(id: string)
      modifies this`flashCards, this`correctCount
      ensures RecordAnswer(old(flashCards), id, Correct).None? ==>
        flashCards == old(flashCards) && correctCount == old(correctCount)
      ensures RecordAnswer(old(flashCards), id, Correct).Some? ==>
        flashCards == RecordAnswer(old(flashCards), id, Correct).value && correctCount == old(correctCount) + 1
      ensures old(Consistent()) ==> Consistent()
    {
      var card := FirstIndexOf(flashCards, id);
      if card.None? || flashCards[card.value].answered != Unanswered {
        return;
      }
      ghost var before := flashCards;
      flashCards := flashCards[card.value := flashCards[card.value].(answered := Correct)];
      correctCount := correctCount + 1;
      AnswerUpdatesCounts(before, id, Correct);
    }

    /**
     * `increaseIncorrect`: mark the first card with `id` Incorrect and count it,
     * unless no card has that id or that card is already answered.
     */
    method IncreaseIncorrect(id: string)
      modifies this`flashCards, this`incorrectCount
      ensures RecordAnswer(old(flashCards), id, Incorrect).None? ==>
        flashCards == old(flashCards) && incorrectCount == old(incorrectCount)
      ensures RecordAnswer(old(flashCards), id, Incorrect).Some? ==>
        flashCards == RecordAnswer(old(flashCards), id, Incorrect).value && incorrectCount == old(incorrectCount) + 1
      ensures old(Consistent()) ==> Consistent()
    {
      var card := FirstIndexOf(flashCards, id);
      if card.None? || flashCards[card.value].answered != Unanswered {
        return;
      }
      ghost var before := flashCards;
      flashCards := flashCards[card.value := flashCards[card.value].(answered := Incorrect)];
      incorrectCount := incorrectCount + 1;
      AnswerUpdatesCounts(before, id, Incorrect);
    }

    /** `moveLeft`: step the cursor back, wrapping against the deck size. */
    method MoveLeft()
      modifies this`currentIdx
      ensures currentIdx == StepLeft(old(currentIdx), |flashCards|)
      ensures -1 <= old(currentIdx) < |flashCards| && |flashCards| > 0 ==> 0 <= currentIdx < |flashCards|
    {
      if currentIdx - 1 < 0 {
        currentIdx := |flashCards| - 1;
      } else {
        currentIdx := currentIdx - 1;
      }
    }

    /** `moveRight`: step the cursor forward, wrapping against the deck size. */
    method MoveRight()
      modifies this`currentIdx
      ensures currentIdx == StepRight(old(currentIdx), |flashCards|)
      ensures -1 <= old(currentIdx) < |flashCards| && |flashCards| > 0 ==> 0 <= currentIdx < |flashCards|
    {
      if currentIdx + 1 >= |flashCards| {
        currentIdx := 0;
      } else {
        currentIdx := currentIdx + 1;
      }
    }

    /**
     * `resetCardsAndScore`: clear every answer, reshuffle the display order,
     * and put cursor and counters back to zero. The face flag is kept.
     */
    method ResetCardsAndScore(picks: seq<int>)
      requires ValidPicks(picks, |flashCards|)
      modifies this`flashCards, this`cardOrder, this`currentIdx, this`correctCount, this`incorrectCount
      ensures |flashCards| == |old(flashCards)| && Ids(flashCards) == Ids(old(flashCards))
      ensures forall i | 0 <= i < |flashCards| :: flashCards[i] == old(flashCards)[i].(answered := Unanswered)
      ensures cardOrder == FisherYates(Ids(flashCards), picks, |flashCards|)
      ensures |cardOrder| == |flashCards| && multiset(cardOrder) == multiset(Ids(flashCards))
      ensures currentIdx == 0 && correctCount == 0 && incorrectCount == 0
      ensures Consistent()
    {
      ResetKeepsCards(flashCards);
      flashCards := InitialFlashCardState(CardDataOf(flashCards));
      cardOrder := ShuffleCardOrder(flashCards, picks);
      currentIdx := 0;
      correctCount := 0;
      incorrectCount := 0;
      CountZero(flashCards, Correct);
      CountZero(flashCards, Incorrect);
    }

    /**
     * `addCard`: append one unanswered card with the given texts and the id
     * the id generator produced. The display order is not touched, so a new id
     * is not reachable by navigation until the next reset.
     */
    method AddCard(frontText: string, backText: string, id: string)
      modifies this`flashCards
      ensures flashCards == old(flashCards) + [FlashCard(id, frontText, backText, Unanswered)]
      ensures old(Consistent()) ==> Consistent()
      ensures old(UniqueIds(flashCards)) && id !in Ids(old(flashCards)) ==> UniqueIds(flashCards)
      ensures multiset(cardOrder) == multiset(Ids(old(flashCards))) && id !in Ids(old(flashCards)) ==>
        id !in cardOrder
    {
      ghost var before := flashCards;
      var card := FlashCard(id, frontText, backText, Unanswered);
      flashCards := flashCards + [card];
      CountAppend(before, card, Correct);
      CountAppend(before, card, Incorrect);
      if UniqueIds(before) && id !in Ids(before) {
        forall i, j | 0 <= i < j < |flashCards|
          ensures flashCards[i].id != flashCards[j].id
        {
          if j == |before| {
            assert Ids(before)[i] == flashCards[i].id;
          }
        }
      }
      if multiset(cardOrder) == multiset(Ids(before)) && id !in Ids(before) {
        assert id !in multiset(cardOrder);
      }
    }
  }

  /**
   * A client of the store: answering the same card Correct twice and then
   * Incorrect leaves the deck as the first answer left it, counts at most one
   * correct answer and no incorrect one.
   */
  method AnswerSameCardThrice(store: FlashCardStore, id: string)
    modifies store`flashCards, store`correctCount, store`incorrectCount
    ensures RecordAnswer(old(store.flashCards), id, Correct).Some? ==>
      store.flashCards == RecordAnswer(old(store.flashCards), id, Correct).value &&
      store.correctCount == old(store.correctCount) + 1
    ensures RecordAnswer(old(store.flashCards), id, Correct).None? ==>
      store.flashCards == old(store.flashCards) && store.correctCount == old(store.correctCount)
    ensures store.incorrectCount == old(store.incorrectCount)
  {
    ghost var deck := store.flashCards;
    store.IncreaseCorrect(id);
    if RecordAnswer(deck, id, Correct).Some? {
      AnswerIsOneShot(deck, id, Correct, Correct);
      AnswerIsOneShot(deck, id, Correct, Incorrect);
    } else {
      assert FirstIndexOf(deck, id).None? || deck[FirstIndexOf(deck, id).value].answered != Unanswered;
    }
    store.IncreaseCorrect(id);
    store.IncreaseIncorrect(id);
  }
}
