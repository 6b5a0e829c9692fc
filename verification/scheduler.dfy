/** The SM-2 session scheduler of src/scheduler.rs (`Sm2Scheduler`): a review
    queue of card ids served from its end, per-card counters updated by each
    answer, and the session's tallies. */
module Scheduler {
  import opened Wrappers
  import opened Arith

  /** `Card` of src/deck/mod.rs; `easeFactor` is in thousandths. */
  datatype Card = Card(id: int, noteId: int, due: int, interval: nat, easeFactor: nat, lapses: nat)

  datatype Rating = Again | Hard | Good | Easy

  /** `Sm2Scheduler` without its notes: cards by id, the queue (served from
      its end), the fixed session size, the count of non-Again answers and
      the ids rated Hard, in first-rated order. */
  datatype Sm2 = Sm2(
    cards: map<int, Card>,
    reviewQueue: seq<int>,
    sessionTotal: nat,
    reviewsComplete: nat,
    hardCards: seq<int>)

  /** The lowest ease factor Again and Hard leave a card with. */
  const EaseFloor: nat := 1300

  /** The hash map `new` collects from the deck's cards: by id, a later
      card replacing an earlier one with the same id. */
  function CardsById(deck: seq<Card>): (m: map<int, Card>)
    ensures forall id :: id in m ==> m[id].id == id && m[id] in deck
    ensures m.Keys == set c | c in deck :: c.id
    ensures forall i :: 0 <= i < |deck| && LastWithId(deck, i) ==> m[deck[i].id] == deck[i]
  {
    if |deck| == 0 then map[]
    else
      var last := deck[|deck| - 1];
      var m := CardsById(deck[..|deck| - 1])[last.id := last];
      assert deck == deck[..|deck| - 1] + [last];
      m
  }

  /** No later card of the deck has the same id as the one at `i`. */
  predicate LastWithId(deck: seq<Card>, i: nat)
    requires i < |deck|
  {
    forall j :: i < j < |deck| ==> deck[j].id != deck[i].id
  }

  predicate Distinct(q: seq<int>) {
    forall i, j :: 0 <= i < j < |q| ==> q[i] != q[j]
  }

  /** `Sm2Scheduler::new`, with the shuffle's outcome as the parameter `order`:
      any arrangement of the deck's distinct card ids. */
  function New(deck: seq<Card>, order: seq<int>): (s: Sm2)
    requires Distinct(order) && (set id | id in order) == CardsById(deck).Keys
    ensures Valid(s)
    ensures s.sessionTotal == |s.cards| == |s.reviewQueue|
    ensures s.reviewsComplete == 0 && s.hardCards == []
    ensures forall c :: c in deck ==> c.id in s.cards && c.id in s.reviewQueue
    ensures s.cards == CardsById(deck)
  {
    var cards := CardsById(deck);
    DistinctCard(order);
    DeckQueued(deck, order);
    Sm2(cards, order, |order|, 0, [])
  }

  /** Every card of the deck is filed and queued. */
  lemma DeckQueued(deck: seq<Card>, order: seq<int>)
    requires (set id | id in order) == CardsById(deck).Keys
    ensures forall c :: c in deck ==> c.id in CardsById(deck) && c.id in order
  {
    forall c | c in deck
      ensures c.id in CardsById(deck) && c.id in order
    {
      assert c.id in (set d | d in deck :: d.id);
      assert c.id in CardsById(deck).Keys;
      assert c.id in (set id | id in order);
    }
  }

  lemma DistinctCard(q: seq<int>)
    requires Distinct(q)
    ensures |set id | id in q| == |q|
  {
    if |q| > 0 {
      var rest := q[..|q| - 1];
      DistinctCard(rest);
      assert (set id | id in q) == (set id | id in rest) + {q[|q| - 1]};
    }
  }

  /** The invariant every operation keeps: each card is filed under its own
      id, the queue and the hard list name known cards, and the hard list
      has no repeats. */
  ghost predicate Valid(s: Sm2) {
    && (forall id :: id in s.cards ==> s.cards[id].id == id)
    && (forall i :: 0 <= i < |s.reviewQueue| ==> s.reviewQueue[i] in s.cards)
    && (forall i :: 0 <= i < |s.hardCards| ==> s.hardCards[i] in s.cards)
    && Distinct(s.hardCards)
  }

  /** `next_card`: pops the last queued id and returns its card (`None` for
      an empty queue, or an id with no card). */
  function NextCard(s: Sm2): (res: (Sm2, Option<Card>))
    ensures |s.reviewQueue| == 0 ==> res == (s, None)
    ensures |s.reviewQueue| > 0 ==>
              && res.0 == s.(reviewQueue := s.reviewQueue[..|s.reviewQueue| - 1])
              && (res.1.Some? <==> s.reviewQueue[|s.reviewQueue| - 1] in s.cards)
              && (res.1.Some? ==> res.1.value == s.cards[s.reviewQueue[|s.reviewQueue| - 1]])
    ensures Valid(s) ==> Valid(res.0) && (res.1.Some? ==> res.1.value.id == s.reviewQueue[|s.reviewQueue| - 1])
  {
    if |s.reviewQueue| == 0 then (s, None)
    else
      var id := s.reviewQueue[|s.reviewQueue| - 1];
      var rest := s.reviewQueue[..|s.reviewQueue| - 1];
      (s.(reviewQueue := rest), if id in s.cards then Some(s.cards[id]) else None)
  }

  /** Where Again re-inserts a card: `cooldown` places before the end of the
      queue, a cooldown of `max(5 - lapses, 2)` with saturating subtraction. */
  function InsertionPoint(queueLength: nat, lapses: nat): (k: nat)
    ensures k <= queueLength
    ensures queueLength - k == Min(queueLength, Max(SatSub(5, lapses), 2))
  {
    SatSub(queueLength, Max(SatSub(5, lapses), 2))
  }

  /** Again: one more lapse, ease lowered by 200 down to the floor, interval
      back to 0. */
  function Lapse(c: Card): (r: Card)
    ensures r.id == c.id && r.noteId == c.noteId && r.due == c.due
    ensures r.lapses == c.lapses + 1 && r.interval == 0
    ensures c.easeFactor >= EaseFloor + 200 ==> r.easeFactor == c.easeFactor - 200
    ensures c.easeFactor < EaseFloor + 200 ==> r.easeFactor == EaseFloor
  {
    c.(lapses := c.lapses + 1, easeFactor := Max(c.easeFactor - 200, EaseFloor), interval := 0)
  }

  /** The interval a passing answer leaves: the rounded product `scaled`, but
      at least one day more than before. */
  function Grown(c: Card, scaled: nat): nat {
    Max(scaled, c.interval + 1)
  }

  /** The card after a Hard, Good or Easy answer. `scaled` stands for the
      rounded floating-point product of the old interval with the rating's
      factor. */
  function Passed(c: Card, rating: Rating, scaled: nat): (r: Card)
    requires rating != Again
    ensures r.id == c.id && r.noteId == c.noteId && r.due == c.due && r.lapses == c.lapses
    ensures r.interval >= c.interval + 1
    ensures rating != Good || c.interval > 0 ==>
              r.interval >= scaled && (r.interval == scaled || r.interval == c.interval + 1)
    ensures rating == Good && c.interval == 0 ==> r.interval == 1
    ensures rating == Good ==> r.easeFactor == c.easeFactor
    ensures rating == Easy ==> r.easeFactor == c.easeFactor + 150
    ensures rating == Hard && c.easeFactor >= EaseFloor + 150 ==> r.easeFactor == c.easeFactor - 150
    ensures rating == Hard && c.easeFactor < EaseFloor + 150 ==> r.easeFactor == EaseFloor
  {
    match rating
    case Good => c.(interval := if c.interval == 0 then 1 else Grown(c, scaled))
    case Hard => c.(easeFactor := Max(c.easeFactor - 150, EaseFloor), interval := Grown(c, scaled))
    case Easy => c.(easeFactor := c.easeFactor + 150, interval := Grown(c.(easeFactor := c.easeFactor + 150), scaled))
  }

  /** `answer_card`. An unknown id changes nothing. Again updates the card
      and re-queues its id; any other rating counts a completed review,
      updates the card, and Hard records the id once in the hard list. */
  function AnswerCard(s: Sm2, cardId: int, rating: Rating, scaled: nat): (r: Sm2)
    ensures cardId !in s.cards ==> r == s
    ensures r.cards.Keys == s.cards.Keys && r.sessionTotal == s.sessionTotal
    ensures forall id :: id in s.cards && id != cardId ==> r.cards[id] == s.cards[id]
    ensures cardId in s.cards ==>
              r.reviewsComplete == s.reviewsComplete + (if rating == Again then 0 else 1)
    ensures rating != Again ==> r.reviewQueue == s.reviewQueue
    ensures rating != Hard ==> r.hardCards == s.hardCards
  {
    if cardId !in s.cards then s
    else
      var c := s.cards[cardId];
      if rating == Again then
        var c' := Lapse(c);
        var k := InsertionPoint(|s.reviewQueue|, c'.lapses);
        s.(cards := s.cards[cardId := c'], reviewQueue := s.reviewQueue[..k] + [c'.id] + s.reviewQueue[k..])
      else
        var hard := if rating == Hard && cardId !in s.hardCards then s.hardCards + [cardId] else s.hardCards;
        s.(cards := s.cards[cardId := Passed(c, rating, scaled)],
           reviewsComplete := s.reviewsComplete + 1,
           hardCards := hard)
  }

  // ---------------------------------------------------------------------
  // Properties
  // ---------------------------------------------------------------------

  /** Again: the card's lapses go up by one, its ease drops by 200 but not
      below the floor, its interval restarts, and its id is queued so that
      `min(cooldown, queue length)` other cards are served before it; the
      rest of the queue keeps its order. */
  lemma AgainRequeues(s: Sm2, cardId: int, scaled: nat)
    requires Valid(s) && cardId in s.cards
    ensures var c := s.cards[cardId];
            var r := AnswerCard(s, cardId, Again, scaled);
            var q := r.reviewQueue;
            var k := |q| - 1 - Min(|s.reviewQueue|, Max(SatSub(5, c.lapses + 1), 2));
            && r.cards[cardId].lapses == c.lapses + 1
            && r.cards[cardId].easeFactor >= EaseFloor
            && (c.easeFactor >= EaseFloor + 200 ==> r.cards[cardId].easeFactor == c.easeFactor - 200)
            && (c.easeFactor < EaseFloor + 200 ==> r.cards[cardId].easeFactor == EaseFloor)
            && r.cards[cardId].interval == 0
            && |q| == |s.reviewQueue| + 1
            && 0 <= k && q[k] == cardId
            && q[..k] + q[k + 1..] == s.reviewQueue
            && multiset(q) == multiset(s.reviewQueue) + multiset{cardId}
  {
    var c := s.cards[cardId];
    var k := InsertionPoint(|s.reviewQueue|, c.lapses + 1);
    var q := s.reviewQueue[..k] + [cardId] + s.reviewQueue[k..];
    assert q[..k] == s.reviewQueue[..k];
    assert q[k + 1..] == s.reviewQueue[k..];
    assert s.reviewQueue == s.reviewQueue[..k] + s.reviewQueue[k..];
  }

  /** A passing answer always lengthens the interval, and Good on a new card
      sets it to one day. */
  lemma IntervalGrows(s: Sm2, cardId: int, rating: Rating, scaled: nat)
    requires cardId in s.cards && rating != Again
    ensures var before := s.cards[cardId];
            var after := AnswerCard(s, cardId, rating, scaled).cards[cardId];
            && after.interval >= before.interval + 1
            && (rating == Good && before.interval == 0 ==> after.interval == 1)
            && after.lapses == before.lapses
  {
  }

  /** Ease: Hard lowers it by 150 but not below the floor, Easy raises it by
      exactly 150, Good leaves it. So a session never takes a card below
      the floor that started at or above it. */
  lemma EaseRules(s: Sm2, cardId: int, rating: Rating, scaled: nat)
    requires cardId in s.cards
    ensures var e := s.cards[cardId].easeFactor;
            var e' := AnswerCard(s, cardId, rating, scaled).cards[cardId].easeFactor;
            && (rating == Hard ==> e' >= EaseFloor && (e >= EaseFloor + 150 ==> e' == e - 150))
            && (rating == Hard && e < EaseFloor + 150 ==> e' == EaseFloor)
            && (rating == Easy ==> e' == e + 150)
            && (rating == Good ==> e' == e)
            && (e >= EaseFloor ==> e' >= EaseFloor)
  {
  }

  /** Hard records the card in the hard list exactly once, in first-rated
      order: a new id goes at the end, a listed one stays where it is;
      nothing else is added and the list stays free of repeats. */
  lemma HardListed(s: Sm2, cardId: int, scaled: nat)
    requires Valid(s) && cardId in s.cards
    ensures var h := AnswerCard(s, cardId, Hard, scaled).hardCards;
            && (cardId !in s.hardCards ==> h == s.hardCards + [cardId])
            && (cardId in s.hardCards ==> h == s.hardCards)
            && cardId in h
            && (set id | id in h) == (set id | id in s.hardCards) + {cardId}
            && Distinct(h)
            && |h| <= |s.cards|
  {
    var h := AnswerCard(s, cardId, Hard, scaled).hardCards;
    assert forall id :: id in h ==> id in s.cards;
    DistinctCard(h);
    var listed := set id | id in h;
    SubsetSize(listed, s.cards.Keys);
  }

  lemma SubsetSize(a: set<int>, b: set<int>)
    requires a <= b
    ensures |a| <= |b|
  {
    assert b == a + (b - a);
    assert a * (b - a) == {};
  }

  /** Every answer keeps the scheduler valid. */
  lemma AnswerKeepsValid(s: Sm2, cardId: int, rating: Rating, scaled: nat)
    requires Valid(s)
    ensures Valid(AnswerCard(s, cardId, rating, scaled))
  {
    if cardId in s.cards && rating == Again {
      var r := AnswerCard(s, cardId, rating, scaled);
      var k := InsertionPoint(|s.reviewQueue|, s.cards[cardId].lapses + 1);
      forall i | 0 <= i < |r.reviewQueue|
        ensures r.reviewQueue[i] in r.cards
      {
        if i < k {
          assert r.reviewQueue[i] == s.reviewQueue[i];
        } else if i > k {
          assert r.reviewQueue[i] == s.reviewQueue[i - 1];
        }
      }
    }
  }

  /** Answers applied in order; each is a card id, a rating and the rounded
      product for that answer. */
  function AnswerAll(s: Sm2, answers: seq<(int, Rating, nat)>): Sm2
    decreases |answers|
  {
    if |answers| == 0 then s
    else AnswerAll(AnswerCard(s, answers[0].0, answers[0].1, answers[0].2), answers[1..])
  }

  /** The answers that count as completed reviews: a passing rating of a
      known card. */
  function Completed(cards: set<int>, answers: seq<(int, Rating, nat)>): nat
    decreases |answers|
  {
    if |answers| == 0 then 0
    else (if answers[0].0 in cards && answers[0].1 != Again then 1 else 0) + Completed(cards, answers[1..])
  }

  /** Over any sequence of answers, the completed-review tally grows by
      exactly the passing answers to known cards, the session size and the
      set of known cards stay fixed, and the scheduler stays valid. */
  lemma {:induction false} ReviewsCounted(s: Sm2, answers: seq<(int, Rating, nat)>)
    requires Valid(s)
    ensures var r := AnswerAll(s, answers);
            && r.reviewsComplete == s.reviewsComplete + Completed(s.cards.Keys, answers)
            && r.sessionTotal == s.sessionTotal
            && r.cards.Keys == s.cards.Keys
            && Valid(r)
    decreases |answers|
  {
    if |answers| > 0 {
      var (id, rating, scaled) := answers[0];
      AnswerKeepsValid(s, id, rating, scaled);
      ReviewsCounted(AnswerCard(s, id, rating, scaled), answers[1..]);
    }
  }
}
