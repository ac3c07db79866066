/** The controller class `WeddingLottery` (script.js:1-347) with its fields
    updated in place. Each handler is proved to change the fields exactly as
    the matching function of LotteryState says; `HandleAllRoundsComplete`
    only detaches the click handler. `Click` and `Restart` keep the
    invariant, and `Shuffle` keeps it when it held before. */
module Lottery {
  import opened Options
  import opened Cards
  import opened Labels
  import opened LotteryState

  class WeddingLottery {
    var cards: seq<Card>
    var availableCards: seq<Card>
    var usedCards: seq<Card>
    var currentIndex: nat
    var currentRound: nat
    const maxRounds: nat := MaxRounds
    var isShuffling: bool
    var shuffleIteration: nat
    /** Whether the document click handler is attached. */
    var clickEnabled: bool

    /** The fields as a value. */
    function Snapshot(): State
      reads this
    {
      State(cards, availableCards, usedCards, currentIndex, currentRound,
            isShuffling, shuffleIteration, clickEnabled)
    }

    ghost predicate Valid()
      reads this
    {
      LotteryState.Valid(Snapshot())
    }

    /** `new WeddingLottery()` together with the init it starts: load the
        cards, then attach the click handler. */
    constructor (imageList: Option<seq<string>>)
      ensures Snapshot() == Initial(imageList)
      ensures Valid()
    {
      cards := [];
      availableCards := [];
      usedCards := [];
      currentIndex := 0;
      currentRound := 1;
      isShuffling := false;
      shuffleIteration := 0;
      clickEnabled := false;
      new;
      LoadImages(imageList);
      SetupEventListeners();
      InitialCards(imageList);
    }

    method LoadImages(imageList: Option<seq<string>>)
      modifies this
      ensures Snapshot() == Load(old(Snapshot()), imageList)
    {
      if imageList.Some? && |imageList.value| > 0 {
        cards := ImageCards(imageList.value);
      } else {
        var i := 0;
        while i < PlaceholderCount
          invariant 0 <= i <= PlaceholderCount
          invariant cards == old(cards) + Placeholders()[..i]
          invariant Snapshot() == old(Snapshot()).(cards := cards)
        {
          cards := cards + [Placeholder(i)];
          i := i + 1;
        }
        assert Placeholders()[..PlaceholderCount] == Placeholders();
      }
      availableCards := cards;
    }

    method SetupEventListeners()
      modifies this
      ensures Snapshot() == EnableClicks(old(Snapshot()))
    {
      clickEnabled := true;
    }

    /** The click handler: stop a running shuffle, otherwise start one.
        `pick` is the random index the start's first tick draws. */
    method Click(pick: nat) returns (alertText: Option<string>)
      requires Valid() && ClickDefined(Snapshot(), pick)
      modifies this
      ensures Snapshot() == LotteryState.Click(old(Snapshot()), pick)
      ensures Valid()
      ensures alertText ==
        if old(clickEnabled && isShuffling) && currentRound > maxRounds
        then Some(WinnersSummary(maxRounds, usedCards)) else None
    {
      ClickPreservesValid(Snapshot(), pick);
      alertText := None;
      if !clickEnabled {
        return;
      }
      if isShuffling {
        alertText := StopShuffle();
      } else {
        StartShuffle(pick);
      }
    }

    method StartShuffle(pick: nat)
      requires PickInRange(Snapshot(), pick)
      modifies this
      ensures Snapshot() == Start(old(Snapshot()), pick)
    {
      if isShuffling {
        return;
      }
      isShuffling := true;
      shuffleIteration := 0;
      Shuffle(pick);
    }

    /** A tick of the shuffle timer. */
    method Shuffle(pick: nat)
      requires PickInRange(Snapshot(), pick)
      modifies this
      ensures Snapshot() == Tick(old(Snapshot()), pick)
      ensures old(Valid()) ==> Valid()
    {
      if !isShuffling {
        return;
      }
      if |availableCards| == 0 {
        return;
      }
      currentIndex := pick;
      shuffleIteration := shuffleIteration + 1;
    }

    method StopShuffle() returns (alertText: Option<string>)
      requires isShuffling ==> CanCommit(Snapshot())
      modifies this
      ensures Snapshot() == Stop(old(Snapshot()))
      ensures alertText ==
        if old(isShuffling) && currentRound > maxRounds
        then Some(WinnersSummary(maxRounds, usedCards)) else None
    {
      alertText := None;
      if !isShuffling {
        return;
      }
      isShuffling := false;
      alertText := ShowWinner();
    }

    /** Moves the card under the index from the pool to the winners and
        closes the round; returns the closing alert once the rounds are used
        up. */
    method ShowWinner() returns (alertText: Option<string>)
      requires CanCommit(Snapshot())
      modifies this
      ensures Snapshot() == Commit(old(Snapshot()))
      ensures alertText ==
        if currentRound > maxRounds then Some(WinnersSummary(maxRounds, usedCards)) else None
    {
      var winnerCard := availableCards[currentIndex];
      usedCards := usedCards + [winnerCard];
      availableCards := availableCards[..currentIndex] + availableCards[currentIndex + 1..];
      currentRound := currentRound + 1;
      alertText := None;
      if currentRound > maxRounds {
        var message := HandleAllRoundsComplete();
        alertText := Some(message);
      }
    }

    /** Removes the click handler and gives the text of the winners alert. */
    method HandleAllRoundsComplete() returns (message: string)
      modifies this
      ensures Snapshot() == old(Snapshot()).(clickEnabled := false)
      ensures message == WinnersSummary(maxRounds, usedCards)
    {
      clickEnabled := false;
      message := WinnersSummary(maxRounds, usedCards);
    }

    method Restart()
      modifies this
      ensures Snapshot() == Reset(old(Snapshot()))
      ensures Valid()
    {
      availableCards := cards;
      usedCards := [];
      currentRound := 1;
      isShuffling := false;
      SetupEventListeners();
      currentIndex := 0;
      ResetEffect(old(Snapshot()));
    }

    /** The round counter's text (updateRoundDisplay). */
    function RoundCounterText(): (text: string)
      reads this
      ensures text == AllComplete <==> currentRound > maxRounds
    {
      RoundLabel(currentRound, maxRounds)
    }
  }

  /** One round as the user plays it: a click that starts the shuffle and a
      click that stops it. */
  method PlayRound(game: WeddingLottery, pick: nat) returns (alertText: Option<string>)
    requires game.Valid() && game.clickEnabled && !game.isShuffling
    requires 0 < |game.availableCards| && pick < |game.availableCards|
    modifies game
    ensures game.Snapshot() == Round(old(game.Snapshot()), pick)
    ensures alertText ==
      if game.currentRound > MaxRounds then Some(WinnersSummary(MaxRounds, game.usedCards)) else None
  {
    StartThenStop(game.Snapshot(), pick, 0);
    var started := game.Click(pick);
    alertText := game.Click(0);
  }

  /** A whole game over the placeholder cards through the class: eight clicks
      with the given random picks give four distinct winners, six cards stay
      in the pool, and the closing alert lists the four winners. */
  method PlayFourRounds(p1: nat, p2: nat, p3: nat, p4: nat)
    returns (winners: seq<Card>, remaining: nat, alertText: Option<string>)
    requires p1 < 10 && p2 < 9 && p3 < 8 && p4 < 7
    ensures |winners| == 4 && Distinct(winners) && remaining == 6
    ensures forall c :: c in winners ==> c in Placeholders()
    ensures alertText == Some(WinnersSummary(MaxRounds, winners))
  {
    var game := new WeddingLottery(None);
    ghost var s0 := game.Snapshot();
    InitialCards(None);
    alertText := PlayRound(game, p1);
    ghost var s1 := game.Snapshot();
    alertText := PlayRound(game, p2);
    ghost var s2 := game.Snapshot();
    alertText := PlayRound(game, p3);
    ghost var s3 := game.Snapshot();
    alertText := PlayRound(game, p4);
    ghost var s4 := game.Snapshot();
    assert s4 == Round(Round(Round(Round(s0, p1), p2), p3), p4);
    FourRoundsOfPlaceholders(p1, p2, p3, p4, 0);
    winners := game.usedCards;
    remaining := |game.availableCards|;
    assert s4.cards == Placeholders();
    forall c | c in winners ensures c in Placeholders() {
      assert multiset(s4.used)[c] > 0;
      assert multiset(s4.cards)[c] > 0;
    }
  }
}
