/** The round/pool state machine of `WeddingLottery` (script.js), as values:
    one function per handler, giving the controller's fields after the handler
    from the fields before it. The class in lottery.dfy is proved to follow
    these functions; the properties of the controller are proved here. */
module LotteryState {
  import opened Options
  import opened Cards

  const MaxRounds: nat := 4

  /** All fields of the controller that its logic reads or writes.
      `clickEnabled` says whether the document click handler is attached. */
  datatype State = State(
    cards: seq<Card>,
    available: seq<Card>,
    used: seq<Card>,
    currentIndex: nat,
    currentRound: nat,
    isShuffling: bool,
    shuffleIteration: nat,
    clickEnabled: bool)

  /** The fields as the constructor sets them (script.js:5-14), before init. */
  function Fresh(): State {
    State([], [], [], 0, 1, false, 0, false)
  }

  /** loadImages (script.js:26-54). The placeholder loop pushes onto the
      existing `cards`, which is empty when init calls it. */
  function Load(s: State, imageList: Option<seq<string>>): State {
    var cards :=
      if imageList.Some? && |imageList.value| > 0 then ImageCards(imageList.value)
      else s.cards + Placeholders();
    s.(cards := cards, available := cards)
  }

  /** setupEventListeners (script.js:56-72): the handler is attached. */
  function EnableClicks(s: State): State {
    s.(clickEnabled := true)
  }

  /** The controller once init has loaded the cards and attached the handler. */
  function Initial(imageList: Option<seq<string>>): State {
    EnableClicks(Load(Fresh(), imageList))
  }

  /** `Math.floor(Math.random() * availableCards.length)` is below the length
      whenever the pool is non-empty. */
  predicate PickInRange(s: State, pick: nat) {
    |s.available| == 0 || pick < |s.available|
  }

  /** shuffle (script.js:133-178): one tick of the timer. */
  function Tick(s: State, pick: nat): State
    requires PickInRange(s, pick)
  {
    if !s.isShuffling then s
    else if |s.available| == 0 then s
    else s.(currentIndex := pick, shuffleIteration := s.shuffleIteration + 1)
  }

  /** startShuffle (script.js:115-131), including its synchronous first tick. */
  function Start(s: State, pick: nat): State
    requires PickInRange(s, pick)
  {
    if s.isShuffling then s
    else Tick(s.(isShuffling := true, shuffleIteration := 0), pick)
  }

  /** showWinner reads `availableCards[currentIndex]` without a check. */
  predicate CanCommit(s: State) {
    s.currentIndex < |s.available|
  }

  /** The pool with position i taken out (`splice(i, 1)`). */
  function RemoveAt(a: seq<Card>, i: nat): (r: seq<Card>)
    requires i < |a|
    ensures |r| == |a| - 1
    ensures forall j :: 0 <= j < i ==> r[j] == a[j]
    ensures forall j :: i <= j < |r| ==> r[j] == a[j + 1]
    ensures multiset(r) + multiset{a[i]} == multiset(a)
  {
    assert a == a[..i] + [a[i]] + a[i + 1..];
    a[..i] + a[i + 1..]
  }

  /** showWinner (script.js:192-221) with handleAllRoundsComplete's removal of
      the click handler (script.js:310). */
  function Commit(s: State): State
    requires CanCommit(s)
  {
    var round := s.currentRound + 1;
    s.(used := s.used + [s.available[s.currentIndex]],
       available := RemoveAt(s.available, s.currentIndex),
       currentRound := round,
       clickEnabled := if round > MaxRounds then false else s.clickEnabled)
  }

  /** stopShuffle (script.js:180-190). */
  function Stop(s: State): State
    requires s.isShuffling ==> CanCommit(s)
  {
    if !s.isShuffling then s else Commit(s.(isShuffling := false))
  }

  /** What a click needs: a random pick when it starts a shuffle, and a card
      under the current index when it stops one. */
  predicate ClickDefined(s: State, pick: nat) {
    s.clickEnabled ==> if s.isShuffling then CanCommit(s) else PickInRange(s, pick)
  }

  /** A document click (script.js:63-69); with no handler attached it does
      nothing. */
  function Click(s: State, pick: nat): State
    requires ClickDefined(s, pick)
  {
    if !s.clickEnabled then s
    else if s.isShuffling then Stop(s)
    else Start(s, pick)
  }

  /** restart (script.js:318-346). `shuffleIteration` is left as it was. */
  function Reset(s: State): State {
    s.(available := s.cards, used := [], currentRound := 1, isShuffling := false,
       clickEnabled := true, currentIndex := 0)
  }

  /** The invariant of a loaded controller. */
  predicate Valid(s: State) {
    && multiset(s.available) + multiset(s.used) == multiset(s.cards)
    && s.currentRound == |s.used| + 1
    && s.currentRound <= MaxRounds + 1
    && s.clickEnabled == (s.currentRound <= MaxRounds)
    && (!s.clickEnabled ==> !s.isShuffling)
    && (s.isShuffling && |s.available| > 0 ==> s.currentIndex < |s.available|)
  }

  // ---------------------------------------------------------------------
  // Loading

  /** Both branches of loadImages start with the pool equal to the cards; a
      usable image list gives its cards, otherwise there are ten placeholders. */
  lemma InitialCards(imageList: Option<seq<string>>)
    ensures Initial(imageList).available == Initial(imageList).cards
    ensures imageList.Some? && |imageList.value| > 0 ==>
      Initial(imageList).cards == ImageCards(imageList.value)
    ensures imageList.None? || |imageList.value| == 0 ==>
      Initial(imageList).cards == Placeholders() && |Initial(imageList).cards| == 10
    ensures Valid(Initial(imageList))
  {
  }

  // ---------------------------------------------------------------------
  // One transition at a time

  /** A tick moves nothing between pool and winners; while shuffling over a
      non-empty pool it lands on an index of the pool and counts itself. */
  lemma TickEffect(s: State, pick: nat)
    requires PickInRange(s, pick)
    ensures !s.isShuffling ==> Tick(s, pick) == s
    ensures s.isShuffling && |s.available| == 0 ==> Tick(s, pick) == s
    ensures s.isShuffling && |s.available| > 0 ==>
      Tick(s, pick).currentIndex < |s.available| &&
      Tick(s, pick).shuffleIteration == s.shuffleIteration + 1 &&
      Tick(s, pick) == s.(currentIndex := Tick(s, pick).currentIndex,
                          shuffleIteration := s.shuffleIteration + 1)
  {
  }

  /** Start is a no-op while shuffling; otherwise the shuffle runs, its
      iteration count starts from 0 and the first tick has been taken. */
  lemma StartEffect(s: State, pick: nat)
    requires PickInRange(s, pick)
    ensures s.isShuffling ==> Start(s, pick) == s
    ensures !s.isShuffling ==>
      (Start(s, pick).isShuffling &&
       Start(s, pick).shuffleIteration == (if |s.available| > 0 then 1 else 0) &&
       (|s.available| > 0 ==> Start(s, pick).currentIndex == pick) &&
       (|s.available| == 0 ==> Start(s, pick).currentIndex == s.currentIndex))
    ensures Start(s, pick).available == s.available && Start(s, pick).used == s.used &&
      Start(s, pick).currentRound == s.currentRound
  {
  }

  /** The winner is the card under the index; it goes to the end of the
      winners and leaves the pool, whose other cards keep their order; the
      round moves by one; clicks stop once the rounds are used up. */
  lemma CommitEffect(s: State)
    requires CanCommit(s)
    ensures var t := Commit(s);
      && t.used == s.used + [s.available[s.currentIndex]]
      && |t.available| == |s.available| - 1
      && (forall j :: 0 <= j < s.currentIndex ==> t.available[j] == s.available[j])
      && (forall j :: s.currentIndex <= j < |t.available| ==> t.available[j] == s.available[j + 1])
      && multiset(t.available) + multiset(t.used) == multiset(s.available) + multiset(s.used)
      && |t.available| + |t.used| == |s.available| + |s.used|
      && t.currentRound == s.currentRound + 1
      && (t.currentRound > MaxRounds ==> !t.clickEnabled)
      && t.cards == s.cards
  {
  }

  /** Stop is a no-op unless shuffling, and otherwise commits with the
      shuffle switched off: the card under the index moves from the pool to
      the end of the winners, the round moves by one, and clicks stop once
      the rounds are used up. */
  lemma StopEffect(s: State)
    requires s.isShuffling ==> CanCommit(s)
    ensures !s.isShuffling ==> Stop(s) == s
    ensures s.isShuffling ==>
      && !Stop(s).isShuffling
      && Stop(s).used == s.used + [s.available[s.currentIndex]]
      && Stop(s).available == RemoveAt(s.available, s.currentIndex)
      && Stop(s).currentRound == s.currentRound + 1
      && Stop(s).clickEnabled == (Stop(s).currentRound <= MaxRounds && s.clickEnabled)
      && Stop(s).cards == s.cards
      && Stop(s).currentIndex == s.currentIndex
      && Stop(s).shuffleIteration == s.shuffleIteration
  {
  }

  lemma ClickPreservesValid(s: State, pick: nat)
    requires Valid(s) && ClickDefined(s, pick)
    ensures Valid(Click(s, pick))
    ensures Click(s, pick).cards == s.cards
  {
  }

  lemma TickPreservesValid(s: State, pick: nat)
    requires Valid(s) && PickInRange(s, pick)
    ensures Valid(Tick(s, pick))
    ensures Tick(s, pick).cards == s.cards
  {
  }

  /** Under the invariant, a stop click can only fail to find a card when the
      pool is empty. */
  lemma ClickDefinedUnderValid(s: State, pick: nat)
    requires Valid(s)
    ensures ClickDefined(s, pick) <==>
      (s.clickEnabled ==> if s.isShuffling then |s.available| > 0 else PickInRange(s, pick))
  {
  }

  /** With at least as many cards as rounds the pool cannot run dry before the
      lottery is complete, so every click is well defined: only a list with
      fewer cards than rounds reaches the unguarded read in showWinner. */
  lemma EnoughCardsClickDefined(s: State, pick: nat)
    requires Valid(s) && |s.cards| >= MaxRounds && PickInRange(s, pick)
    ensures ClickDefined(s, pick)
  {
    assert |multiset(s.available)| + |multiset(s.used)| == |multiset(s.cards)|;
  }

  /** Each click either leaves the round alone or, when it stops a shuffle,
      adds exactly one winner and one round. */
  lemma ClickRoundStep(s: State, pick: nat)
    requires Valid(s) && ClickDefined(s, pick)
    ensures var t := Click(s, pick);
      if s.clickEnabled && s.isShuffling then
        t.currentRound == s.currentRound + 1 && |t.used| == |s.used| + 1
      else
        t.currentRound == s.currentRound && t.used == s.used && t.available == s.available
  {
  }

  /** Once the rounds are used up the handler is gone: clicks and ticks
      change nothing. */
  lemma CompleteIsFinal(s: State, pick: nat)
    requires Valid(s) && s.currentRound > MaxRounds
    ensures ClickDefined(s, pick) && Click(s, pick) == s
    ensures PickInRange(s, pick) ==> Tick(s, pick) == s
  {
  }

  /** Restart returns every round field to its initial value from any state. */
  lemma ResetEffect(s: State)
    ensures var t := Reset(s);
      && t.available == s.cards && t.used == [] && t.currentRound == 1
      && !t.isShuffling && t.currentIndex == 0 && t.clickEnabled
      && t.cards == s.cards
      && Valid(t)
  {
  }

  /** With no duplicate cards, every card is in exactly one place: the pool or
      the winners, and no winner twice. */
  lemma ValidNoDuplicates(s: State)
    requires Valid(s) && Distinct(s.cards)
    ensures Distinct(s.available) && Distinct(s.used)
    ensures forall c :: c in s.available ==> c !in s.used
  {
    DistinctMultiplicity(s.cards);
    forall c ensures multiset(s.available)[c] + multiset(s.used)[c] <= 1 {
      assert multiset(s.cards)[c] == multiset(s.available)[c] + multiset(s.used)[c];
    }
    forall c ensures multiset(s.available)[c] <= 1 {
      assert multiset(s.available)[c] + multiset(s.used)[c] <= 1;
    }
    forall c ensures multiset(s.used)[c] <= 1 {
      assert multiset(s.available)[c] + multiset(s.used)[c] <= 1;
    }
    DistinctMultiplicity(s.available);
    DistinctMultiplicity(s.used);
    forall c | c in s.available ensures c !in s.used {
      assert multiset(s.available)[c] + multiset(s.used)[c] <= 1;
    }
  }

  lemma {:induction false} DistinctMultiplicity<T>(s: seq<T>)
    ensures Distinct(s) <==> forall x :: multiset(s)[x] <= 1
    decreases |s|
  {
    if s != [] {
      var t := s[1..];
      assert s == [s[0]] + t;
      DistinctMultiplicity(t);
      if Distinct(s) {
        assert Distinct(t) by {
          forall i, j | 0 <= i < j < |t| ensures t[i] != t[j] {
            assert t[i] == s[i + 1] && t[j] == s[j + 1];
          }
        }
        assert s[0] !in t;
        forall x ensures multiset(s)[x] <= 1 {
          assert multiset(s)[x] == multiset{s[0]}[x] + multiset(t)[x];
        }
      } else {
        var i, j :| 0 <= i < j < |s| && s[i] == s[j];
        if i == 0 {
          assert s[j] in t by { assert t[j - 1] == s[j]; }
          assert multiset(s)[s[0]] == 1 + multiset(t)[s[0]];
        } else {
          assert t[i - 1] == t[j - 1];
          assert !Distinct(t);
          var x :| multiset(t)[x] > 1;
          assert multiset(s)[x] == multiset{s[0]}[x] + multiset(t)[x];
        }
      }
    }
  }

  // ---------------------------------------------------------------------
  // Runs of clicks

  /** A run of clicks, one random pick per click, every click well defined. */
  predicate Feasible(s: State, picks: seq<nat>)
    decreases |picks|
  {
    picks == [] || (ClickDefined(s, picks[0]) && Feasible(Click(s, picks[0]), picks[1..]))
  }

  function Run(s: State, picks: seq<nat>): State
    requires Feasible(s, picks)
    decreases |picks|
  {
    if picks == [] then s else Run(Click(s, picks[0]), picks[1..])
  }

  /** The invariant holds after any run of clicks: winners and pool stay a
      permutation of the cards, the round never passes MaxRounds + 1. */
  lemma {:induction false} RunPreservesValid(s: State, picks: seq<nat>)
    requires Valid(s) && Feasible(s, picks)
    ensures Valid(Run(s, picks))
    ensures Run(s, picks).cards == s.cards
    ensures multiset(Run(s, picks).available) + multiset(Run(s, picks).used) == multiset(s.cards)
    ensures |Run(s, picks).available| + |Run(s, picks).used| == |s.cards|
    ensures Run(s, picks).currentRound <= MaxRounds + 1
    decreases |picks|
  {
    if picks != [] {
      ClickPreservesValid(s, picks[0]);
      RunPreservesValid(Click(s, picks[0]), picks[1..]);
    } else {
      assert |multiset(s.available)| + |multiset(s.used)| == |multiset(s.cards)|;
    }
  }

  // ---------------------------------------------------------------------
  // Runs of page events

  /** What can reach the controller: a document click, a tick of the shuffle
      timer, or a call of restart; each carries the random pick it may use. */
  datatype Event = ClickEvent(pick: nat) | TickEvent(pick: nat) | RestartEvent

  predicate EventDefined(s: State, e: Event) {
    match e
    case ClickEvent(pick) => ClickDefined(s, pick)
    case TickEvent(pick) => PickInRange(s, pick)
    case RestartEvent => true
  }

  function Step(s: State, e: Event): State
    requires EventDefined(s, e)
  {
    match e
    case ClickEvent(pick) => Click(s, pick)
    case TickEvent(pick) => Tick(s, pick)
    case RestartEvent => Reset(s)
  }

  /** A run of events in which every event is well defined where it arrives. */
  predicate EventsFeasible(s: State, events: seq<Event>)
    decreases |events|
  {
    events == [] || (EventDefined(s, events[0]) && EventsFeasible(Step(s, events[0]), events[1..]))
  }

  function RunEvents(s: State, events: seq<Event>): State
    requires EventsFeasible(s, events)
    decreases |events|
  {
    if events == [] then s else RunEvents(Step(s, events[0]), events[1..])
  }

  /** Clicks, timer ticks and restarts in any interleaving keep the invariant
      and the card list; the round never passes MaxRounds + 1. */
  lemma {:induction false} EventsPreserveValid(s: State, events: seq<Event>)
    requires Valid(s) && EventsFeasible(s, events)
    ensures Valid(RunEvents(s, events))
    ensures RunEvents(s, events).cards == s.cards
    ensures multiset(RunEvents(s, events).available) + multiset(RunEvents(s, events).used) ==
      multiset(s.cards)
    ensures RunEvents(s, events).currentRound <= MaxRounds + 1
    decreases |events|
  {
    if events != [] {
      match events[0] {
        case ClickEvent(pick) => ClickPreservesValid(s, pick);
        case TickEvent(pick) => TickPreservesValid(s, pick);
        case RestartEvent => ResetEffect(s);
      }
      EventsPreserveValid(Step(s, events[0]), events[1..]);
    }
  }

  /** A click that starts a shuffle over a non-empty pool followed by a click
      that stops it commits the picked card as this round's winner. */
  lemma StartThenStop(s: State, pick: nat, pick2: nat)
    requires Valid(s) && s.clickEnabled && !s.isShuffling
    requires 0 < |s.available| && pick < |s.available|
    ensures ClickDefined(s, pick)
    ensures ClickDefined(Click(s, pick), pick2)
    ensures var t := Click(Click(s, pick), pick2);
      && t.used == s.used + [s.available[pick]]
      && t.available == RemoveAt(s.available, pick)
      && t.currentRound == s.currentRound + 1
      && !t.isShuffling
      && t.cards == s.cards
      && t.clickEnabled == (t.currentRound <= MaxRounds)
  {
  }

  /** One round of play: a click that starts the shuffle, then a click that
      stops it (its pick is never used). */
  function Round(s: State, pick: nat): (t: State)
    requires Valid(s) && s.clickEnabled && !s.isShuffling
    requires 0 < |s.available| && pick < |s.available|
    ensures Valid(t) && !t.isShuffling && t.cards == s.cards
    ensures t.used == s.used + [s.available[pick]]
    ensures |t.available| == |s.available| - 1
    ensures t.currentRound == s.currentRound + 1
  {
    StartThenStop(s, pick, 0);
    ClickPreservesValid(s, pick);
    ClickPreservesValid(Click(s, pick), 0);
    Click(Click(s, pick), 0)
  }

  /** Four rounds over the ten placeholders: four distinct winners, six cards
      left, clicks disabled, and a fifth click does nothing. */
  lemma FourRoundsOfPlaceholders(p1: nat, p2: nat, p3: nat, p4: nat, q: nat)
    requires p1 < 10 && p2 < 9 && p3 < 8 && p4 < 7
    ensures Valid(Initial(None)) && |Initial(None).available| == 10
    ensures var s4 := Round(Round(Round(Round(Initial(None), p1), p2), p3), p4);
      && |s4.used| == 4 && |s4.available| == 6
      && !s4.clickEnabled && s4.currentRound == MaxRounds + 1
      && Distinct(s4.used)
      && (forall c :: c in s4.used ==> c !in s4.available)
      && Click(s4, q) == s4
  {
    InitialCards(None);
    var s4 := Round(Round(Round(Round(Initial(None), p1), p2), p3), p4);
    PlaceholdersShape();
    ValidNoDuplicates(s4);
    CompleteIsFinal(s4, q);
  }

  /** With one card left in the last round, start and stop take it and the
      lottery is complete. */
  lemma LastCardLastRound(s: State, pick2: nat)
    requires Valid(s) && !s.isShuffling && s.currentRound == MaxRounds && |s.available| == 1
    ensures ClickDefined(s, 0) && ClickDefined(Click(s, 0), pick2)
    ensures var t := Click(Click(s, 0), pick2);
      && t.available == [] && t.used == s.used + s.available
      && !t.clickEnabled && t.currentRound == MaxRounds + 1
  {
    StartThenStop(s, 0, pick2);
  }

  /** The source does not guard showWinner: with a single image, the third
      click starts a shuffle over an empty pool and the fourth click would
      read past the pool, which no pick can prevent. */
  lemma OneImageReachesUnguardedCommit()
    ensures var s := Initial(Some(["a.jpg"]));
      var t := Click(Click(Click(s, 0), 0), 0);
      && Feasible(s, [0, 0, 0])
      && t.clickEnabled && t.isShuffling && t.available == []
      && forall pick :: !ClickDefined(t, pick)
  {
    var s := Initial(Some(["a.jpg"]));
    InitialCards(Some(["a.jpg"]));
    assert |s.available| == 1;
    StartThenStop(s, 0, 0);
    assert [0, 0, 0][1..] == [0, 0];
    assert [0, 0][1..] == [0];
  }
}
