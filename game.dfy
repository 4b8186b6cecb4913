/** The `game` reducer of the Redux store: the state of a session, the
    actions it handles, the transition function and the selectors. The card
    resources and the random source are parameters of the transition. */
module Reducer {
  import opened Cards
  import opened Dealing
  import opened Arrays
  import opened Oracle
  import opened Process

  datatype Option<T> = None | Some(value: T)

  /** The `game` slice of the store. `gamemode` and `deck` are absent until a
      game mode is selected. */
  datatype Session = Session(
    gamemode: Option<ModeId>,
    cards: seq<Card>,
    deck: Option<seq<Card>>,
    players: seq<Player>,
    currentCardIndex: nat)

  /** The actions the reducer reads; any other action type is `Unrecognized`. */
  datatype Action =
    | SelectGameMode(gamemode: ModeId)
    | AddCard(card: Card)
    | IncrementCurrentCard
    | DecrementCurrentCard
    | AddPlayer
    | DeletePlayer(index: int)
    | SetPlayerName(index: int, name: string)
    | Unrecognized

  /** `initialState`: no mode, no cards, no deck, a single unnamed player and
      the first card. A call with no state starts from this one, which
      satisfies the invariant and has nobody named yet. */
  function InitialSession(): (s: Session)
    ensures Valid(s) && !HasPlayer(s)
  {
    Session(None, [], None, [Player("")], 0)
  }

  /** `if (state.gamemode)`: a mode is set and is not the empty string. */
  predicate ModeChosen(s: Session)
  {
    s.gamemode.Some? && s.gamemode.value != ""
  }

  /** Moving to the next card calls for a new one: the card moved to is one
      of the last two dealt and is not the end card. */
  predicate NeedsRefill(s: Session, endCard: Card)
    requires s.currentCardIndex + 1 < |s.cards|
  {
    s.currentCardIndex + 1 >= |s.cards| - 2 && s.cards[s.currentCardIndex + 1].title != endCard.title
  }

  /** The actions the reducer completes without throwing: moving past the
      last card dealt reads the title of a missing card, a refill or a
      renaming with a mode set reads the deck, and a renaming looks up the
      last card's title in the deck and increments what it finds. Naming a
      player beyond the end of the roster would leave holes in the array. */
  predicate Admissible(s: Session, a: Action, res: Resources)
  {
    match a
    case IncrementCurrentCard =>
      s.currentCardIndex + 1 < |s.cards| &&
      (NeedsRefill(s, res.endCard) ==> s.deck.Some?)
    case SetPlayerName(index, _) =>
      index <= |s.players| &&
      (ModeChosen(s) ==>
        s.deck.Some? && |s.cards| > 0 && FindTitle(s.deck.value, s.cards[|s.cards| - 1].title) >= 0)
    case _ => true
  }

  /** The reducer `game`. Each call gets its own random source. */
  function Game(s: Session, a: Action, res: Resources, rolls: Rolls): (r: Session)
    requires Admissible(s, a, res)
    ensures r.currentCardIndex <= s.currentCardIndex + 1
  {
    match a
    case SelectGameMode(mode) =>
      var o := Initialize(res, mode, s.players, rolls, 0);
      s.(gamemode := Some(mode), cards := o.introCards, deck := Some(o.deck), currentCardIndex := 0)
    case AddCard(card) =>
      s.(cards := s.cards + [card])
    case IncrementCurrentCard =>
      var newCurrentCard := s.currentCardIndex + 1;
      if NeedsRefill(s, res.endCard) then
        var d := Draw(s.deck.value, s.players, res.player, res.endCard, rolls, 0);
        s.(currentCardIndex := newCurrentCard, cards := s.cards + [d.card], deck := Some(d.deck))
      else
        s.(currentCardIndex := newCurrentCard)
    case DecrementCurrentCard =>
      s.(currentCardIndex := if s.currentCardIndex > 0 then s.currentCardIndex - 1 else s.currentCardIndex)
    case AddPlayer =>
      s.(players := s.players + [Player("")])
    case DeletePlayer(index) =>
      s.(players := RemoveAt(s.players, index))
    case SetPlayerName(index, name) =>
      var newPlayers := Assign(s.players, index, Player(name));
      if ModeChosen(s) then
        var d := Regenerate(s.deck.value, s.cards, newPlayers, res.player, res.endCard, rolls, 0);
        s.(players := newPlayers, cards := s.cards[..|s.cards| - 1] + [d.card], deck := Some(d.deck))
      else
        s.(players := newPlayers)
    case Unrecognized =>
      s
  }

  /** `isGameFinished`: the last card dealt is the end card. */
  predicate IsGameFinished(s: Session, endCard: Card)
    requires |s.cards| > 0
  {
    s.cards[|s.cards| - 1].title == endCard.title
  }

  /** `isEndCardSelected`: the current card is the end card. */
  predicate IsEndCardSelected(s: Session, endCard: Card)
    requires s.currentCardIndex < |s.cards|
  {
    s.cards[s.currentCardIndex].title == endCard.title
  }

  /** `players.some(player => player.name !== "")`. */
  function AnyNamed(players: seq<Player>): (b: bool)
    ensures b <==> exists i :: 0 <= i < |players| && players[i].name != ""
  {
    if players == [] then false
    else if players[0].name != "" then true
    else
      var b := AnyNamed(players[1..]);
      assert forall i :: 1 <= i < |players| ==> players[i] == players[1..][i - 1];
      b
  }

  /** `hasPlayer`: some player of the roster has been named. */
  function HasPlayer(s: Session): (b: bool)
    ensures b <==> exists i :: 0 <= i < |s.players| && s.players[i].name != ""
  {
    AnyNamed(s.players)
  }

  /** The catalog has unique titles and no negative count. */
  predicate CatalogOk(res: Resources)
  {
    UniqueTitles(res.catalog) && CountsNonNegative(res.catalog)
  }

  /** What every reachable session satisfies: the current card is one of the
      cards dealt (or index 0 before any), a mode comes with a deck and at
      least two cards, and the deck has unique titles and no negative count. */
  predicate Valid(s: Session)
  {
    (if s.cards == [] then s.currentCardIndex == 0 else s.currentCardIndex < |s.cards|) &&
    (s.gamemode.Some? <==> s.deck.Some?) &&
    (s.gamemode.Some? ==> |s.cards| >= 2) &&
    (s.deck.Some? ==> UniqueTitles(s.deck.value) && CountsNonNegative(s.deck.value))
  }

  /** Selecting a mode starts a game: at least two cards, the mode's
      introduction cards first and in order, the first card current, the
      roster kept, and a deck made of the mode's catalog cards in catalog
      order with only their counts changed. */
  lemma SelectGameModeStarts(s: Session, mode: ModeId, res: Resources, rolls: Rolls)
    ensures var r := Game(s, SelectGameMode(mode), res, rolls);
      var intro := FilterInMode(res.introductionCards, mode, res.anyMode);
      r.gamemode == Some(mode) && r.currentCardIndex == 0 && r.players == s.players &&
      |r.cards| >= 2 && |intro| <= |r.cards| && r.cards[..|intro|] == intro &&
      r.deck.Some? && SameEntries(CreateDeck(res, mode), r.deck.value)
  {
    InitializeOpens(res, mode, s.players, rolls, 0);
  }

  /** Moving forward: the index goes up by one; exactly one card is appended
      when a refill is called for and none otherwise; the cards already dealt,
      the roster and the mode are kept, and without a refill so is the deck. */
  lemma AdvanceMoves(s: Session, res: Resources, rolls: Rolls)
    requires Admissible(s, IncrementCurrentCard, res)
    ensures var r := Game(s, IncrementCurrentCard, res, rolls);
      r.currentCardIndex == s.currentCardIndex + 1 &&
      |r.cards| == |s.cards| + (if NeedsRefill(s, res.endCard) then 1 else 0) &&
      r.cards[..|s.cards|] == s.cards &&
      r.players == s.players && r.gamemode == s.gamemode &&
      (!NeedsRefill(s, res.endCard) ==> r.cards == s.cards && r.deck == s.deck)
  {
    if NeedsRefill(s, res.endCard) {
      var d := Draw(s.deck.value, s.players, res.player, res.endCard, rolls, 0);
      assert (s.cards + [d.card])[..|s.cards|] == s.cards;
    }
  }

  /** A refill from a deck with titles unique and a card the roster may draw
      deals that card with its text filled in and takes one of its copies. */
  lemma AdvanceDraws(s: Session, res: Resources, rolls: Rolls)
    requires Admissible(s, IncrementCurrentCard, res) && NeedsRefill(s, res.endCard)
    requires UniqueTitles(s.deck.value) && PossibleCards(s.deck.value, |s.players|) != []
    ensures var r := Game(s, IncrementCurrentCard, res, rolls);
      var deck := s.deck.value;
      r.deck.Some? && |r.cards| == |s.cards| + 1 &&
      exists j :: DealsEntry(deck, r.deck.value, r.cards[|s.cards|], j, s.players, res.player, rolls, 0)
  {
    var d := Draw(s.deck.value, s.players, res.player, res.endCard, rolls, 0);
    var r := Game(s, IncrementCurrentCard, res, rolls);
    assert r.cards == s.cards + [d.card] && r.deck == Some(d.deck);
    DrawTakesOne(s.deck.value, s.players, res.player, res.endCard, rolls, 0);
    var j :| DealsEntry(s.deck.value, d.deck, d.card, j, s.players, res.player, rolls, 0);
    assert r.cards[|s.cards|] == d.card;
  }

  /** A refill from a deck the roster can no longer draw from deals the end
      card, leaves the deck as it was, and the game is then finished. */
  lemma AdvanceExhausted(s: Session, res: Resources, rolls: Rolls)
    requires Admissible(s, IncrementCurrentCard, res) && NeedsRefill(s, res.endCard)
    requires PossibleCards(s.deck.value, |s.players|) == []
    ensures var r := Game(s, IncrementCurrentCard, res, rolls);
      r.cards == s.cards + [res.endCard] && r.deck == s.deck && IsGameFinished(r, res.endCard)
  {
  }

  /** Moving onto the end card deals nothing: only the index moves, and the
      end card is then the current card. */
  lemma AdvanceOntoEndCard(s: Session, res: Resources, rolls: Rolls)
    requires Admissible(s, IncrementCurrentCard, res)
    requires s.cards[s.currentCardIndex + 1].title == res.endCard.title
    ensures var r := Game(s, IncrementCurrentCard, res, rolls);
      r == s.(currentCardIndex := s.currentCardIndex + 1) && IsEndCardSelected(r, res.endCard)
  {
  }

  /** Moving back: the index goes down by one when it is above 0 and nothing
      else changes; at 0 the session is left as it is, so moving back again
      changes nothing either. */
  lemma RetreatMoves(s: Session, res: Resources, rolls: Rolls)
    ensures var r := Game(s, DecrementCurrentCard, res, rolls);
      (s.currentCardIndex > 0 ==> r == s.(currentCardIndex := s.currentCardIndex - 1)) &&
      (s.currentCardIndex == 0 ==> r == s && Game(r, DecrementCurrentCard, res, rolls) == r)
  {
  }

  /** Moving forward then back returns to the same card, with any card dealt
      on the way kept. */
  lemma AdvanceThenRetreat(s: Session, res: Resources, rolls: Rolls, rolls2: Rolls)
    requires Admissible(s, IncrementCurrentCard, res)
    ensures var r := Game(Game(s, IncrementCurrentCard, res, rolls), DecrementCurrentCard, res, rolls2);
      r == Game(s, IncrementCurrentCard, res, rolls).(currentCardIndex := s.currentCardIndex)
  {
  }

  /** `ADD_CARD` appends the card and changes nothing else. */
  lemma AddCardAppends(s: Session, card: Card, res: Resources, rolls: Rolls)
    ensures Game(s, AddCard(card), res, rolls) == s.(cards := s.cards + [card])
  {
  }

  /** `ADD_PLAYER` appends an unnamed player and changes nothing else, so
      whether someone is named is unchanged; removing the last player again
      restores the session. */
  lemma AddPlayerAppends(s: Session, res: Resources, rolls: Rolls)
    ensures var r := Game(s, AddPlayer, res, rolls);
      r == s.(players := s.players + [Player("")]) && HasPlayer(r) == HasPlayer(s) &&
      Game(r, DeletePlayer(|s.players|), res, rolls) == s &&
      Game(r, DeletePlayer(-1), res, rolls) == s
  {
    var r := Game(s, AddPlayer, res, rolls);
    assert r.players[..|s.players|] == s.players;
    if HasPlayer(r) {
      var i :| 0 <= i < |r.players| && r.players[i].name != "";
      assert i < |s.players| && s.players[i].name != "";
    }
  }

  /** `DELETE_PLAYER` with an index inside the roster removes that player and
      keeps the order of the others; an index past the end changes nothing;
      nothing but the roster changes. */
  lemma DeletePlayerRemoves(s: Session, index: int, res: Resources, rolls: Rolls)
    ensures var r := Game(s, DeletePlayer(index), res, rolls);
      r == s.(players := r.players) &&
      (0 <= index < |s.players| ==>
        |r.players| == |s.players| - 1 &&
        (forall i :: 0 <= i < index ==> r.players[i] == s.players[i]) &&
        (forall i :: index <= i < |r.players| ==> r.players[i] == s.players[i + 1])) &&
      (index >= |s.players| ==> r == s)
  {
  }

  /** `SET_PLAYER_NAME`: the player at the index gets the name (an index equal
      to the roster size appends a player, a negative one leaves the roster
      as it was); without a mode nothing else changes; with one, the last
      card dealt is replaced by a fresh draw and all earlier cards, the index
      and the mode are kept. */
  lemma RenameSetsName(s: Session, index: int, name: string, res: Resources, rolls: Rolls)
    requires Admissible(s, SetPlayerName(index, name), res)
    ensures var r := Game(s, SetPlayerName(index, name), res, rolls);
      (0 <= index < |s.players| ==>
        |r.players| == |s.players| && r.players[index] == Player(name) &&
        forall i :: 0 <= i < |s.players| && i != index ==> r.players[i] == s.players[i]) &&
      (index == |s.players| ==> r.players == s.players + [Player(name)]) &&
      (index < 0 ==> r.players == s.players) &&
      r.currentCardIndex == s.currentCardIndex && r.gamemode == s.gamemode &&
      (!ModeChosen(s) ==> r.cards == s.cards && r.deck == s.deck) &&
      (ModeChosen(s) ==>
        var d := Regenerate(s.deck.value, s.cards, Assign(s.players, index, Player(name)), res.player, res.endCard, rolls, 0);
        |r.cards| == |s.cards| && r.cards[..|s.cards| - 1] == s.cards[..|s.cards| - 1] &&
        r.cards[|s.cards| - 1] == d.card && r.deck == Some(d.deck))
  {
    if ModeChosen(s) {
      var newPlayers := Assign(s.players, index, Player(name));
      var d := Regenerate(s.deck.value, s.cards, newPlayers, res.player, res.endCard, rolls, 0);
      assert (s.cards[..|s.cards| - 1] + [d.card])[..|s.cards| - 1] == s.cards[..|s.cards| - 1];
    }
  }

  /** Naming a player with a non-empty name means the roster has a player. */
  lemma RenameNamesPlayer(s: Session, index: int, name: string, res: Resources, rolls: Rolls)
    requires Admissible(s, SetPlayerName(index, name), res)
    requires 0 <= index && name != ""
    ensures HasPlayer(Game(s, SetPlayerName(index, name), res, rolls))
  {
    RenameSetsName(s, index, name, res, rolls);
    var r := Game(s, SetPlayerName(index, name), res, rolls);
    assert r.players[index].name == name;
  }

  /** With a mode set, renaming gives the last card's copy back and draws
      again: when that entry fits the new roster, a card of the deck is dealt
      and the total number of copies in the deck is unchanged. */
  lemma RenameRedraws(s: Session, index: int, name: string, res: Resources, rolls: Rolls)
    requires Admissible(s, SetPlayerName(index, name), res) && ModeChosen(s) && Valid(s)
    requires var deck := s.deck.value;
      deck[FindTitle(deck, s.cards[|s.cards| - 1].title)].nbPlayers <= |Assign(s.players, index, Player(name))|
    ensures var r := Game(s, SetPlayerName(index, name), res, rolls);
      var deck := s.deck.value;
      var players := Assign(s.players, index, Player(name));
      var restored := GiveBack(deck, FindTitle(deck, s.cards[|s.cards| - 1].title));
      var card := r.cards[|s.cards| - 1];
      r.deck.Some? && Occurrences(r.deck.value) == Occurrences(deck) &&
      exists j :: DealsEntry(restored, r.deck.value, card, j, players, res.player, rolls, 0)
  {
    RegenerateBalances(s.deck.value, s.cards, Assign(s.players, index, Player(name)), res.player, res.endCard, rolls, 0);
    RenameSetsName(s, index, name, res, rolls);
  }

  /** Selecting a mode yields a valid session. */
  lemma SelectKeepsValid(s: Session, mode: ModeId, res: Resources, rolls: Rolls)
    requires Valid(s) && CatalogOk(res)
    ensures Valid(Game(s, SelectGameMode(mode), res, rolls))
  {
    SelectGameModeStarts(s, mode, res, rolls);
    InitializeOpens(res, mode, s.players, rolls, 0);
  }

  /** Moving forward keeps a session valid. */
  lemma AdvanceKeepsValid(s: Session, res: Resources, rolls: Rolls)
    requires Valid(s) && Admissible(s, IncrementCurrentCard, res)
    ensures Valid(Game(s, IncrementCurrentCard, res, rolls))
  {
    if NeedsRefill(s, res.endCard) {
      var d := Draw(s.deck.value, s.players, res.player, res.endCard, rolls, 0);
      DrawCounts(s.deck.value, s.players, res.player, res.endCard, rolls, 0);
      SameEntriesUnique(s.deck.value, d.deck);
    }
  }

  /** Renaming a player keeps a session valid. */
  lemma RenameKeepsValid(s: Session, index: int, name: string, res: Resources, rolls: Rolls)
    requires Valid(s) && Admissible(s, SetPlayerName(index, name), res)
    ensures Valid(Game(s, SetPlayerName(index, name), res, rolls))
  {
    RenameSetsName(s, index, name, res, rolls);
    if ModeChosen(s) {
      RenameKeepsDeck(s, index, name, res, rolls);
    }
    KeepsShape(s, Game(s, SetPlayerName(index, name), res, rolls));
  }

  /** With a mode set, the deck left by a renaming still has unique titles
      and no negative count. */
  lemma RenameKeepsDeck(s: Session, index: int, name: string, res: Resources, rolls: Rolls)
    requires Valid(s) && Admissible(s, SetPlayerName(index, name), res) && ModeChosen(s)
    ensures var r := Game(s, SetPlayerName(index, name), res, rolls);
      r.deck.Some? && UniqueTitles(r.deck.value) && CountsNonNegative(r.deck.value)
  {
    var newPlayers := Assign(s.players, index, Player(name));
    RegenerateKeepsDeck(s.deck.value, s.cards, newPlayers, res.player, res.endCard, rolls, 0);
  }

  /** A session with the same mode, index and number of cards as a valid
      one, and a deck that keeps titles unique and counts non-negative, is
      valid. */
  lemma KeepsShape(s: Session, r: Session)
    requires Valid(s) && r.gamemode == s.gamemode && r.currentCardIndex == s.currentCardIndex
    requires |r.cards| == |s.cards| && (s.deck.Some? <==> r.deck.Some?)
    requires r.deck.Some? ==> UniqueTitles(r.deck.value) && CountsNonNegative(r.deck.value)
    ensures Valid(r)
  {
  }

  /** Every action the reducer completes keeps a valid session valid, given
      a catalog with unique titles and no negative count. */
  lemma GamePreservesValid(s: Session, a: Action, res: Resources, rolls: Rolls)
    requires Valid(s) && CatalogOk(res) && Admissible(s, a, res)
    ensures Valid(Game(s, a, res, rolls))
  {
    match a
    case SelectGameMode(mode) => SelectKeepsValid(s, mode, res, rolls);
    case IncrementCurrentCard => AdvanceKeepsValid(s, res, rolls);
    case SetPlayerName(index, name) => RenameKeepsValid(s, index, name, res, rolls);
    case _ =>
  }

  /** The check on the card moved to, not on the last card dealt, lets the end
      card be dealt more than once: with two introduction cards and an empty
      deck, moving forward deals the end card; moving back and forward again
      deals it a second time. */
  lemma EndCardDealtAgain(rolls: Rolls)
    ensures var endCard := Card("end", "", 0, 0, []);
      var res := Resources([], [], endCard, "P", "ANY");
      var a := Card("a", "", 0, 1, []);
      var b := Card("b", "", 0, 1, []);
      var s0 := Session(Some("m"), [a, b], Some([]), [Player("")], 0);
      var s1 := Game(s0, IncrementCurrentCard, res, rolls);
      var s2 := Game(s1, DecrementCurrentCard, res, rolls);
      Valid(s0) && Admissible(s2, IncrementCurrentCard, res) &&
      s1.cards == [a, b, endCard] &&
      Game(s2, IncrementCurrentCard, res, rolls).cards == [a, b, endCard, endCard]
  {
  }
}
