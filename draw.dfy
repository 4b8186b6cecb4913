/** Drawing from the deck: `generateNextCard`, `regenerateLastCard` and
    `initializeGameMode`. Decks are values here: a draw returns the deck with
    the drawn entry's count lowered by one, as the reducer's copies do. */
module Dealing {
  import opened Cards
  import opened Process
  import opened Oracle

  /** A drawn card, the deck after the draw and the next unused roll. */
  datatype Drawn = Drawn(card: Card, deck: seq<Card>, at: nat)

  /** `generateNextCard`: among the entries the roster may draw, the roll at
      `at` picks one; its placeholders are filled from the roster with the
      rolls that follow, and the first deck entry with its title loses a copy.
      When no entry may be drawn, the end card comes out and the deck is kept. */
  function Draw(deck: seq<Card>, players: seq<Player>, player: string, endCard: Card, rolls: Rolls, at: nat): (d: Drawn)
    ensures SameEntries(deck, d.deck)
    ensures PossibleCards(deck, |players|) == [] ==> d == Drawn(endCard, deck, at)
  {
    var possible := PossibleCards(deck, |players|);
    if possible == [] then Drawn(endCard, deck, at)
    else
      var chosen := possible[Pick(rolls, at, |possible|)];
      var s := Substitute(chosen.text, players, 1, player, rolls, at + 1);
      var nextCard := chosen.(text := s.text);
      assert chosen in deck;
      var i := FindTitle(deck, nextCard.title);
      assert i >= 0;
      Drawn(nextCard, deck[i := deck[i].(nbOccurences := deck[i].nbOccurences - 1)], s.at)
  }

  /** A draw that used roll `at` to choose: `card` is entry `j` of `before`,
      which the roster may draw, with its text filled in by `proccessCard`
      from roll `at + 1` on; `after` is `before` with one copy of that entry
      taken and nothing else changed. */
  predicate DealsEntry(before: seq<Card>, after: seq<Card>, card: Card, j: int, players: seq<Player>, player: string, rolls: Rolls, at: nat)
  {
    0 <= j < |before| && Eligible(before[j], |players|) && TookOne(before, after, j) &&
    card == before[j].(text := Substitute(before[j].text, players, 1, player, rolls, at + 1).text)
  }

  /** With unique titles, a draw from a deck that has an eligible entry takes
      one copy of an eligible entry and nothing else, and the card drawn is
      that entry with its text filled in. */
  lemma DrawTakesOne(deck: seq<Card>, players: seq<Player>, player: string, endCard: Card, rolls: Rolls, at: nat)
    requires UniqueTitles(deck)
    requires PossibleCards(deck, |players|) != []
    ensures var d := Draw(deck, players, player, endCard, rolls, at);
      exists j :: DealsEntry(deck, d.deck, d.card, j, players, player, rolls, at)
  {
    var possible := PossibleCards(deck, |players|);
    var chosen := possible[Pick(rolls, at, |possible|)];
    var s := Substitute(chosen.text, players, 1, player, rolls, at + 1);
    assert chosen in deck;
    var j :| 0 <= j < |deck| && deck[j] == chosen;
    FindTitleUnique(deck, j);
    var d := Drawn(chosen.(text := s.text), deck[j := deck[j].(nbOccurences := deck[j].nbOccurences - 1)], s.at);
    assert Draw(deck, players, player, endCard, rolls, at) == d;
    assert DealsEntry(deck, d.deck, d.card, j, players, player, rolls, at);
  }

  /** Taking one copy of an entry that had copies left keeps every count
      non-negative and lowers the total by one. */
  lemma TookOneCounts(before: seq<Card>, after: seq<Card>, j: int)
    requires TookOne(before, after, j) && before[j].nbOccurences > 0
    requires CountsNonNegative(before)
    ensures CountsNonNegative(after)
    ensures Occurrences(after) == Occurrences(before) - 1
  {
    assert after == before[j := before[j].(nbOccurences := before[j].nbOccurences - 1)];
    OccurrencesUpdate(before, j, before[j].nbOccurences - 1);
  }

  /** With unique titles, a draw never takes a count below 0 and lowers the
      number of copies left by exactly one, unless the deck is exhausted. */
  lemma DrawCounts(deck: seq<Card>, players: seq<Player>, player: string, endCard: Card, rolls: Rolls, at: nat)
    requires UniqueTitles(deck) && CountsNonNegative(deck)
    ensures var d := Draw(deck, players, player, endCard, rolls, at);
      CountsNonNegative(d.deck) &&
      Occurrences(d.deck) == Occurrences(deck) - (if PossibleCards(deck, |players|) == [] then 0 else 1)
  {
    var d := Draw(deck, players, player, endCard, rolls, at);
    if PossibleCards(deck, |players|) != [] {
      DrawTakesOne(deck, players, player, endCard, rolls, at);
      var j :| DealsEntry(deck, d.deck, d.card, j, players, player, rolls, at);
      TookOneCounts(deck, d.deck, j);
    }
  }

  /** Entries keep their places and titles, so unique titles stay unique. */
  lemma SameEntriesUnique(before: seq<Card>, after: seq<Card>)
    requires SameEntries(before, after) && UniqueTitles(before)
    ensures UniqueTitles(after)
  {
    forall i, j | 0 <= i < j < |after| ensures after[i].title != after[j].title {
      assert after[i].title == before[i].title && after[j].title == before[j].title;
    }
  }

  /** Sameness of entries chains. */
  lemma SameEntriesTrans(a: seq<Card>, b: seq<Card>, c: seq<Card>)
    requires SameEntries(a, b) && SameEntries(b, c)
    ensures SameEntries(a, c)
  {
    forall i | 0 <= i < |a| ensures c[i] == a[i].(nbOccurences := c[i].nbOccurences) {
      assert b[i] == a[i].(nbOccurences := b[i].nbOccurences);
    }
  }

  /** `generateNextCard`, written as the reducer writes it: filter, roll,
      process the chosen card, then store the lowered count in a copy of the
      deck. */
  method GenerateNextCard(players: seq<Player>, deck: seq<Card>, player: string, endCard: Card, rolls: Rolls, at: nat)
    returns (nextCard: Card, newDeck: seq<Card>, next: nat)
    ensures Drawn(nextCard, newDeck, next) == Draw(deck, players, player, endCard, rolls, at)
  {
    newDeck := deck;
    var possibleCards := PossibleCards(newDeck, |players|);
    if |possibleCards| > 0 {
      var indexOfSelectedCard := Pick(rolls, at, |possibleCards|);
      nextCard, next := ProcessCard(possibleCards[indexOfSelectedCard], players, player, rolls, at + 1);
      assert possibleCards[indexOfSelectedCard] in deck;
      var indexInDeck := FindTitle(newDeck, nextCard.title);
      var cardInDeck := newDeck[indexInDeck];
      var newNbOccurences := cardInDeck.nbOccurences - 1;
      newDeck := newDeck[indexInDeck := newDeck[indexInDeck].(nbOccurences := newNbOccurences)];
    } else {
      nextCard := endCard;
      next := at;
    }
  }

  /** The deck with one copy of entry `i` given back. */
  function GiveBack(deck: seq<Card>, i: nat): (r: seq<Card>)
    requires i < |deck|
    ensures TookOne(r, deck, i)
  {
    deck[i := deck[i].(nbOccurences := deck[i].nbOccurences + 1)]
  }

  /** `regenerateLastCard`: the deck entry with the title of the last card
      dealt gets a copy back, then a fresh card is drawn from that deck. */
  function Regenerate(deck: seq<Card>, cards: seq<Card>, players: seq<Player>, player: string, endCard: Card, rolls: Rolls, at: nat): (d: Drawn)
    requires |cards| > 0 && FindTitle(deck, cards[|cards| - 1].title) >= 0
    ensures SameEntries(deck, d.deck)
  {
    var i := FindTitle(deck, cards[|cards| - 1].title);
    var restored := GiveBack(deck, i);
    var d := Draw(restored, players, player, endCard, rolls, at);
    SameEntriesTrans(deck, restored, d.deck);
    d
  }

  /** Giving a copy back keeps titles unique and counts non-negative, raises
      the total by one, and makes the entry drawable for a roster it fits. */
  lemma GiveBackCounts(deck: seq<Card>, i: nat, playerCount: nat)
    requires i < |deck|
    requires UniqueTitles(deck) && CountsNonNegative(deck)
    ensures UniqueTitles(GiveBack(deck, i)) && CountsNonNegative(GiveBack(deck, i))
    ensures Occurrences(GiveBack(deck, i)) == Occurrences(deck) + 1
    ensures deck[i].nbPlayers <= playerCount ==> PossibleCards(GiveBack(deck, i), playerCount) != []
  {
    var restored := GiveBack(deck, i);
    assert SameEntries(deck, restored);
    SameEntriesUnique(deck, restored);
    OccurrencesUpdate(deck, i, deck[i].nbOccurences + 1);
    if deck[i].nbPlayers <= playerCount {
      assert restored[i] in PossibleCards(restored, playerCount);
    }
  }

  /** With unique titles and non-negative counts, the deck after a
      regeneration still has both. */
  lemma RegenerateKeepsDeck(deck: seq<Card>, cards: seq<Card>, players: seq<Player>, player: string, endCard: Card, rolls: Rolls, at: nat)
    requires |cards| > 0 && FindTitle(deck, cards[|cards| - 1].title) >= 0
    requires UniqueTitles(deck) && CountsNonNegative(deck)
    ensures var d := Regenerate(deck, cards, players, player, endCard, rolls, at);
      UniqueTitles(d.deck) && CountsNonNegative(d.deck)
  {
    var i := FindTitle(deck, cards[|cards| - 1].title);
    var restored := GiveBack(deck, i);
    GiveBackCounts(deck, i, |players|);
    DrawCounts(restored, players, player, endCard, rolls, at);
    var d := Draw(restored, players, player, endCard, rolls, at);
    assert Regenerate(deck, cards, players, player, endCard, rolls, at) == d;
    SameEntriesUnique(deck, d.deck);
  }

  /** With unique titles and non-negative counts, when the last card's entry
      fits the roster, regeneration always draws (the end card cannot come
      out): the card dealt is an eligible entry of the deck with the copy
      given back, its text filled in for the roster, and one copy of that
      entry is taken. The total number of copies is the same as before: the
      copy given back balances the copy taken. */
  lemma RegenerateBalances(deck: seq<Card>, cards: seq<Card>, players: seq<Player>, player: string, endCard: Card, rolls: Rolls, at: nat)
    requires |cards| > 0 && FindTitle(deck, cards[|cards| - 1].title) >= 0
    requires UniqueTitles(deck) && CountsNonNegative(deck)
    requires deck[FindTitle(deck, cards[|cards| - 1].title)].nbPlayers <= |players|
    ensures var d := Regenerate(deck, cards, players, player, endCard, rolls, at);
      var restored := GiveBack(deck, FindTitle(deck, cards[|cards| - 1].title));
      Occurrences(d.deck) == Occurrences(deck) &&
      exists j :: DealsEntry(restored, d.deck, d.card, j, players, player, rolls, at)
  {
    var i := FindTitle(deck, cards[|cards| - 1].title);
    var restored := GiveBack(deck, i);
    GiveBackCounts(deck, i, |players|);
    DrawCounts(restored, players, player, endCard, rolls, at);
    var d := Draw(restored, players, player, endCard, rolls, at);
    assert Regenerate(deck, cards, players, player, endCard, rolls, at) == d;
    DrawTakesOne(restored, players, player, endCard, rolls, at);
  }

  /** `regenerateLastCard`, step by step. */
  method RegenerateLastCard(players: seq<Player>, deck: seq<Card>, cards: seq<Card>, player: string, endCard: Card, rolls: Rolls, at: nat)
    returns (nextCard: Card, newDeck: seq<Card>, next: nat)
    requires |cards| > 0 && FindTitle(deck, cards[|cards| - 1].title) >= 0
    ensures Drawn(nextCard, newDeck, next) == Regenerate(deck, cards, players, player, endCard, rolls, at)
  {
    var lastCard := cards[|cards| - 1];
    var lastCardIndexInDeck := FindTitle(deck, lastCard.title);
    var restored := deck[lastCardIndexInDeck := deck[lastCardIndexInDeck].(nbOccurences := deck[lastCardIndexInDeck].nbOccurences + 1)];
    nextCard, newDeck, next := GenerateNextCard(players, restored, player, endCard, rolls, at);
  }

  /** The introduction cards and the deck a game starts with, and the next
      unused roll. */
  datatype Opening = Opening(introCards: seq<Card>, deck: seq<Card>, at: nat)

  /** The loop of `initializeGameMode`: while fewer than two introduction
      cards are ready, draw one more from the deck. */
  function FillIntro(intro: seq<Card>, deck: seq<Card>, players: seq<Player>, player: string, endCard: Card, rolls: Rolls, at: nat): (o: Opening)
    ensures |o.introCards| == if |intro| < 2 then 2 else |intro|
    ensures o.introCards[..|intro|] == intro
    ensures |intro| >= 2 ==> o == Opening(intro, deck, at)
    ensures SameEntries(deck, o.deck)
    decreases 2 - |intro|
  {
    if |intro| >= 2 then Opening(intro, deck, at)
    else
      var d := Draw(deck, players, player, endCard, rolls, at);
      var o := FillIntro(intro + [d.card], d.deck, players, player, endCard, rolls, d.at);
      assert o.introCards[..|intro|] == o.introCards[..|intro| + 1][..|intro|];
      SameEntriesTrans(deck, d.deck, o.deck);
      o
  }

  /** Counts stay non-negative and titles unique across the whole loop. */
  lemma {:induction false} FillIntroCounts(intro: seq<Card>, deck: seq<Card>, players: seq<Player>, player: string, endCard: Card, rolls: Rolls, at: nat)
    requires UniqueTitles(deck) && CountsNonNegative(deck)
    ensures var o := FillIntro(intro, deck, players, player, endCard, rolls, at);
      UniqueTitles(o.deck) && CountsNonNegative(o.deck)
    decreases 2 - |intro|
  {
    if |intro| < 2 {
      var d := Draw(deck, players, player, endCard, rolls, at);
      DrawCounts(deck, players, player, endCard, rolls, at);
      SameEntriesUnique(deck, d.deck);
      FillIntroCounts(intro + [d.card], d.deck, players, player, endCard, rolls, d.at);
    } else {
      assert FillIntro(intro, deck, players, player, endCard, rolls, at) == Opening(intro, deck, at);
    }
  }

  /** `initializeGameMode` as a value: the introduction cards of the mode,
      topped up from the mode's deck. */
  function Initialize(res: Resources, mode: ModeId, players: seq<Player>, rolls: Rolls, at: nat): (o: Opening)
  {
    FillIntro(FilterInMode(res.introductionCards, mode, res.anyMode), CreateDeck(res, mode),
      players, res.player, res.endCard, rolls, at)
  }

  /** A game starts with at least two cards, the mode's introduction cards
      first and in order, and a deck holding the catalog cards of the mode in
      catalog order with only their counts changed. With a catalog whose
      titles are unique and whose counts are non-negative, the deck keeps both. */
  lemma InitializeOpens(res: Resources, mode: ModeId, players: seq<Player>, rolls: Rolls, at: nat)
    ensures var o := Initialize(res, mode, players, rolls, at);
      var intro := FilterInMode(res.introductionCards, mode, res.anyMode);
      |o.introCards| >= 2 && |intro| <= |o.introCards| && o.introCards[..|intro|] == intro &&
      SameEntries(CreateDeck(res, mode), o.deck) &&
      (UniqueTitles(res.catalog) && CountsNonNegative(res.catalog) ==>
        UniqueTitles(o.deck) && CountsNonNegative(o.deck))
  {
    if UniqueTitles(res.catalog) && CountsNonNegative(res.catalog) {
      FilterInModeUnique(res.catalog, mode, res.anyMode);
      FilterInModeCounts(res.catalog, mode, res.anyMode);
      FillIntroCounts(FilterInMode(res.introductionCards, mode, res.anyMode), CreateDeck(res, mode),
        players, res.player, res.endCard, rolls, at);
    }
  }

  /** `initializeGameMode`, with its loop. */
  method InitializeGameMode(res: Resources, gamemode: ModeId, players: seq<Player>, rolls: Rolls, at: nat)
    returns (introCards: seq<Card>, deck: seq<Card>, next: nat)
    ensures Opening(introCards, deck, next) == Initialize(res, gamemode, players, rolls, at)
  {
    introCards := FilterInMode(res.introductionCards, gamemode, res.anyMode);
    deck := CreateDeck(res, gamemode);
    next := at;
    while |introCards| < 2
      invariant FillIntro(introCards, deck, players, res.player, res.endCard, rolls, next)
        == Initialize(res, gamemode, players, rolls, at)
      decreases 2 - |introCards|
    {
      var nextCard, newDeck;
      nextCard, newDeck, next := GenerateNextCard(players, deck, res.player, res.endCard, rolls, next);
      deck := newDeck;
      introCards := introCards + [nextCard];
    }
  }
}
