/** Cards, players and decks, and the pure queries over them: which cards
    belong to a game mode (`isCardInGameMode`, `createDeck`), which deck
    entries may be drawn, and where a title sits in a deck (`findIndex`). */
module Cards {

  /** A game mode identifier, as the card resources tag cards with. */
  type ModeId = string

  /** A card. The same record serves as a catalog card, as a deck entry (whose
      `nbOccurences` is the number of copies left to draw) and as a drawn card
      (whose `text` has had its player placeholders filled in). */
  datatype Card = Card(
    title: string,
    text: string,
    nbPlayers: int,
    nbOccurences: int,
    gameMode: seq<ModeId>)

  /** A player of the roster; a new player has the empty name. */
  datatype Player = Player(name: string)

  /** What the card resources supply: the playable catalog, the introduction
      cards, the end card, the placeholder prefix `PLAYER` and the wildcard
      mode `ANY`. */
  datatype Resources = Resources(
    catalog: seq<Card>,
    introductionCards: seq<Card>,
    endCard: Card,
    player: string,
    anyMode: ModeId)

  /** `isCardInGameMode`: the card is tagged with the mode or with the wildcard. */
  predicate IsCardInGameMode(card: Card, mode: ModeId, anyMode: ModeId)
  {
    mode in card.gameMode || anyMode in card.gameMode
  }

  /** `cards.filter(card => isCardInGameMode(card, mode))`. */
  function FilterInMode(cards: seq<Card>, mode: ModeId, anyMode: ModeId): (r: seq<Card>)
    ensures forall c :: c in r <==> c in cards && IsCardInGameMode(c, mode, anyMode)
  {
    if cards == [] then []
    else
      (if IsCardInGameMode(cards[0], mode, anyMode) then [cards[0]] else [])
        + FilterInMode(cards[1..], mode, anyMode)
  }

  /** Each card of the mode keeps all its copies and no other card survives. */
  lemma {:induction false} FilterInModeCount(cards: seq<Card>, mode: ModeId, anyMode: ModeId, c: Card)
    ensures multiset(FilterInMode(cards, mode, anyMode))[c]
         == if IsCardInGameMode(c, mode, anyMode) then multiset(cards)[c] else 0
  {
    if cards != [] {
      FilterInModeCount(cards[1..], mode, anyMode, c);
      assert cards == [cards[0]] + cards[1..];
    }
  }

  /** Filtering commutes with concatenation, so the entries that survive keep
      their catalog order. */
  lemma {:induction false} FilterInModeAppend(a: seq<Card>, b: seq<Card>, mode: ModeId, anyMode: ModeId)
    ensures FilterInMode(a + b, mode, anyMode) == FilterInMode(a, mode, anyMode) + FilterInMode(b, mode, anyMode)
  {
    if a == [] {
      assert a + b == b;
    } else {
      var ab := a + b;
      assert ab != [] && ab[0] == a[0] && ab[1..] == a[1..] + b;
      FilterInModeAppend(a[1..], b, mode, anyMode);
      var head := if IsCardInGameMode(a[0], mode, anyMode) then [a[0]] else [];
      assert FilterInMode(ab, mode, anyMode) == head + FilterInMode(a[1..] + b, mode, anyMode);
      assert FilterInMode(a, mode, anyMode) == head + FilterInMode(a[1..], mode, anyMode);
    }
  }

  /** `createDeck`: the catalog cards of a mode, in catalog order. */
  function CreateDeck(res: Resources, mode: ModeId): (deck: seq<Card>)
    ensures forall c :: c in deck <==> c in res.catalog && IsCardInGameMode(c, mode, res.anyMode)
  {
    FilterInMode(res.catalog, mode, res.anyMode)
  }

  /** A deck entry may be drawn: the roster is large enough and copies remain. */
  predicate Eligible(card: Card, playerCount: nat)
  {
    card.nbPlayers <= playerCount && card.nbOccurences > 0
  }

  /** `deck.filter(card => card.nbPlayers <= players.length && card.nbOccurences > 0)`. */
  function PossibleCards(deck: seq<Card>, playerCount: nat): (r: seq<Card>)
    ensures |r| <= |deck|
    ensures forall c :: c in r <==> c in deck && Eligible(c, playerCount)
  {
    if deck == [] then []
    else
      (if Eligible(deck[0], playerCount) then [deck[0]] else [])
        + PossibleCards(deck[1..], playerCount)
  }

  /** `deck.findIndex(card => card.title === title)`: the first entry with that
      title, or -1. */
  function FindTitle(deck: seq<Card>, title: string): (i: int)
    ensures -1 <= i < |deck|
    ensures 0 <= i ==> deck[i].title == title
    ensures 0 <= i ==> forall j :: 0 <= j < i ==> deck[j].title != title
    ensures i == -1 <==> forall j :: 0 <= j < |deck| ==> deck[j].title != title
  {
    if deck == [] then -1
    else if deck[0].title == title then 0
    else
      var k := FindTitle(deck[1..], title);
      if k < 0 then -1 else k + 1
  }

  /** No two entries share a title. */
  predicate UniqueTitles(deck: seq<Card>)
  {
    forall i, j :: 0 <= i < j < |deck| ==> deck[i].title != deck[j].title
  }

  /** With unique titles, looking an entry's title up finds that entry. */
  lemma FindTitleUnique(deck: seq<Card>, j: int)
    requires UniqueTitles(deck)
    requires 0 <= j < |deck|
    ensures FindTitle(deck, deck[j].title) == j
  {
  }

  /** Filtering a deck with unique titles keeps them unique. */
  lemma {:induction false} FilterInModeUnique(cards: seq<Card>, mode: ModeId, anyMode: ModeId)
    requires UniqueTitles(cards)
    ensures UniqueTitles(FilterInMode(cards, mode, anyMode))
  {
    if cards != [] {
      var rest := cards[1..];
      var tail := FilterInMode(rest, mode, anyMode);
      FilterInModeUnique(rest, mode, anyMode);
      forall j | 0 <= j < |tail| ensures tail[j].title != cards[0].title {
        assert tail[j] in rest;
        var k :| 0 <= k < |rest| && rest[k] == tail[j];
        assert rest[k] == cards[k + 1];
      }
    }
  }

  /** Every entry has a count of at least 0. */
  predicate CountsNonNegative(deck: seq<Card>)
  {
    forall i :: 0 <= i < |deck| ==> deck[i].nbOccurences >= 0
  }

  /** Filtering keeps counts non-negative. */
  lemma FilterInModeCounts(cards: seq<Card>, mode: ModeId, anyMode: ModeId)
    requires CountsNonNegative(cards)
    ensures CountsNonNegative(FilterInMode(cards, mode, anyMode))
  {
    var r := FilterInMode(cards, mode, anyMode);
    forall i | 0 <= i < |r| ensures r[i].nbOccurences >= 0 {
      assert r[i] in cards;
    }
  }

  /** `after` holds the same entries as `before`, in the same places; only
      their counts may differ. */
  predicate SameEntries(before: seq<Card>, after: seq<Card>)
  {
    |before| == |after| &&
    forall i :: 0 <= i < |before| ==> after[i] == before[i].(nbOccurences := after[i].nbOccurences)
  }

  /** `after` is `before` with one copy of entry `j` taken out. */
  predicate TookOne(before: seq<Card>, after: seq<Card>, j: int)
  {
    0 <= j < |before| && |after| == |before| &&
    after[j] == before[j].(nbOccurences := before[j].nbOccurences - 1) &&
    forall i :: 0 <= i < |before| && i != j ==> after[i] == before[i]
  }

  /** The number of copies left in a deck. */
  function Occurrences(deck: seq<Card>): int
  {
    if deck == [] then 0 else deck[0].nbOccurences + Occurrences(deck[1..])
  }

  /** Changing the count of one entry changes the total by the difference. */
  lemma {:induction false} OccurrencesUpdate(deck: seq<Card>, j: int, count: int)
    requires 0 <= j < |deck|
    ensures Occurrences(deck[j := deck[j].(nbOccurences := count)])
         == Occurrences(deck) - deck[j].nbOccurences + count
  {
    var updated := deck[j := deck[j].(nbOccurences := count)];
    if j > 0 {
      OccurrencesUpdate(deck[1..], j - 1, count);
      assert updated[1..] == deck[1..][j - 1 := deck[j].(nbOccurences := count)];
    } else {
      assert updated[1..] == deck[1..];
    }
  }
}
