# drinkingGame: the `game` reducer, modelled in Dafny

This project models the `game` reducer of the drinkingGame React Native
application (`redux/reducers/game.js`). The reducer holds one game session:
the selected game mode, the cards dealt so far, the deck the remaining cards
come from, the roster of players and the index of the card on screen. The
model covers its seven actions and its default case. It also covers the
helpers that build the deck (`createDeck`, `isCardInGameMode`), start a game
(`initializeGameMode`), draw a card (`generateNextCard`), fill player
placeholders into a card's text (`proccessCard`) and redraw the last card
after a renaming (`regenerateLastCard`). The selectors `isGameFinished`,
`isEndCardSelected` and `hasPlayer` are modelled as well.

Modules, in dependency order:

- `Text` (text.dfy): the JavaScript string operations the reducer uses.
  These are `indexOf`/`includes`, `split(p).join(r)` used as replace-all,
  and the decimal rendering in `PLAYER + playerNumber`.
- `Arrays` (arrays.dfy): `splice(start, 1)` with JavaScript's start
  normalisation, and the index assignment `a[i] = v`.
- `Oracle` (oracle.dfy): the random source. Each `Math.floor(Math.random() * n)`
  becomes `Pick(rolls, at, n)`. It reads the roll at position `at` of an
  oracle `rolls`, which always returns an index below `n`. The caller then
  moves on to position `at + 1`.
- `Cards` (cards.dfy): cards, players, the card resources, the mode filter,
  the draw filter, `findIndex` by title and the bookkeeping predicates.
- `Process` (process.dfy): `proccessCard`. The function `Substitute` gives
  its meaning. The method `ProcessCard` runs the same loop step by step and
  is proved equal to it.
- `Dealing` (draw.dfy): `generateNextCard`, `regenerateLastCard` and
  `initializeGameMode`. Each is a method with the source's loop or steps,
  proved equal to a function (`Draw`, `Regenerate`, `Initialize`). Lemmas
  then prove what those functions guarantee.
- `Reducer` (game.dfy): the session, the actions, the reducer `Game`, the
  selectors, an invariant `Valid` that every action keeps, and one lemma
  per action.

The card resources are a parameter of type `Resources`: the catalog, the
introduction cards, the end card, the placeholder prefix `PLAYER` and the
wildcard mode `ANY`. Each reducer call receives its own random oracle.

What the code does, and where the model follows it:

- `regenerateLastCard` increments a count in a copy of the deck array. The
  copy shares its entry objects with the deck that is then passed to
  `generateNextCard`. The increment is therefore visible to the redraw, and
  `Regenerate` draws from the deck with that copy given back.
- In `proccessCard`, `playersAvailable.splice(index)` has no delete count.
  It removes the picked player and every player after it. The pool therefore
  shrinks to the players before the pick. With two players, slot 2 can stay
  unfilled (`TruncatedPoolLeavesSlot`).
- Advancing only checks the card moved to, not the last card dealt. Moving
  back and forward again can deal the end card a second time
  (`EndCardDealtAgain`).
- Card eligibility compares a card's `nbPlayers` with the length of the
  roster. Unnamed players count too.
- The reducer throws in five cases. Advancing past the last card dealt reads
  a missing card. Advancing when a refill is due and there is no deck, or
  renaming with a mode set and no deck, reads an undefined deck. Renaming
  with a mode set and no card dealt reads the title of a missing last card
  or increments a missing entry. Renaming when the last card's title is not
  in the deck increments a missing entry. These cases are excluded by the
  predicate `Admissible`, which the reducer's `requires` names.

## Model

| member | source | states |
|---|---|---|
| `Text.IndexOf` | redux/reducers/game.js:223 | `indexOf` returns -1 or a position from which the whole pattern fits in the string |
| `Text.IndexOfOccurs` | redux/reducers/game.js:223 | a non-negative `indexOf` result is a real occurrence of the pattern |
| `Text.Includes` | redux/reducers/game.js:223 | `includes` holds when `indexOf` finds the pattern; `IncludesOccurs` states that this means an occurrence exists |
| `Text.IndexOfFirst` | redux/reducers/game.js:223 | no occurrence lies before the one `indexOf` reports, and none at all when it reports -1 |
| `Text.IncludesOccurs` | redux/reducers/game.js:223 | `includes` holds exactly when the pattern occurs somewhere in the text |
| `Text.Split` | redux/reducers/game.js:227-229 | `split` always yields at least one piece |
| `Text.SplitSingle` | redux/reducers/game.js:227-229 | a split yields a single piece exactly when the separator does not occur |
| `Text.SplitPiecesFree` | redux/reducers/game.js:227-229 | no piece of a split contains the separator |
| `Text.Join` | redux/reducers/game.js:229 | `join`: the pieces in order with the separator between each two; `JoinSplit` proves it undoes `split` |
| `Text.JoinSplit` | redux/reducers/game.js:227-229 | joining the pieces with the same separator gives the original text back |
| `Text.ReplaceAll` | redux/reducers/game.js:227-229 | `split(p).join(r)`: the text cut at every occurrence of the placeholder and rejoined with the replacement; `ReplaceAllSelf`, `ReplaceAllAbsent` and `ReplaceAllInserts` state its properties |
| `Text.ReplaceAllSelf` | redux/reducers/game.js:227-229 | replacing a placeholder by itself leaves the text unchanged |
| `Text.ReplaceAllAbsent` | redux/reducers/game.js:227-229 | replacing a placeholder the text does not mention leaves it unchanged |
| `Text.ReplaceAllInserts` | redux/reducers/game.js:227-229 | the replacement stands where the placeholder first occurred |
| `Text.Decimal` | redux/reducers/game.js:223 | the rendering of the slot number is never empty |
| `Text.DecimalDigits` | redux/reducers/game.js:223 | the rendering of the slot number consists of decimal digits only |
| `Text.DecimalValue` | redux/reducers/game.js:223 | reading the digits of the rendering back gives the slot number |
| `Text.DecimalInjective` | redux/reducers/game.js:223 | two slot numbers have the same rendering exactly when they are equal |
| `Arrays.SpliceStart` | redux/reducers/game.js:80 | the normalised splice start lies within the array |
| `Arrays.RemoveAt` | redux/reducers/game.js:79-81 | an index inside the roster removes that player and shifts the rest; an index at or past the end is a no-op; a negative one counts from the end, and one below minus the length removes the first player, or nothing from an empty roster |
| `Arrays.Assign` | redux/reducers/game.js:83-84 | an index inside the roster replaces that entry only; the index equal to the length appends; a negative index leaves the elements as they were |
| `Oracle.Pick` | redux/reducers/game.js:156 | a roll always selects an index below the number of candidates |
| `Cards.IsCardInGameMode` | redux/reducers/game.js:209-213 | a card is in a mode when its list of modes holds that mode or the wildcard |
| `Cards.FilterInMode` | redux/reducers/game.js:199-213 | a card survives the filter exactly when it is in the input and tagged with the mode or the wildcard |
| `Cards.FilterInModeCount` | redux/reducers/game.js:199-201 | each card of the mode keeps its number of copies; every other card has none |
| `Cards.FilterInModeAppend` | redux/reducers/game.js:199-201 | filtering distributes over concatenation, so the deck keeps catalog order |
| `Cards.CreateDeck` | redux/reducers/game.js:199-201 | the deck holds exactly the catalog cards of the mode or of the wildcard |
| `Cards.FilterInModeUnique` | redux/reducers/game.js:199-201 | a catalog with unique titles gives a deck with unique titles |
| `Cards.FilterInModeCounts` | redux/reducers/game.js:199-201 | a catalog without negative counts gives a deck without negative counts |
| `Cards.Eligible` | redux/reducers/game.js:152 | the filter callback: the card fits the roster size and has copies left |
| `Cards.PossibleCards` | redux/reducers/game.js:151-153 | an entry may be drawn exactly when it is in the deck, fits the roster size and has copies left |
| `Cards.FindTitle` | redux/reducers/game.js:158 | `findIndex` by title returns the first entry with that title, or -1 exactly when no entry has it |
| `Cards.FindTitleUnique` | redux/reducers/game.js:136-138 | with unique titles, looking up an entry's title finds that very entry |
| `Cards.OccurrencesUpdate` | redux/reducers/game.js:161-164 | changing one entry's count changes the deck's total by the difference |
| `Process.Token` | redux/reducers/game.js:223 | a player placeholder is never empty |
| `Process.TokenInjective` | redux/reducers/game.js:223 | two slots have the same placeholder exactly when they are the same slot |
| `Process.Substitute` | redux/reducers/game.js:225-232 | the loop makes at most one pick per roster entry, each pick is inside the pool, one roll is used per pick, and with no pick the text is unchanged |
| `Process.SubstituteStops` | redux/reducers/game.js:225 | the loop ends only when the pool is empty or the text does not mention the next slot |
| `Process.SubstituteDescending` | redux/reducers/game.js:220-230 | every pick lies before the previous one, so no roster entry fills two slots of one card |
| `Process.SubstituteFills` | redux/reducers/game.js:227-229 | the result is the text with slot 1, 2, … replaced in turn by the names of the picked entries |
| `Process.TruncatedPoolLeavesSlot` | redux/reducers/game.js:230 | with two players, picking the first one for slot 1 empties the pool, so slot 2 stays in the text |
| `Process.ProcessCard` | redux/reducers/game.js:215-234 | the loop returns the card with the substituted text and every other field unchanged |
| `Dealing.Draw` | redux/reducers/game.js:149-169 | only counts change in the deck; with nothing drawable the end card comes out and the deck and rolls are untouched |
| `Dealing.DrawTakesOne` | redux/reducers/game.js:151-164 | with unique titles, a draw takes one copy of one entry the roster may draw, changes no other entry, and deals that entry with its text filled in by `Substitute` from the next roll on |
| `Dealing.DrawCounts` | redux/reducers/game.js:160-167 | with unique titles, no count goes below 0, and the total drops by exactly one unless the deck is exhausted |
| `Dealing.GenerateNextCard` | redux/reducers/game.js:149-169 | the step-by-step draw computes `Draw` |
| `Dealing.GiveBack` | redux/reducers/game.js:139 | giving a copy back is the inverse of taking one from the same entry |
| `Dealing.GiveBackCounts` | redux/reducers/game.js:139 | giving a copy back keeps titles unique and counts non-negative, raises the total by one, and makes a fitting entry drawable |
| `Dealing.Regenerate` | redux/reducers/game.js:132-142 | regeneration changes only counts in the deck |
| `Dealing.RegenerateKeepsDeck` | redux/reducers/game.js:132-142 | with unique titles and no negative count, the deck after regeneration has both |
| `Dealing.RegenerateBalances` | redux/reducers/game.js:132-142 | when the last card's entry fits the roster, regeneration deals an eligible entry of the deck with that copy given back, its text filled in by `Substitute`, takes one copy of it, and leaves the total number of copies unchanged |
| `Dealing.RegenerateLastCard` | redux/reducers/game.js:132-142 | the step-by-step regeneration computes `Regenerate` |
| `Dealing.FillIntro` | redux/reducers/game.js:185-189 | the loop yields exactly two cards when it started with fewer; with two or more it draws nothing and leaves the cards, the deck and the rolls untouched; the cards it started with come first; the deck changes only in its counts |
| `Dealing.FillIntroCounts` | redux/reducers/game.js:185-189 | unique titles and non-negative counts survive every draw of the loop |
| `Dealing.Initialize` | redux/reducers/game.js:180-191 | the mode's introduction cards, topped up to two cards by draws from the mode's deck; `InitializeOpens` states what it yields |
| `Dealing.InitializeOpens` | redux/reducers/game.js:180-191 | a game opens with at least two cards, the mode's introduction cards first and in order, and the mode's deck changed only in its counts |
| `Dealing.InitializeGameMode` | redux/reducers/game.js:180-191 | the loop terminates and computes `Initialize` |
| `Reducer.Admissible` | redux/reducers/game.js:46-55 | the actions that complete without throwing: advancing onto a dealt card with a deck whenever a refill is due; renaming at most one past the roster's end (game.js:84) and, with a mode set, with a deck, a card dealt and the last card's title in the deck, which `regenerateLastCard` reads (game.js:85-91, 135-139) |
| `Reducer.Game` | redux/reducers/game.js:24-109 | no action moves the current index forward by more than one |
| `Reducer.AnyNamed` | redux/reducers/game.js:121-122 | `some` holds exactly when some player has a non-empty name |
| `Reducer.HasPlayer` | redux/reducers/game.js:121-122 | `hasPlayer` holds exactly when some player of the roster has a non-empty name |
| `Reducer.InitialSession` | redux/reducers/game.js:17-21 | the initial session satisfies the invariant and has no named player |
| `Reducer.ModeChosen` | redux/reducers/game.js:85 | a mode counts as chosen when it is present and not the empty string |
| `Reducer.NeedsRefill` | redux/reducers/game.js:50-52 | a refill is due when the card moved to is one of the last two dealt and is not the end card |
| `Reducer.IsGameFinished` | redux/reducers/game.js:115-116 | the game is finished when the last card dealt has the end card's title |
| `Reducer.IsEndCardSelected` | redux/reducers/game.js:117-118 | the end card is selected when the current card has the end card's title |
| `Reducer.SelectGameModeStarts` | redux/reducers/game.js:27-42 | selecting a mode sets it and gives at least two cards with the mode's introduction cards first, index 0, the same roster, and the mode's deck changed only in its counts |
| `Reducer.AdvanceMoves` | redux/reducers/game.js:46-65 | advancing raises the index by one and appends one card exactly when a refill is due; earlier cards, roster and mode are kept, and without a refill so is the deck |
| `Reducer.AdvanceDraws` | redux/reducers/game.js:50-61 | a refill from a deck with something drawable deals an eligible entry with its text filled in by `Substitute` for the roster and takes one of its copies |
| `Reducer.AdvanceExhausted` | redux/reducers/game.js:50-61 | a refill from an exhausted deck appends the end card, keeps the deck and finishes the game |
| `Reducer.AdvanceOntoEndCard` | redux/reducers/game.js:46-65 | moving onto the end card changes only the index, and the end card is then selected |
| `Reducer.RetreatMoves` | redux/reducers/game.js:67-74 | moving back lowers a positive index by one and changes nothing else; at 0 it is a no-op, so repeating it is too |
| `Reducer.AdvanceThenRetreat` | redux/reducers/game.js:46-74 | moving forward then back returns to the same index and keeps any card dealt on the way |
| `Reducer.AddCardAppends` | redux/reducers/game.js:44-45 | `ADD_CARD` appends the card and changes nothing else |
| `Reducer.AddPlayerAppends` | redux/reducers/game.js:76-81 | `ADD_PLAYER` appends an unnamed player and nothing else; `hasPlayer` is unchanged; deleting the last player restores the session |
| `Reducer.DeletePlayerRemoves` | redux/reducers/game.js:78-81 | `DELETE_PLAYER` changes only the roster: it removes the indexed player keeping the order of the others, and is a no-op past the end |
| `Reducer.RenameSetsName` | redux/reducers/game.js:82-105 | renaming sets the player at the index; without a mode it changes only the roster; with one the last card and the deck become those regeneration yields for the new roster, and the earlier cards, the index and the mode are kept |
| `Reducer.RenameNamesPlayer` | redux/reducers/game.js:82-84 | after naming a player with a non-empty name, `hasPlayer` holds |
| `Reducer.RenameRedraws` | redux/reducers/game.js:85-98 | with a mode set and the last card's entry fitting the new roster, a renaming deals in place of the last card an eligible deck entry (with the last card's copy given back) whose text is filled in for the new roster, takes one copy of it, and keeps the deck's total |
| `Reducer.SelectKeepsValid` | redux/reducers/game.js:27-42 | selecting a mode yields a valid session when the catalog has unique titles and no negative count |
| `Reducer.AdvanceKeepsValid` | redux/reducers/game.js:46-65 | advancing keeps the session valid |
| `Reducer.RenameKeepsDeck` | redux/reducers/game.js:85-98 | with a mode set, the deck after a renaming keeps unique titles and no negative count |
| `Reducer.RenameKeepsValid` | redux/reducers/game.js:82-105 | renaming keeps the session valid |
| `Reducer.GamePreservesValid` | redux/reducers/game.js:24-109 | every action the reducer completes keeps the invariant: the index is inside the cards, a mode comes with a deck and at least two cards, and the deck's titles are unique with no negative count |
| `Reducer.EndCardDealtAgain` | redux/reducers/game.js:50-53 | from a valid session whose deck is empty, advancing deals the end card; moving back and forward again deals it a second time |

## Left out

- Randomness: `Math.random` is replaced by an arbitrary oracle. The model does not capture that the selection is uniform.
- Aliasing: `regenerateLastCard` increments a deck entry in place. That entry is shared with the previous session's deck. If the entry was never replaced by a draw, it is also shared with the catalog, so a later game would see the increment. The model uses values, so none of this sharing is represented.
- Throwing actions: the reducer throws in five cases (advancing past the last card, advancing when a refill is due and there is no deck, renaming with a mode set when there is no deck, when no card has been dealt, or when the last card's title is not in the deck). These are excluded by `Admissible`; the exceptions themselves are not modelled.
- `Arrays.Assign` and `Reducer.Game`: an index beyond the roster's length is excluded, by `requires index <= |a|` and by `Admissible`. Assigning there leaves holes in the JavaScript array, and `proccessCard` would later read a name from a hole.
- `Reducer.IsGameFinished`: with no card dealt, as in `initialState`, `isGameFinished` reads the title of a missing card and throws. The model requires at least one card and does not model the exception.
- `Reducer.IsEndCardSelected`: with the current index outside the cards dealt, which in a valid session happens only before any card is dealt, `isEndCardSelected` reads the title of a missing card and throws. The model requires the index to be inside the cards and does not model the exception.
- Action payloads are integers and strings. Non-numeric indices, missing payloads and a non-string `gamemode` are not modelled. A mode counts as set when it is present and not the empty string.
- `game(undefined, action)` starts from `initialState`. The model passes `InitialSession()` explicitly.
- The getters `getGamemode`, `getCards`, `getCurrentCardIndex` and `getPlayers` only read a field. They are the fields of `Session`.
- The card resources (`ressources/cards`, `ressources/gameModes`) and the action creators are not part of this model. The catalog, introduction cards, end card, `PLAYER` and `ANY` are parameters.
- Placeholder prefixes: `PLAYER1` is also a prefix of `PLAYER10`. The model replaces text exactly as `split`/`join` does and makes no claim about such collisions.
- Duplicate titles: the draw and count lemmas require unique titles. With duplicates, `findIndex` may lower the count of an entry other than the one drawn, and that count can fall below 0.
