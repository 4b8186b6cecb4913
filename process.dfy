/** `proccessCard`: filling the player placeholders of a drawn card.
    Slot n is written `PLAYER + n`; slots are filled in order 1, 2, … with
    names picked from a pool that starts as the whole roster. After each pick
    at position k the pool is cut down to the players before k
    (`splice(index)` with no count removes everything from k on). */
module Process {
  import opened Text
  import opened Cards
  import opened Oracle

  /** The placeholder of player slot `slot`. */
  function Token(player: string, slot: nat): (t: string)
    ensures |t| > 0
  {
    player + Decimal(slot)
  }

  /** Different slots have different placeholders. */
  lemma TokenInjective(player: string, m: nat, n: nat)
    ensures Token(player, m) == Token(player, n) <==> m == n
  {
    if Token(player, m) == Token(player, n) {
      assert Token(player, m)[|player|..] == Decimal(m);
      assert Token(player, n)[|player|..] == Decimal(n);
      DecimalInjective(m, n);
    }
  }

  /** Each pick lies strictly before the previous one. */
  predicate Descending(picks: seq<nat>)
  {
    forall a, b :: 0 <= a < b < |picks| ==> picks[a] > picks[b]
  }

  /** The pool once the picks have been made: the players before the last pick. */
  function Remaining(pool: seq<Player>, picks: seq<nat>): seq<Player>
    requires picks != [] ==> picks[|picks| - 1] <= |pool|
  {
    if picks == [] then pool else pool[..picks[|picks| - 1]]
  }

  /** The outcome of a substitution: the new text, the roster positions picked
      for slots `slot`, `slot + 1`, … and the next unused roll. */
  datatype Substitution = Substitution(text: string, picks: seq<nat>, at: nat)

  /** The loop of `proccessCard`, from slot `slot` with the pool `pool`. */
  function Substitute(text: string, pool: seq<Player>, slot: nat, player: string, rolls: Rolls, at: nat): (r: Substitution)
    ensures |r.picks| <= |pool|
    ensures forall k :: 0 <= k < |r.picks| ==> r.picks[k] < |pool|
    ensures r.at == at + |r.picks|
    ensures r.picks == [] ==> r.text == text
    decreases |pool|
  {
    if |pool| > 0 && Includes(text, Token(player, slot)) then
      var k := Pick(rolls, at, |pool|);
      var filled := ReplaceAll(text, Token(player, slot), pool[k].name);
      var rest := Substitute(filled, pool[..k], slot + 1, player, rolls, at + 1);
      Substitution(rest.text, [k] + rest.picks, rest.at)
    else
      Substitution(text, [], at)
  }

  /** Truncating the pool at the first pick and then at the later ones leaves
      the pool truncated at the last pick. */
  lemma RemainingCons(pool: seq<Player>, k: nat, picks: seq<nat>)
    requires k <= |pool|
    requires picks != [] ==> picks[|picks| - 1] <= k
    ensures Remaining(pool, [k] + picks) == Remaining(pool[..k], picks)
  {
    if picks != [] {
      assert ([k] + picks)[|picks|] == picks[|picks| - 1];
      assert pool[..k][..picks[|picks| - 1]] == pool[..picks[|picks| - 1]];
    }
  }

  /** The stopping condition carries over from the rest of the loop to the
      loop that made one more pick first. */
  lemma StopsCons(pool: seq<Player>, k: nat, picks: seq<nat>, text: string, player: string, slot: nat)
    requires k <= |pool|
    requires picks != [] ==> picks[|picks| - 1] <= k
    requires |Remaining(pool[..k], picks)| == 0 || !Includes(text, Token(player, slot + 1 + |picks|))
    ensures |Remaining(pool, [k] + picks)| == 0 || !Includes(text, Token(player, slot + |[k] + picks|))
  {
    RemainingCons(pool, k, picks);
    assert slot + |[k] + picks| == slot + 1 + |picks|;
  }

  /** The loop stops only when the pool is used up or the next slot is not
      mentioned in the text. */
  lemma {:induction false} SubstituteStops(text: string, pool: seq<Player>, slot: nat, player: string, rolls: Rolls, at: nat)
    ensures var r := Substitute(text, pool, slot, player, rolls, at);
      |Remaining(pool, r.picks)| == 0 || !Includes(r.text, Token(player, slot + |r.picks|))
    decreases |pool|
  {
    if |pool| > 0 && Includes(text, Token(player, slot)) {
      var k := Pick(rolls, at, |pool|);
      var filled := ReplaceAll(text, Token(player, slot), pool[k].name);
      var rest := Substitute(filled, pool[..k], slot + 1, player, rolls, at + 1);
      SubstituteStops(filled, pool[..k], slot + 1, player, rolls, at + 1);
      StopsCons(pool, k, rest.picks, rest.text, player, slot);
    }
  }

  /** Every pick lies before the previous one, so consecutive slots are
      filled from different roster entries. */
  lemma {:induction false} SubstituteDescending(text: string, pool: seq<Player>, slot: nat, player: string, rolls: Rolls, at: nat)
    ensures Descending(Substitute(text, pool, slot, player, rolls, at).picks)
    decreases |pool|
  {
    if |pool| > 0 && Includes(text, Token(player, slot)) {
      var k := Pick(rolls, at, |pool|);
      var filled := ReplaceAll(text, Token(player, slot), pool[k].name);
      var rest := Substitute(filled, pool[..k], slot + 1, player, rolls, at + 1);
      SubstituteDescending(filled, pool[..k], slot + 1, player, rolls, at + 1);
      var picks := [k] + rest.picks;
      forall a, b | 0 <= a < b < |picks| ensures picks[a] > picks[b] {
        assert picks[b] == rest.picks[b - 1];
        if a > 0 {
          assert picks[a] == rest.picks[a - 1];
        }
      }
    }
  }

  /** The text after slots `slot`, `slot + 1`, … have been filled with
      `names` in turn. */
  function FillSlots(text: string, player: string, slot: nat, names: seq<string>): string
    decreases |names|
  {
    if names == [] then text
    else FillSlots(ReplaceAll(text, Token(player, slot), names[0]), player, slot + 1, names[1..])
  }

  /** The names of the roster entries at the picked positions. */
  function NamesAt(pool: seq<Player>, picks: seq<nat>): (names: seq<string>)
    requires forall k :: 0 <= k < |picks| ==> picks[k] < |pool|
    ensures |names| == |picks|
  {
    seq(|picks|, k requires 0 <= k < |picks| => pool[picks[k]].name)
  }

  /** Substitution fills slot `slot + j` with the name of the roster entry
      picked j-th, and those entries are all different. */
  lemma {:induction false} SubstituteFills(text: string, pool: seq<Player>, slot: nat, player: string, rolls: Rolls, at: nat)
    ensures var r := Substitute(text, pool, slot, player, rolls, at);
      r.text == FillSlots(text, player, slot, NamesAt(pool, r.picks))
    decreases |pool|
  {
    if |pool| > 0 && Includes(text, Token(player, slot)) {
      var k := Pick(rolls, at, |pool|);
      var filled := ReplaceAll(text, Token(player, slot), pool[k].name);
      var rest := Substitute(filled, pool[..k], slot + 1, player, rolls, at + 1);
      SubstituteFills(filled, pool[..k], slot + 1, player, rolls, at + 1);
      var names := NamesAt(pool, [k] + rest.picks);
      assert names[0] == pool[k].name;
      assert names[1..] == NamesAt(pool[..k], rest.picks);
    }
  }

  /** Picking the first player for slot 1 empties the pool, so slot 2 stays
      unfilled even with two players on the roster. */
  lemma TruncatedPoolLeavesSlot()
    ensures var r := Substitute("P1P2", [Player("a"), Player("b")], 1, "P", (at: nat, n: nat) => 0, 0);
      r.text == "aP2" && Includes(r.text, Token("P", 2))
  {
    var rolls: Rolls := (at: nat, n: nat) => 0;
    var pool := [Player("a"), Player("b")];
    ExampleText();
    assert Pick(rolls, 0, 2) == 0;
    assert pool[..0] == [];
    assert Substitute("P1P2", pool, 1, "P", rolls, 0).text == Substitute("aP2", [], 2, "P", rolls, 1).text;
  }

  /** The string facts behind the example above. */
  lemma ExampleText()
    ensures Token("P", 1) == "P1" && Token("P", 2) == "P2"
    ensures Includes("P1P2", "P1")
    ensures ReplaceAll("P1P2", "P1", "a") == "aP2"
    ensures Includes("aP2", "P2")
  {
    assert Decimal(1) == "1" && Decimal(2) == "2";
    assert IndexOf("P1P2", "P1") == 0;
    assert IndexOf("P2", "P1") == -1 by {
      assert "P2"[..2][1] != "P1"[1] && "P2"[1..] == "2";
      assert IndexOf("2", "P1") == -1;
    }
    assert Split("P1P2", "P1") == ["", "P2"];
    assert IndexOf("aP2", "P2") == 1 by {
      assert "aP2"[..2][0] != "P2"[0] && "aP2"[1..] == "P2";
      assert IndexOf("P2", "P2") == 0;
    }
  }

  /** `proccessCard`: the card with its placeholders filled in; every other
      field is kept. Returns the next unused roll as well. */
  method ProcessCard(card: Card, players: seq<Player>, player: string, rolls: Rolls, at: nat)
    returns (newCard: Card, next: nat)
    ensures var s := Substitute(card.text, players, 1, player, rolls, at);
      newCard == card.(text := s.text) && next == s.at
  {
    newCard := card;
    var playersAvailable := players;
    var playerNumber: nat := 1;
    next := at;
    while |playersAvailable| > 0 && Includes(newCard.text, Token(player, playerNumber))
      invariant newCard == card.(text := newCard.text)
      invariant var goal := Substitute(card.text, players, 1, player, rolls, at);
        var s := Substitute(newCard.text, playersAvailable, playerNumber, player, rolls, next);
        s.text == goal.text && s.at == goal.at
      decreases |playersAvailable|
    {
      var index := Pick(rolls, next, |playersAvailable|);
      next := next + 1;
      newCard := newCard.(text := ReplaceAll(newCard.text, Token(player, playerNumber), playersAvailable[index].name));
      playersAvailable := playersAvailable[..index];
      playerNumber := playerNumber + 1;
    }
  }
}
