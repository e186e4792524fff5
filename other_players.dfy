/** The list of the other players beside one's own board. */
module OtherPlayers {
  import opened Seqs
  import opened Types
  import opened Decimal
  import opened GameRules
  import PlayerBoard

  function NotPlayer(currentPlayerId: string): PlayerState -> bool
  {
    (p: PlayerState) => p.playerId != currentPlayerId
  }

  /** `players.filter(p => p.playerId !== currentPlayerId)` */
  function Others(players: seq<PlayerState>, currentPlayerId: string): (r: seq<PlayerState>)
    ensures forall p :: p in r <==> p in players && p.playerId != currentPlayerId
    ensures |r| <= |players|
    ensures Subsequence(r, players)
  {
    FilterIsSubsequence(players, NotPlayer(currentPlayerId));
    Filter(players, NotPlayer(currentPlayerId))
  }

  /** The others of two lists joined are the others of the first followed by the others of the second. */
  lemma OthersConcat(a: seq<PlayerState>, b: seq<PlayerState>, currentPlayerId: string)
    ensures Others(a + b, currentPlayerId) == Others(a, currentPlayerId) + Others(b, currentPlayerId)
  {
    FilterConcat(a, b, NotPlayer(currentPlayerId));
  }

  /** Every row is either one of the others or one of the viewer's own rows, never both. */
  lemma OthersAndOwnRowsPartition(players: seq<PlayerState>, currentPlayerId: string)
    ensures |Others(players, currentPlayerId)| + |Filter(players, PlayerIdIs(currentPlayerId))| == |players|
  {
    FilterPartition(players, NotPlayer(currentPlayerId));
    FilterExt(players, Not(NotPlayer(currentPlayerId)), PlayerIdIs(currentPlayerId));
  }

  /** The viewer's own board never appears among the others. */
  lemma CurrentPlayerNotAmongOthers(players: seq<PlayerState>, currentPlayerId: string)
    requires CurrentPlayer(players, currentPlayerId).Some?
    ensures CurrentPlayer(players, currentPlayerId).value !in Others(players, currentPlayerId)
    ensures |Others(players, currentPlayerId)| < |players|
  {
    var c := CurrentPlayer(players, currentPlayerId).value;
    OthersAndOwnRowsPartition(players, currentPlayerId);
    assert c in Filter(players, PlayerIdIs(currentPlayerId));
  }

  /** The "Waiting for other players..." view. */
  predicate WaitingShown(players: seq<PlayerState>, currentPlayerId: string)
  {
    |Others(players, currentPlayerId)| == 0
  }

  /** The waiting view is shown exactly when every row is the viewer's own. */
  lemma WaitingIffAlone(players: seq<PlayerState>, currentPlayerId: string)
    ensures WaitingShown(players, currentPlayerId) <==> forall i :: 0 <= i < |players| ==> players[i].playerId == currentPlayerId
  {
    var r := Others(players, currentPlayerId);
    if !WaitingShown(players, currentPlayerId) {
      assert r[0] in r;
    } else {
      forall i | 0 <= i < |players| ensures players[i].playerId == currentPlayerId {
        assert players[i] !in r;
      }
    }
  }

  /** `Other Players (${otherPlayers.length})` */
  function SectionTitle(players: seq<PlayerState>, currentPlayerId: string): (t: string)
    ensures |t| > 0 && t[|t| - 1] == ')'
  {
    "Other Players (" + NatToString(|Others(players, currentPlayerId)|) + ")"
  }

  /** The number in the title reads back as the number of others. */
  lemma SectionTitleCountsOthers(players: seq<PlayerState>, currentPlayerId: string)
    ensures var t := SectionTitle(players, currentPlayerId); var n := |Others(players, currentPlayerId)|;
      |t| == 16 + |NatToString(n)| && t[..15] == "Other Players (" &&
      t[15..|t| - 1] == NatToString(n) && ParseDecimal(t[15..|t| - 1]) == n
  {
    var n := |Others(players, currentPlayerId)|;
    var t := SectionTitle(players, currentPlayerId);
    assert |"Other Players ("| == 15;
    assert t[15..|t| - 1] == NatToString(n);
    ParseNatToString(n);
  }

  /** What a mini card shows of a player. */
  datatype MiniCard = MiniCard(defeated: bool, inTokyo: bool, skull: bool, crown: bool)

  function Card(p: PlayerState): (c: MiniCard)
    ensures c.defeated <==> p.health <= 0
    ensures c.inTokyo <==> p.inTokyo
    ensures c.skull <==> p.health <= 0
    ensures c.crown <==> p.victoryPoints >= MaxVictoryPoints && p.health > 0
    ensures !(c.skull && c.crown)
  {
    MiniCard(p.health <= 0, p.inTokyo, p.health <= 0, p.victoryPoints >= 20 && p.health > 0)
  }

  /** A card shows the skull and the crown exactly when that player's own board shows its DEFEATED and VICTORY overlays. */
  lemma CardAgreesWithBoard(p: PlayerState)
    ensures Card(p).skull == PlayerBoard.BoardOverlays(p).defeated
    ensures Card(p).crown == PlayerBoard.BoardOverlays(p).victory
  {
  }
}
