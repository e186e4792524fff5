/**
 * The application shell: the three stat handlers, each a clamp passed to
 * `updateMyStats`, and the choice of screen.
 */
module App {
  import opened Wrappers
  import opened Types
  import opened RowStore
  import opened GameRules

  /** `Math.max(0, Math.min(maxHealth, health + delta))`: the nearest value of [0, maxHealth]. */
  function ClampHealth(health: int, maxHealth: int, delta: int): (r: int)
    ensures r >= 0
    ensures maxHealth >= 0 ==> r <= maxHealth
    ensures 0 <= health + delta <= maxHealth ==> r == health + delta
    ensures health + delta < 0 ==> r == 0
    ensures 0 <= maxHealth < health + delta ==> r == maxHealth
  {
    Max(0, Min(maxHealth, health + delta))
  }

  /** `Math.max(0, Math.min(20, vp + delta))`: the nearest value of [0, 20]. */
  function ClampVictoryPoints(vp: int, delta: int): (r: int)
    ensures 0 <= r <= MaxVictoryPoints
    ensures 0 <= vp + delta <= MaxVictoryPoints ==> r == vp + delta
    ensures vp + delta < 0 ==> r == 0
    ensures vp + delta > MaxVictoryPoints ==> r == MaxVictoryPoints
  {
    Max(0, Min(MaxVictoryPoints, vp + delta))
  }

  /** `Math.max(0, energy + delta)`: never negative, no upper bound. */
  function ClampEnergy(energy: int, delta: int): (r: int)
    ensures r >= 0
    ensures energy + delta >= 0 ==> r == energy + delta
    ensures energy + delta < 0 ==> r == 0
  {
    Max(0, energy + delta)
  }

  /** A single health write to the current player's row, clamped into range; nothing without a current player. */
  function HandleHealthChange(current: Option<PlayerState>, delta: int): (ws: seq<Write>)
    ensures current.None? ==> ws == []
    ensures current.Some? ==> (|ws| == 1 && ws[0].id == current.value.id &&
      ws[0].fields == NoFields.(health := ws[0].fields.health) && ws[0].fields.health.Some? &&
      0 <= ws[0].fields.health.value && (current.value.maxHealth >= 0 ==> ws[0].fields.health.value <= current.value.maxHealth))
    ensures current.Some? ==> ws[0].fields.health == Some(ClampHealth(current.value.health, current.value.maxHealth, delta))
  {
    match current
    case None => []
    case Some(c) => UpdateMyStats(current, StatsUpdate(Some(ClampHealth(c.health, c.maxHealth, delta)), None, None, None))
  }

  /** A single victory-point write to the current player's row, within [0, 20]; nothing without a current player. */
  function HandleVictoryPointsChange(current: Option<PlayerState>, delta: int): (ws: seq<Write>)
    ensures current.None? ==> ws == []
    ensures current.Some? ==> (|ws| == 1 && ws[0].id == current.value.id &&
      ws[0].fields == NoFields.(victoryPoints := ws[0].fields.victoryPoints) && ws[0].fields.victoryPoints.Some? &&
      0 <= ws[0].fields.victoryPoints.value <= MaxVictoryPoints)
    ensures current.Some? ==> ws[0].fields.victoryPoints == Some(ClampVictoryPoints(current.value.victoryPoints, delta))
  {
    match current
    case None => []
    case Some(c) => UpdateMyStats(current, StatsUpdate(None, Some(ClampVictoryPoints(c.victoryPoints, delta)), None, None))
  }

  /** A single energy write to the current player's row, never negative; nothing without a current player. */
  function HandleEnergyChange(current: Option<PlayerState>, delta: int): (ws: seq<Write>)
    ensures current.None? ==> ws == []
    ensures current.Some? ==> (|ws| == 1 && ws[0].id == current.value.id &&
      ws[0].fields == NoFields.(energy := ws[0].fields.energy) && ws[0].fields.energy.Some? &&
      ws[0].fields.energy.value >= 0)
    ensures current.Some? ==> ws[0].fields.energy == Some(ClampEnergy(current.value.energy, delta))
  {
    match current
    case None => []
    case Some(c) => UpdateMyStats(current, StatsUpdate(None, None, Some(ClampEnergy(c.energy, delta)), None))
  }

  /** The three screens and what each is given. */
  datatype Screen =
    | RoomJoinScreen
    | MonsterSelectScreen(takenMonsterIds: seq<string>, roomCode: string)
    | PlayerBoardScreen(player: PlayerState, allPlayers: seq<PlayerState>, roomCode: string)

  /** No room: join screen. A room but no current player: monster select. Otherwise: the player board. */
  function SelectScreen(roomCode: Option<string>, players: seq<PlayerState>, me: string): (s: Screen)
    ensures s.RoomJoinScreen? <==> !HasRoom(roomCode)
    ensures s.MonsterSelectScreen? <==> HasRoom(roomCode) && CurrentPlayer(players, me).None?
    ensures s.MonsterSelectScreen? ==>
      |s.takenMonsterIds| == |players| && forall i :: 0 <= i < |players| ==> s.takenMonsterIds[i] == players[i].monster.id
    ensures s.PlayerBoardScreen? ==>
      HasRoom(roomCode) && Some(s.player) == CurrentPlayer(players, me) && s.allPlayers == players &&
      s.player.playerId == me && s.player in players
  {
    if !HasRoom(roomCode) then RoomJoinScreen
    else match CurrentPlayer(players, me)
      case None => MonsterSelectScreen(TakenIds(players), roomCode.value)
      case Some(c) => PlayerBoardScreen(c, players, roomCode.value)
  }
}
