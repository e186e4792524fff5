/**
 * The player board's rules: whether the attack button has a target, what the
 * Tokyo button does, the damage selector, which stat buttons are disabled, the
 * energy display and the two end-of-game overlays.
 */
module PlayerBoard {
  import opened Wrappers
  import opened Seqs
  import opened Types
  import opened Reconciler
  import opened RowStore
  import opened GameRules
  import App

  /** The board's own test for someone outside Tokyo to hit. */
  function HittableOutside(me: string): PlayerState -> bool
  {
    (p: PlayerState) => !p.inTokyo && p.playerId != me && p.health > 0
  }

  /** The board's own test for someone in Tokyo to hit. */
  function HittableInTokyo(me: string): PlayerState -> bool
  {
    (p: PlayerState) => p.inTokyo && p.playerId != me && p.health > 0
  }

  /** `canAttack`: the attack button is enabled. */
  predicate CanAttack(player: PlayerState, allPlayers: seq<PlayerState>)
    ensures CanAttack(player, allPlayers) <==>
      exists i :: 0 <= i < |allPlayers| && allPlayers[i].inTokyo != player.inTokyo &&
        allPlayers[i].playerId != player.playerId && allPlayers[i].health > 0
  {
    if player.inTokyo then Any(allPlayers, HittableOutside(player.playerId))
    else Any(allPlayers, HittableInTokyo(player.playerId))
  }

  /**
   * The button is enabled exactly when `attack`, called by that player with a
   * room and positive damage, finds someone to hit.
   */
  lemma CanAttackIffTargets(players: seq<PlayerState>, me: string, roomCode: Option<string>, damage: int)
    requires CurrentPlayer(players, me).Some? && HasRoom(roomCode) && damage > 0
    ensures CanAttack(CurrentPlayer(players, me).value, players) <==> AttackWrites(players, me, roomCode, damage) != []
  {
    var c := CurrentPlayer(players, me).value;
    if c.inTokyo {
      AnyIffFound(players, HittableOutside(me));
      FilterExt(players, HittableOutside(me), OutsideTargetOf(me));
    } else {
      AnyIffFound(players, HittableInTokyo(me));
      AnyIffFound(players, TokyoTargetOf(me));
      assert Any(players, HittableInTokyo(me)) <==> Any(players, TokyoTargetOf(me)) by {
        assert forall i :: 0 <= i < |players| ==> HittableInTokyo(me)(players[i]) == TokyoTargetOf(me)(players[i]);
      }
    }
  }

  /** What the Tokyo button asks the hook for. */
  datatype TokyoAction = Leave | Enter

  function TokyoClick(player: PlayerState): (a: TokyoAction)
    ensures a == Leave <==> player.inTokyo
  {
    if player.inTokyo then Leave else Enter
  }

  /** The writes the chosen action emits. */
  function TokyoClickWrites(players: seq<PlayerState>, me: string): seq<Write>
    requires CurrentPlayer(players, me).Some?
  {
    match TokyoClick(CurrentPlayer(players, me).value)
    case Leave => LeaveTokyoWrites(players, me)
    case Enter => EnterTokyoWrites(players, me)
  }

  /** Echoed, a click flips the current player's own Tokyo flag. */
  lemma TokyoClickToggles(players: seq<PlayerState>, me: string)
    requires DistinctIds(players)
    requires CurrentPlayer(players, me).Some?
    ensures var c := CurrentPlayer(players, me).value; var r := ApplyWrites(players, TokyoClickWrites(players, me));
      forall i :: 0 <= i < |players| && players[i] == c ==> r[i].inTokyo == !c.inTokyo
  {
    var c := CurrentPlayer(players, me).value;
    if c.inTokyo {
      LeaveTokyoClearsOnlyActor(players, me);
    } else {
      EnterTokyoSettles(players, me);
    }
  }

  // ---------------------------------------------------------------------------
  // The damage selector

  const InitialDamage: int := 1
  const MinDamage: int := 1
  const MaxDamage: int := 10

  /** `d => Math.max(1, d - 1)` */
  function DamageDown(d: int): (r: int)
    ensures d > MinDamage ==> r == d - 1
    ensures d <= MinDamage ==> r == MinDamage
    ensures d <= MaxDamage ==> MinDamage <= r <= MaxDamage
  {
    Max(MinDamage, d - 1)
  }

  /** `d => Math.min(10, d + 1)` */
  function DamageUp(d: int): (r: int)
    ensures d < MaxDamage ==> r == d + 1
    ensures d >= MaxDamage ==> r == MaxDamage
    ensures d >= MinDamage ==> MinDamage <= r <= MaxDamage
  {
    Min(MaxDamage, d + 1)
  }

  /** The − and + presses of the selector, in order. */
  datatype DamagePress = Down | Up

  function DamageAfter(d: int, presses: seq<DamagePress>): int
    decreases |presses|
  {
    if presses == [] then d
    else DamageAfter(if presses[0] == Down then DamageDown(d) else DamageUp(d), presses[1..])
  }

  /** From any value in [1, 10], every sequence of presses stays in [1, 10]; the selector starts at 1. */
  lemma {:induction false} DamageStaysInRange(d: int, presses: seq<DamagePress>)
    requires MinDamage <= d <= MaxDamage
    ensures MinDamage <= DamageAfter(d, presses) <= MaxDamage
    decreases |presses|
  {
    if presses != [] {
      DamageStaysInRange(if presses[0] == Down then DamageDown(d) else DamageUp(d), presses[1..]);
    }
  }

  /** − is disabled at 1 and + at 10: exactly when the press would not change the damage. */
  lemma DamageButtonsDisabledIffNoEffect(d: int)
    requires MinDamage <= d <= MaxDamage
    ensures d <= MinDamage <==> DamageDown(d) == d
    ensures d >= MaxDamage <==> DamageUp(d) == d
  {
  }

  // ---------------------------------------------------------------------------
  // Stat buttons, energy display, overlays

  /** Which stat buttons are disabled (energy + never is). */
  datatype StatButtons = StatButtons(
    healthDown: bool, healthUp: bool, victoryDown: bool, victoryUp: bool, energyDown: bool, energyUp: bool)

  function DisabledButtons(p: PlayerState): (b: StatButtons)
    ensures b.healthDown <==> p.health <= 0
    ensures b.healthUp <==> p.health >= p.maxHealth
    ensures b.victoryDown <==> p.victoryPoints <= 0
    ensures b.victoryUp <==> p.victoryPoints >= MaxVictoryPoints
    ensures b.energyDown <==> p.energy <= 0
    ensures !b.energyUp
  {
    StatButtons(p.health <= 0, p.health >= p.maxHealth,
                p.victoryPoints <= 0, p.victoryPoints >= MaxVictoryPoints,
                p.energy <= 0, false)
  }

  /** For stats in range, a button is disabled exactly when its handler would write back the same value. */
  lemma DisabledIffNoEffect(p: PlayerState)
    requires StatsInRange(p)
    ensures var b := DisabledButtons(p);
      (b.healthDown <==> App.ClampHealth(p.health, p.maxHealth, -1) == p.health) &&
      (b.healthUp <==> App.ClampHealth(p.health, p.maxHealth, 1) == p.health) &&
      (b.victoryDown <==> App.ClampVictoryPoints(p.victoryPoints, -1) == p.victoryPoints) &&
      (b.victoryUp <==> App.ClampVictoryPoints(p.victoryPoints, 1) == p.victoryPoints) &&
      (b.energyDown <==> App.ClampEnergy(p.energy, -1) == p.energy) &&
      (b.energyUp <==> App.ClampEnergy(p.energy, 1) == p.energy)
  {
  }

  /** At most this many energy cubes are drawn. */
  const EnergyCubeCap: int := 20

  /** `Array.from({ length: Math.min(energy, 20) })`; a negative length draws nothing. */
  function EnergyCubes(energy: int): (n: nat)
    ensures n <= EnergyCubeCap
    ensures 0 <= energy <= EnergyCubeCap ==> n == energy
    ensures energy > EnergyCubeCap ==> n == EnergyCubeCap
    ensures energy < 0 ==> n == 0
  {
    Max(0, Min(energy, EnergyCubeCap))
  }

  /** The `+n` badge beyond the last cube. */
  function EnergyOverflow(energy: int): (o: Option<int>)
    ensures o.Some? <==> energy > EnergyCubeCap
    ensures o.Some? ==> o.value > 0 && o.value == energy - EnergyCubeCap
  {
    if energy > EnergyCubeCap then Some(energy - EnergyCubeCap) else None
  }

  /** Cubes and badge together show all of a non-negative energy. */
  lemma EnergyDisplayShowsAll(energy: int)
    requires energy >= 0
    ensures EnergyCubes(energy) + GetOr(EnergyOverflow(energy), 0) == energy
  {
  }

  /** The DEFEATED and VICTORY overlays. */
  datatype Overlays = Overlays(defeated: bool, victory: bool)

  function BoardOverlays(p: PlayerState): (o: Overlays)
    ensures o.defeated <==> p.health <= 0
    ensures o.victory <==> p.victoryPoints >= MaxVictoryPoints && p.health > 0
    ensures !(o.defeated && o.victory)
  {
    Overlays(IsDefeated(p), HasWon(p))
  }

  /**
   * On the board, the enabled attack button always starts an attack that hits:
   * the selector's damage is positive, the board is only shown with a room,
   * and the button's test is the attack's.
   */
  lemma EnabledAttackButtonHits(roomCode: Option<string>, players: seq<PlayerState>, me: string, presses: seq<DamagePress>)
    requires App.SelectScreen(roomCode, players, me).PlayerBoardScreen?
    requires CanAttack(App.SelectScreen(roomCode, players, me).player, players)
    ensures var d := DamageAfter(InitialDamage, presses);
      AttackWrites(players, me, roomCode, d) != [] && AttackNoticeOf(players, me, roomCode, d).Some?
  {
    var d := DamageAfter(InitialDamage, presses);
    DamageStaysInRange(InitialDamage, presses);
    CanAttackIffTargets(players, me, roomCode, d);
    AttackNoticeIffHit(players, me, roomCode, d);
  }
}
