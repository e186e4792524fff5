/** The entities of the game: a monster of the catalogue, a player's game state and a row of the `players` table. */
module Types {
  import opened Wrappers

  /** A monster of the fixed catalogue. */
  datatype Monster = Monster(id: string, name: string, emoji: string, color: string)

  /** One participant's game state, as the client keeps it in its replica. */
  datatype PlayerState = PlayerState(
    id: string,            // row id assigned by the store
    playerId: string,      // the device's durable identity token
    monster: Monster,
    health: int,
    maxHealth: int,
    victoryPoints: int,
    energy: int,
    inTokyo: bool)

  /** A full row of the `players` table, as a change event carries it. */
  datatype PlayerRow = PlayerRow(
    id: string,
    roomCode: string,
    playerId: string,
    monsterId: string,
    monsterName: string,
    monsterEmoji: string,
    monsterColor: string,
    health: int,
    maxHealth: int,
    victoryPoints: int,
    energy: int,
    inTokyo: bool,
    isActive: bool,
    createdAt: string,
    updatedAt: string)

  /** The transient notice a successful attack shows (its timestamp is not modelled). */
  datatype AttackNotice = AttackNotice(attacker: string, targets: seq<string>, damage: int)

  /** Victory points are capped here, and reaching them wins. */
  const MaxVictoryPoints: int := 20

  function Min(a: int, b: int): int { if a <= b then a else b }
  function Max(a: int, b: int): int { if a >= b then a else b }

  /** JavaScript truthiness of `roomCode: string | null`: neither null nor the empty string. */
  predicate HasRoom(roomCode: Option<string>)
  {
    roomCode.Some? && roomCode.value != ""
  }

  /** The defeat observation: no health left. */
  predicate IsDefeated(p: PlayerState)
  {
    p.health <= 0
  }

  /** The victory observation: enough victory points while still alive. */
  predicate HasWon(p: PlayerState)
  {
    p.victoryPoints >= MaxVictoryPoints && p.health > 0
  }

  /** The ranges the stat edits clamp into. */
  predicate StatsInRange(p: PlayerState)
  {
    0 <= p.health <= p.maxHealth && 0 <= p.victoryPoints <= MaxVictoryPoints && p.energy >= 0
  }

  /** A player is never both defeated and victorious. */
  lemma DefeatExcludesVictory(p: PlayerState)
    ensures !(IsDefeated(p) && HasWon(p))
    ensures p.health == 0 ==> IsDefeated(p) && !HasWon(p)
    ensures p.victoryPoints >= MaxVictoryPoints && p.health == 3 ==> HasWon(p) && !IsDefeated(p)
  {
  }
}
