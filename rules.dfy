/**
 * The rules of the game hook, over a snapshot of the replica and the local
 * player's identity token: who the current player is, which rows an action
 * writes and with what, and what an attack reports. Every remote update is an
 * emitted Write; the hook's own loops over these lists are in GameHook.
 */
module GameRules {
  import opened Wrappers
  import opened Seqs
  import opened Types
  import opened Catalogue
  import opened Reconciler
  import opened RowStore

  function PlayerIdIs(me: string): PlayerState -> bool { (p: PlayerState) => p.playerId == me }

  /** `players.find(p => p.playerId === myPlayerId) || null` */
  function CurrentPlayer(players: seq<PlayerState>, me: string): (r: Option<PlayerState>)
    ensures r.Some? ==> r.value in players && r.value.playerId == me
    ensures r.None? <==> forall i :: 0 <= i < |players| ==> players[i].playerId != me
    ensures r.Some? ==> exists i :: 0 <= i < |players| && players[i] == r.value &&
                          forall j :: 0 <= j < i ==> players[j].playerId != me
  {
    Find(players, PlayerIdIs(me))
  }

  // ---------------------------------------------------------------------------
  // updateMyStats

  /** The optional fields `updateMyStats` accepts. */
  datatype StatsUpdate = StatsUpdate(health: Option<int>, victoryPoints: Option<int>, energy: Option<int>, inTokyo: Option<bool>)

  /** One write to the current player's row with exactly the given fields; nothing without a current player. */
  function UpdateMyStats(current: Option<PlayerState>, u: StatsUpdate): (ws: seq<Write>)
    ensures current.None? ==> ws == []
    ensures current.Some? ==> |ws| == 1 && ws[0].id == current.value.id
    ensures current.Some? ==> var f := ws[0].fields;
      f.health == u.health && f.victoryPoints == u.victoryPoints && f.energy == u.energy && f.inTokyo == u.inTokyo &&
      f.monster.None? && f.maxHealth.None? && f.isActive.None?
  {
    match current
    case None => []
    case Some(c) =>
      [Write(c.id, NoFields.(health := u.health, victoryPoints := u.victoryPoints, energy := u.energy, inTokyo := u.inTokyo))]
  }

  /** A stat write leaves every other row untouched and patches only the acting row. */
  lemma StatEditTouchesOnlyActor(players: seq<PlayerState>, c: PlayerState, u: StatsUpdate)
    requires DistinctIds(players)
    ensures var r := ApplyWrites(players, UpdateMyStats(Some(c), u));
      |r| == |players| &&
      forall i :: 0 <= i < |players| ==>
        r[i] == if players[i].id == c.id then
          players[i].(health := GetOr(u.health, players[i].health),
                      victoryPoints := GetOr(u.victoryPoints, players[i].victoryPoints),
                      energy := GetOr(u.energy, players[i].energy),
                      inTokyo := GetOr(u.inTokyo, players[i].inTokyo))
        else players[i]
  {
    ApplyWritesPointwise(players, UpdateMyStats(Some(c), u));
  }

  // ---------------------------------------------------------------------------
  // attack

  /** A player an attacker in Tokyo hits: outside Tokyo, someone else, still alive. */
  predicate OutsideTarget(me: string, p: PlayerState) { !p.inTokyo && p.playerId != me && p.health > 0 }

  /** A player an attacker outside Tokyo can hit: in Tokyo, someone else, still alive. */
  predicate TokyoTarget(me: string, p: PlayerState) { p.inTokyo && p.playerId != me && p.health > 0 }

  function OutsideTargetOf(me: string): PlayerState -> bool { (p: PlayerState) => OutsideTarget(me, p) }
  function TokyoTargetOf(me: string): PlayerState -> bool { (p: PlayerState) => TokyoTarget(me, p) }

  /** In Tokyo: every outside target in list order. Outside: the first Tokyo target, if any. */
  function AttackTargets(players: seq<PlayerState>, me: string, attackerInTokyo: bool): seq<PlayerState>
  {
    if attackerInTokyo then Filter(players, OutsideTargetOf(me))
    else match Find(players, TokyoTargetOf(me))
      case None => []
      case Some(t) => [t]
  }

  /** The guard of `attack`: a current player, a room, and positive damage. */
  predicate AttackReady(players: seq<PlayerState>, me: string, roomCode: Option<string>, damage: int)
  {
    CurrentPlayer(players, me).Some? && HasRoom(roomCode) && damage > 0
  }

  /** The attacker's targets, empty when the guard fails. */
  function Targets(players: seq<PlayerState>, me: string, roomCode: Option<string>, damage: int): seq<PlayerState>
  {
    if AttackReady(players, me, roomCode, damage)
    then AttackTargets(players, me, CurrentPlayer(players, me).value.inTokyo)
    else []
  }

  /** `update({ health: Math.max(0, target.health - damage) }).eq('id', target.id)` */
  function DamageWrite(damage: int, t: PlayerState): Write
  {
    Write(t.id, NoFields.(health := Some(Max(0, t.health - damage))))
  }

  function DamageWriteOf(damage: int): PlayerState -> Write { (t: PlayerState) => DamageWrite(damage, t) }
  function MonsterNameOf(): PlayerState -> string { (t: PlayerState) => t.monster.name }

  /** The writes `attack` emits: one per target, in target order. */
  function AttackWrites(players: seq<PlayerState>, me: string, roomCode: Option<string>, damage: int): (ws: seq<Write>)
    ensures var ts := Targets(players, me, roomCode, damage);
      |ws| == |ts| &&
      forall k :: 0 <= k < |ws| ==>
        ws[k].id == ts[k].id && ws[k].fields == NoFields.(health := Some(Max(0, ts[k].health - damage)))
  {
    Map(Targets(players, me, roomCode, damage), DamageWriteOf(damage))
  }

  /** The notice `attack` sets: only when it hit someone, naming the targets in order. */
  function AttackNoticeOf(players: seq<PlayerState>, me: string, roomCode: Option<string>, damage: int): (n: Option<AttackNotice>)
    ensures n.Some? <==> Targets(players, me, roomCode, damage) != []
    ensures n.Some? ==> n.value.damage == damage && |n.value.targets| == |Targets(players, me, roomCode, damage)|
  {
    var ts := Targets(players, me, roomCode, damage);
    if ts == [] then None
    else Some(AttackNotice(CurrentPlayer(players, me).value.monster.name, Map(ts, MonsterNameOf()), damage))
  }

  /** No current player, no room, or no damage: nothing is written and nothing is announced. */
  lemma AttackRefused(players: seq<PlayerState>, me: string, roomCode: Option<string>, damage: int)
    requires CurrentPlayer(players, me).None? || !HasRoom(roomCode) || damage <= 0
    ensures AttackWrites(players, me, roomCode, damage) == []
    ensures AttackNoticeOf(players, me, roomCode, damage) == None
  {
  }

  /** A notice is set exactly when some write was emitted; it names the attacker's monster, the damage and each target. */
  lemma AttackNoticeIffHit(players: seq<PlayerState>, me: string, roomCode: Option<string>, damage: int)
    ensures AttackNoticeOf(players, me, roomCode, damage).Some? <==> AttackWrites(players, me, roomCode, damage) != []
    ensures var n := AttackNoticeOf(players, me, roomCode, damage); var ts := Targets(players, me, roomCode, damage);
      n.Some? ==> (n.value.attacker == CurrentPlayer(players, me).value.monster.name &&
                   n.value.damage == damage && |n.value.targets| == |ts| &&
                   forall k :: 0 <= k < |ts| ==> n.value.targets[k] == ts[k].monster.name)
  {
  }

  /** From inside Tokyo the targets are exactly the living players outside Tokyo other than oneself, in list order. */
  lemma InTokyoAttackTargets(players: seq<PlayerState>, me: string, more: seq<PlayerState>)
    ensures forall p :: p in AttackTargets(players, me, true) <==>
      p in players && !p.inTokyo && p.playerId != me && p.health > 0
    ensures AttackTargets(players + more, me, true) == AttackTargets(players, me, true) + AttackTargets(more, me, true)
  {
    FilterConcat(players, more, OutsideTargetOf(me));
  }

  /** From outside Tokyo there is at most one target: the first living other player in Tokyo. */
  lemma OutsideAttackTarget(players: seq<PlayerState>, me: string)
    ensures var ts := AttackTargets(players, me, false);
      |ts| <= 1 &&
      (ts == [] <==> forall i :: 0 <= i < |players| ==> !TokyoTarget(me, players[i])) &&
      (ts != [] ==> exists i :: 0 <= i < |players| && players[i] == ts[0] && TokyoTarget(me, ts[0]) &&
                                 forall j :: 0 <= j < i ==> !TokyoTarget(me, players[j]))
  {
  }

  /** Each write lowers its target's health by the damage, never below zero, and never hits the attacker. */
  lemma AttackWritesLowerHealth(players: seq<PlayerState>, me: string, roomCode: Option<string>, damage: int)
    ensures var ts := Targets(players, me, roomCode, damage); var ws := AttackWrites(players, me, roomCode, damage);
      |ws| == |ts| &&
      forall k :: 0 <= k < |ts| ==>
        ws[k].id == ts[k].id && ts[k].playerId != me && ts[k] in players &&
        ws[k].fields.health.Some? && 0 <= ws[k].fields.health.value < ts[k].health &&
        ws[k].fields.health.value == Max(0, ts[k].health - damage) &&
        ws[k].fields == NoFields.(health := ws[k].fields.health)
  {
    var ts := Targets(players, me, roomCode, damage);
    forall k | 0 <= k < |ts| ensures ts[k] in players && ts[k].playerId != me && ts[k].health > 0 {
      assert ts[k] in ts;
      if !CurrentPlayer(players, me).value.inTokyo {
        assert ts == [Find(players, TokyoTargetOf(me)).value];
      }
    }
  }

  /**
   * Echoed through the reconciler, an attack lowers every target's health to
   * `max(0, health - damage)` and changes nothing else.
   */
  lemma AttackApplied(players: seq<PlayerState>, me: string, roomCode: Option<string>, damage: int)
    requires DistinctIds(players)
    ensures var ts := Targets(players, me, roomCode, damage); var r := ApplyWrites(players, AttackWrites(players, me, roomCode, damage));
      |r| == |players| && DistinctIds(r) &&
      forall i :: 0 <= i < |players| ==>
        r[i] == if players[i] in ts then players[i].(health := Max(0, players[i].health - damage)) else players[i]
  {
    var ts := Targets(players, me, roomCode, damage);
    TargetsAreDistinctRows(players, me, roomCode, damage);
    PerTargetWritesApplied(players, ts, DamageWriteOf(damage));
  }

  lemma TargetsAreDistinctRows(players: seq<PlayerState>, me: string, roomCode: Option<string>, damage: int)
    requires DistinctIds(players)
    ensures DistinctIds(Targets(players, me, roomCode, damage))
    ensures forall t :: t in Targets(players, me, roomCode, damage) ==> t in players
  {
    if AttackReady(players, me, roomCode, damage) && CurrentPlayer(players, me).value.inTokyo {
      FilterPreservesDistinctIds(players, OutsideTargetOf(me));
    }
  }

  // ---------------------------------------------------------------------------
  // enterTokyo and leaveTokyo

  function OccupantOf(actorId: string): PlayerState -> bool { (p: PlayerState) => p.inTokyo && p.id != actorId }

  /** `players.filter(p => p.inTokyo && p.id !== currentPlayer.id)`: the others in Tokyo, by row id. */
  function Occupants(players: seq<PlayerState>, actorId: string): seq<PlayerState>
  {
    Filter(players, OccupantOf(actorId))
  }

  /** `update({ in_tokyo: false }).eq('id', p.id)` */
  function ClearWrite(p: PlayerState): Write
  {
    Write(p.id, NoFields.(inTokyo := Some(false)))
  }

  /** `update({ in_tokyo: true, victory_points: Math.min(20, vp + 1) }).eq('id', c.id)` */
  function EnterWrite(c: PlayerState): Write
  {
    Write(c.id, NoFields.(inTokyo := Some(true), victoryPoints := Some(Min(MaxVictoryPoints, c.victoryPoints + 1))))
  }

  /** All clears first, in list order, then the actor's own write; nothing without a current player. */
  function EnterTokyoWrites(players: seq<PlayerState>, me: string): (ws: seq<Write>)
    ensures CurrentPlayer(players, me).None? ==> ws == []
    ensures CurrentPlayer(players, me).Some? ==> var c := CurrentPlayer(players, me).value;
      |ws| >= 1 && ws[|ws| - 1] == EnterWrite(c) &&
      forall k :: 0 <= k < |ws| - 1 ==> ws[k].id != c.id && ws[k].fields == NoFields.(inTokyo := Some(false))
  {
    match CurrentPlayer(players, me)
    case None => []
    case Some(c) => Map(Occupants(players, c.id), ClearWrite) + [EnterWrite(c)]
  }

  /** Only the actor's own flag is cleared; nothing without a current player. */
  function LeaveTokyoWrites(players: seq<PlayerState>, me: string): (ws: seq<Write>)
    ensures CurrentPlayer(players, me).None? ==> ws == []
    ensures CurrentPlayer(players, me).Some? ==>
      ws == [Write(CurrentPlayer(players, me).value.id, NoFields.(inTokyo := Some(false)))]
  {
    match CurrentPlayer(players, me)
    case None => []
    case Some(c) => [ClearWrite(c)]
  }

  /**
   * Echoed through the reconciler, entering Tokyo leaves the actor as the only
   * row in Tokyo, with its victory points raised by one up to 20; every other
   * row keeps everything but its flag.
   */
  lemma EnterTokyoSettles(players: seq<PlayerState>, me: string)
    requires DistinctIds(players)
    requires CurrentPlayer(players, me).Some?
    ensures var c := CurrentPlayer(players, me).value; var r := ApplyWrites(players, EnterTokyoWrites(players, me));
      |r| == |players| && DistinctIds(r) &&
      forall i :: 0 <= i < |players| ==>
        r[i] == if players[i].id == c.id
                then players[i].(inTokyo := true, victoryPoints := Min(MaxVictoryPoints, c.victoryPoints + 1))
                else players[i].(inTokyo := false)
  {
    var c := CurrentPlayer(players, me).value;
    var clears := Map(Occupants(players, c.id), ClearWrite);
    assert EnterTokyoWrites(players, me) == clears + [EnterWrite(c)];
    ClearsApplied(players, c.id);
    var mid := ApplyWrites(players, clears);
    ApplyWritesConcat(players, clears, [EnterWrite(c)]);
    ApplyWriteDistinct(mid, EnterWrite(c));
    assert ApplyWrites(mid, [EnterWrite(c)]) == ApplyWrite(mid, EnterWrite(c));
  }

  /** The clearing phase of enterTokyo: every row but the actor's is out of Tokyo, the actor's is untouched. */
  lemma ClearsApplied(players: seq<PlayerState>, actorId: string)
    requires DistinctIds(players)
    ensures var mid := ApplyWrites(players, Map(Occupants(players, actorId), ClearWrite));
      |mid| == |players| && DistinctIds(mid) &&
      forall i :: 0 <= i < |players| ==>
        mid[i] == if players[i].id == actorId then players[i] else players[i].(inTokyo := false)
  {
    var occ := Occupants(players, actorId);
    FilterPreservesDistinctIds(players, OccupantOf(actorId));
    PerTargetWritesApplied(players, occ, ClearWrite);
  }

  /** After entering, exactly one row is in Tokyo: the actor's. */
  lemma EnterTokyoSoleOccupant(players: seq<PlayerState>, me: string)
    requires DistinctIds(players)
    requires CurrentPlayer(players, me).Some?
    ensures var r := ApplyWrites(players, EnterTokyoWrites(players, me));
      exists i :: 0 <= i < |r| && r[i].inTokyo && r[i].playerId == me &&
        forall j :: 0 <= j < |r| && j != i ==> !r[j].inTokyo
  {
    var c := CurrentPlayer(players, me).value;
    var r := ApplyWrites(players, EnterTokyoWrites(players, me));
    EnterTokyoSettles(players, me);
    var i :| 0 <= i < |players| && players[i] == c;
    assert r[i].inTokyo;
    forall j | 0 <= j < |r| && j != i ensures !r[j].inTokyo {
      assert players[j].id != players[i].id by {
        if j < i { assert players[j].id != players[i].id; } else { assert players[i].id != players[j].id; }
      }
    }
  }

  /** Leaving Tokyo clears only the actor's flag; its victory points and everyone else stay. */
  lemma LeaveTokyoClearsOnlyActor(players: seq<PlayerState>, me: string)
    requires DistinctIds(players)
    ensures var r := ApplyWrites(players, LeaveTokyoWrites(players, me)); var c := CurrentPlayer(players, me);
      |r| == |players| && DistinctIds(r) &&
      forall i :: 0 <= i < |players| ==>
        r[i] == if c.Some? && players[i].id == c.value.id then players[i].(inTokyo := false) else players[i]
  {
    ApplyWritesPointwise(players, LeaveTokyoWrites(players, me));
  }

  // ---------------------------------------------------------------------------
  // selectMonster

  /** A new player's row, before the store fills in its defaults. */
  datatype NewPlayer = NewPlayer(roomCode: string, playerId: string, monster: Monster)

  /** What selecting a monster asks of the store. */
  datatype Selection = NoRoom | ResetExisting(write: Write) | InsertNew(player: NewPlayer)

  /** The stats a re-selected monster starts from. */
  const StartingHealth: int := 10

  function ResetFields(m: Monster): Fields
  {
    Fields(Some(m), Some(StartingHealth), Some(StartingHealth), Some(0), Some(0), Some(false), Some(true))
  }

  /**
   * `selectMonster`: without a room nothing happens; a row the store already
   * holds for this identity in this room is reset and reactivated; otherwise a
   * new row is inserted.
   */
  function SelectMonster(roomCode: Option<string>, me: string, existing: Option<PlayerRow>, m: Monster): (s: Selection)
    ensures !HasRoom(roomCode) <==> s.NoRoom?
    ensures s.InsertNew? ==> s.player == NewPlayer(roomCode.value, me, m) && existing.None?
    ensures s.ResetExisting? ==> existing.Some? && s.write.id == existing.value.id
    ensures s.ResetExisting? ==> s.write.fields == ResetFields(m)
    ensures HasRoom(roomCode) ==> (s.ResetExisting? <==> existing.Some?)
  {
    if !HasRoom(roomCode) then NoRoom
    else match existing
      case Some(row) => ResetExisting(Write(row.id, ResetFields(m)))
      case None => InsertNew(NewPlayer(roomCode.value, me, m))
  }

  /** A reset row is active again, shows the new monster and starts from full health, no points, no energy, outside Tokyo. */
  lemma ResetStartsFresh(row: PlayerRow, m: Monster)
    ensures var r := PatchRow(row, ResetFields(m));
      r.isActive && r.id == row.id && r.playerId == row.playerId &&
      ToState(r) == PlayerState(row.id, row.playerId, m, StartingHealth, StartingHealth, 0, 0, false)
  {
  }

  // ---------------------------------------------------------------------------
  // getAvailableMonsters

  function MonsterIdOf(): PlayerState -> string { (p: PlayerState) => p.monster.id }

  /** `players.map(p => p.monster.id)` */
  function TakenIds(players: seq<PlayerState>): seq<string>
  {
    Map(players, MonsterIdOf())
  }

  /** `MONSTERS.filter(m => !takenIds.includes(m.id))` */
  function GetAvailableMonsters(players: seq<PlayerState>): (r: seq<Monster>)
    ensures forall m :: m in r <==> m in Monsters && forall i :: 0 <= i < |players| ==> players[i].monster.id != m.id
    ensures Subsequence(r, Monsters)
  {
    var taken := TakenIds(players);
    FilterIsSubsequence(Monsters, NotTakenIn(taken));
    Filter(Monsters, NotTakenIn(taken))
  }
}
