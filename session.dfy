/**
 * A session: the actions players take on their boards, each turned into the
 * writes the hook emits and echoed back through the reconciler, and the table
 * invariants every action keeps.
 */
module Session {
  import opened Wrappers
  import opened Seqs
  import opened Types
  import opened Catalogue
  import opened Reconciler
  import opened RowStore
  import opened GameRules
  import opened App

  /** A button press on some player's board, by that player's identity. */
  datatype Action =
    | EnterTokyoBy(playerId: string)
    | LeaveTokyoBy(playerId: string)
    | AttackBy(playerId: string, damage: int)
    | HealthBy(playerId: string, delta: int)
    | VictoryPointsBy(playerId: string, delta: int)
    | EnergyBy(playerId: string, delta: int)

  /** The writes an action emits, computed from the acting client's replica. */
  function WritesOf(players: seq<PlayerState>, roomCode: Option<string>, a: Action): seq<Write>
  {
    match a
    case EnterTokyoBy(me) => EnterTokyoWrites(players, me)
    case LeaveTokyoBy(me) => LeaveTokyoWrites(players, me)
    case AttackBy(me, damage) => AttackWrites(players, me, roomCode, damage)
    case HealthBy(me, delta) => HandleHealthChange(CurrentPlayer(players, me), delta)
    case VictoryPointsBy(me, delta) => HandleVictoryPointsChange(CurrentPlayer(players, me), delta)
    case EnergyBy(me, delta) => HandleEnergyChange(CurrentPlayer(players, me), delta)
  }

  /** Each action in turn, its writes echoed before the next action is taken. */
  function Run(players: seq<PlayerState>, roomCode: Option<string>, actions: seq<Action>): (r: seq<PlayerState>)
    ensures |r| == |players|
    ensures forall i :: 0 <= i < |r| ==> r[i].id == players[i].id
    decreases |actions|
  {
    if actions == [] then players
    else Run(ApplyWrites(players, WritesOf(players, roomCode, actions[0])), roomCode, actions[1..])
  }

  /** At most one row is in Tokyo. */
  predicate AtMostOneInTokyo(players: seq<PlayerState>)
  {
    forall i, j :: 0 <= i < j < |players| ==> !(players[i].inTokyo && players[j].inTokyo)
  }

  /** The table invariant: row ids are distinct, Tokyo holds at most one monster, every stat is in its range. */
  predicate Good(players: seq<PlayerState>)
  {
    DistinctIds(players) && AtMostOneInTokyo(players) && forall i :: 0 <= i < |players| ==> StatsInRange(players[i])
  }

  /** The row a lookup found is the only row with its id. */
  lemma FoundRowIsUnique(players: seq<PlayerState>, c: PlayerState, i: int)
    requires DistinctIds(players) && c in players
    requires 0 <= i < |players| && players[i].id == c.id
    ensures players[i] == c
  {
  }

  lemma EnterTokyoKeepsGood(players: seq<PlayerState>, me: string)
    requires Good(players)
    ensures Good(ApplyWrites(players, EnterTokyoWrites(players, me)))
  {
    var r := ApplyWrites(players, EnterTokyoWrites(players, me));
    match CurrentPlayer(players, me)
    case None =>
      assert r == players;
    case Some(c) =>
      EnterTokyoSettles(players, me);
      forall i | 0 <= i < |r| ensures StatsInRange(r[i]) && (r[i].inTokyo ==> r[i].id == c.id) {
        if players[i].id == c.id {
          FoundRowIsUnique(players, c, i);
        }
      }
      forall i, j | 0 <= i < j < |r| ensures !(r[i].inTokyo && r[j].inTokyo) {
        assert players[i].id != players[j].id;
      }
  }

  lemma LeaveTokyoKeepsGood(players: seq<PlayerState>, me: string)
    requires Good(players)
    ensures Good(ApplyWrites(players, LeaveTokyoWrites(players, me)))
  {
    LeaveTokyoClearsOnlyActor(players, me);
  }

  lemma AttackKeepsGood(players: seq<PlayerState>, me: string, roomCode: Option<string>, damage: int)
    requires Good(players)
    ensures Good(ApplyWrites(players, AttackWrites(players, me, roomCode, damage)))
  {
    var ts := Targets(players, me, roomCode, damage);
    var r := ApplyWrites(players, AttackWrites(players, me, roomCode, damage));
    AttackApplied(players, me, roomCode, damage);
    forall i | 0 <= i < |r| ensures StatsInRange(r[i]) && r[i].inTokyo == players[i].inTokyo {
      if players[i] in ts {
        assert AttackReady(players, me, roomCode, damage);
      }
    }
  }

  lemma HealthEditKeepsGood(players: seq<PlayerState>, me: string, delta: int)
    requires Good(players)
    ensures Good(ApplyWrites(players, HandleHealthChange(CurrentPlayer(players, me), delta)))
  {
    var r := ApplyWrites(players, HandleHealthChange(CurrentPlayer(players, me), delta));
    match CurrentPlayer(players, me)
    case None =>
      assert r == players;
    case Some(c) =>
      var u := StatsUpdate(Some(ClampHealth(c.health, c.maxHealth, delta)), None, None, None);
      StatEditTouchesOnlyActor(players, c, u);
      forall i | 0 <= i < |r| ensures StatsInRange(r[i]) && r[i].inTokyo == players[i].inTokyo {
        if players[i].id == c.id {
          FoundRowIsUnique(players, c, i);
        }
      }
  }

  lemma VictoryPointsEditKeepsGood(players: seq<PlayerState>, me: string, delta: int)
    requires Good(players)
    ensures Good(ApplyWrites(players, HandleVictoryPointsChange(CurrentPlayer(players, me), delta)))
  {
    var r := ApplyWrites(players, HandleVictoryPointsChange(CurrentPlayer(players, me), delta));
    match CurrentPlayer(players, me)
    case None =>
      assert r == players;
    case Some(c) =>
      var u := StatsUpdate(None, Some(ClampVictoryPoints(c.victoryPoints, delta)), None, None);
      StatEditTouchesOnlyActor(players, c, u);
      forall i | 0 <= i < |r| ensures StatsInRange(r[i]) && r[i].inTokyo == players[i].inTokyo {
        if players[i].id == c.id {
          FoundRowIsUnique(players, c, i);
        }
      }
  }

  lemma EnergyEditKeepsGood(players: seq<PlayerState>, me: string, delta: int)
    requires Good(players)
    ensures Good(ApplyWrites(players, HandleEnergyChange(CurrentPlayer(players, me), delta)))
  {
    var r := ApplyWrites(players, HandleEnergyChange(CurrentPlayer(players, me), delta));
    match CurrentPlayer(players, me)
    case None =>
      assert r == players;
    case Some(c) =>
      var u := StatsUpdate(None, None, Some(ClampEnergy(c.energy, delta)), None);
      StatEditTouchesOnlyActor(players, c, u);
      forall i | 0 <= i < |r| ensures StatsInRange(r[i]) && r[i].inTokyo == players[i].inTokyo {
        if players[i].id == c.id {
          FoundRowIsUnique(players, c, i);
        }
      }
  }

  /** Every single action keeps the table invariant. */
  lemma StepKeepsGood(players: seq<PlayerState>, roomCode: Option<string>, a: Action)
    requires Good(players)
    ensures Good(ApplyWrites(players, WritesOf(players, roomCode, a)))
  {
    match a
    case EnterTokyoBy(me) => EnterTokyoKeepsGood(players, me);
    case LeaveTokyoBy(me) => LeaveTokyoKeepsGood(players, me);
    case AttackBy(me, damage) => AttackKeepsGood(players, me, roomCode, damage);
    case HealthBy(me, delta) => HealthEditKeepsGood(players, me, delta);
    case VictoryPointsBy(me, delta) => VictoryPointsEditKeepsGood(players, me, delta);
    case EnergyBy(me, delta) => EnergyEditKeepsGood(players, me, delta);
  }

  /** However the players press their buttons, the table invariant holds after every action. */
  lemma {:induction false} RunKeepsGood(players: seq<PlayerState>, roomCode: Option<string>, actions: seq<Action>)
    requires Good(players)
    ensures Good(Run(players, roomCode, actions))
    ensures |Run(players, roomCode, actions)| == |players|
    decreases |actions|
  {
    if actions != [] {
      StepKeepsGood(players, roomCode, actions[0]);
      RunKeepsGood(ApplyWrites(players, WritesOf(players, roomCode, actions[0])), roomCode, actions[1..]);
    }
  }

  // ---------------------------------------------------------------------------
  // A worked table of three players

  const Gigazaur: PlayerState := PlayerState("1", "a", Monsters[0], 10, 10, 3, 0, true)
  const TheKing: PlayerState := PlayerState("2", "b", Monsters[1], 10, 10, 0, 0, false)
  const Kraken: PlayerState := PlayerState("3", "c", Monsters[3], 10, 10, 0, 0, false)
  const Table: seq<PlayerState> := [Gigazaur, TheKing, Kraken]

  /** Filtering a three-row table keeps the rows that pass, in order. */
  lemma FilterOfThree(x: PlayerState, y: PlayerState, z: PlayerState, f: PlayerState -> bool)
    ensures Filter([x, y, z], f) == (if f(x) then [x] else []) + (if f(y) then [y] else []) + (if f(z) then [z] else [])
  {
    assert [z][1..] == [];
    assert Filter([z], f) == (if f(z) then [z] else []);
    assert [y, z][1..] == [z];
    assert Filter([y, z], f) == (if f(y) then [y] else []) + Filter([z], f);
    assert [x, y, z][1..] == [y, z];
  }

  /** A lookup in a three-row table finds the first row that passes. */
  lemma FindOfThree(x: PlayerState, y: PlayerState, z: PlayerState, f: PlayerState -> bool)
    ensures Find([x, y, z], f) == if f(x) then Some(x) else if f(y) then Some(y) else if f(z) then Some(z) else None
  {
    assert [z][1..] == [];
    assert FindIndex([z], f) == if f(z) then Some(0) else None;
    assert [y, z][1..] == [z];
    assert FindIndex([y, z], f) == if f(y) then Some(0) else if f(z) then Some(1) else None;
    assert [x, y, z][1..] == [y, z];
    assert FindIndex([x, y, z], f) == if f(x) then Some(0) else if f(y) then Some(1) else if f(z) then Some(2) else None;
  }

  lemma TableLookups()
    ensures CurrentPlayer(Table, "a") == Some(Gigazaur)
    ensures CurrentPlayer(Table, "b") == Some(TheKing)
    ensures CurrentPlayer(Table, "c") == Some(Kraken)
  {
    FindOfThree(Gigazaur, TheKing, Kraken, PlayerIdIs("a"));
    FindOfThree(Gigazaur, TheKing, Kraken, PlayerIdIs("b"));
    FindOfThree(Gigazaur, TheKing, Kraken, PlayerIdIs("c"));
  }

  /** The worked table starts out good. */
  lemma TableIsGood()
    ensures Good(Table)
  {
  }

  /** Whatever the players of the worked table do, it stays good and keeps its three rows. */
  lemma TableStaysGood(roomCode: Option<string>, actions: seq<Action>)
    ensures Good(Run(Table, roomCode, actions))
    ensures |Run(Table, roomCode, actions)| == 3
  {
    TableIsGood();
    RunKeepsGood(Table, roomCode, actions);
  }

  lemma AttackFromTokyoTargets()
    ensures Targets(Table, "a", Some("1234"), 2) == [TheKing, Kraken]
  {
    TableLookups();
    FilterOfThree(Gigazaur, TheKing, Kraken, OutsideTargetOf("a"));
  }

  /** The monster in Tokyo strikes for 2: both monsters outside are written down to 8, in table order. */
  lemma AttackFromTokyoExample()
    ensures AttackWrites(Table, "a", Some("1234"), 2) ==
      [Write("2", NoFields.(health := Some(8))), Write("3", NoFields.(health := Some(8)))]
  {
    AttackFromTokyoTargets();
    var ws := AttackWrites(Table, "a", Some("1234"), 2);
    assert ws[0] == DamageWrite(2, TheKing) && ws[1] == DamageWrite(2, Kraken);
  }

  /** The notice of that strike names the attacker and both targets, in table order. */
  lemma AttackFromTokyoNotice()
    ensures AttackNoticeOf(Table, "a", Some("1234"), 2) == Some(AttackNotice("Gigazaur", ["The King", "Kraken"], 2))
  {
    AttackFromTokyoTargets();
    TableLookups();
    assert Map([TheKing, Kraken], MonsterNameOf()) == ["The King", "Kraken"];
  }

  /** A monster outside strikes for 2: only the one in Tokyo is hit, and its health is written as 8. */
  lemma AttackOnTokyoExample()
    ensures AttackWrites(Table, "b", Some("1234"), 2) == [Write("1", NoFields.(health := Some(8)))]
  {
    TableLookups();
    FindOfThree(Gigazaur, TheKing, Kraken, TokyoTargetOf("b"));
    assert Targets(Table, "b", Some("1234"), 2) == [Gigazaur];
  }

  /** With both monsters outside defeated, the monster in Tokyo finds nobody: no writes, no notice. */
  lemma AttackWithoutTargetsExample()
    ensures var t := [Gigazaur, TheKing.(health := 0), Kraken.(health := 0)];
      AttackWrites(t, "a", Some("1234"), 2) == [] && AttackNoticeOf(t, "a", Some("1234"), 2) == None
  {
    FindOfThree(Gigazaur, TheKing.(health := 0), Kraken.(health := 0), PlayerIdIs("a"));
    FilterOfThree(Gigazaur, TheKing.(health := 0), Kraken.(health := 0), OutsideTargetOf("a"));
  }

  /** The Kraken takes Tokyo: first the Gigazaur is sent out, then the Kraken enters with one point. */
  lemma EnterTokyoExample()
    ensures EnterTokyoWrites(Table, "c") ==
      [Write("1", NoFields.(inTokyo := Some(false))), Write("3", NoFields.(inTokyo := Some(true), victoryPoints := Some(1)))]
  {
    TableLookups();
    FilterOfThree(Gigazaur, TheKing, Kraken, OccupantOf("3"));
    assert Occupants(Table, "3") == [Gigazaur];
    var ws := EnterTokyoWrites(Table, "c");
    assert ws == [ClearWrite(Gigazaur), EnterWrite(Kraken)];
  }
}
