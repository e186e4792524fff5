/**
 * The game hook as an object: the room it is in, its replica of the room's
 * players and the last attack notice. Remote calls are not made; each action
 * returns the writes it would send, in the order it would send them.
 */
module GameHook {
  import opened Wrappers
  import opened Seqs
  import opened Types
  import opened Reconciler
  import opened RowStore
  import opened GameRules

  class Game {
    /** The device's identity token, fixed for the life of the hook. */
    const myPlayerId: string
    var roomCode: Option<string>
    var players: seq<PlayerState>
    var lastAttack: Option<AttackNotice>

    constructor (myPlayerId: string)
      ensures this.myPlayerId == myPlayerId
      ensures roomCode == None && players == [] && lastAttack == None
    {
      this.myPlayerId := myPlayerId;
      roomCode := None;
      players := [];
      lastAttack := None;
    }

    /** `setRoomCode` after the store accepted a created room or found a joined one. */
    method EnterRoom(code: string)
      modifies this`roomCode
      ensures roomCode == Some(code)
    {
      roomCode := Some(code);
    }

    /** `fetchPlayers`: on success the list is the fetched rows in store order; on an error it stays. */
    method Replace(fetched: Option<seq<PlayerRow>>)
      requires fetched.Some? ==> forall r :: r in fetched.value ==> r.isActive
      modifies this`players
      ensures players == if fetched.Some? then Map(fetched.value, ToState) else old(players)
      ensures fetched.Some? ==> |players| == |fetched.value|
    {
      if fetched.Some? {
        players := Map(fetched.value, ToState);
      }
    }

    /** The realtime handler: one change event applied to the replica. */
    method OnChange(e: ChangeEvent)
      modifies this`players
      ensures players == Apply(old(players), e)
      ensures DistinctIds(old(players)) ==> DistinctIds(players)
      ensures |players| <= |old(players)| + 1
    {
      if DistinctIds(players) {
        ApplyPreservesDistinctIds(players, e);
      }
      match e
      case Insert(row) =>
        players := InsertPlayer(players, ToState(row));
      case Update(row) =>
        players := UpdatePlayer(players, ToState(row));
      case Delete(id) =>
        players := DeletePlayer(players, id);
    }

    /**
     * `leaveRoom`: without a room or a current player nothing happens;
     * otherwise the player's row is deactivated and the hook forgets the room.
     */
    method LeaveRoom() returns (writes: seq<Write>)
      modifies this`roomCode, this`players
      ensures var c := CurrentPlayer(old(players), myPlayerId);
        if HasRoom(old(roomCode)) && c.Some?
        then writes == [Write(c.value.id, NoFields.(isActive := Some(false)))] && roomCode == None && players == []
        else writes == [] && roomCode == old(roomCode) && players == old(players)
    {
      var current := CurrentPlayer(players, myPlayerId);
      if !HasRoom(roomCode) || current.None? {
        writes := [];
        return;
      }
      writes := [Write(current.value.id, NoFields.(isActive := Some(false)))];
      roomCode := None;
      players := [];
    }

    /**
     * `attack`: from inside Tokyo one write per living player outside it, in
     * list order; from outside, one write to the first living player in Tokyo.
     * The notice is replaced only when somebody was hit.
     */
    method Attack(damage: int) returns (writes: seq<Write>)
      modifies this`lastAttack
      ensures writes == AttackWrites(players, myPlayerId, roomCode, damage)
      ensures var n := AttackNoticeOf(players, myPlayerId, roomCode, damage);
        lastAttack == if n.Some? then n else old(lastAttack)
    {
      var current := CurrentPlayer(players, myPlayerId);
      if current.None? || !HasRoom(roomCode) || damage <= 0 {
        writes := [];
        return;
      }
      var c := current.value;
      var names: seq<string> := [];
      writes := [];
      if c.inTokyo {
        var outsidePlayers := Filter(players, OutsideTargetOf(myPlayerId));
        for k := 0 to |outsidePlayers|
          invariant writes == Map(outsidePlayers[..k], DamageWriteOf(damage))
          invariant names == Map(outsidePlayers[..k], MonsterNameOf())
        {
          var target := outsidePlayers[k];
          writes := writes + [DamageWrite(damage, target)];
          names := names + [target.monster.name];
        }
        assert outsidePlayers[..|outsidePlayers|] == outsidePlayers;
      } else {
        var tokyoPlayer := Find(players, TokyoTargetOf(myPlayerId));
        if tokyoPlayer.Some? {
          writes := [DamageWrite(damage, tokyoPlayer.value)];
          names := [tokyoPlayer.value.monster.name];
        }
      }
      assert names == Map(Targets(players, myPlayerId, roomCode, damage), MonsterNameOf());
      if |names| > 0 {
        lastAttack := Some(AttackNotice(c.monster.name, names, damage));
      }
    }

    /** `enterTokyo`: clear every other occupant in list order, then take Tokyo with one more victory point. */
    method EnterTokyo() returns (writes: seq<Write>)
      ensures writes == EnterTokyoWrites(players, myPlayerId)
    {
      var current := CurrentPlayer(players, myPlayerId);
      if current.None? {
        writes := [];
        return;
      }
      var c := current.value;
      var tokyoPlayers := Filter(players, OccupantOf(c.id));
      writes := [];
      for k := 0 to |tokyoPlayers|
        invariant writes == Map(tokyoPlayers[..k], ClearWrite)
      {
        writes := writes + [ClearWrite(tokyoPlayers[k])];
      }
      assert tokyoPlayers[..|tokyoPlayers|] == tokyoPlayers;
      writes := writes + [EnterWrite(c)];
    }
  }
}
