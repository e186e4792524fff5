/**
 * Writes to the `players` table, as the client emits them
 * (`update(fields).eq('id', id)`), and their effect once the store has applied
 * them and the change feed has echoed the new row image back through the
 * reconciler. The echo is modelled on the replica's own copy of the row, that
 * is, under the assumption that the replica holds the store's current image.
 */
module RowStore {
  import opened Wrappers
  import opened Seqs
  import opened Types
  import opened Reconciler

  /** The columns an update may set; `None` leaves a column as it is. */
  datatype Fields = Fields(
    monster: Option<Monster>,
    health: Option<int>,
    maxHealth: Option<int>,
    victoryPoints: Option<int>,
    energy: Option<int>,
    inTokyo: Option<bool>,
    isActive: Option<bool>)

  const NoFields: Fields := Fields(None, None, None, None, None, None, None)

  /** One emitted update: the row id it is filtered on and the columns it sets. */
  datatype Write = Write(id: string, fields: Fields)

  /** What the store does to one row. */
  function PatchRow(row: PlayerRow, f: Fields): PlayerRow
  {
    var m := GetOr(f.monster, Monster(row.monsterId, row.monsterName, row.monsterEmoji, row.monsterColor));
    row.(monsterId := m.id, monsterName := m.name, monsterEmoji := m.emoji, monsterColor := m.color,
         health := GetOr(f.health, row.health),
         maxHealth := GetOr(f.maxHealth, row.maxHealth),
         victoryPoints := GetOr(f.victoryPoints, row.victoryPoints),
         energy := GetOr(f.energy, row.energy),
         inTokyo := GetOr(f.inTokyo, row.inTokyo),
         isActive := GetOr(f.isActive, row.isActive))
  }

  /** The same update as the replica sees it. */
  function PatchState(p: PlayerState, f: Fields): (r: PlayerState)
    ensures r.id == p.id && r.playerId == p.playerId
  {
    p.(monster := GetOr(f.monster, p.monster),
       health := GetOr(f.health, p.health),
       maxHealth := GetOr(f.maxHealth, p.maxHealth),
       victoryPoints := GetOr(f.victoryPoints, p.victoryPoints),
       energy := GetOr(f.energy, p.energy),
       inTokyo := GetOr(f.inTokyo, p.inTokyo))
  }

  /** The echoed image of a patched row is the patched image of the row. */
  lemma PatchCommutesWithToState(row: PlayerRow, f: Fields)
    ensures ToState(PatchRow(row, f)) == PatchState(ToState(row), f)
  {
  }

  /**
   * A write followed by the UPDATE event that echoes it. A write to an id the
   * replica does not hold echoes an event the reconciler drops.
   */
  function ApplyWrite(players: seq<PlayerState>, w: Write): (r: seq<PlayerState>)
    ensures |r| == |players|
    ensures forall i :: 0 <= i < |r| ==> r[i].id == players[i].id
    ensures forall i :: 0 <= i < |r| && players[i].id != w.id ==> r[i] == players[i]
  {
    match Find(players, IdIs(w.id))
    case None => players
    case Some(p) => UpdatePlayer(players, PatchState(p, w.fields))
  }

  /** Writes echoed in the order they were issued. */
  function ApplyWrites(players: seq<PlayerState>, ws: seq<Write>): (r: seq<PlayerState>)
    ensures |r| == |players|
    ensures forall i :: 0 <= i < |r| ==> r[i].id == players[i].id
    decreases |ws|
  {
    if ws == [] then players else ApplyWrites(ApplyWrite(players, ws[0]), ws[1..])
  }

  /** The effect of writes on one row, when ids are distinct: each write to its id patches it. */
  function PatchWith(p: PlayerState, ws: seq<Write>): (r: PlayerState)
    ensures r.id == p.id && r.playerId == p.playerId
    decreases |ws|
  {
    if ws == [] then p
    else PatchWith(if ws[0].id == p.id then PatchState(p, ws[0].fields) else p, ws[1..])
  }

  /** With distinct ids a write patches exactly the rows with its id. */
  lemma ApplyWriteDistinct(players: seq<PlayerState>, w: Write)
    requires DistinctIds(players)
    ensures DistinctIds(ApplyWrite(players, w))
    ensures forall i :: 0 <= i < |players| ==>
      ApplyWrite(players, w)[i] == if players[i].id == w.id then PatchState(players[i], w.fields) else players[i]
  {
    var r := ApplyWrite(players, w);
    forall i | 0 <= i < |players| && players[i].id == w.id
      ensures r[i] == PatchState(players[i], w.fields)
    {
      var p := Find(players, IdIs(w.id)).value;
      var k :| 0 <= k < |players| && players[k] == p;
      assert players[k].id == w.id;
    }
  }

  /** With distinct ids, echoing a sequence of writes acts on each row on its own. */
  lemma {:induction false} ApplyWritesPointwise(players: seq<PlayerState>, ws: seq<Write>)
    requires DistinctIds(players)
    ensures DistinctIds(ApplyWrites(players, ws))
    ensures forall i :: 0 <= i < |players| ==> ApplyWrites(players, ws)[i] == PatchWith(players[i], ws)
    decreases |ws|
  {
    if ws != [] {
      var next := ApplyWrite(players, ws[0]);
      ApplyWriteDistinct(players, ws[0]);
      ApplyWritesPointwise(next, ws[1..]);
    }
  }

  lemma {:induction false} ApplyWritesConcat(players: seq<PlayerState>, a: seq<Write>, b: seq<Write>)
    ensures ApplyWrites(players, a + b) == ApplyWrites(ApplyWrites(players, a), b)
    decreases |a|
  {
    if a == [] {
      assert a + b == b;
    } else {
      assert (a + b)[0] == a[0];
      assert (a + b)[1..] == a[1..] + b;
      ApplyWritesConcat(ApplyWrite(players, a[0]), a[1..], b);
    }
  }

  lemma {:induction false} PatchWithConcat(p: PlayerState, a: seq<Write>, b: seq<Write>)
    ensures PatchWith(p, a + b) == PatchWith(PatchWith(p, a), b)
    decreases |a|
  {
    if a == [] {
      assert a + b == b;
    } else {
      assert (a + b)[0] == a[0];
      assert (a + b)[1..] == a[1..] + b;
      PatchWithConcat(if a[0].id == p.id then PatchState(p, a[0].fields) else p, a[1..], b);
    }
  }

  /** Writes to other ids leave a row alone. */
  lemma {:induction false} PatchWithOthers(p: PlayerState, ws: seq<Write>)
    requires forall k :: 0 <= k < |ws| ==> ws[k].id != p.id
    ensures PatchWith(p, ws) == p
    decreases |ws|
  {
    if ws != [] {
      PatchWithOthers(p, ws[1..]);
    }
  }

  /**
   * One write per target, each built from its target and filtered on its id:
   * with distinct target ids a row is patched once if it is a target and not
   * at all otherwise.
   */
  lemma {:induction false} PatchWithPerTarget(p: PlayerState, ts: seq<PlayerState>, w: PlayerState -> Write)
    requires DistinctIds(ts)
    requires forall t :: t in ts && t.id == p.id ==> t == p
    requires forall t :: w(t).id == t.id
    ensures PatchWith(p, Map(ts, w)) == if p in ts then PatchState(p, w(p).fields) else p
    decreases |ts|
  {
    if ts != [] {
      var t, rest := ts[0], ts[1..];
      assert Map(ts, w)[0] == w(t);
      assert Map(ts, w)[1..] == Map(rest, w);
      assert DistinctIds(rest) by {
        forall i, j | 0 <= i < j < |rest| ensures rest[i].id != rest[j].id {
          assert rest[i] == ts[i + 1] && rest[j] == ts[j + 1];
        }
      }
      if t.id == p.id {
        assert t == p;
        var q := PatchState(p, w(p).fields);
        forall k | 0 <= k < |Map(rest, w)| ensures Map(rest, w)[k].id != q.id {
          assert rest[k] == ts[k + 1];
        }
        PatchWithOthers(q, Map(rest, w));
      } else {
        PatchWithPerTarget(p, rest, w);
        assert p in ts <==> p in rest;
      }
    }
  }

  /**
   * Writes built one per target from a list of distinct rows of the replica:
   * echoed, they patch each target once and leave every other row alone.
   */
  lemma PerTargetWritesApplied(players: seq<PlayerState>, ts: seq<PlayerState>, w: PlayerState -> Write)
    requires DistinctIds(players) && DistinctIds(ts)
    requires forall t :: t in ts ==> t in players
    requires forall t :: w(t).id == t.id
    ensures var r := ApplyWrites(players, Map(ts, w));
      |r| == |players| && DistinctIds(r) &&
      forall i :: 0 <= i < |players| ==>
        r[i] == if players[i] in ts then PatchState(players[i], w(players[i]).fields) else players[i]
  {
    ApplyWritesPointwise(players, Map(ts, w));
    forall i | 0 <= i < |players|
      ensures PatchWith(players[i], Map(ts, w)) ==
        if players[i] in ts then PatchState(players[i], w(players[i]).fields) else players[i]
    {
      var p := players[i];
      forall t | t in ts && t.id == p.id ensures t == p {
        var k :| 0 <= k < |players| && players[k] == t;
      }
      PatchWithPerTarget(p, ts, w);
    }
  }
}
