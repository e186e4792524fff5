/**
 * The realtime reconciler of the game hook: how a client turns the change feed
 * of the `players` table into its local list of players, keyed by row id.
 * INSERT appends a row it does not know yet, UPDATE replaces the rows with the
 * event's id by the new image, DELETE removes them.
 */
module Reconciler {
  import opened Wrappers
  import opened Seqs
  import opened Types

  /** playerRowToState: keeps the game fields; room code, activity flag and timestamps are dropped. */
  function ToState(row: PlayerRow): (p: PlayerState)
    ensures p.id == row.id && p.playerId == row.playerId
    ensures p.monster == Monster(row.monsterId, row.monsterName, row.monsterEmoji, row.monsterColor)
    ensures p.health == row.health && p.maxHealth == row.maxHealth
    ensures p.victoryPoints == row.victoryPoints && p.energy == row.energy && p.inTokyo == row.inTokyo
  {
    PlayerState(row.id, row.playerId,
      Monster(row.monsterId, row.monsterName, row.monsterEmoji, row.monsterColor),
      row.health, row.maxHealth, row.victoryPoints, row.energy, row.inTokyo)
  }

  /** The replica cannot tell an active row from an inactive one. */
  lemma ToStateDropsActivity(row: PlayerRow, active: bool, code: string, created: string, updated: string)
    ensures ToState(row.(isActive := active, roomCode := code, createdAt := created, updatedAt := updated)) == ToState(row)
    ensures ToState(row).id == row.id && ToState(row).playerId == row.playerId
  {
  }

  /** A change event of the subscription; a DELETE carries only the old row's id. */
  datatype ChangeEvent = Insert(newRow: PlayerRow) | Update(newRow: PlayerRow) | Delete(oldId: string)

  function EventId(e: ChangeEvent): string
  {
    match e
    case Insert(row) => row.id
    case Update(row) => row.id
    case Delete(id) => id
  }

  function IdIs(id: string): PlayerState -> bool { (p: PlayerState) => p.id == id }
  function IdIsNot(id: string): PlayerState -> bool { (p: PlayerState) => p.id != id }
  function Replacing(u: PlayerState): PlayerState -> PlayerState { (p: PlayerState) => if p.id == u.id then u else p }

  /** No two rows of the list share a row id. */
  predicate DistinctIds(players: seq<PlayerState>)
  {
    forall i, j :: 0 <= i < j < |players| ==> players[i].id != players[j].id
  }

  predicate HasRowId(players: seq<PlayerState>, id: string)
  {
    exists i :: 0 <= i < |players| && players[i].id == id
  }

  /** INSERT: ignored when a row with the same id is present, appended at the end otherwise. */
  function InsertPlayer(players: seq<PlayerState>, p: PlayerState): (r: seq<PlayerState>)
    ensures HasRowId(players, p.id) ==> r == players
    ensures !HasRowId(players, p.id) ==> r == players + [p]
  {
    if Find(players, IdIs(p.id)).Some? then players else players + [p]
  }

  /** UPDATE: every row with the image's id becomes the image; length, order and all other rows stay. */
  function UpdatePlayer(players: seq<PlayerState>, u: PlayerState): (r: seq<PlayerState>)
    ensures |r| == |players|
    ensures forall i :: 0 <= i < |players| ==> r[i] == if players[i].id == u.id then u else players[i]
  {
    Map(players, Replacing(u))
  }

  /** DELETE: every row with the id goes, every other row stays. */
  function DeletePlayer(players: seq<PlayerState>, id: string): (r: seq<PlayerState>)
    ensures forall p :: p in r <==> p in players && p.id != id
    ensures !HasRowId(r, id)
  {
    Filter(players, IdIsNot(id))
  }

  /** The realtime handler: one event applied to the list. */
  function Apply(players: seq<PlayerState>, e: ChangeEvent): (r: seq<PlayerState>)
    ensures Settled(r, e)
    ensures forall i :: 0 <= i < |players| && players[i].id != EventId(e) ==> players[i] in r
    ensures |r| <= |players| + 1
  {
    match e
    case Insert(row) =>
      var r := InsertPlayer(players, ToState(row));
      assert !HasRowId(players, row.id) ==> r[|players|].id == row.id;
      r
    case Update(row) => UpdatePlayer(players, ToState(row))
    case Delete(id) => DeletePlayer(players, id)
  }

  /** Events applied in delivery order. */
  function ApplyAll(players: seq<PlayerState>, events: seq<ChangeEvent>): (r: seq<PlayerState>)
    ensures events != [] ==> Settled(r, events[|events| - 1])
    ensures |r| <= |players| + |events|
    decreases |events|
  {
    if events == [] then players else ApplyAll(Apply(players, events[0]), events[1..])
  }

  // ---------------------------------------------------------------------------
  // Single-event facts

  /** After an INSERT the inserted id is present and no earlier row moved. */
  lemma InsertKeepsPrefix(players: seq<PlayerState>, p: PlayerState)
    ensures |InsertPlayer(players, p)| >= |players|
    ensures InsertPlayer(players, p)[..|players|] == players
    ensures HasRowId(InsertPlayer(players, p), p.id)
  {
    var r := InsertPlayer(players, p);
    if !HasRowId(players, p.id) {
      assert r[|players|] == p;
    }
  }

  /** An UPDATE whose id is not in the list is dropped. */
  lemma UpdateUnknownIsNoOp(players: seq<PlayerState>, u: PlayerState)
    requires !HasRowId(players, u.id)
    ensures UpdatePlayer(players, u) == players
  {
    var r := UpdatePlayer(players, u);
    assert forall i :: 0 <= i < |players| ==> r[i] == players[i];
  }

  /** Deleting an id that is not in the list changes nothing. */
  lemma DeleteAbsentIsNoOp(players: seq<PlayerState>, id: string)
    requires !HasRowId(players, id)
    ensures DeletePlayer(players, id) == players
  {
    FilterKeepsAll(players, IdIsNot(id));
  }

  /** DELETE keeps the surviving rows in their original order. */
  lemma DeleteKeepsOrder(a: seq<PlayerState>, b: seq<PlayerState>, id: string)
    ensures DeletePlayer(a + b, id) == DeletePlayer(a, id) + DeletePlayer(b, id)
  {
    FilterConcat(a, b, IdIsNot(id));
  }

  /**
   * The activity flag is dropped, so an UPDATE that deactivates a known
   * player leaves that player's row in the list, showing the new image.
   */
  lemma DeactivationKeepsRow(players: seq<PlayerState>, row: PlayerRow, i: nat)
    requires !row.isActive
    requires i < |players| && players[i].id == row.id
    ensures |Apply(players, Update(row))| == |players|
    ensures Apply(players, Update(row))[i] == ToState(row)
    ensures HasRowId(Apply(players, Update(row)), row.id)
  {
  }

  /** Re-delivery of any event is harmless: applying it twice equals applying it once. */
  lemma ApplyIdempotent(players: seq<PlayerState>, e: ChangeEvent)
    ensures Apply(Apply(players, e), e) == Apply(players, e)
  {
    match e
    case Insert(row) =>
      InsertKeepsPrefix(players, ToState(row));
    case Update(row) =>
      var once := UpdatePlayer(players, ToState(row));
      var twice := UpdatePlayer(once, ToState(row));
      assert forall i :: 0 <= i < |once| ==> twice[i] == once[i];
    case Delete(id) =>
      DeleteAbsentIsNoOp(DeletePlayer(players, id), id);
  }

  /** Every event keeps row ids distinct. */
  lemma ApplyPreservesDistinctIds(players: seq<PlayerState>, e: ChangeEvent)
    requires DistinctIds(players)
    ensures DistinctIds(Apply(players, e))
  {
    match e
    case Insert(row) =>
    case Update(row) =>
    case Delete(id) =>
      FilterPreservesDistinctIds(players, IdIsNot(id));
  }

  lemma {:induction false} FilterPreservesDistinctIds(players: seq<PlayerState>, f: PlayerState -> bool)
    requires DistinctIds(players)
    ensures DistinctIds(Filter(players, f))
  {
    if players != [] {
      var t := players[1..];
      assert DistinctIds(t) by {
        forall i, j | 0 <= i < j < |t| ensures t[i].id != t[j].id {
          assert t[i] == players[i + 1] && t[j] == players[j + 1];
        }
      }
      FilterPreservesDistinctIds(t, f);
      if f(players[0]) {
        var r := Filter(t, f);
        forall q | q in r ensures q.id != players[0].id {
          assert q in t;
          var k :| 0 <= k < |t| && t[k] == q;
          assert players[k + 1] == q;
        }
        var whole := [players[0]] + r;
        forall i, j | 0 <= i < j < |whole| ensures whole[i].id != whole[j].id {
          if i == 0 {
            assert whole[j] == r[j - 1];
            assert whole[j] in r;
          } else {
            assert whole[i] == r[i - 1] && whole[j] == r[j - 1];
          }
        }
      }
    }
  }

  /** A whole delivery keeps row ids distinct. */
  lemma {:induction false} ApplyAllPreservesDistinctIds(players: seq<PlayerState>, events: seq<ChangeEvent>)
    requires DistinctIds(players)
    ensures DistinctIds(ApplyAll(players, events))
    decreases |events|
  {
    if events != [] {
      ApplyPreservesDistinctIds(players, events[0]);
      ApplyAllPreservesDistinctIds(Apply(players, events[0]), events[1..]);
    }
  }

  /** Delivering `a` and then `b` is delivering `a + b`. */
  lemma {:induction false} ApplyAllConcat(players: seq<PlayerState>, a: seq<ChangeEvent>, b: seq<ChangeEvent>)
    ensures ApplyAll(players, a + b) == ApplyAll(ApplyAll(players, a), b)
    decreases |a|
  {
    if a == [] {
      assert a + b == b;
    } else {
      assert (a + b)[0] == a[0];
      assert (a + b)[1..] == a[1..] + b;
      ApplyAllConcat(Apply(players, a[0]), a[1..], b);
    }
  }

  /** The list already shows what the event says about its row. */
  predicate Settled(players: seq<PlayerState>, e: ChangeEvent)
  {
    match e
    case Insert(row) => HasRowId(players, row.id)
    case Update(row) => forall i :: 0 <= i < |players| && players[i].id == row.id ==> players[i] == ToState(row)
    case Delete(id) => !HasRowId(players, id)
  }

  /** An event whose row is settled changes nothing. */
  lemma SettledIsNoOp(players: seq<PlayerState>, e: ChangeEvent)
    requires Settled(players, e)
    ensures Apply(players, e) == players
  {
    match e
    case Insert(row) =>
    case Update(row) =>
      var r := UpdatePlayer(players, ToState(row));
      assert forall i :: 0 <= i < |players| ==> r[i] == players[i];
    case Delete(id) =>
      FilterKeepsAll(players, IdIsNot(id));
  }

  /** Events about other rows leave a settled row settled. */
  lemma SettledSurvivesOthers(players: seq<PlayerState>, e: ChangeEvent, x: ChangeEvent)
    requires Settled(players, e)
    requires EventId(x) != EventId(e)
    ensures Settled(Apply(players, x), e)
  {
    var r := Apply(players, x);
    match e
    case Insert(row) =>
      var i :| 0 <= i < |players| && players[i].id == row.id;
      match x {
        case Insert(_) =>
          assert r[i] == players[i];
        case Update(u) =>
          assert r[i].id == row.id;
        case Delete(_) =>
          assert players[i] in r;
      }
    case Update(row) =>
      forall j | 0 <= j < |r| && r[j].id == row.id
        ensures r[j] == ToState(row)
      {
        match x {
          case Insert(_) =>
            if j < |players| {
              assert r[j] == players[j];
            }
          case Update(u) =>
          case Delete(_) =>
            assert r[j] in players;
        }
      }
    case Delete(id) =>
      forall j | 0 <= j < |r|
        ensures r[j].id != id
      {
        match x {
          case Insert(_) =>
            if j < |players| {
              assert r[j] == players[j];
            }
          case Update(u) =>
          case Delete(_) =>
            assert r[j] in players;
        }
      }
  }

  /** A whole run of events about other rows leaves a settled row settled. */
  lemma {:induction false} SettledSurvivesAll(players: seq<PlayerState>, e: ChangeEvent, between: seq<ChangeEvent>)
    requires Settled(players, e)
    requires forall i :: 0 <= i < |between| ==> EventId(between[i]) != EventId(e)
    ensures Settled(ApplyAll(players, between), e)
    decreases |between|
  {
    if between != [] {
      SettledSurvivesOthers(players, e, between[0]);
      SettledSurvivesAll(Apply(players, between[0]), e, between[1..]);
    }
  }

  /**
   * An event delivered a second time anywhere in the feed changes nothing, as
   * long as no event about its own row came in between (a redelivery right
   * after the first delivery is the case with nothing in between).
   */
  lemma RedeliveryIsHarmless(players: seq<PlayerState>, before: seq<ChangeEvent>, e: ChangeEvent,
                             between: seq<ChangeEvent>, after: seq<ChangeEvent>)
    requires forall i :: 0 <= i < |between| ==> EventId(between[i]) != EventId(e)
    ensures ApplyAll(players, before + [e] + between + [e] + after) == ApplyAll(players, before + [e] + between + after)
  {
    var first := before + [e] + between;
    var once := ApplyAll(players, before);
    ApplyAllConcat(players, before, [e]);
    assert [e][1..] == [];
    ApplyAllConcat(players, before + [e], between);
    SettledSurvivesAll(Apply(once, e), e, between);
    var q := ApplyAll(players, first);
    SettledIsNoOp(q, e);
    assert ([e] + after)[0] == e && ([e] + after)[1..] == after;
    assert before + [e] + between + [e] + after == first + ([e] + after);
    assert before + [e] + between + after == first + after;
    ApplyAllConcat(players, first, [e] + after);
    ApplyAllConcat(players, first, after);
  }

  /** A redelivery after an event about the same row is not harmless: a deleted row comes back. */
  lemma RedeliveryAfterOwnDeleteMatters(row: PlayerRow)
    ensures ApplyAll([], [Insert(row), Delete(row.id), Insert(row)]) == [ToState(row)]
    ensures ApplyAll([], [Insert(row), Delete(row.id)]) == []
  {
    var p := ToState(row);
    var inserted := Apply([], Insert(row));
    assert inserted == [p];
    var deleted := Apply(inserted, Delete(row.id));
    assert !HasRowId(deleted, row.id);
    assert deleted == [];
    var again := Apply(deleted, Insert(row));
    assert again == [p];
    var three := [Insert(row), Delete(row.id), Insert(row)];
    var two := [Insert(row), Delete(row.id)];
    assert ApplyAll(deleted, three[2..]) == ApplyAll(again, []);
    assert ApplyAll(inserted, three[1..]) == ApplyAll(deleted, three[2..]);
    assert ApplyAll([], three) == ApplyAll(inserted, three[1..]);
    assert ApplyAll(inserted, two[1..]) == ApplyAll(deleted, []);
    assert ApplyAll([], two) == ApplyAll(inserted, two[1..]);
  }

  // ---------------------------------------------------------------------------
  // Events about different rows

  lemma UpdatesCommute(players: seq<PlayerState>, u: PlayerState, v: PlayerState)
    requires u.id != v.id
    ensures UpdatePlayer(UpdatePlayer(players, u), v) == UpdatePlayer(UpdatePlayer(players, v), u)
  {
    var a := UpdatePlayer(UpdatePlayer(players, u), v);
    var b := UpdatePlayer(UpdatePlayer(players, v), u);
    assert forall i :: 0 <= i < |players| ==> a[i] == b[i];
  }

  lemma UpdateDeleteCommute(players: seq<PlayerState>, u: PlayerState, id: string)
    requires u.id != id
    ensures DeletePlayer(UpdatePlayer(players, u), id) == UpdatePlayer(DeletePlayer(players, id), u)
  {
    FilterMapCommute(players, Replacing(u), IdIsNot(id));
  }

  lemma InsertUpdateCommute(players: seq<PlayerState>, p: PlayerState, u: PlayerState)
    requires p.id != u.id
    ensures UpdatePlayer(InsertPlayer(players, p), u) == InsertPlayer(UpdatePlayer(players, u), p)
  {
    var updated := UpdatePlayer(players, u);
    assert HasRowId(players, p.id) <==> HasRowId(updated, p.id) by {
      assert forall i :: 0 <= i < |players| ==> updated[i].id == players[i].id;
    }
    if !HasRowId(players, p.id) {
      var left := UpdatePlayer(players + [p], u);
      assert forall i :: 0 <= i < |left| ==> left[i] == (updated + [p])[i];
    }
  }

  lemma InsertDeleteCommute(players: seq<PlayerState>, p: PlayerState, id: string)
    requires p.id != id
    ensures DeletePlayer(InsertPlayer(players, p), id) == InsertPlayer(DeletePlayer(players, id), p)
  {
    var deleted := DeletePlayer(players, id);
    if HasRowId(players, p.id) {
      var i :| 0 <= i < |players| && players[i].id == p.id;
      assert players[i] in deleted;
      var k :| 0 <= k < |deleted| && deleted[k] == players[i];
    } else {
      assert !HasRowId(deleted, p.id) by {
        forall k | 0 <= k < |deleted| ensures deleted[k].id != p.id {
          assert deleted[k] in players;
        }
      }
      DeleteKeepsOrder(players, [p], id);
    }
  }

  lemma DeletesCommute(players: seq<PlayerState>, id1: string, id2: string)
    ensures DeletePlayer(DeletePlayer(players, id1), id2) == DeletePlayer(DeletePlayer(players, id2), id1)
  {
    FilterCommutes(players, IdIsNot(id1), IdIsNot(id2));
  }

  /**
   * Two events about different rows reach the same list in either order,
   * unless both are INSERTs (see InsertsDoNotCommute).
   */
  lemma DistinctRowEventsCommute(players: seq<PlayerState>, e1: ChangeEvent, e2: ChangeEvent)
    requires EventId(e1) != EventId(e2)
    requires !(e1.Insert? && e2.Insert?)
    ensures Apply(Apply(players, e1), e2) == Apply(Apply(players, e2), e1)
  {
    match (e1, e2)
    case (Insert(r1), Update(r2)) => InsertUpdateCommute(players, ToState(r1), ToState(r2));
    case (Insert(r1), Delete(id)) => InsertDeleteCommute(players, ToState(r1), id);
    case (Update(r1), Insert(r2)) => InsertUpdateCommute(players, ToState(r2), ToState(r1));
    case (Update(r1), Update(r2)) => UpdatesCommute(players, ToState(r1), ToState(r2));
    case (Update(r1), Delete(id)) => UpdateDeleteCommute(players, ToState(r1), id);
    case (Delete(id), Insert(r2)) => InsertDeleteCommute(players, ToState(r2), id);
    case (Delete(id), Update(r2)) => UpdateDeleteCommute(players, ToState(r2), id);
    case (Delete(id1), Delete(id2)) => DeletesCommute(players, id1, id2);
  }

  /** Two INSERTs of new rows land in arrival order, so their order shows in the list. */
  lemma InsertsDoNotCommute(a: PlayerRow, b: PlayerRow)
    requires a.id != b.id
    ensures Apply(Apply([], Insert(a)), Insert(b)) == [ToState(a), ToState(b)]
    ensures Apply(Apply([], Insert(b)), Insert(a)) == [ToState(b), ToState(a)]
    ensures Apply(Apply([], Insert(a)), Insert(b)) != Apply(Apply([], Insert(b)), Insert(a))
  {
    assert !HasRowId([ToState(a)], b.id);
    assert !HasRowId([ToState(b)], a.id);
    assert [ToState(a), ToState(b)][0] != [ToState(b), ToState(a)][0];
  }

  /** `fetchPlayers` success: the list becomes the fetched rows, in the order the store returned them. */
  lemma ReplaceKeepsDistinctIds(rows: seq<PlayerRow>)
    requires forall i, j :: 0 <= i < j < |rows| ==> rows[i].id != rows[j].id
    ensures |Map(rows, ToState)| == |rows|
    ensures DistinctIds(Map(rows, ToState))
  {
  }
}
