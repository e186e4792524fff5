/** The monster-selection screen: which monsters are offered, which are shown as taken, and its texts. */
module MonsterSelect {
  import opened Seqs
  import opened Types
  import opened Catalogue
  import opened Decimal
  import opened GameRules
  import App

  function MonsterId(): Monster -> string { (m: Monster) => m.id }

  /** `MONSTERS.filter(m => !takenMonsterIds.includes(m.id))` */
  function AvailableMonsters(taken: seq<string>): (r: seq<Monster>)
    ensures forall m :: m in r <==> m in Monsters && m.id !in taken
    ensures Subsequence(r, Monsters)
  {
    FilterIsSubsequence(Monsters, NotTakenIn(taken));
    Filter(Monsters, NotTakenIn(taken))
  }

  /** `MONSTERS.filter(m => takenMonsterIds.includes(m.id))`: the "In game" row. */
  function InGameMonsters(taken: seq<string>): (r: seq<Monster>)
    ensures forall m :: m in r <==> m in Monsters && m.id in taken
    ensures Subsequence(r, Monsters)
  {
    FilterIsSubsequence(Monsters, TakenIn(taken));
    Filter(Monsters, TakenIn(taken))
  }

  /** The offered and the in-game monsters split the catalogue: each entry is in exactly one, and there are six in all. */
  lemma AvailableAndInGamePartition(taken: seq<string>)
    ensures |AvailableMonsters(taken)| + |InGameMonsters(taken)| == |Monsters| == 6
    ensures forall m :: m in Monsters ==> (m in AvailableMonsters(taken) <==> m !in InGameMonsters(taken))
  {
    FilterPartition(Monsters, NotTakenIn(taken));
    FilterExt(Monsters, Not(NotTakenIn(taken)), TakenIn(taken));
  }

  /** "All monsters are taken!" replaces the hint exactly when nothing is offered. */
  predicate AllTakenShown(taken: seq<string>)
  {
    |AvailableMonsters(taken)| == 0
  }

  /** Nothing is offered exactly when every catalogue id is among the taken ones. */
  lemma AllTakenIffEveryIdTaken(taken: seq<string>)
    ensures AllTakenShown(taken) <==> forall i :: 0 <= i < |Monsters| ==> Monsters[i].id in taken
  {
    if !AllTakenShown(taken) {
      var m := AvailableMonsters(taken)[0];
      assert m in AvailableMonsters(taken);
    } else {
      forall i | 0 <= i < |Monsters| ensures Monsters[i].id in taken {
        assert Monsters[i] !in AvailableMonsters(taken);
      }
    }
  }

  /** A list holds at least as many entries as distinct values. */
  lemma {:induction false} DistinctValuesBound(s: seq<string>)
    ensures |set x | x in s| <= |s|
    decreases |s|
  {
    if s != [] {
      var init := s[..|s| - 1];
      DistinctValuesBound(init);
      assert (set x | x in s) == (set x | x in init) + {s[|s| - 1]} by {
        assert s == init + [s[|s| - 1]];
      }
    }
  }

  /** Distinct values fill a set of the list's length. */
  lemma {:induction false} DistinctValuesFill(s: seq<string>)
    requires forall i, j :: 0 <= i < j < |s| ==> s[i] != s[j]
    ensures |set x | x in s| == |s|
    decreases |s|
  {
    if s != [] {
      var init := s[..|s| - 1];
      DistinctValuesFill(init);
      assert (set x | x in s) == (set x | x in init) + {s[|s| - 1]} by {
        assert s == init + [s[|s| - 1]];
      }
      assert s[|s| - 1] !in init;
    }
  }

  /** Monsters with distinct ids whose ids are all taken need at least as many taken entries. */
  lemma CoveredIdsBound(ms: seq<Monster>, taken: seq<string>)
    requires DistinctMonsterIds(ms)
    requires forall i :: 0 <= i < |ms| ==> ms[i].id in taken
    ensures |ms| <= |taken|
  {
    var ids := Map(ms, MonsterId());
    DistinctValuesFill(ids);
    DistinctValuesBound(taken);
    var a, b := set x | x in ids, set x | x in taken;
    assert a <= b;
    SubsetSize(a, b);
    assert |a| == |ms|;
  }

  lemma {:induction false} SubsetSize(a: set<string>, b: set<string>)
    requires a <= b
    ensures |a| <= |b|
    decreases |a|
  {
    if a != {} {
      var x :| x in a;
      SubsetSize(a - {x}, b - {x});
    }
  }

  /** With fewer than six taken ids some monster is always offered. */
  lemma FewerThanSixLeavesAChoice(taken: seq<string>)
    requires |taken| < |Monsters|
    ensures !AllTakenShown(taken)
  {
    if AllTakenShown(taken) {
      AllTakenIffEveryIdTaken(taken);
      CatalogueIdsDistinct();
      CoveredIdsBound(Monsters, taken);
    }
  }

  /** The tagline above the grid. */
  function Tagline(joined: nat): (t: string)
    ensures joined == 0 <==> t == "Be the first to join!"
  {
    if joined > 0 then
      var t := NatToString(joined) + Joined(joined);
      assert t[|t| - 1] == 'd';
      t
    else "Be the first to join!"
  }

  /** What follows the count: `player${n > 1 ? 's' : ''} joined`. */
  function Joined(joined: nat): string
  {
    " player" + (if joined > 1 then "s" else "") + " joined"
  }

  /** A non-empty tagline starts with the count, which reads back as the count, and says "players" exactly for more than one. */
  lemma TaglineStatesCount(joined: nat)
    requires joined > 0
    ensures var t := Tagline(joined); var digits := NatToString(joined);
      |t| > |digits| && t[..|digits|] == digits && ParseDecimal(digits) == joined &&
      (t[|digits|..] == " players joined" <==> joined > 1) &&
      (t[|digits|..] == " player joined" <==> joined == 1)
  {
    ParseNatToString(joined);
    var digits := NatToString(joined);
    var t := digits + Joined(joined);
    assert t[..|digits|] == digits;
    assert t[|digits|..] == Joined(joined);
    assert |Joined(joined)| == if joined > 1 then 15 else 14;
  }

  /** The "In game" row is drawn only once someone has joined. */
  predicate InGameRowShown(taken: seq<string>)
  {
    |taken| > 0
  }

  /** A drawn "In game" row always has a monster in it when the ids come from the catalogue. */
  lemma InGameRowNotEmpty(taken: seq<string>)
    requires InGameRowShown(taken)
    requires forall i :: 0 <= i < |taken| ==> exists m :: m in Monsters && m.id == taken[i]
    ensures InGameMonsters(taken) != []
  {
    var m :| m in Monsters && m.id == taken[0];
    assert m in InGameMonsters(taken);
  }

  /** The screen the app shows offers exactly the monsters `getAvailableMonsters` reports for the room. */
  lemma ScreenOffersAvailableMonsters(roomCode: Wrappers.Option<string>, players: seq<PlayerState>, me: string)
    requires App.SelectScreen(roomCode, players, me).MonsterSelectScreen?
    ensures AvailableMonsters(App.SelectScreen(roomCode, players, me).takenMonsterIds) == GetAvailableMonsters(players)
    ensures Tagline(|App.SelectScreen(roomCode, players, me).takenMonsterIds|) == Tagline(|players|)
  {
    var s := App.SelectScreen(roomCode, players, me);
    assert s.takenMonsterIds == TakenIds(players);
  }
}
