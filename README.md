# King of Tokyo player mats — a Dafny model of the game-state engine

The app keeps one board per player of a King of Tokyo game in a shared room. Each
client holds a replica of the room's player rows and keeps it current from a
change feed of INSERT, UPDATE and DELETE events. It turns button presses into row
updates against the store: attacks, entering and leaving Tokyo, and stat edits.
The store echoes every update back through the feed.

This project models that engine in Dafny and proves what the code promises about it:

- `Reconciler` is the replica's change handler (`playerRowToState` and the INSERT/UPDATE/DELETE branches).
- `RowStore` models each remote `update(...).eq('id', x)` as a `Write(id, fields)` record, together with its echo through the reconciler.
- `GameRules` holds the hook's pure rules:
  - the current-player lookup;
  - `updateMyStats`;
  - attack targeting and damage;
  - entering and leaving Tokyo;
  - the `selectMonster` reset;
  - `getAvailableMonsters`.
- `GameHook.Game` is the hook as an object with `roomCode`, `players` and `lastAttack` fields. `attack` and `enterTokyo` are loops there that accumulate the writes they emit, and each is proved equal to its rule function.
- `App`, `PlayerBoard`, `RoomJoin`, `MonsterSelect` and `OtherPlayers` hold the UI helpers that gate the engine:
  - the stat clamps and the screen choice;
  - `canAttack`, the damage selector, the disable flags, the energy display and the overlays;
  - the room-code sanitiser and the join gate;
  - the available and in-game monster lists and the tagline;
  - the other-players list and its badges.
- `Session` folds arbitrary sequences of board actions, each echoed through the reconciler. It proves that the table invariant holds after every action: distinct row ids, at most one monster in Tokyo, every stat in range. It also works through a three-player table.
- `Seqs`, `Wrappers`, `Types`, `Decimal` and `Catalogue` provide:
  - the JavaScript array methods used (`filter`, `map`, `find`, `some`);
  - `Option`;
  - the row and state records;
  - decimal rendering;
  - the six-monster catalogue.

The store's echo of a write is modelled with this assumption: the store patches
the row images the replica holds and returns the full patched row as an UPDATE.
This amounts to assuming the replica is current when the write is issued. Lemmas
about echoed writes also require distinct row ids, which the store's primary key
guarantees.

The model follows the code as written, including where that may surprise a reader:

- Two INSERTs of different rows do not commute. Each appends, so the final order depends on delivery order. `Reconciler.InsertsDoNotCommute` exhibits this. Every other pair of events on different rows commutes, as `Reconciler.DistinctRowEventsCommute` proves.
- A deactivating UPDATE (`is_active = false`, as `leaveRoom` issues) keeps the row in every replica. `playerRowToState` drops `is_active`, so inactive players stay listed until the next full fetch.
- `enterTokyo` excludes the actor by row id, while `attack` excludes the attacker by player identity. The model keeps both as written.
- `!roomCode` is JavaScript truthiness, so an empty room code counts as no room (`Types.HasRoom`).
- `Array.from({ length: n })` with a negative `n` draws nothing, so the cube count is `max(0, min(energy, 20))`.

## Model

| member | source | states |
|---|---|---|
| Reconciler.ToState | src/hooks/useGame.ts:32-48 | the row-to-state conversion: row id, player identity, monster (id, name, emoji, colour), health, max health, victory points, energy and Tokyo flag are copied from the row |
| Reconciler.ToStateDropsActivity | src/hooks/useGame.ts:32-48 | row to state conversion keeps the row id and player identity and ignores `is_active`, the room code and the timestamps |
| Reconciler.InsertPlayer | src/hooks/useGame.ts:100-105 | an INSERT whose row id is already present leaves the list unchanged; otherwise the new row is appended at the end |
| Reconciler.InsertKeepsPrefix | src/hooks/useGame.ts:100-105 | an INSERT never disturbs the existing rows, and afterwards the row id is present |
| Reconciler.UpdatePlayer | src/hooks/useGame.ts:106-110 | an UPDATE keeps length and order; every row with the event's id becomes the new image, every other row is kept |
| Reconciler.UpdateUnknownIsNoOp | src/hooks/useGame.ts:106-110 | an UPDATE for a row id the replica does not hold is dropped |
| Reconciler.DeletePlayer | src/hooks/useGame.ts:111-114 | after a DELETE the list holds exactly the rows with other ids, and none with the deleted id |
| Reconciler.DeleteAbsentIsNoOp | src/hooks/useGame.ts:111-114 | deleting an absent id changes nothing |
| Reconciler.DeleteKeepsOrder | src/hooks/useGame.ts:111-114 | DELETE keeps the survivors in their original order (it distributes over concatenation) |
| Reconciler.DeactivationKeepsRow | src/hooks/useGame.ts:106-110 | an UPDATE carrying `is_active = false` keeps the row in place, with the new image |
| Reconciler.ApplyAll | src/hooks/useGame.ts:97-115 | the events applied in delivery order; the final list shows the last event and has grown by at most one row per event |
| Reconciler.ApplyIdempotent | src/hooks/useGame.ts:100-114 | applying any event twice equals applying it once |
| Reconciler.ApplyPreservesDistinctIds | src/hooks/useGame.ts:100-114 | each event keeps row ids distinct |
| Reconciler.FilterPreservesDistinctIds | src/hooks/useGame.ts:113 | filtering a list with distinct ids keeps them distinct |
| Reconciler.ApplyAllPreservesDistinctIds | src/hooks/useGame.ts:97-115 | any sequence of events keeps row ids distinct |
| Reconciler.ApplyAllConcat | src/hooks/useGame.ts:97-115 | delivering one stretch of the feed and then another is delivering the two joined |
| Reconciler.Apply | src/hooks/useGame.ts:100-114 | the handler for one event; afterwards the list shows it (an inserted id is present, every row with an updated id is the new image, a deleted id is absent), every row with another id is still there, and the list grows by at most one |
| Reconciler.SettledIsNoOp | src/hooks/useGame.ts:100-114 | an event the list already shows leaves the list unchanged |
| Reconciler.SettledSurvivesOthers | src/hooks/useGame.ts:100-114 | an event about another row leaves what the list shows about this row as it was |
| Reconciler.SettledSurvivesAll | src/hooks/useGame.ts:97-115 | a run of events about other rows does the same |
| Reconciler.RedeliveryIsHarmless | src/hooks/useGame.ts:97-115 | an event delivered a second time, anywhere in the feed, has no effect on the final list, provided no event about its own row came in between (in particular, any event delivered twice in a row) |
| Reconciler.RedeliveryAfterOwnDeleteMatters | src/hooks/useGame.ts:100-114 | without that proviso it fails: insert, delete, insert of one row ends with the row, insert, delete ends without it |
| Reconciler.UpdatesCommute | src/hooks/useGame.ts:106-110 | UPDATEs of different rows commute |
| Reconciler.UpdateDeleteCommute | src/hooks/useGame.ts:106-114 | an UPDATE and a DELETE of different rows commute |
| Reconciler.InsertUpdateCommute | src/hooks/useGame.ts:100-110 | an INSERT and an UPDATE of different rows commute |
| Reconciler.InsertDeleteCommute | src/hooks/useGame.ts:100-114 | an INSERT and a DELETE of different rows commute |
| Reconciler.DeletesCommute | src/hooks/useGame.ts:111-114 | any two DELETEs commute |
| Reconciler.DistinctRowEventsCommute | src/hooks/useGame.ts:100-114 | two events on different rows commute unless both are INSERTs |
| Reconciler.InsertsDoNotCommute | src/hooks/useGame.ts:100-105 | two INSERTs of different rows end in delivery order, so swapping them changes the replica |
| Reconciler.ReplaceKeepsDistinctIds | src/hooks/useGame.ts:74-76 | a full fetch of rows with distinct ids yields a replica of the same length with distinct ids |
| RowStore.PatchState | src/hooks/useGame.ts:266-269 | patching a row never changes its row id or player identity |
| RowStore.PatchCommutesWithToState | src/hooks/useGame.ts:32-48 | patching a stored row and converting it equals converting and then patching the state |
| RowStore.ApplyWrite | src/hooks/useGame.ts:106-110 | an echoed write keeps length and ids and touches no row with another id |
| RowStore.ApplyWrites | src/hooks/useGame.ts:106-110 | a series of echoed writes keeps length and ids |
| RowStore.PatchWith | src/hooks/useGame.ts:106-110 | folding writes over one row keeps its row id and player identity |
| RowStore.ApplyWriteDistinct | src/hooks/useGame.ts:106-110 | with distinct ids an echoed write patches exactly the rows with its id and keeps ids distinct |
| RowStore.ApplyWritesPointwise | src/hooks/useGame.ts:106-110 | with distinct ids, echoed writes act row by row: each row receives exactly the writes to its id, in order |
| RowStore.ApplyWritesConcat | src/hooks/useGame.ts:106-110 | echoing two batches in turn equals echoing their concatenation |
| RowStore.PatchWithConcat | src/hooks/useGame.ts:106-110 | patching with two batches in turn equals patching with their concatenation |
| RowStore.PatchWithOthers | src/hooks/useGame.ts:106-110 | writes to other ids leave a row unchanged |
| RowStore.PatchWithPerTarget | src/hooks/useGame.ts:284-291 | one write per distinct target patches a row exactly when it is a target |
| RowStore.PerTargetWritesApplied | src/hooks/useGame.ts:284-291 | echoing one write per target patches exactly the target rows and leaves every other row unchanged |
| GameRules.CurrentPlayer | src/hooks/useGame.ts:58 | the current player is the first row with this device's identity, and is absent exactly when no row has it |
| GameRules.UpdateMyStats | src/hooks/useGame.ts:255-270 | no current player means no write; otherwise one write to the current row carrying exactly the given fields |
| GameRules.StatEditTouchesOnlyActor | src/hooks/useGame.ts:255-270 | echoed, a stat edit changes only the given fields of the current row and leaves every other row unchanged |
| GameRules.AttackWrites | src/hooks/useGame.ts:273-306 | the writes `attack` emits: one per target, in target order, each to the target's row id and of health alone, set to max(0, health - damage) |
| GameRules.AttackNoticeOf | src/hooks/useGame.ts:308-318 | the notice `attack` sets: present exactly when there is a target, carrying the damage and one name per target |
| GameRules.AttackRefused | src/hooks/useGame.ts:274 | without a current player, without a room, or with damage <= 0, attack emits no writes and no notice |
| GameRules.AttackNoticeIffHit | src/hooks/useGame.ts:308-318 | a notice is produced exactly when some target was hit; it names the attacker's monster, each target's monster in order, and the damage |
| GameRules.InTokyoAttackTargets | src/hooks/useGame.ts:278-291 | from Tokyo the targets are exactly the living players outside Tokyo with another identity, in list order |
| GameRules.OutsideAttackTarget | src/hooks/useGame.ts:293-305 | from outside there is at most one target: the first living player in Tokyo with another identity |
| GameRules.AttackWritesLowerHealth | src/hooks/useGame.ts:284-305 | one write per target, in order; each sets only health, to max(0, health - damage), strictly below the old value, and never targets the attacker |
| GameRules.AttackApplied | src/hooks/useGame.ts:273-319 | echoed, an attack sets each target's health to max(0, health - damage) and changes nothing else |
| GameRules.TargetsAreDistinctRows | src/hooks/useGame.ts:280-296 | targets are distinct rows of the replica |
| GameRules.EnterTokyoWrites | src/hooks/useGame.ts:322-342 | without a current player nothing is written; otherwise writes that only clear the Tokyo flag of rows other than the actor's, followed last by the actor's own entry write |
| GameRules.EnterTokyoSettles | src/hooks/useGame.ts:322-342 | echoed, entering leaves the actor in Tokyo with victory points min(20, vp + 1) and every other row out of Tokyo and otherwise unchanged |
| GameRules.ClearsApplied | src/hooks/useGame.ts:326-332 | the clearing phase takes every other row out of Tokyo and leaves the actor's row untouched |
| GameRules.EnterTokyoSoleOccupant | src/hooks/useGame.ts:322-342 | after entering, the actor's row is the only one in Tokyo |
| GameRules.LeaveTokyoWrites | src/hooks/useGame.ts:345-352 | without a current player nothing is written; otherwise a single write to the actor's row id clearing its Tokyo flag and nothing else |
| GameRules.LeaveTokyoClearsOnlyActor | src/hooks/useGame.ts:345-352 | leaving clears only the actor's Tokyo flag and keeps its victory points and every other row |
| GameRules.SelectMonster | src/hooks/useGame.ts:198-242 | without a room nothing happens; in a room, an existing row for this identity is reset exactly when there is one, by its id, to the new monster, health and max health 10, no points, no energy, outside Tokyo and active again; otherwise a new row for this room, identity and monster is inserted |
| GameRules.ResetStartsFresh | src/hooks/useGame.ts:215-229 | a reset row is active, shows the chosen monster, and has health and max health 10, no victory points, no energy, and is outside Tokyo |
| GameRules.GetAvailableMonsters | src/hooks/useGame.ts:374-377 | the available monsters are exactly the catalogue entries whose id no player's monster has, in catalogue order |
| GameHook.Game.constructor | src/hooks/useGame.ts:51-57 | a fresh hook has no room, no players and no notice |
| GameHook.Game.EnterRoom | src/hooks/useGame.ts:144 | entering a room records its code |
| GameHook.Game.Replace | src/hooks/useGame.ts:61-77 | a successful fetch, which returns only the room's active rows, replaces the replica with the converted rows in store order; a failed one keeps it |
| GameHook.Game.OnChange | src/hooks/useGame.ts:97-115 | the handler updates the replica as the reconciler prescribes and keeps ids distinct |
| GameHook.Game.LeaveRoom | src/hooks/useGame.ts:185-195 | with a room and a current player, one deactivating write to that row, then no room and an empty replica; otherwise nothing |
| GameHook.Game.Attack | src/hooks/useGame.ts:273-319 | the loop emits exactly the attack's writes, and the notice is replaced only when someone was hit |
| GameHook.Game.EnterTokyo | src/hooks/useGame.ts:322-342 | the loop emits the clears of the other occupants in list order, then the actor's entry write |
| App.ClampHealth | src/App.tsx:71 | the new health is health + delta when that is in [0, maxHealth], else the nearer bound |
| App.ClampVictoryPoints | src/App.tsx:77 | the new victory points are vp + delta when that is in [0, 20], else the nearer bound |
| App.ClampEnergy | src/App.tsx:83 | the new energy is energy + delta, or 0 when that is negative; there is no upper bound |
| App.HandleHealthChange | src/App.tsx:69-73 | no current player means no write; otherwise one write of health alone, the current health plus the change clamped to [0, maxHealth] |
| App.HandleVictoryPointsChange | src/App.tsx:75-79 | no current player means no write; otherwise one write of victory points alone, the current points plus the change clamped to [0, 20] |
| App.HandleEnergyChange | src/App.tsx:81-85 | no current player means no write; otherwise one write of energy alone, the current energy plus the change, raised to 0 when it would go negative |
| App.SelectScreen | src/App.tsx:87-127 | no room shows room join; a room without a current player shows monster select with every player's monster id; otherwise the board of the current player |
| PlayerBoard.CanAttack | src/components/PlayerBoard.tsx:39-41 | the button is enabled exactly when some player with another identity and positive health is on the other side of Tokyo from this player |
| PlayerBoard.CanAttackIffTargets | src/components/PlayerBoard.tsx:39-41 | the attack button is enabled exactly when attack, called with a room and positive damage, finds a target |
| PlayerBoard.TokyoClick | src/components/PlayerBoard.tsx:43-49 | the Tokyo button leaves Tokyo when the player is in it and enters otherwise |
| PlayerBoard.TokyoClickToggles | src/components/PlayerBoard.tsx:43-49 | echoed, a click flips the current player's own Tokyo flag |
| PlayerBoard.DamageDown | src/components/PlayerBoard.tsx:102 | − lowers the damage by one, but not below 1, and keeps a damage of at most 10 in [1, 10] |
| PlayerBoard.DamageUp | src/components/PlayerBoard.tsx:112 | + raises the damage by one, but not above 10, and keeps a damage of at least 1 in [1, 10] |
| PlayerBoard.DamageStaysInRange | src/components/PlayerBoard.tsx:102-113 | from any damage in [1, 10] (the selector starts at 1), every sequence of − and + presses stays in [1, 10] |
| PlayerBoard.DamageButtonsDisabledIffNoEffect | src/components/PlayerBoard.tsx:102-113 | − is disabled at 1 and + at 10, exactly when the press would not change the damage |
| PlayerBoard.DisabledButtons | src/components/PlayerBoard.tsx:153-224 | a button is disabled at its bound: health − at 0, health + at max health, victory − at 0, victory + at 20, energy − at 0; energy + never is |
| PlayerBoard.DisabledIffNoEffect | src/components/PlayerBoard.tsx:153-224 | for stats in range, each stat button is disabled exactly when its handler would write back the same value |
| PlayerBoard.EnergyCubes | src/components/PlayerBoard.tsx:210 | exactly min(energy, 20) cubes are drawn for non-negative energy, and none for negative energy |
| PlayerBoard.EnergyOverflow | src/components/PlayerBoard.tsx:215-216 | the +n badge shows exactly when energy exceeds 20, with n = energy - 20 |
| PlayerBoard.EnergyDisplayShowsAll | src/components/PlayerBoard.tsx:210-216 | cubes plus the badge's number equal a non-negative energy |
| PlayerBoard.BoardOverlays | src/components/PlayerBoard.tsx:243-260 | DEFEATED shows iff health <= 0, VICTORY iff victory points >= 20 and health > 0, never both |
| PlayerBoard.EnabledAttackButtonHits | src/components/PlayerBoard.tsx:118-122 | on the board shown for a room, an enabled attack button with the selector's damage always hits and sets a notice |
| RoomJoin.SanitiseCode | src/components/RoomJoin.tsx:28-32 | the code has only digits and at most four of them, and is the input's leading digits in order |
| RoomJoin.SanitiseIdempotent | src/components/RoomJoin.tsx:28-32 | sanitising a sanitised code changes nothing |
| RoomJoin.SanitiseKeepsCodes | src/components/RoomJoin.tsx:28-32 | up to four digits are kept exactly as typed |
| RoomJoin.SanitiseIgnoresExtra | src/components/RoomJoin.tsx:28-32 | once four digits are typed, further input leaves the code unchanged |
| RoomJoin.JoinButtonEnabled | src/components/RoomJoin.tsx:74 | the join button is enabled exactly when the code has four characters and no join is in progress |
| RoomJoin.HandleJoin | src/components/RoomJoin.tsx:19-26 | join is asked for exactly when the code has four characters, and a refused join clears the code |
| RoomJoin.EnabledButtonJoins | src/components/RoomJoin.tsx:71-75 | a click on the enabled join button always asks to join, with a code of four digits |
| RoomJoin.FilledUnderlinesCountDigits | src/components/RoomJoin.tsx:60-65 | the filled underlines are the first min(4, digits typed) |
| MonsterSelect.AvailableMonsters | src/components/MonsterSelect.tsx:13 | the offered monsters are exactly the catalogue entries whose id is not taken, in catalogue order |
| MonsterSelect.InGameMonsters | src/components/MonsterSelect.tsx:64 | the in-game row lists exactly the catalogue entries whose id is taken, in catalogue order |
| MonsterSelect.AvailableAndInGamePartition | src/components/MonsterSelect.tsx:13-64 | offered and in-game monsters split the six catalogue entries: each is in exactly one list |
| MonsterSelect.AllTakenIffEveryIdTaken | src/components/MonsterSelect.tsx:55-56 | "All monsters are taken!" shows exactly when every catalogue id is taken |
| MonsterSelect.FewerThanSixLeavesAChoice | src/components/MonsterSelect.tsx:55-56 | with fewer than six taken ids some monster is always offered |
| MonsterSelect.Tagline | src/components/MonsterSelect.tsx:33-36 | the tagline reads "Be the first to join!" exactly when nobody has joined |
| MonsterSelect.TaglineStatesCount | src/components/MonsterSelect.tsx:33-36 | otherwise it starts with the count, which reads back as the count, and says "players" exactly for more than one |
| MonsterSelect.InGameRowNotEmpty | src/components/MonsterSelect.tsx:61-67 | the in-game row is drawn only once someone has joined; when every taken id is a catalogue id, it then holds a monster |
| MonsterSelect.ScreenOffersAvailableMonsters | src/App.tsx:99-110 | the selection screen offers exactly what `getAvailableMonsters` reports, and its tagline counts the room's players |
| OtherPlayers.Others | src/components/OtherPlayers.tsx:10 | the list holds exactly the players with another identity, in the order of the player list |
| OtherPlayers.OthersConcat | src/components/OtherPlayers.tsx:10 | the others of two lists joined are the others of the first followed by the others of the second |
| OtherPlayers.OthersAndOwnRowsPartition | src/components/OtherPlayers.tsx:10 | every row is either one of the others or one of the viewer's own |
| OtherPlayers.CurrentPlayerNotAmongOthers | src/components/OtherPlayers.tsx:10 | the viewer's own board is never among the others |
| OtherPlayers.WaitingIffAlone | src/components/OtherPlayers.tsx:12-19 | the waiting view shows exactly when every row is the viewer's own |
| OtherPlayers.SectionTitle | src/components/OtherPlayers.tsx:25 | the title is not empty and ends with its closing parenthesis |
| OtherPlayers.SectionTitleCountsOthers | src/components/OtherPlayers.tsx:25 | the title is "Other Players (", then the number of others, which reads back as that number, then ")" |
| OtherPlayers.Card | src/components/OtherPlayers.tsx:31-53 | a card is defeated and shows the skull iff health <= 0, shows the crown iff victory points >= 20 and health > 0 (never both), and is in-tokyo iff in Tokyo |
| OtherPlayers.CardAgreesWithBoard | src/components/OtherPlayers.tsx:52-53 | a card's skull and crown agree with that player's own board overlays |
| Types.DefeatExcludesVictory | src/components/PlayerBoard.tsx:243-252 | no player is both defeated and victorious |
| Catalogue.CatalogueIdsDistinct | src/data/monsters.ts:3-40 | the catalogue has six entries with distinct ids |
| Session.Run | src/hooks/useGame.ts:255-352 | a sequence of board actions, each echoed before the next; the row count and every row's id stay as they were |
| Session.StepKeepsGood | src/hooks/useGame.ts:255-352 | every board action, echoed, keeps ids distinct, at most one monster in Tokyo and every stat in range |
| Session.RunKeepsGood | src/hooks/useGame.ts:255-352 | any sequence of board actions keeps that invariant and the number of rows |
| Session.TableStaysGood | src/hooks/useGame.ts:255-352 | the three-player worked table starts good and stays good, with three rows, under any sequence of board actions |
| Session.AttackFromTokyoExample | src/hooks/useGame.ts:278-291 | Gigazaur in Tokyo striking for 2 writes The King and Kraken down to 8, in table order |
| Session.AttackFromTokyoNotice | src/hooks/useGame.ts:308-314 | that strike's notice names Gigazaur, then The King and Kraken, with damage 2 |
| Session.AttackOnTokyoExample | src/hooks/useGame.ts:293-305 | The King outside striking for 2 writes only Gigazaur, down to 8 |
| Session.AttackWithoutTargetsExample | src/hooks/useGame.ts:278-318 | with everyone outside defeated, a strike from Tokyo writes nothing and sets no notice |
| Session.EnterTokyoExample | src/hooks/useGame.ts:322-342 | Kraken entering Tokyo first sends Gigazaur out, then enters with one victory point |

## Left out

- Store I/O is not modelled: the client, queries, inserts and the channel subscription. Each write is an emitted `Write` record, each fetch is `Game.Replace`, and each feed event is `Game.OnChange`.
- The store's echo assumes the replica holds the store's current image. Cross-client races, lost events and stale replicas are not modelled.
- `await`, React state, effects and callbacks are not modelled. Each action reads the replica as it stands when it is called.
- The 3-second timer that clears the attack notice is left out. It is a clock.
- The notice's timestamp and the store's `created_at`/`updated_at` are left out. They are clocks.
- `createRoom` is not modelled: the random room code and its retry on a duplicate-code error depend on randomness and a remote error. `Game.EnterRoom` stands for a successful create or join.
- `joinRoom` is not modelled: its room lookup and its upper-casing of the code are remote I/O and Unicode case mapping. Only its success or failure enters, as the `success` argument of `RoomJoin.HandleJoin`.
- The player-id token and its local storage are a parameter: `myPlayerId`.
- GameRules.SelectMonster: the new row's stats are whatever defaults the store fills in on insert. Those defaults are not part of this model, so an inserted row is described only by its room, identity and monster.
- `selectMonster`'s refetch after writing is `Game.Replace`.
- The health and victory-point percentage bars are floating point.
- Rendering is not modelled: markup, styles, the clipboard, URL handling and the Tokyo skyline picture.
- PlayerBoard.EnergyCubes: the cubes' animation delays are not modelled.
- Monster emoji are written as Unicode code points.
- Malformed or unexpected change events are not modelled, because the code does not handle them; they are not a state of the model.
- A resync after a dropped connection is not modelled, because the code does not implement one.
