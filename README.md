# Target-ring engine of an assassination game

This project models the core of a real-world "assassin" game server (NestJS,
TypeORM, Redis, Socket.IO). Every player of a game hunts one other player, its
`currentTarget`. Together the targets form a ring over the players who are still
alive. A player eliminates their target by presenting the target's secret
six-digit code. The killer then inherits the target's kills and its target.
The service then repairs any other pointer that still names the dead player,
and it finishes the game when one player is left. A location cache answers, for
each player, whether their target is within 50 metres. A socket gateway keeps a
registry from player id to socket id. The gateway uses it to ask a target to
confirm a kill and to tell the hunter the outcome.

The model has five modules:

- `Common` (common.dfy) holds optional values, results, the service's exceptions (each with its message) and JavaScript's decimal `toString()`.
- `PlayerEntity` (player_entity.dfy) holds the `Player` row and the columns of
  the `Game` row the core uses. It also holds the per-game unique constraints,
  foreign-key integrity, `ON DELETE SET NULL`, and relation loading with
  left-join semantics (a dangling key loads as null).
- `TargetRing` (target_ring.dfy) is the pure specification of the ring engine:
  - the circular assignment;
  - the kill checks, with their exact error messages;
  - the kill's column writes;
  - the repair walk;
  - the whole kill step as a relation (`KillStep`);
  - the ring invariant (`IsRing`) and the kill credit it conserves (`Credit`).
- `Players` (player_service.dfy) holds:
  - the class `PlayerService`, whose fields are the player table, the game table, the next primary key and the location cache;
  - its imperative operations. `AssignInitialTargets`, `ReassignTargetsForDead`
    and `KillTarget` are proved against the `TargetRing` specification
    (`AssignTargets`, `IsRepairResult`, `KillStep`). `JoinGame`,
    `JoinStandaloneGame`, `ChangePlayerNickname` and `GenerateUniqueCode` are
    stated against the `PlayerEntity` predicates (`NicknameTaken`, `CodeTaken`,
    `NewPlayer`), and `ProcessLocationUpdate` against `LocationDecision`;
  - the pure location, proximity and paging decisions.
- `Gateway` (game_gateway.dfy) holds the class `GameGateway`. Its socket
  registry is the insertion-ordered `Map<number, string>`, modelled as a
  sequence of entries. The module also holds the join, disconnect, kill-request
  and kill-response handlers.

External inputs become parameters:

- The random shuffle of `assignInitialTargets` is an `order` parameter: any
  ordering of the alive players.
- The `Math.random()` draws of code generation are a sequence of reals in
  `[0, 1)`.
- The haversine distance is an abstract function `dist`.
- The clock reading for `finishedAt` is an integer `now`.
- The database's choice of hunter in `reassignTargetsForDead` is
  nondeterministic: the method picks with `:|`, and the specification
  quantifies over the choice.

The model follows the code, including these behaviours:

- A player can end up targeting itself. When the last two players are a ring,
  the winner inherits the loser's target, which is the winner
  (`KillInRing`, `SelfKillAfterWin`).
- The repair after a kill starts from the dead player's target. The kill has
  already cleared that target, so the walk starts from null and clears the
  pointer of any other hunter of the dead player (`RepairAfterKillClearsHunter`).
  In a well-formed ring no such hunter exists (`NoHunterAfterRingKill`).
- `assignInitialTargets` only requires four alive players. It does not require
  them to be targetless.
- A disconnect removes only the first registry entry that holds the socket id
  (`DisconnectKeepsLaterEntry`).
- The proximity decision compares the unrounded distance with 50. Only the
  reported distance is rounded (`RoundedFiftyNotNearby`).

## Model

| member | source | states |
|---|---|---|
| Common.NatToStringRoundTrip | src/player/player.service.ts:83 | reading the decimal spelling that `toString()` gives back yields the same number |
| Common.NatToStringInjective | src/player/player.service.ts:83 | different numbers get different spellings, so distinct code numbers give distinct codes |
| Common.IntToStringInjective | src/game/game.gateway.ts:47 | different integers get different decimal spellings, sign included |
| Common.NatToStringLength | src/player/player.service.ts:83 | a number of k digits is spelled with exactly k characters |
| PlayerEntity.NewPlayer | src/player/player.entity.ts:18-31 | a created row takes the column defaults: alive, zero kills, no target; nickname, code and game are as given |
| PlayerEntity.LoadedRelationsMatchKeys | src/player/player.entity.ts:21-25 | when every foreign key resolves, the loaded `game` and `currentTarget` relations are exactly the stored keys, null exactly when the column is null |
| PlayerEntity.DeletePlayersKeepsIntegrity | src/player/player.entity.ts:24-25 | deleting players (`ON DELETE SET NULL`) leaves no dangling target, keeps the unique constraints, clears exactly the pointers into the deleted set and keeps every other column |
| PlayerEntity.DeleteGameKeepsIntegrity | src/player/player.entity.ts:21-22 | deleting a game detaches exactly its players, keeps their other columns and keeps integrity against the remaining games |
| TargetRing.OrderingSize | src/player/player.service.ts:106-109 | a shuffle of the alive players has as many entries as there are alive players, so the `< 4` check counts the same thing |
| TargetRing.AssignTargetsEffect | src/player/player.service.ts:112-114 | after the loop, entry i of the shuffle targets entry (i+1) mod n, and a player outside the shuffle is unchanged |
| TargetRing.AssignTargetsKeepsIntegrity | src/player/player.service.ts:112-116 | the assignment changes only `currentTarget`, every new target exists, and the unique constraints and foreign keys still hold |
| TargetRing.AssignedSingleCycle | src/player/player.service.ts:112-114 | with n >= 2 players, following k < n targets from anyone never returns, following n does (exactly one cycle of length n), and nobody targets themselves |
| TargetRing.RingTargetsAlive | src/player/player.service.ts:112-114 | in a ring every alive player targets an alive player of the same game, and nobody targets themselves while two or more are alive |
| TargetRing.AssignEstablishesRing | src/player/player.service.ts:101-117 | linking a shuffle of the alive players in order produces the ring over them, and keeps dead players untargeted |
| TargetRing.CreditAppend | src/player/player.service.ts:153 | the kill credit of a concatenation is the sum of the credits |
| TargetRing.CreditBump | src/player/player.service.ts:153 | raising one member's kills by d raises the credit of the ring by d |
| TargetRing.FindByCode | src/player/player.service.ts:138-141 | the code lookup finds a player exactly when some player of the game holds the code; that player is in the game, holds it, and is the only player of the game who does |
| TargetRing.KillCheck | src/player/player.service.ts:128-150 | each rejection in source order with its exact exception and message; success exactly when the kill is valid, and then the pair is the killer and its loaded target |
| TargetRing.KillTransfersCredit | src/player/player.service.ts:152-162 | the killer gains 1 + the target's kills and takes the target's target; the target is dead and targetless; no one else changes |
| TargetRing.RepairWalk | src/player/player.service.ts:214-235 | a candidate the walk returns is alive, in the game and not the hunter |
| TargetRing.RepairFindsFirstUsable | src/player/player.service.ts:206-239 | the walk from the dead player's target returns the first alive non-hunter on the chain, or null when the chain dead-ends, leaves the game or repeats before one |
| TargetRing.RepairAfterKillClearsHunter | src/player/player.service.ts:159-165 | because the kill clears the dead player's target, any remaining hunter of the dead player is set to null |
| TargetRing.RepairResultEffect | src/player/player.service.ts:196-242 | the repair keeps every row and column except `currentTarget` and retargets only to in-game alive players or null, keeping integrity |
| TargetRing.FinishGame | src/player/player.service.ts:170-175 | the finished game has status finished, the killer as winner, and the clock reading as finish time |
| TargetRing.KillStepEffect | src/player/player.service.ts:121-193 | a rejected kill changes nothing and carries KillCheck's error; an accepted kill is the writes followed by a repair, games change only when one player is left, and integrity holds |
| TargetRing.WithoutTargetShape | src/player/player.service.ts:156 | removing the target from a ring leaves the other players, in order, with the killer last and the target's target first |
| TargetRing.ApplyKillCredit | src/player/player.service.ts:153 | the credit of the ring without the target, after the kill, equals the credit of the old ring |
| TargetRing.ApplyKillKeepsRing | src/player/player.service.ts:152-162 | a kill by the target's hunter turns the ring into the ring without the target, conserving credit |
| TargetRing.NoHunterAfterRingKill | src/player/player.service.ts:165 | after a kill inside a ring nobody targets the dead player, so the repair changes nothing |
| TargetRing.KillInRing | src/player/player.service.ts:121-186 | an accepted kill in a ring keeps the killer alive, kills the killer's old target and hands the killer that victim's target, leaves one fewer alive player in a ring with the same credit, and keeps dead players untargeted; the game finishes exactly when two were alive, and then the winner targets itself with all the credit |
| TargetRing.AcceptedKillRows | src/player/player.service.ts:152-165 | after the writes and any repair, the killer holds 1 + the victim's kills and is alive unless it was the victim, the victim is dead and untargeting, and no name, code, game or other count changes |
| TargetRing.DeadCodeInvalid | src/player/player.service.ts:138-145 | the code of a dead player of the game is an invalid target for any alive player of the game |
| TargetRing.SecondKillFails | src/player/player.service.ts:144-145 | the same code presented again by any alive player of the game is rejected with "Invalid target" |
| TargetRing.SelfKillAfterWin | src/player/player.service.ts:144-175 | a lone winner (who targets themselves) may present their own code: the kill succeeds, the winner dies, no one is alive and the game is not finished again |
| Players.CodeNumber | src/player/player.service.ts:83 | `Math.floor(100000 + r * 900000)` lies in 100000..999999 for a draw in [0, 1) |
| Players.CodeOfIsSixDigits | src/player/player.service.ts:83 | every generated code is six decimal digits without a leading zero, and it denotes the drawn number |
| Players.Round | src/player/player.service.ts:409 | `Math.round` gives the integer within half a unit, rounding halves up |
| Players.LocationDecisionSpec | src/player/player.service.ts:374-411 | no player or no target, or no cached target location, gives "not nearby" with a null distance; otherwise nearby iff the distance is at most 50 metres, and the rounded distance |
| Players.RoundedFiftyNotNearby | src/player/player.service.ts:405-409 | a distance whose rounding is 50 is not always nearby: the threshold applies to the unrounded distance |
| Players.ProximityDecision | src/player/player.service.ts:434-460 | "Location not found" without a hunter location, "No target found" without a target; otherwise the target's id, and nearby iff the target has a cached location within 50 metres |
| Players.LocationAndProximityAgree | src/player/player.service.ts:374-460 | right after a location update, the update's "nearby" and the kill request's proximity check give the same answer about the same target |
| Players.SelfTargetIsNearby | src/player/player.service.ts:156 | a winner who targets themselves is always reported nearby at distance 0 |
| Players.GetPlayerById | src/player/player.service.ts:33-45 | the player is found exactly when they belong to the given existing game; otherwise "Player not found" |
| Players.Ceil | src/player/player.service.ts:287 | `Math.ceil` gives the least integer not below its argument |
| Players.LastPage | src/player/player.service.ts:287 | `last_page` is null (JSON of NaN or Infinity) exactly when the limit is 0 |
| Players.LastPageBounds | src/player/player.service.ts:287 | for a positive limit, the last page is the least page count whose windows cover all rows |
| Players.PagesPartitionRows | src/player/player.service.ts:270-290 | with a positive limit, every row lies in the skip/take window of exactly one page, and that page is between 1 and `last_page` |
| Players.SuccessorMod | src/player/player.service.ts:113 | `(i + 1) % n` is the next index with wrap-around |
| Players.LinkInOrder | src/player/player.service.ts:112-114 | the loop's table is the circular assignment of the shuffle |
| Players.PlayerService.AssignInitialTargets | src/player/player.service.ts:101-117 | "Not enough players" below four alive players with nothing changed; otherwise the circular assignment, which forms the ring |
| Players.PlayerService.ReassignTargetsForDead | src/player/player.service.ts:196-242 | the new table is a repair result: at most one hunter of the dead player is re-pointed to the walk's result, and nothing else changes |
| Players.PlayerService.KillTarget | src/player/player.service.ts:121-193 | the new players and games are exactly the kill step of the old ones, with the outcome it names, and integrity is kept |
| Players.PlayerService.GenerateUniqueCode | src/player/player.service.ts:79-88 | the code is the first draw whose code is free in the game, and it is six digits |
| Players.PlayerService.JoinGame | src/player/player.service.ts:67-99 | "Game not found", "Cannot join a game that has started", "Nickname already taken in this game"; an existing waiting game with a free nickname always accepts, adding a new row with the next id, that game and nickname, the defaults and a fresh code |
| Players.PlayerService.JoinStandaloneGame | src/player/player.service.ts:314-359 | each rejection in source order; a found, gameless player joining an existing waiting game with a free nickname always succeeds, and then only the player's game, code and alive flag change, the nickname is kept and the code is fresh |
| Players.PlayerService.ChangePlayerNickname | src/player/player.service.ts:48-64 | "Player not found"; the nickname is refused exactly when another player of the same game holds it; otherwise only the nickname changes |
| Players.PlayerService.ProcessLocationUpdate | src/player/player.service.ts:374-411 | the location is stored first, then the reply is the location decision on the updated cache |
| Gateway.MapSetGet | src/game/game.gateway.ts:49 | `Map.set` makes the key map to the socket, leaves other keys and positions as they were, and appends only a new key |
| Gateway.DeleteAtGet | src/game/game.gateway.ts:36 | `Map.delete` removes the key and leaves every other key's value |
| Gateway.RemoveFirstShape | src/game/game.gateway.ts:34-39 | the disconnect removes the entry at the first position holding the socket, and nothing if none does |
| Gateway.DisconnectKeepsLaterEntry | src/game/game.gateway.ts:34-39 | when two players share a socket id, only the first is removed and the second stays registered |
| Gateway.RoomName | src/game/game.gateway.ts:47 | the room is "game-" followed by the decimal game id |
| Gateway.RoomNameInjective | src/game/game.gateway.ts:47 | different games get different rooms |
| Gateway.GameGateway.HandleJoinGame | src/game/game.gateway.ts:42-52 | the socket joins the room, the registry maps the player to the socket, any other player is unchanged, and the reply names the room |
| Gateway.GameGateway.HandleDisconnect | src/game/game.gateway.ts:32-40 | the loop removes the first entry holding the socket and nothing else |
| Gateway.GameGateway.HandleKillRequest | src/game/game.gateway.ts:103-135 | an error with the proximity failure's message, "Target is too far away!", or "Target is disconnected"; otherwise "waiting" and a kill request to the target's socket; the reply and popup are `KillRequestReply` of the proximity check and the registry |
| Gateway.GameGateway.HandleKillResponse | src/game/game.gateway.ts:137-175 | a denial changes nothing and notifies a connected hunter; an acceptance runs the kill step on the looked-up target's code and sends "success" or the error message |
| Gateway.KillRequestReply | src/game/game.gateway.ts:108-134 | a popup goes out exactly when the proximity check succeeds with the target nearby and the target's socket is truthy, and it goes to that socket as a `killRequest`; the status is "waiting" exactly then and "error" otherwise |
| Gateway.KillRequestReadsOnlyTargetSocket | src/game/game.gateway.ts:117-122 | two registries that agree on the target's entry give the same reply and popup |
| Gateway.TooFarIgnoresRegistry | src/game/game.gateway.ts:110-114 | when the proximity check says not nearby, every registry gives the same reply, "Target is too far away!", and no popup |

## Left out

- Persistence and caching: TypeORM queries and Redis calls become reads and writes of maps. The one-hour expiry of cached locations is not modelled, so an entry stays until it is overwritten.
- The haversine formula and its floating-point arithmetic (src/player/player.service.ts:414-432). The distance is a parameter.
- `Math.random()`: the draws are a parameter. No claim is made about the shuffle being uniform. Code generation is modelled on exact reals, without floating-point rounding.
- Players.PlayerService.GenerateUniqueCode: requires that some draw gives a free code. The source loops until it finds one, which need not terminate.
- Transactions and concurrency. An operation runs as one atomic step.
- Players.PlayerService.KillTarget: the finish path returns before `commitTransaction` (src/player/player.service.ts:177 against 184). The model treats its writes as committed.
- Players.PlayerService.AssignInitialTargets: requires that the shuffle is an ordering of the alive players, the stand-in for `sort` with a random comparator.
- Emits of `distanceUpdate`, `targetAlert`, `gameStarted` and `gameFinished`, `notifyGameStarted`/`notifyGameFinished`, `handleConnection` and all console logging. Only the handlers' decisions and the notice sent to a socket are modelled.
- `handleLocationUpdate` (src/game/game.gateway.ts:54-84) only forwards to `processLocationUpdate` and emits. Its decision is `ProcessLocationUpdate`.
- Record CRUD outside the ring engine: `getPlayers`, `getAlivePlayers`, `getLeaderboard`, `createStandalonePlayer`, `deletePlayer`, `deleteAllPlayers` and `deleteEveryone`. The integrity effect of deletes is kept as `DeletePlayersKeepsIntegrity`.
- `getAllPlayers`: only the paging arithmetic is modelled. The rows returned by `findAndCount`, and their order, are not.
- `changePlayerNickname` ignores its `gameId` argument, so the model has no such parameter.
- game.entity.ts, the game service and the controllers are not part of this model. A game has only the columns the player code uses.
- Column-level change detection of `save`: the kill's two saves are modelled as sequential column writes. This differs from whole-row writes only when the killer is the target.
- The `'Target not found in this game'` error of `handleKillResponse` (src/game/game.gateway.ts:148) cannot be raised: `getPlayerById` already throws "Player not found" for a missing player. The model has only that branch.
