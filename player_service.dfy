/** `PlayerService` of src/player/player.service.ts: the player table and the
    game rows as the service's state, and its operations as methods proved
    against the definitions of module TargetRing. The location cache (Redis)
    is a map of its own; distances are an abstract function. */
module Players {
  import opened Common
  import opened PlayerEntity
  import opened TargetRing

  // ---------------------------------------------------------------------------
  // Secret codes: Math.floor(100000 + Math.random() * 900000).toString()
  // ---------------------------------------------------------------------------

  /** A random draw of `Math.random()`: a number in [0, 1). */
  predicate IsDraw(r: real)
  {
    0.0 <= r < 1.0
  }

  /** The six-digit number a draw becomes. */
  function CodeNumber(r: real): (n: nat)
    requires IsDraw(r)
    ensures 100000 <= n <= 999999
  {
    (100000.0 + r * 900000.0).Floor
  }

  /** The secret code a draw becomes, as a decimal string. */
  function CodeOf(r: real): string
    requires IsDraw(r)
  {
    NatToString(CodeNumber(r))
  }

  /** A code of exactly six decimal digits, the first not a zero. */
  predicate IsSixDigitCode(code: string)
  {
    |code| == 6 && IsDigits(code) && code[0] != '0'
  }

  /** Every code spells a number in [100000, 999999] with six digits, and the
      number can be read back from it. */
  lemma CodeOfIsSixDigits(r: real)
    requires IsDraw(r)
    ensures IsSixDigitCode(CodeOf(r))
    ensures DigitsValue(CodeOf(r)) == CodeNumber(r)
  {
    assert Pow10(5) == 100000 && Pow10(6) == 1000000;
    NatToStringLength(CodeNumber(r), 6);
    NatToStringRoundTrip(CodeNumber(r));
  }

  /** The draws a regeneration loop may consume: all in [0, 1), and one of them
      gives a code nobody in game `g` holds yet, so the loop stops. */
  predicate DrawsFindFreeCode(t: Table, g: int, draws: seq<real>)
  {
    (forall i :: 0 <= i < |draws| ==> IsDraw(draws[i])) &&
    exists i :: 0 <= i < |draws| && !CodeTaken(t, g, CodeOf(draws[i]))
  }

  // ---------------------------------------------------------------------------
  // Locations and proximity (processLocationUpdate, verifyProximity)
  // ---------------------------------------------------------------------------

  datatype Location = Location(lat: real, lng: real)

  /** The radius, in metres, within which a target counts as nearby. */
  const ProximityThreshold: real := 50.0

  /** `Math.round`: the nearest integer, halves rounded up. */
  function Round(d: real): (n: int)
    ensures d - 0.5 < n as real <= d + 0.5
  {
    (d + 0.5).Floor
  }

  /** The reply to a location update: `{ targetNearby, distance }`, a null distance as None. */
  datatype LocationReply = LocationReply(targetNearby: bool, distance: Option<int>)

  /** The reply of `verifyProximity`: `{ isNearby, targetId }`. */
  datatype ProximityReply = ProximityReply(isNearby: bool, targetId: int)

  /** The decision of `processLocationUpdate(playerId, here)`, taken once `here`
      is in the cache `locs`: no target (missing player, null or dangling
      pointer) or no cached target location gives "not nearby, no distance";
      otherwise the distance to the target, nearby within the threshold. */
  function LocationDecision(t: Table, locs: map<int, Location>, playerId: int, here: Location,
                            dist: (Location, Location) -> real): (r: LocationReply)
  {
    if playerId !in t || TargetOf(t, playerId).None? then LocationReply(false, None)
    else
      var target := TargetOf(t, playerId).value;
      if target !in locs then LocationReply(false, None)
      else
        var d := dist(here, locs[target]);
        LocationReply(d <= ProximityThreshold, Some(Round(d)))
  }

  /** The location decision: nearby exactly when the
      player has a target with a cached location within 50 metres; a distance
      is reported exactly when the target has a cached location, rounded. */
  lemma LocationDecisionSpec(t: Table, locs: map<int, Location>, playerId: int, here: Location,
                             dist: (Location, Location) -> real)
    ensures var r := LocationDecision(t, locs, playerId, here, dist);
      (r.distance.Some? <==>
        playerId in t && TargetOf(t, playerId).Some? && TargetOf(t, playerId).value in locs) &&
      (r.targetNearby <==> (r.distance.Some? &&
                             dist(here, locs[TargetOf(t, playerId).value]) <= ProximityThreshold)) &&
      (r.distance.Some? ==>
        var d := dist(here, locs[TargetOf(t, playerId).value]);
        d - 0.5 < r.distance.value as real <= d + 0.5)
  {
  }

  /** The rounded distance does not decide nearness: a target 50.3 m away is
      reported at distance 50 yet not nearby. */
  lemma RoundedFiftyNotNearby()
    ensures var d := 50.3; Round(d) == 50 && !(d <= ProximityThreshold)
  {
  }

  /** `verifyProximity(hunterId)`: a hunter with no cached location raises
      "Location not found"; a missing hunter or one with no target raises
      "No target found"; otherwise the target's id, nearby only when the target
      has a cached location within the threshold. */
  function ProximityDecision(t: Table, locs: map<int, Location>, hunterId: int,
                             dist: (Location, Location) -> real): (r: Result<ProximityReply, Error>)
    ensures hunterId !in locs ==> r == Err(Failure("Location not found"))
    ensures hunterId in locs && (hunterId !in t || TargetOf(t, hunterId).None?) ==>
      r == Err(Failure("No target found"))
    ensures r.Ok? <==> hunterId in locs && hunterId in t && TargetOf(t, hunterId).Some?
    ensures r.Ok? ==> var target := TargetOf(t, hunterId).value;
      r.value.targetId == target &&
      (r.value.isNearby <==> target in locs && dist(locs[hunterId], locs[target]) <= ProximityThreshold)
  {
    if hunterId !in locs then Err(Failure("Location not found"))
    else if hunterId !in t || TargetOf(t, hunterId).None? then Err(Failure("No target found"))
    else
      var target := TargetOf(t, hunterId).value;
      if target !in locs then Ok(ProximityReply(false, target))
      else Ok(ProximityReply(dist(locs[hunterId], locs[target]) <= ProximityThreshold, target))
  }

  /** The location update and the proximity check agree: once a player's
      location is cached, both report "nearby" for exactly the same target. */
  lemma LocationAndProximityAgree(t: Table, locs: map<int, Location>, playerId: int, here: Location,
                                  dist: (Location, Location) -> real)
    requires playerId in t && TargetOf(t, playerId).Some?
    ensures var locs' := locs[playerId := here];
      ProximityDecision(t, locs', playerId, dist).Ok? &&
      (LocationDecision(t, locs', playerId, here, dist).targetNearby <==>
       ProximityDecision(t, locs', playerId, dist).value.isNearby)
  {
  }

  /** Because the update caches the player's own location first, a winner left
      targeting itself is always at distance 0 from its target when the
      distance of a point to itself is 0. */
  lemma SelfTargetIsNearby(t: Table, locs: map<int, Location>, w: int, here: Location,
                           dist: (Location, Location) -> real)
    requires w in t && t[w].currentTarget == Some(w)
    requires dist(here, here) == 0.0
    ensures LocationDecision(t, locs[w := here], w, here, dist) == LocationReply(true, Some(0))
  {
  }

  // ---------------------------------------------------------------------------
  // getPlayerById and getAllPlayers
  // ---------------------------------------------------------------------------

  /** `getPlayerById(gameId, id)`: the player with that id in that game, or "Player not found". */
  function GetPlayerById(t: Table, games: Games, gameId: int, id: int): (r: Result<int, Error>)
    ensures r.Ok? <==> InGame(t, id, gameId) && gameId in games
    ensures r.Ok? ==> r.value == id
    ensures r.Err? ==> r.error == NotFound("Player not found")
  {
    if InGame(t, id, gameId) && gameId in games then Ok(id) else Err(NotFound("Player not found"))
  }

  /** `Math.ceil` of a real. */
  function Ceil(x: real): (n: int)
    ensures x <= n as real < x + 1.0
  {
    -((-x).Floor)
  }

  /** The rows a page starts after: `(page - 1) * limit`. */
  function Skip(page: int, limit: int): int
  {
    (page - 1) * limit
  }

  /** `last_page: Math.ceil(total / limit)`; division by a zero limit gives
      Infinity or NaN, which the JSON reply carries as null (None). */
  function LastPage(total: nat, limit: int): (r: Option<int>)
    ensures r.None? <==> limit == 0
  {
    if limit == 0 then None else Some(Ceil(total as real / limit as real))
  }

  /** For a positive limit the last page is the least page count that holds
      every row: (last - 1) * limit < total <= last * limit, and 0 for no rows. */
  lemma LastPageBounds(total: nat, limit: int)
    requires limit > 0
    ensures var last := LastPage(total, limit).value;
      (last - 1) * limit < total <= last * limit && (last == 0 <==> total == 0) && last >= 0
  {
    var x := total as real / limit as real;
    var last := Ceil(x);
    assert x * (limit as real) == total as real;
    assert (last as real) * (limit as real) >= x * (limit as real);
    assert ((last - 1) as real) * (limit as real) < x * (limit as real);
  }

  /** The page a row at position i (in the reply's id order) is shown on. */
  function PageOf(i: nat, limit: int): int
    requires limit > 0
  {
    i / limit + 1
  }

  /** Row i lies in the window of page PageOf(i). */
  lemma PageOfWindow(limit: int, i: nat)
    requires limit > 0
    ensures Skip(PageOf(i, limit), limit) <= i < Skip(PageOf(i, limit), limit) + limit
  {
    assert Skip(PageOf(i, limit), limit) == (i / limit) * limit;
  }

  /** The page of an existing row is at most the last page. */
  lemma PageWithinLast(total: nat, limit: int, i: nat)
    requires limit > 0 && i < total
    ensures 1 <= PageOf(i, limit) <= LastPage(total, limit).value
  {
    LastPageBounds(total, limit);
    PageOfWindow(limit, i);
    var q := i / limit;
    var last := LastPage(total, limit).value;
    assert q * limit <= i < total <= last * limit;
    if q >= last {
      MulMonotone(last, q, limit);
    }
  }

  lemma MulMonotone(a: int, b: int, c: int)
    requires a <= b && c > 0
    ensures a * c <= b * c
  {
  }

  /** Windows of different pages do not overlap. */
  lemma WindowsDisjoint(limit: int, i: nat, p: int, q: int)
    requires limit > 0 && p < q
    requires Skip(p, limit) <= i < Skip(p, limit) + limit
    ensures !(Skip(q, limit) <= i)
  {
    assert (p - 1) * limit + limit == p * limit;
    assert p * limit <= (q - 1) * limit;
  }

  /** With a positive limit the pages 1 .. last partition the rows: row i is in
      the window of page PageOf(i) and of no other page, and that page is
      between 1 and the last page. */
  lemma PagesPartitionRows(total: nat, limit: int, i: nat, page: int)
    requires limit > 0 && i < total
    ensures 1 <= PageOf(i, limit) <= LastPage(total, limit).value
    ensures Skip(PageOf(i, limit), limit) <= i < Skip(PageOf(i, limit), limit) + limit
    ensures Skip(page, limit) <= i < Skip(page, limit) + limit ==> page == PageOf(i, limit)
  {
    PageWithinLast(total, limit, i);
    PageOfWindow(limit, i);
    var p := PageOf(i, limit);
    if Skip(page, limit) <= i < Skip(page, limit) + limit {
      if page < p {
        WindowsDisjoint(limit, i, page, p);
      } else if page > p {
        WindowsDisjoint(limit, i, p, page);
      }
    }
  }

  /** `(i + 1) % n` of a position is the next position, wrapping to 0. */
  lemma SuccessorMod(i: int, n: int)
    requires 0 <= i < n
    ensures (i + 1) % n == if i + 1 < n then i + 1 else 0
  {
    if i + 1 == n {
      assert (i + 1) % n == n % n == 0;
    }
  }

  /** The assignment loop of `assignInitialTargets`:
      `shuffled[i].currentTarget = shuffled[(i + 1) % n]` for each i in turn. */
  method LinkInOrder(t0: Table, order: seq<int>) returns (t: Table)
    requires Distinct(order) && |order| >= 1
    requires forall x :: x in order ==> x in t0
    ensures t == AssignTargets(t0, order)
  {
    t := t0;
    var n := |order|;
    for i := 0 to n
      invariant t == AssignPrefix(t0, order, i)
    {
      var x := order[i];
      SuccessorMod(i, n);
      t := t[x := t[x].(currentTarget := Some(order[(i + 1) % n]))];
    }
  }

  // ---------------------------------------------------------------------------
  // The service
  // ---------------------------------------------------------------------------

  class PlayerService {
    /** The `player` table. */
    var players: Table
    /** The `game` table, as far as the player code uses it. */
    var games: Games
    /** The next value of the player table's serial primary key. */
    var nextId: int
    /** The location cache: `player:<id>:loc`. */
    var locations: map<int, Location>

    /** The table's integrity: foreign keys resolve, the per-game unique
        constraints hold, and the keys are serial values handed out so far. */
    ghost predicate Valid()
      reads this
    {
      ReferencesValid(players, games) && UniqueInGames(players) && nextId >= 1 &&
      forall id :: id in players ==> 1 <= id < nextId
    }

    constructor(games0: Games)
      ensures Valid()
      ensures players == map[] && games == games0 && nextId == 1 && locations == map[]
    {
      players := map[];
      games := games0;
      nextId := 1;
      locations := map[];
    }

    /** `assignInitialTargets(gameId)`, with `order` the shuffled list of the
        game's alive players. Fewer than four alive players: refused, nothing
        written. Otherwise each listed player targets the next one, the last
        the first: the alive players form one ring. */
    method AssignInitialTargets(gameId: int, order: seq<int>) returns (r: Outcome<Error>)
      requires Valid()
      requires IsOrderingOf(order, AliveIn(players, gameId))
      modifies this
      ensures Valid()
      ensures games == old(games) && nextId == old(nextId) && locations == old(locations)
      ensures |AliveIn(old(players), gameId)| < 4 ==>
        r == Fail(BadRequest("Not enough players")) && players == old(players)
      ensures |AliveIn(old(players), gameId)| >= 4 ==>
        r == Pass && players == AssignTargets(old(players), order) &&
        IsRing(players, gameId, order)
    {
      OrderingSize(order, AliveIn(players, gameId));
      if |order| < 4 {
        return Fail(BadRequest("Not enough players"));
      }
      var t0 := players;
      OrderingInTable(t0, gameId, order);
      var t := LinkInOrder(t0, order);
      AssignEstablishesRing(t0, gameId, order);
      AssignTargetsKeepsIntegrity(t0, games, order);
      assert t.Keys == t0.Keys;
      players := t;
      r := Pass;
    }

    /** `reassignTargetsForDead(deadId, gameId)`: the first player of the game
        found targeting the dead player (any of them: the rows come in no
        fixed order) walks the chain from the dead player's target, with the
        hunter and the dead player already visited, and takes the first alive
        player other than itself, or nobody. */
    method ReassignTargetsForDead(deadId: int, gameId: int)
      requires Valid()
      modifies this
      ensures Valid()
      ensures games == old(games) && nextId == old(nextId) && locations == old(locations)
      ensures IsRepairResult(old(players), gameId, deadId, players)
    {
      var gm := GamePlayers(players, gameId);
      if h :| h in gm && IsHunterOf(players, gameId, h, deadId) {
        var next := RepairStart(gm, deadId);
        var visited := {h, deadId};
        var target := players[h].currentTarget;
        ghost var start := next;
        while Truthy(next)
          invariant RepairWalk(gm, h, next, visited) == RepairWalk(gm, h, start, {h, deadId})
          decreases gm.Keys - visited
        {
          var c := next.value;
          if c !in gm {
            target := None;
            break;
          }
          if gm[c].isAlive && c != h {
            target := Some(c);
            break;
          }
          if c in visited {
            target := None;
            break;
          }
          visited := visited + {c};
          next := gm[c].currentTarget;
        }
        if !Truthy(next) {
          target := None;
        }
        assert target == RepairWalk(gm, h, start, {h, deadId});
        RepairResultEffect(players, games, gameId, deadId, RepairWith(players, gameId, deadId, h));
        players := players[h := players[h].(currentTarget := target)];
      }
    }

    /** `killTarget(killerId, code)` at clock reading `now`, as one atomic step:
        the checks in the source's order, then the kill's writes, the repair,
        and the end of the game when one player is left alive. */
    method KillTarget(killerId: int, code: string, now: int) returns (r: Result<KillOutcome, Error>)
      requires Valid()
      modifies this
      ensures Valid()
      ensures nextId == old(nextId) && locations == old(locations)
      ensures KillStep(old(players), old(games), killerId, code, now, players, games, r)
    {
      var check := KillCheck(players, games, killerId, code);
      if check.Err? {
        return Err(check.error);
      }
      var target := check.value.1;
      var g := players[killerId].game.value;
      ghost var t0 := players;
      // the killer inherits the victim's kills and target
      var killer := players[killerId];
      var victim := players[target];
      players := players[killerId := killer.(kills := killer.kills + 1 + victim.kills,
                                             currentTarget := TargetOf(players, target))];
      // the victim dies, untargeting
      players := players[target := players[target].(isAlive := false, currentTarget := None)];
      assert players == ApplyKill(t0, killerId, target);
      assert Valid() by {
        assert TargetOf(t0, target).Some? ==> TargetOf(t0, target).value in players;
      }
      ReassignTargetsForDead(target, g);
      var alive := |AliveIn(players, g)|;
      if alive == 1 {
        games := games[g := FinishGame(games[g], killerId, now)];
        r := Ok(GameFinished(killerId));
      } else {
        r := Ok(TargetEliminated(killerId, target));
      }
      KillStepEffect(t0, old(games), killerId, code, now, players, games, r);
    }

    /** The `while (exists)` loop: draw codes until one is free in game `g`. The
        code is the first draw's code that nobody in the game holds; it has six
        digits. */
    method GenerateUniqueCode(g: int, draws: seq<real>) returns (code: string)
      requires DrawsFindFreeCode(players, g, draws)
      ensures IsSixDigitCode(code) && !CodeTaken(players, g, code)
      ensures exists i :: (0 <= i < |draws| && code == CodeOf(draws[i]) &&
                           forall k :: 0 <= k < i ==> CodeTaken(players, g, CodeOf(draws[k])))
    {
      ghost var free :| 0 <= free < |draws| && !CodeTaken(players, g, CodeOf(draws[free]));
      var taken := true;
      var i := 0;
      code := "";
      while taken
        invariant 0 <= i <= free + 1
        invariant forall k :: 0 <= k < i - 1 ==> CodeTaken(players, g, CodeOf(draws[k]))
        invariant taken ==> i <= free && forall k :: 0 <= k < i ==> CodeTaken(players, g, CodeOf(draws[k]))
        invariant !taken ==> i >= 1 && code == CodeOf(draws[i - 1]) && !CodeTaken(players, g, code)
        decreases free + 1 - i, taken
      {
        code := CodeOf(draws[i]);
        taken := CodeTaken(players, g, code);
        i := i + 1;
      }
      CodeOfIsSixDigits(draws[i - 1]);
    }

    /** `joinGame(gameId, nickname)`: refused for a missing game, a game that is
        not waiting, or a nickname already used in the game, changing nothing;
        otherwise a new alive player of the game with the next id, zero kills,
        no target and a fresh six-digit code. */
    method JoinGame(gameId: int, nickname: string, draws: seq<real>) returns (r: Result<int, Error>)
      requires Valid()
      requires (gameId in games && games[gameId].status == Waiting && !NicknameTaken(players, gameId, nickname)) ==>
        DrawsFindFreeCode(players, gameId, draws)
      modifies this
      ensures Valid()
      ensures games == old(games) && locations == old(locations)
      ensures gameId !in games ==> r == Err(NotFound("Game not found"))
      ensures gameId in games && games[gameId].status != Waiting ==>
        r == Err(BadRequest("Cannot join a game that has started"))
      ensures (gameId in games && games[gameId].status == Waiting && NicknameTaken(old(players), gameId, nickname)) ==>
        r == Err(BadRequest("Nickname already taken in this game"))
      ensures (gameId in games && games[gameId].status == Waiting && !NicknameTaken(old(players), gameId, nickname)) ==>
        r.Ok?
      ensures r.Err? ==> players == old(players) && nextId == old(nextId)
      ensures r.Ok? ==>
        r.value in players && players[r.value].game == Some(gameId) &&
        players[r.value].nickname == nickname && players[r.value].isAlive
      ensures r.Ok? ==>
        r.value == old(nextId) && nextId == old(nextId) + 1 && r.value !in old(players) && r.value in players &&
        players == old(players)[r.value := NewPlayer(nickname, players[r.value].secretCode, Some(gameId))] &&
        IsSixDigitCode(players[r.value].secretCode) &&
        !CodeTaken(old(players), gameId, players[r.value].secretCode)
    {
      if gameId !in games {
        return Err(NotFound("Game not found"));
      }
      if games[gameId].status != Waiting {
        return Err(BadRequest("Cannot join a game that has started"));
      }
      if NicknameTaken(players, gameId, nickname) {
        return Err(BadRequest("Nickname already taken in this game"));
      }
      var code := GenerateUniqueCode(gameId, draws);
      var id := nextId;
      players := players[id := NewPlayer(nickname, code, Some(gameId))];
      nextId := nextId + 1;
      r := Ok(id);
    }

    /** `joinStandaloneGame(playerId, gameId)`: refused for a missing game, a
        game that is not waiting, a missing player, a player already in a game,
        or a nickname already used in the game, changing nothing; otherwise the
        player joins the game alive, with a fresh six-digit code. */
    method JoinStandaloneGame(playerId: int, gameId: int, draws: seq<real>) returns (r: Outcome<Error>)
      requires Valid()
      requires (gameId in games && games[gameId].status == Waiting && playerId in players &&
                !NicknameTaken(players, gameId, players[playerId].nickname)) ==>
        DrawsFindFreeCode(players, gameId, draws)
      modifies this
      ensures Valid()
      ensures games == old(games) && nextId == old(nextId) && locations == old(locations)
      ensures gameId !in games ==> r == Fail(NotFound("Game not found"))
      ensures gameId in games && games[gameId].status != Waiting ==>
        r == Fail(BadRequest("Cannot join a game that has started"))
      ensures gameId in games && games[gameId].status == Waiting && playerId !in old(players) ==>
        r == Fail(NotFound("Player not found"))
      ensures (gameId in games && games[gameId].status == Waiting && playerId in old(players) &&
               GameOf(old(players), games, playerId).Some?) ==>
        r == Fail(BadRequest("Player is already in a game"))
      ensures (gameId in games && games[gameId].status == Waiting && playerId in old(players) &&
               GameOf(old(players), games, playerId).None? &&
               NicknameTaken(old(players), gameId, old(players)[playerId].nickname)) ==>
        r == Fail(BadRequest("Nickname already taken in this game"))
      ensures (gameId in games && games[gameId].status == Waiting && playerId in old(players) &&
               GameOf(old(players), games, playerId).None? &&
               !NicknameTaken(old(players), gameId, old(players)[playerId].nickname)) ==>
        r.Pass?
      ensures r.Fail? ==> players == old(players)
      ensures r.Pass? ==>
        playerId in players && players[playerId].game == Some(gameId) &&
        players[playerId].nickname == old(players)[playerId].nickname && players[playerId].isAlive
      ensures r.Pass? ==>
        playerId in old(players) && playerId in players &&
        players == old(players)[playerId := old(players)[playerId].(game := Some(gameId),
          secretCode := players[playerId].secretCode, isAlive := true)] &&
        IsSixDigitCode(players[playerId].secretCode) &&
        !CodeTaken(old(players), gameId, players[playerId].secretCode)
    {
      if gameId !in games {
        return Fail(NotFound("Game not found"));
      }
      if games[gameId].status != Waiting {
        return Fail(BadRequest("Cannot join a game that has started"));
      }
      if playerId !in players {
        return Fail(NotFound("Player not found"));
      }
      if GameOf(players, games, playerId).Some? {
        return Fail(BadRequest("Player is already in a game"));
      }
      var p := players[playerId];
      if NicknameTaken(players, gameId, p.nickname) {
        return Fail(BadRequest("Nickname already taken in this game"));
      }
      var code := GenerateUniqueCode(gameId, draws);
      players := players[playerId := p.(game := Some(gameId), secretCode := code, isAlive := true)];
      r := Pass;
    }

    /** `changePlayerNickname(_, playerId, nickname)`: "Player not found" for a
        missing player; "Nickname already taken in this game" when another
        player of the player's game uses the name; otherwise only the nickname
        changes. A player without a game may take any name. */
    method ChangePlayerNickname(playerId: int, nickname: string) returns (r: Outcome<Error>)
      requires Valid()
      modifies this
      ensures Valid()
      ensures games == old(games) && nextId == old(nextId) && locations == old(locations)
      ensures playerId !in old(players) ==> r == Fail(NotFound("Player not found"))
      ensures playerId in old(players) ==>
        (r.Fail? <==> (GameOf(old(players), games, playerId).Some? &&
                       exists other :: other in old(players) && other != playerId &&
                         old(players)[other].game == GameOf(old(players), games, playerId) &&
                         old(players)[other].nickname == nickname))
      ensures r.Fail? && playerId in old(players) ==> r == Fail(BadRequest("Nickname already taken in this game"))
      ensures r.Fail? ==> players == old(players)
      ensures r.Pass? ==> players == old(players)[playerId := old(players)[playerId].(nickname := nickname)]
    {
      if playerId !in players {
        return Fail(NotFound("Player not found"));
      }
      var g := GameOf(players, games, playerId);
      if g.Some? {
        if existing :| existing in players && players[existing].game == g && players[existing].nickname == nickname {
          if existing != playerId {
            return Fail(BadRequest("Nickname already taken in this game"));
          }
          assert forall other :: other in players && other != playerId && players[other].game == g ==>
            players[other].nickname != nickname;
        }
      }
      players := players[playerId := players[playerId].(nickname := nickname)];
      r := Pass;
    }

    /** `processLocationUpdate(playerId, here)`: caches the player's location,
        then decides whether its target is nearby. */
    method ProcessLocationUpdate(playerId: int, here: Location, dist: (Location, Location) -> real)
      returns (r: LocationReply)
      modifies this
      ensures players == old(players) && games == old(games) && nextId == old(nextId)
      ensures locations == old(locations)[playerId := here]
      ensures r == LocationDecision(players, locations, playerId, here, dist)
    {
      locations := locations[playerId := here];
      r := LocationDecision(players, locations, playerId, here, dist);
    }
  }
}
