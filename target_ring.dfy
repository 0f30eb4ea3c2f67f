/** The target-ring engine of src/player/player.service.ts as pure functions over
    the player table: initial target assignment, kill validation and the kill's
    writes, the repair walk, and the ring invariant they keep. The methods of
    `Players.PlayerService` are proved against these definitions. */
module TargetRing {
  import opened Common
  import opened PlayerEntity

  // ---------------------------------------------------------------------------
  // Sets and orderings of players
  // ---------------------------------------------------------------------------

  /** The ids of the alive players of game `g` (the rows `find({game, isAlive: true})` returns). */
  function AliveIn(t: Table, g: int): (s: set<int>)
    ensures forall id :: id in s <==> InGame(t, id, g) && t[id].isAlive
  {
    set id | id in t && t[id].game == Some(g) && t[id].isAlive
  }

  predicate Distinct(s: seq<int>)
  {
    forall i, j :: 0 <= i < j < |s| ==> s[i] != s[j]
  }

  /** `order` lists every element of `s` exactly once. */
  ghost predicate IsOrderingOf(order: seq<int>, s: set<int>)
  {
    Distinct(order) && forall x :: x in order <==> x in s
  }

  /** An ordering of a set is as long as the set is large. */
  lemma {:induction false} OrderingSize(order: seq<int>, s: set<int>)
    requires IsOrderingOf(order, s)
    ensures |s| == |order|
  {
    if order != [] {
      var x := order[|order| - 1];
      var init := order[..|order| - 1];
      forall y ensures y in init <==> y in s - {x} {
        assert order == init + [x];
        if y in init {
          var k :| 0 <= k < |init| && init[k] == y;
          assert order[k] == y;
        }
      }
      assert Distinct(init) by {
        forall a, b | 0 <= a < b < |init| ensures init[a] != init[b] {
          assert init[a] == order[a] && init[b] == order[b];
        }
      }
      OrderingSize(init, s - {x});
      var rest := s - {x};
      assert x in s && s == rest + {x} && x !in rest;
      assert |rest + {x}| == |rest| + 1;
    } else {
      assert forall y :: y !in s;
      assert s == {};
    }
  }

  /** Every listed alive player of game `g` has a row. */
  lemma OrderingInTable(t: Table, g: int, order: seq<int>)
    requires IsOrderingOf(order, AliveIn(t, g))
    ensures forall x :: x in order ==> x in t
  {
    forall x | x in order ensures x in t { assert x in AliveIn(t, g); }
  }

  // ---------------------------------------------------------------------------
  // assignInitialTargets: shuffled[i].currentTarget = shuffled[(i + 1) % n]
  // ---------------------------------------------------------------------------

  /** The table after the first `k` passes of the assignment loop over `order`. */
  function AssignPrefix(t: Table, order: seq<int>, k: nat): (r: Table)
    requires k <= |order|
    requires forall x :: x in order ==> x in t
    ensures r.Keys == t.Keys
    decreases k
  {
    if k == 0 then t
    else
      var r0 := AssignPrefix(t, order, k - 1);
      var x := order[k - 1];
      // position k - 1 targets position (k - 1 + 1) % n, written without the modulus
      r0[x := r0[x].(currentTarget := Some(order[if k < |order| then k else 0]))]
  }

  /** The table after the whole assignment loop. */
  function AssignTargets(t: Table, order: seq<int>): (r: Table)
    requires forall x :: x in order ==> x in t
    ensures r.Keys == t.Keys
  {
    AssignPrefix(t, order, |order|)
  }

  /** After k passes the first k listed players target their successor in `order`;
      every other row is as before. */
  lemma {:induction false} AssignPrefixEffect(t: Table, order: seq<int>, k: nat)
    requires Distinct(order) && k <= |order|
    requires forall x :: x in order ==> x in t
    ensures forall i :: 0 <= i < k ==>
      AssignPrefix(t, order, k)[order[i]] == t[order[i]].(currentTarget := Some(order[if i + 1 < |order| then i + 1 else 0]))
    ensures forall id :: id in t && id !in order[..k] ==> AssignPrefix(t, order, k)[id] == t[id]
  {
    if k > 0 {
      AssignPrefixEffect(t, order, k - 1);
      forall id | id in t && id !in order[..k] ensures id !in order[..k - 1] && id != order[k - 1] {
        assert order[..k] == order[..k - 1] + [order[k - 1]];
      }
      forall i | 0 <= i < k - 1 ensures order[i] in order[..k - 1] && order[i] != order[k - 1] {
        assert order[..k - 1][i] == order[i];
      }
    }
  }

  /** Assignment: the listed player at position i now
      targets the one at position (i + 1) mod n, and no other column or row changes. */
  lemma AssignTargetsEffect(t: Table, order: seq<int>)
    requires Distinct(order)
    requires forall x :: x in order ==> x in t
    ensures forall i :: 0 <= i < |order| ==>
      AssignTargets(t, order)[order[i]] == t[order[i]].(currentTarget := Some(order[if i + 1 < |order| then i + 1 else 0]))
    ensures forall id :: id in t && id !in order ==> AssignTargets(t, order)[id] == t[id]
  {
    AssignPrefixEffect(t, order, |order|);
    assert order[..|order|] == order;
  }

  /** The player `k` target-hops away from `x` (`Some(x)` for k = 0); `None` once
      the chain reaches a null pointer or a missing row. */
  function Follow(t: Table, x: int, k: nat): Option<int>
  {
    if k == 0 then Some(x)
    else match Follow(t, x, k - 1)
      case Some(y) => if y in t then t[y].currentTarget else None
      case None => None
  }

  /** Walking k <= n hops from the player at position i of `order`, in the
      assigned table, lands on position i + k, wrapped once past the end. */
  lemma {:induction false} AssignedWalk(t: Table, order: seq<int>, i: nat, k: nat)
    requires Distinct(order) && i < |order| && k <= |order|
    requires forall x :: x in order ==> x in t
    ensures Follow(AssignTargets(t, order), order[i], k) ==
      Some(order[if i + k < |order| then i + k else i + k - |order|])
  {
    if k > 0 {
      AssignedWalk(t, order, i, k - 1);
      AssignTargetsEffect(t, order);
    }
  }

  /** The assignment writes only target pointers, all to listed players, so the
      table keeps its integrity. */
  lemma AssignTargetsKeepsIntegrity(t: Table, games: Games, order: seq<int>)
    requires Distinct(order)
    requires forall x :: x in order ==> x in t
    requires ReferencesValid(t, games) && UniqueInGames(t)
    ensures ReferencesValid(AssignTargets(t, order), games)
    ensures UniqueInGames(AssignTargets(t, order))
    ensures forall id :: id in t ==>
      AssignTargets(t, order)[id] == t[id].(currentTarget := AssignTargets(t, order)[id].currentTarget)
  {
    AssignTargetsEffect(t, order);
    var r := AssignTargets(t, order);
    forall id | id in t
      ensures r[id] == t[id].(currentTarget := r[id].currentTarget)
      ensures r[id].currentTarget.Some? ==> r[id].currentTarget.value in t
    {
      if id in order {
        var i :| 0 <= i < |order| && order[i] == id;
        assert r[order[i]] == t[order[i]].(currentTarget := Some(order[if i + 1 < |order| then i + 1 else 0]));
      }
    }
  }

  /** The assigned targets form ONE directed cycle through all n listed players:
      n hops lead every player back to itself, and fewer (but at least one) never
      do, so there is no shorter sub-cycle and, as n >= 2 here, nobody targets itself. */
  lemma AssignedSingleCycle(t: Table, order: seq<int>)
    requires Distinct(order) && |order| >= 2
    requires forall x :: x in order ==> x in t
    ensures forall i :: 0 <= i < |order| ==>
      Follow(AssignTargets(t, order), order[i], |order|) == Some(order[i])
    ensures forall i, k :: 0 <= i < |order| && 0 < k < |order| ==>
      Follow(AssignTargets(t, order), order[i], k) != Some(order[i])
    ensures forall i :: 0 <= i < |order| ==>
      AssignTargets(t, order)[order[i]].currentTarget != Some(order[i])
  {
    forall i, k | 0 <= i < |order| && 0 < k <= |order|
      ensures Follow(AssignTargets(t, order), order[i], k) == Some(order[i]) <==> k == |order|
    {
      AssignedWalk(t, order, i, k);
    }
    AssignTargetsEffect(t, order);
    forall i | 0 <= i < |order|
      ensures AssignTargets(t, order)[order[i]].currentTarget != Some(order[i])
    {
      var j := if i + 1 < |order| then i + 1 else 0;
      assert j != i && order[j] != order[i];
    }
  }

  // ---------------------------------------------------------------------------
  // The ring invariant
  // ---------------------------------------------------------------------------

  /** The entry of `cyc` after position i, wrapping to the front. */
  function Next(cyc: seq<int>, i: nat): int
    requires i < |cyc|
  {
    if i + 1 < |cyc| then cyc[i + 1] else cyc[0]
  }

  /** `cyc` lists the alive players of game `g` once each, and each of them
      targets the next one in the list, the last one the first: the targets of
      the alive players form a single directed cycle covering them all. */
  ghost predicate IsRing(t: Table, g: int, cyc: seq<int>)
  {
    |cyc| >= 1 && IsOrderingOf(cyc, AliveIn(t, g)) &&
    forall i :: 0 <= i < |cyc| ==> cyc[i] in t && t[cyc[i]].currentTarget == Some(Next(cyc, i))
  }

  /** Dead players of game `g` target nobody. */
  ghost predicate DeadUntargeted(t: Table, g: int)
  {
    forall id :: InGame(t, id, g) && !t[id].isAlive ==> t[id].currentTarget == None
  }

  /** In a ring every alive player of the game targets an alive player of the
      game, and, once two or more are alive, not itself. */
  lemma RingTargetsAlive(t: Table, g: int, cyc: seq<int>)
    requires IsRing(t, g, cyc)
    ensures forall id :: id in AliveIn(t, g) ==>
      t[id].currentTarget.Some? && t[id].currentTarget.value in AliveIn(t, g) &&
      (|cyc| >= 2 ==> t[id].currentTarget != Some(id))
  {
    forall id | id in AliveIn(t, g)
      ensures t[id].currentTarget.Some? && t[id].currentTarget.value in AliveIn(t, g)
      ensures |cyc| >= 2 ==> t[id].currentTarget != Some(id)
    {
      var i :| 0 <= i < |cyc| && cyc[i] == id;
      var j := if i + 1 < |cyc| then i + 1 else 0;
      assert Next(cyc, i) == cyc[j];
    }
  }

  /** Assigning targets along an ordering of the alive players makes them a
      ring, and leaves the dead players' pointers alone. */
  lemma AssignEstablishesRing(t: Table, g: int, order: seq<int>)
    requires IsOrderingOf(order, AliveIn(t, g)) && |order| >= 1
    ensures IsRing(AssignTargets(t, order), g, order)
    ensures DeadUntargeted(t, g) ==> DeadUntargeted(AssignTargets(t, order), g)
  {
    AssignTargetsEffect(t, order);
    var r := AssignTargets(t, order);
    forall id | id in r ensures r[id].game == t[id].game && r[id].isAlive == t[id].isAlive {
      if id in order {
        var i :| 0 <= i < |order| && order[i] == id;
        assert r[order[i]] == t[order[i]].(currentTarget := Some(order[if i + 1 < |order| then i + 1 else 0]));
      } else {
        assert r[id] == t[id];
      }
    }
    assert AliveIn(r, g) == AliveIn(t, g);
  }

  /** Sum over `s` of kills + 1: the kill credit held by the players listed. */
  function Credit(t: Table, s: seq<int>): nat
    requires forall i :: 0 <= i < |s| ==> s[i] in t
  {
    if s == [] then 0 else t[s[0]].kills + 1 + Credit(t, s[1..])
  }

  lemma {:induction false} CreditAppend(t: Table, a: seq<int>, b: seq<int>)
    requires forall i :: 0 <= i < |a| ==> a[i] in t
    requires forall i :: 0 <= i < |b| ==> b[i] in t
    ensures Credit(t, a + b) == Credit(t, a) + Credit(t, b)
  {
    if a != [] {
      assert (a + b)[0] == a[0];
      assert (a + b)[1..] == a[1..] + b;
      CreditAppend(t, a[1..], b);
      assert Credit(t, a + b) == t[a[0]].kills + 1 + Credit(t, a[1..] + b);
      assert Credit(t, a) == t[a[0]].kills + 1 + Credit(t, a[1..]);
    } else {
      assert a + b == b;
    }
  }

  /** Raising the kills of one listed player by d raises the credit by d. */
  lemma {:induction false} CreditBump(t: Table, t': Table, s: seq<int>, x: int, d: nat)
    requires forall i :: 0 <= i < |s| ==> s[i] in t && s[i] in t'
    requires Distinct(s) && x in s
    requires t'[x].kills == t[x].kills + d
    requires forall i :: 0 <= i < |s| && s[i] != x ==> t'[s[i]].kills == t[s[i]].kills
    ensures Credit(t', s) == Credit(t, s) + d
  {
    if s[0] == x {
      assert x !in s[1..] by {
        forall k | 1 <= k < |s| ensures s[k] != x { assert s[0] != s[k]; }
      }
      CreditSame(t, t', s[1..]);
    } else {
      assert Distinct(s[1..]) by {
        forall a, b | 0 <= a < b < |s| - 1 ensures s[1..][a] != s[1..][b] { assert s[a + 1] != s[b + 1]; }
      }
      CreditBump(t, t', s[1..], x, d);
    }
  }

  lemma {:induction false} CreditSame(t: Table, t': Table, s: seq<int>)
    requires forall i :: 0 <= i < |s| ==> s[i] in t && s[i] in t' && t'[s[i]].kills == t[s[i]].kills
    ensures Credit(t', s) == Credit(t, s)
  {
    if s != [] {
      CreditSame(t, t', s[1..]);
    }
  }

  // ---------------------------------------------------------------------------
  // killTarget: validation, in the source's order
  // ---------------------------------------------------------------------------

  /** `findOne({secretCode, game})`: the player of game `g` holding `code`. The
      unique constraint makes the answer unique. */
  function FindByCode(t: Table, g: int, code: string): (r: Option<int>)
    requires UniqueInGames(t)
    ensures r.Some? <==> CodeTaken(t, g, code)
    ensures r.Some? ==> InGame(t, r.value, g) && t[r.value].secretCode == code
    ensures r.Some? ==> forall id :: InGame(t, id, g) && t[id].secretCode == code ==> id == r.value
  {
    if CodeTaken(t, g, code) then
      Some(var id :| id in t && t[id].game == Some(g) && t[id].secretCode == code; id)
    else None
  }

  /** The checks of `killTarget`, in the order it makes them; on success the
      pair (killer, target). */
  function KillCheck(t: Table, games: Games, killerId: int, code: string): (r: Result<(int, int), Error>)
    requires UniqueInGames(t)
    ensures killerId !in t ==> r == Err(NotFound("Player not found"))
    ensures killerId in t && GameOf(t, games, killerId).None? ==>
      r == Err(BadRequest("Player is not in a game"))
    ensures killerId in t && GameOf(t, games, killerId).Some? && !t[killerId].isAlive ==>
      r == Err(BadRequest("You are dead and cannot kill targets"))
    ensures killerId in t && GameOf(t, games, killerId).Some? && t[killerId].isAlive ==>
      var g := t[killerId].game.value;
      (!CodeTaken(t, g, code) || !t[FindByCode(t, g, code).value].isAlive ==>
        r == Err(BadRequest("Invalid target"))) &&
      (CodeTaken(t, g, code) && t[FindByCode(t, g, code).value].isAlive ==>
        (TargetOf(t, killerId).None? ==> r == Err(BadRequest("You have no assigned target"))) &&
        (TargetOf(t, killerId).Some? && TargetOf(t, killerId) != FindByCode(t, g, code) ==>
          r == Err(BadRequest("This is not your assigned target"))))
    ensures r.Ok? <==> IsValidKill(t, games, killerId, code)
    ensures r.Ok? ==> r.value.0 == killerId && TargetOf(t, killerId) == Some(r.value.1)
  {
    if killerId !in t then Err(NotFound("Player not found"))
    else if GameOf(t, games, killerId).None? then Err(BadRequest("Player is not in a game"))
    else if !t[killerId].isAlive then Err(BadRequest("You are dead and cannot kill targets"))
    else
      var g := t[killerId].game.value;
      match FindByCode(t, g, code)
      case None => Err(BadRequest("Invalid target"))
      case Some(v) =>
        if !t[v].isAlive then Err(BadRequest("Invalid target"))
        else if TargetOf(t, killerId).None? then Err(BadRequest("You have no assigned target"))
        else if TargetOf(t, killerId).value != v then Err(BadRequest("This is not your assigned target"))
        else Ok((killerId, v))
  }

  /** The independent description of an accepted kill: an alive killer in an
      existing game presents the code of the alive player of that game it targets. */
  ghost predicate IsValidKill(t: Table, games: Games, killerId: int, code: string)
  {
    killerId in t && t[killerId].isAlive &&
    t[killerId].game.Some? && t[killerId].game.value in games &&
    exists v :: InGame(t, v, t[killerId].game.value) && t[v].isAlive && t[v].secretCode == code &&
      t[killerId].currentTarget == Some(v)
  }

  /** The kill's writes: the killer gains 1 + the victim's kills and inherits the
      victim's target; then the victim is marked dead with no target. The second
      write touches only the columns the victim's entity changed, as the ORM's
      change detection does, so a killer that is its own target keeps its kills. */
  function ApplyKill(t: Table, killer: int, target: int): (r: Table)
    requires killer in t && target in t
    ensures r.Keys == t.Keys
  {
    var k := t[killer];
    var v := t[target];
    var t1 := t[killer := k.(kills := k.kills + 1 + v.kills, currentTarget := TargetOf(t, target))];
    t1[target := t1[target].(isAlive := false, currentTarget := None)]
  }

  /** The credit rule of a kill: the killer's count grows by one plus the
      victim's, the killer takes over the victim's target, the victim ends dead
      and untargeting, and no other row changes. */
  lemma KillTransfersCredit(t: Table, killer: int, target: int)
    requires killer in t && target in t && killer != target
    ensures var r := ApplyKill(t, killer, target);
      r[killer] == t[killer].(kills := t[killer].kills + 1 + t[target].kills,
                              currentTarget := TargetOf(t, target)) &&
      r[target] == t[target].(isAlive := false, currentTarget := None) &&
      forall id :: id in t && id != killer && id != target ==> r[id] == t[id]
  {
  }

  // ---------------------------------------------------------------------------
  // reassignTargetsForDead: the repair walk
  // ---------------------------------------------------------------------------

  /** JavaScript truthiness of an id: null, undefined and 0 are false. */
  predicate Truthy(o: Option<int>)
  {
    o.Some? && o.value != 0
  }

  /** The players of game `g`, keyed by id (the `playerMap` of the repair pass). */
  function GamePlayers(t: Table, g: int): (gm: Table)
    ensures forall id :: id in gm <==> InGame(t, id, g)
    ensures forall id :: id in gm ==> id in t && gm[id] == t[id]
  {
    map id | id in t && t[id].game == Some(g) :: t[id]
  }

  /** The `while (nextCandidateId)` loop: the target the hunter ends with, or
      None, starting from candidate `next` with `visited` already seen. */
  function RepairWalk(gm: Table, hunter: int, next: Option<int>, visited: set<int>): (r: Option<int>)
    ensures r.Some? ==> Usable(gm, hunter, r)
    decreases gm.Keys - visited
  {
    if !Truthy(next) then None
    else
      var c := next.value;
      if c !in gm then None
      else if gm[c].isAlive && c != hunter then Some(c)
      else if c in visited then None
      else RepairWalk(gm, hunter, gm[c].currentTarget, visited + {c})
  }

  /** `playerMap.get(deadPlayerId)?.currentTarget?.id`: where the walk starts. */
  function RepairStart(gm: Table, dead: int): Option<int>
  {
    if dead in gm then gm[dead].currentTarget else None
  }

  /** Player `h` of game `g` targets `dead`. */
  predicate IsHunterOf(t: Table, g: int, h: int, dead: int)
  {
    InGame(t, h, g) && dead in t && t[h].currentTarget == Some(dead)
  }

  /** The repair when `h` is the hunter the query returned first. */
  function RepairWith(t: Table, g: int, dead: int, h: int): (r: Table)
    requires IsHunterOf(t, g, h, dead)
    ensures r.Keys == t.Keys
  {
    var gm := GamePlayers(t, g);
    t[h := t[h].(currentTarget := RepairWalk(gm, h, RepairStart(gm, dead), {h, dead}))]
  }

  /** `t2` is a possible table after `reassignTargetsForDead(dead, g)` on `t`: the
      database returns the players in an unspecified order, so any hunter may be
      the first one found; with no hunter nothing changes. */
  ghost predicate IsRepairResult(t: Table, g: int, dead: int, t2: Table)
  {
    if exists h :: IsHunterOf(t, g, h, dead)
    then exists h :: IsHunterOf(t, g, h, dead) && t2 == RepairWith(t, g, dead, h)
    else t2 == t
  }

  /** A player the hunter may be given: an alive row of the game other than the hunter. */
  predicate Usable(gm: Table, h: int, o: Option<int>)
  {
    o.Some? && o.value in gm && gm[o.value].isAlive && o.value != h
  }

  /** Once Follow stops (null, or a missing row), it stays stopped. */
  lemma {:induction false} FollowStops(gm: Table, h: int, a: nat, k: nat)
    requires Follow(gm, h, a).None? || Follow(gm, h, a).value !in gm
    requires k > a
    ensures Follow(gm, h, k).None?
  {
    if k > a + 1 {
      FollowStops(gm, h, a, k - 1);
    }
  }

  /** Where Follow is at two positions it agrees, it agrees from then on. */
  lemma {:induction false} FollowShift(gm: Table, h: int, a: nat, b: nat, d: nat)
    requires Follow(gm, h, a) == Follow(gm, h, b)
    ensures Follow(gm, h, a + d) == Follow(gm, h, b + d)
  {
    if d > 0 {
      FollowShift(gm, h, a, b, d - 1);
    }
  }

  /** When the chain returns to an earlier node before any usable one, it only
      ever repeats what was already seen. */
  lemma {:induction false} RepeatedChainUnusable(gm: Table, h: int, i: nat, j: nat, k: nat)
    requires i < j && Follow(gm, h, i) == Follow(gm, h, j)
    requires forall m: nat :: m <= j ==> !Usable(gm, h, Follow(gm, h, m))
    ensures !Usable(gm, h, Follow(gm, h, k))
    decreases k
  {
    if k > j {
      var back := k - (j - i);
      FollowShift(gm, h, i, j, k - j);
      assert i + (k - j) == back && j + (k - j) == k;
      RepeatedChainUnusable(gm, h, i, j, back);
    }
  }

  /** `r` is the first usable node on the target chain from `h`, or None
      exactly when the chain holds no usable node. */
  ghost predicate FirstUsableOnChain(gm: Table, h: int, r: Option<int>)
  {
    (r.Some? ==> exists k: nat :: Follow(gm, h, k) == r && Usable(gm, h, r) &&
                   forall i: nat :: i < k ==> !Usable(gm, h, Follow(gm, h, i))) &&
    (r.None? ==> forall k: nat :: !Usable(gm, h, Follow(gm, h, k)))
  }

  /** The nodes at hops 0 .. j-1 of the chain from `h`. */
  ghost function ChainPrefix(gm: Table, h: int, j: nat): set<int>
  {
    if j == 0 then {}
    else ChainPrefix(gm, h, j - 1) + match Follow(gm, h, j - 1) case Some(x) => {x} case None => {}
  }

  lemma {:induction false} ChainPrefixMember(gm: Table, h: int, j: nat, x: int)
    requires x in ChainPrefix(gm, h, j)
    ensures exists i: nat :: i < j && Follow(gm, h, i) == Some(x)
  {
    if x in ChainPrefix(gm, h, j - 1) {
      ChainPrefixMember(gm, h, j - 1, x);
      var i: nat :| i < j - 1 && Follow(gm, h, i) == Some(x);
      assert i < j;
    } else {
      assert Follow(gm, h, j - 1) == Some(x);
    }
  }

  /** The walk, resumed at hop j of the chain from the hunter with the earlier
      hops visited, returns the first usable node of the chain, or None when the
      chain has none. */
  lemma {:induction false} RepairWalkFromHop(gm: Table, h: int, j: nat)
    requires 0 !in gm
    requires forall i: nat :: i < j ==> Follow(gm, h, i).Some? && !Usable(gm, h, Follow(gm, h, i))
    ensures FirstUsableOnChain(gm, h, RepairWalk(gm, h, Follow(gm, h, j), ChainPrefix(gm, h, j)))
    decreases gm.Keys - ChainPrefix(gm, h, j)
  {
    var next := Follow(gm, h, j);
    var visited := ChainPrefix(gm, h, j);
    if !Truthy(next) || next.value !in gm {
      forall k: nat ensures !Usable(gm, h, Follow(gm, h, k)) {
        if k > j { FollowStops(gm, h, j, k); }
      }
    } else if Usable(gm, h, next) {
    } else if next.value in visited {
      ChainPrefixMember(gm, h, j, next.value);
      var i: nat :| i < j && Follow(gm, h, i) == next;
      forall k: nat ensures !Usable(gm, h, Follow(gm, h, k)) {
        RepeatedChainUnusable(gm, h, i, j, k);
      }
    } else {
      var c := next.value;
      assert ChainPrefix(gm, h, j + 1) == visited + {c};
      assert Follow(gm, h, j + 1) == gm[c].currentTarget;
      assert RepairWalk(gm, h, next, visited) == RepairWalk(gm, h, Follow(gm, h, j + 1), visited + {c});
      RepairWalkFromHop(gm, h, j + 1);
    }
  }

  /** The repair walk: the hunter is given the first alive
      player other than itself on its own target chain (hunter, dead player, the
      dead player's target, ...), or null exactly when that chain holds none. It
      relies on the dead player not being usable and on no row having the falsy id 0. */
  lemma RepairFindsFirstUsable(gm: Table, h: int, dead: int)
    requires h in gm && gm[h].currentTarget == Some(dead)
    requires !Usable(gm, h, Some(dead))
    requires 0 !in gm
    ensures FirstUsableOnChain(gm, h, RepairWalk(gm, h, RepairStart(gm, dead), {h, dead}))
  {
    assert Follow(gm, h, 1) == Some(dead);
    assert Follow(gm, h, 2) == RepairStart(gm, dead);
    assert Follow(gm, h, 0) == Some(h);
    assert ChainPrefix(gm, h, 1) == {h};
    assert ChainPrefix(gm, h, 2) == {h, dead};
    RepairWalkFromHop(gm, h, 2);
  }

  /** The repair as `killTarget` calls it: the victim's pointer is already
      cleared, so the walk starts from null and any hunter found is left with
      no target at all. */
  lemma RepairAfterKillClearsHunter(t: Table, g: int, killer: int, target: int, h: int)
    requires killer in t && target in t
    requires IsHunterOf(ApplyKill(t, killer, target), g, h, target)
    ensures RepairWith(ApplyKill(t, killer, target), g, target, h)[h].currentTarget == None
  {
  }

  // ---------------------------------------------------------------------------
  // killTarget as a whole
  // ---------------------------------------------------------------------------

  /** What `killTarget` returns: the kill message with killer and victim, or the
      end of the game with its winner. */
  datatype KillOutcome = TargetEliminated(killer: int, target: int) | GameFinished(winner: int)

  /** The game row after the last kill: finished at `now`, won by `winner`. */
  function FinishGame(game: Game, winner: int, now: int): (r: Game)
    ensures r.status == Finished && r.winner == Some(winner) && r.finishedAt == Some(now)
  {
    game.(status := Finished, winner := Some(winner), finishedAt := Some(now))
  }

  /** One call of `killTarget(killerId, code)` at clock reading `now` may take
      the tables (t, games) to (t', games') with result r: a refused kill
      changes nothing; an accepted one applies the kill's writes, repairs the
      victim's other hunter, and finishes the game when one alive player is left. */
  ghost predicate KillStep(t: Table, games: Games, killerId: int, code: string, now: int,
                           t': Table, games': Games, r: Result<KillOutcome, Error>)
  {
    UniqueInGames(t) &&
    match KillCheck(t, games, killerId, code)
    case Err(e) => r == Err(e) && t' == t && games' == games
    case Ok(p) =>
      var g := t[p.0].game.value;
      IsRepairResult(ApplyKill(t, p.0, p.1), g, p.1, t') &&
      if |AliveIn(t', g)| == 1
      then games' == games[g := FinishGame(games[g], p.0, now)] && r == Ok(GameFinished(p.0))
      else games' == games && r == Ok(TargetEliminated(p.0, p.1))
  }

  // ---------------------------------------------------------------------------
  // A kill inside the ring
  // ---------------------------------------------------------------------------

  function Wrap(i: nat, n: nat): nat
    requires i < 2 * n
  {
    if i < n then i else i - n
  }

  /** The entry of `cyc` before position j, wrapping to the back. */
  function Prev(cyc: seq<int>, j: nat): int
    requires j < |cyc|
  {
    if j > 0 then cyc[j - 1] else cyc[|cyc| - 1]
  }

  /** The ring with the victim at position j removed, starting right after it,
      so that the victim's hunter comes last. */
  function WithoutTarget(cyc: seq<int>, j: nat): (w: seq<int>)
    requires j < |cyc|
    ensures |w| == |cyc| - 1
    ensures forall m :: 0 <= m < |w| ==> w[m] == cyc[Wrap(j + 1 + m, |cyc|)]
  {
    cyc[j + 1..] + cyc[..j]
  }

  /** The shortened ring lists every other entry once, and ends with the hunter. */
  lemma WithoutTargetShape(cyc: seq<int>, j: nat)
    requires Distinct(cyc) && j < |cyc| && |cyc| >= 2
    ensures Distinct(WithoutTarget(cyc, j))
    ensures forall x :: x in WithoutTarget(cyc, j) <==> x in cyc && x != cyc[j]
    ensures WithoutTarget(cyc, j)[|cyc| - 2] == Prev(cyc, j)
    ensures WithoutTarget(cyc, j)[0] == Next(cyc, j)
  {
    var w := WithoutTarget(cyc, j);
    var n := |cyc|;
    forall x ensures x in w <==> x in cyc && x != cyc[j] {
      if x in cyc && x != cyc[j] {
        var a :| 0 <= a < n && cyc[a] == x;
        var m := if a > j then a - j - 1 else a + n - j - 1;
        assert w[m] == x;
      }
      if x in w {
        var m :| 0 <= m < |w| && w[m] == x;
        assert Wrap(j + 1 + m, n) != j;
      }
    }
    forall a, b | 0 <= a < b < |w| ensures w[a] != w[b] {
      assert Wrap(j + 1 + a, n) != Wrap(j + 1 + b, n);
    }
  }

  /** The hunter of the victim at position j is the entry before it. */
  lemma RingHunter(t: Table, g: int, cyc: seq<int>, i: nat)
    requires IsRing(t, g, cyc) && i < |cyc|
    ensures var j := if i + 1 < |cyc| then i + 1 else 0;
      cyc[j] == Next(cyc, i) && Prev(cyc, j) == cyc[i]
  {
  }

  /** The victim's hunter in the ring is the entry before it, and the two differ. */
  lemma RingPrev(t: Table, g: int, cyc: seq<int>, j: nat)
    requires IsRing(t, g, cyc) && |cyc| >= 2 && j < |cyc|
    ensures Prev(cyc, j) in t && t[Prev(cyc, j)].currentTarget == Some(cyc[j])
    ensures Prev(cyc, j) != cyc[j]
    ensures TargetOf(t, cyc[j]) == Some(Next(cyc, j))
  {
    var pk := if j > 0 then j - 1 else |cyc| - 1;
    assert cyc[pk] == Prev(cyc, j) && Next(cyc, pk) == cyc[j];
    assert Next(cyc, j) in t;
  }

  /** After the ring kill every entry of the shortened ring targets the next one. */
  lemma ApplyKillLinks(t: Table, g: int, cyc: seq<int>, j: nat)
    requires IsRing(t, g, cyc) && |cyc| >= 2 && j < |cyc|
    ensures var t1, w := ApplyKill(t, Prev(cyc, j), cyc[j]), WithoutTarget(cyc, j);
      forall m :: 0 <= m < |w| ==> w[m] in t1 && t1[w[m]].currentTarget == Some(Next(w, m))
  {
    var n := |cyc|;
    var k, v := Prev(cyc, j), cyc[j];
    RingPrev(t, g, cyc, j);
    var t1 := ApplyKill(t, k, v);
    var w := WithoutTarget(cyc, j);
    WithoutTargetShape(cyc, j);
    KillTransfersCredit(t, k, v);
    forall m | 0 <= m < |w| ensures w[m] in t1 && t1[w[m]].currentTarget == Some(Next(w, m)) {
      if m == |w| - 1 {
        assert w[m] == k;
      } else {
        var a := Wrap(j + 1 + m, n);
        assert w[m] == cyc[a];
        assert w[m] != k && w[m] != v by {
          assert w[m] != w[|w| - 1];
        }
        assert Next(w, m) == cyc[Wrap(j + 2 + m, n)];
        assert Next(cyc, a) == cyc[Wrap(j + 2 + m, n)];
      }
    }
  }

  /** After the ring kill the alive players of the game are the old ones but the
      victim, and the dead still target nobody. */
  lemma ApplyKillAlive(t: Table, g: int, cyc: seq<int>, j: nat)
    requires IsRing(t, g, cyc) && |cyc| >= 2 && j < |cyc|
    ensures var t1 := ApplyKill(t, Prev(cyc, j), cyc[j]);
      AliveIn(t1, g) == AliveIn(t, g) - {cyc[j]} &&
      (DeadUntargeted(t, g) ==> DeadUntargeted(t1, g))
  {
    RingPrev(t, g, cyc, j);
    KillTransfersCredit(t, Prev(cyc, j), cyc[j]);
  }

  /** Taking the entry at position j out of a list, and rotating the rest,
      removes exactly that entry's share of credit. */
  lemma CreditWithout(t: Table, cyc: seq<int>, j: nat)
    requires j < |cyc| && forall i :: 0 <= i < |cyc| ==> cyc[i] in t
    ensures Credit(t, cyc) == t[cyc[j]].kills + 1 + Credit(t, WithoutTarget(cyc, j))
  {
    var v := cyc[j];
    assert cyc == cyc[..j] + [v] + cyc[j + 1..];
    CreditAppend(t, cyc[..j] + [v], cyc[j + 1..]);
    CreditAppend(t, cyc[..j], [v]);
    CreditAppend(t, cyc[j + 1..], cyc[..j]);
    assert Credit(t, [v]) == t[v].kills + 1;
  }

  /** The victim's share of credit moves to its hunter: the shortened ring holds
      as much credit as the old one. */
  lemma ApplyKillCredit(t: Table, g: int, cyc: seq<int>, j: nat)
    requires IsRing(t, g, cyc) && |cyc| >= 2 && j < |cyc|
    ensures Credit(ApplyKill(t, Prev(cyc, j), cyc[j]), WithoutTarget(cyc, j)) == Credit(t, cyc)
  {
    var k, v := Prev(cyc, j), cyc[j];
    RingPrev(t, g, cyc, j);
    var t1 := ApplyKill(t, k, v);
    var w := WithoutTarget(cyc, j);
    WithoutTargetShape(cyc, j);
    KillTransfersCredit(t, k, v);
    CreditWithout(t, cyc, j);
    forall i | 0 <= i < |w| && w[i] != k ensures t1[w[i]].kills == t[w[i]].kills {
      assert w[i] != v;
    }
    CreditBump(t, t1, w, k, t[v].kills + 1);
  }

  /** The kill's writes on the ring's victim at position j, by its hunter,
      leave a ring of the alive players one shorter, keep the dead untargeted,
      and keep the ring's total credit. */
  lemma ApplyKillKeepsRing(t: Table, g: int, cyc: seq<int>, j: nat)
    requires IsRing(t, g, cyc) && |cyc| >= 2 && j < |cyc|
    ensures var t1 := ApplyKill(t, Prev(cyc, j), cyc[j]);
      IsRing(t1, g, WithoutTarget(cyc, j)) &&
      AliveIn(t1, g) == AliveIn(t, g) - {cyc[j]} &&
      (DeadUntargeted(t, g) ==> DeadUntargeted(t1, g)) &&
      Credit(t1, WithoutTarget(cyc, j)) == Credit(t, cyc)
  {
    WithoutTargetShape(cyc, j);
    ApplyKillLinks(t, g, cyc, j);
    ApplyKillAlive(t, g, cyc, j);
    ApplyKillCredit(t, g, cyc, j);
  }

  /** A possible repair keeps every row, changes nothing but the pointer of one
      hunter of the dead player, and gives that hunter an alive player of the
      game other than itself, or nobody. */
  lemma RepairResultEffect(t: Table, games: Games, g: int, dead: int, t2: Table)
    requires IsRepairResult(t, g, dead, t2)
    ensures t2.Keys == t.Keys
    ensures forall id :: id in t ==> t2[id] == t[id].(currentTarget := t2[id].currentTarget)
    ensures forall id :: id in t && t2[id].currentTarget != t[id].currentTarget ==>
      IsHunterOf(t, g, id, dead) &&
      (t2[id].currentTarget == None || Usable(GamePlayers(t, g), id, t2[id].currentTarget))
    ensures ReferencesValid(t, games) ==> ReferencesValid(t2, games)
  {
    if exists h :: IsHunterOf(t, g, h, dead) {
      var h :| IsHunterOf(t, g, h, dead) && t2 == RepairWith(t, g, dead, h);
    }
  }

  /** The kill's writes change no name, code or game, so they keep the unique
      constraints, and they point the killer at an existing row or at nobody. */
  lemma ApplyKillIntegrity(t: Table, games: Games, killer: int, v: int)
    requires killer in t && v in t && UniqueInGames(t)
    ensures UniqueInGames(ApplyKill(t, killer, v))
    ensures ReferencesValid(t, games) ==> ReferencesValid(ApplyKill(t, killer, v), games)
    ensures ApplyKill(t, killer, v)[v].currentTarget == None
  {
    var t1 := ApplyKill(t, killer, v);
    assert forall id :: id in t ==>
      t1[id].nickname == t[id].nickname && t1[id].secretCode == t[id].secretCode && t1[id].game == t[id].game;
  }

  /** What an accepted kill does to the rows, whatever the repair chose. */
  lemma AcceptedKillRows(t: Table, g: int, killer: int, v: int, t': Table)
    requires killer in t && v in t && t[killer].isAlive
    requires IsRepairResult(ApplyKill(t, killer, v), g, v, t')
    ensures t'.Keys == t.Keys
    ensures t'[killer].kills == t[killer].kills + 1 + t[v].kills
    ensures !t'[v].isAlive && t'[v].currentTarget == None
    ensures killer != v ==> t'[killer].isAlive
    ensures forall id :: id in t ==>
      t'[id].nickname == t[id].nickname && t'[id].secretCode == t[id].secretCode &&
      t'[id].game == t[id].game &&
      (id != killer ==> t'[id].kills == t[id].kills) &&
      (id != v ==> t'[id].isAlive == t[id].isAlive)
  {
    var t1 := ApplyKill(t, killer, v);
    RepairResultEffect(t1, map[], g, v, t');
    assert !IsHunterOf(t1, g, v, v);
  }

  /** An accepted kill keeps the unique constraints and, when the game table
      keeps its keys, every foreign key. */
  lemma AcceptedKillIntegrity(t: Table, games: Games, g: int, killer: int, v: int, t': Table, games': Games)
    requires killer in t && v in t && UniqueInGames(t)
    requires IsRepairResult(ApplyKill(t, killer, v), g, v, t')
    requires games'.Keys == games.Keys
    ensures UniqueInGames(t')
    ensures ReferencesValid(t, games) ==> ReferencesValid(t', games')
  {
    var t1 := ApplyKill(t, killer, v);
    ApplyKillIntegrity(t, games, killer, v);
    RepairResultEffect(t1, games, g, v, t');
    assert forall id :: id in t' ==> t'[id].game == t1[id].game;
  }

  /** The effect of a kill: a refused one changes nothing; an accepted one
      credits the killer with one plus the victim's kills, leaves the victim dead
      and untargeting, changes no other kill count, alive flag, name, code or
      game, touches only the named game's row, and keeps the table's integrity. */
  lemma KillStepEffect(t: Table, games: Games, killerId: int, code: string, now: int,
                       t': Table, games': Games, r: Result<KillOutcome, Error>)
    requires KillStep(t, games, killerId, code, now, t', games', r)
    ensures r.Err? <==> KillCheck(t, games, killerId, code).Err?
    ensures r.Err? ==> r.error == KillCheck(t, games, killerId, code).error && t' == t && games' == games
    ensures r.Ok? ==>
      var v := KillCheck(t, games, killerId, code).value.1;
      var g := t[killerId].game.value;
      t'.Keys == t.Keys && v in t && InGame(t, v, g) && g in games &&
      t'[killerId].kills == t[killerId].kills + 1 + t[v].kills &&
      !t'[v].isAlive && t'[v].currentTarget == None &&
      (killerId != v ==> t'[killerId].isAlive) &&
      (forall id :: id in t ==>
        t'[id].nickname == t[id].nickname && t'[id].secretCode == t[id].secretCode &&
        t'[id].game == t[id].game &&
        (id != killerId ==> t'[id].kills == t[id].kills) &&
        (id != v ==> t'[id].isAlive == t[id].isAlive)) &&
      games'.Keys == games.Keys &&
      (forall gid :: gid in games && gid != g ==> games'[gid] == games[gid]) &&
      (games' != games ==> r == Ok(GameFinished(killerId)) && games'[g] == FinishGame(games[g], killerId, now))
    ensures UniqueInGames(t')
    ensures ReferencesValid(t, games) ==> ReferencesValid(t', games')
  {
    var c := KillCheck(t, games, killerId, code);
    if c.Ok? {
      var v := c.value.1;
      var g := t[killerId].game.value;
      assert InGame(t, v, g);
      AcceptedKillRows(t, g, killerId, v, t');
      AcceptedKillIntegrity(t, games, g, killerId, v, t', games');
    }
  }

  /** Nobody of the game targets the victim after a kill inside a ring whose
      dead members target nobody, so the repair finds no hunter. */
  lemma NoHunterAfterRingKill(t: Table, g: int, cyc: seq<int>, j: nat)
    requires IsRing(t, g, cyc) && |cyc| >= 2 && j < |cyc| && DeadUntargeted(t, g)
    ensures forall h :: !IsHunterOf(ApplyKill(t, Prev(cyc, j), cyc[j]), g, h, cyc[j])
  {
    var t1 := ApplyKill(t, Prev(cyc, j), cyc[j]);
    var w := WithoutTarget(cyc, j);
    ApplyKillKeepsRing(t, g, cyc, j);
    WithoutTargetShape(cyc, j);
    forall h | InGame(t1, h, g) && t1[h].isAlive ensures t1[h].currentTarget != Some(cyc[j]) {
      assert h in AliveIn(t1, g);
      var m :| 0 <= m < |w| && w[m] == h;
      assert Next(w, m) in w;
    }
  }

  /** A kill in a running game: from a ring of n >= 2
      alive players, an accepted kill leaves a ring of the n - 1 survivors with
      the same total credit, the killer alive and inheriting its victim's
      target; the game is finished exactly when
      n was 2, and then the winner targets itself and holds every credit of the
      old ring as kills. */
  lemma KillInRing(t: Table, games: Games, g: int, cyc: seq<int>, killerId: int, code: string,
                   now: int, t': Table, games': Games, r: Result<KillOutcome, Error>)
    requires IsRing(t, g, cyc) && |cyc| >= 2 && DeadUntargeted(t, g)
    requires killerId in t && t[killerId].game == Some(g)
    requires KillStep(t, games, killerId, code, now, t', games', r) && r.Ok?
    ensures t'[killerId].isAlive
    ensures var v := t[killerId].currentTarget;
      v.Some? && v.value in t && !t'[v.value].isAlive && t'[killerId].currentTarget == t[v.value].currentTarget
    ensures |AliveIn(t', g)| == |cyc| - 1
    ensures DeadUntargeted(t', g)
    ensures exists w :: IsRing(t', g, w) && Credit(t', w) == Credit(t, cyc)
    ensures r.value.GameFinished? <==> |cyc| == 2
    ensures r.value.GameFinished? ==>
      t'[killerId].currentTarget == Some(killerId) && t'[killerId].kills + 1 == Credit(t, cyc) &&
      games' == games[g := FinishGame(games[g], killerId, now)]
    ensures r.value.TargetEliminated? ==> games' == games
  {
    var v := KillCheck(t, games, killerId, code).value.1;
    assert killerId in AliveIn(t, g);
    var i :| 0 <= i < |cyc| && cyc[i] == killerId;
    var j := if i + 1 < |cyc| then i + 1 else 0;
    RingHunter(t, g, cyc, i);
    assert v == cyc[j];
    ApplyKillKeepsRing(t, g, cyc, j);
    NoHunterAfterRingKill(t, g, cyc, j);
    var t1 := ApplyKill(t, killerId, v);
    assert t' == t1;
    var w := WithoutTarget(cyc, j);
    WithoutTargetShape(cyc, j);
    OrderingSize(w, AliveIn(t', g));
    assert killerId in AliveIn(t', g);
    if |cyc| == 2 {
      assert w == [killerId];
      assert Next(w, 0) == killerId;
      assert Credit(t', w) == t'[killerId].kills + 1;
    }
  }

  /** What an accepted kill step knows about its victim, its game and its repair. */
  lemma AcceptedKillStep(t: Table, games: Games, killerId: int, code: string, now: int,
                         t': Table, games': Games, r: Result<KillOutcome, Error>)
    requires KillStep(t, games, killerId, code, now, t', games', r) && r.Ok?
    ensures KillCheck(t, games, killerId, code).Ok?
    ensures var v, g := KillCheck(t, games, killerId, code).value.1, t[killerId].game.value;
      killerId in t && t[killerId].isAlive && InGame(t, killerId, g) && g in games &&
      InGame(t, v, g) && t[v].secretCode == code && UniqueInGames(t) &&
      IsRepairResult(ApplyKill(t, killerId, v), g, v, t') && games'.Keys == games.Keys
  {
  }

  /** A code held by a dead player of the game is an invalid target for any
      alive player of that game. */
  lemma DeadCodeInvalid(t: Table, games: Games, other: int, g: int, v: int, code: string)
    requires UniqueInGames(t) && g in games
    requires other in t && t[other].isAlive && t[other].game == Some(g)
    requires InGame(t, v, g) && t[v].secretCode == code && !t[v].isAlive
    ensures KillCheck(t, games, other, code) == Err(BadRequest("Invalid target"))
  {
    assert CodeTaken(t, g, code);
    assert FindByCode(t, g, code) == Some(v) by {
      var u := FindByCode(t, g, code).value;
      assert t[u].secretCode == t[v].secretCode;
    }
  }

  /** A victim cannot be killed twice: once a kill is accepted, any alive player
      of the same game presenting the same code is told the target is invalid. */
  lemma SecondKillFails(t: Table, games: Games, killerId: int, code: string, now: int,
                        t': Table, games': Games, r: Result<KillOutcome, Error>, other: int)
    requires killerId in t && KillStep(t, games, killerId, code, now, t', games', r) && r.Ok?
    requires other in t' && t'[other].isAlive && t'[other].game == t[killerId].game
    ensures UniqueInGames(t') && KillCheck(t', games', other, code) == Err(BadRequest("Invalid target"))
  {
    AcceptedKillStep(t, games, killerId, code, now, t', games', r);
    var v := KillCheck(t, games, killerId, code).value.1;
    var g := t[killerId].game.value;
    AcceptedKillRows(t, g, killerId, v, t');
    AcceptedKillIntegrity(t, games, g, killerId, v, t', games);
    DeadCodeInvalid(t', games', other, g, v, code);
  }

  /** The kill check does not look at the game's status: the winner of a
      finished game, alone in its ring and targeting itself, may present its own
      code, which kills it and leaves the game with no alive player, reported
      as an ordinary elimination. */
  lemma SelfKillAfterWin(t: Table, games: Games, g: int, w: int, now: int,
                         t': Table, games': Games, r: Result<KillOutcome, Error>)
    requires IsRing(t, g, [w]) && g in games && UniqueInGames(t)
    requires KillStep(t, games, w, t[w].secretCode, now, t', games', r)
    ensures r == Ok(TargetEliminated(w, w))
    ensures AliveIn(t', g) == {} && !t'[w].isAlive
    ensures games' == games
  {
    assert w in AliveIn(t, g);
    assert FindByCode(t, g, t[w].secretCode) == Some(w) by {
      var u := FindByCode(t, g, t[w].secretCode).value;
      assert t[u].secretCode == t[w].secretCode;
    }
    RepairResultEffect(ApplyKill(t, w, w), games, g, w, t');
    assert AliveIn(t', g) == {} by {
      forall id | id in t' ensures id !in AliveIn(t', g) {
        if id != w && InGame(t, id, g) { assert id !in AliveIn(t, g); }
      }
    }
  }
}
