/** `GameGateway` of src/game/game.gateway.ts: the registry from player id to
    socket id (`playerSocketMap`, a JavaScript `Map`, so an ordered list of
    entries with distinct keys), room membership, and the decisions of the
    kill request and kill response handlers. What is sent over a socket is
    returned as a value instead. */
module Gateway {
  import opened Common
  import opened PlayerEntity
  import opened TargetRing
  import opened Players

  /** Registry entries in insertion order: (player id, socket id). */
  type Registry = seq<(int, string)>

  /** No player id appears twice. */
  predicate KeysDistinct(reg: Registry)
  {
    forall i, j :: 0 <= i < j < |reg| ==> reg[i].0 != reg[j].0
  }

  /** The position of the first entry for `player` at or after i, or -1. */
  function IndexFrom(reg: Registry, player: int, i: nat): (r: int)
    requires i <= |reg|
    ensures r == -1 || i <= r < |reg|
    ensures r >= 0 ==> reg[r].0 == player && forall k :: i <= k < r ==> reg[k].0 != player
    ensures r == -1 ==> forall k :: i <= k < |reg| ==> reg[k].0 != player
    decreases |reg| - i
  {
    if i == |reg| then -1 else if reg[i].0 == player then i else IndexFrom(reg, player, i + 1)
  }

  /** `Map.get`: the socket of the entry for `player`. */
  function MapGet(reg: Registry, player: int): Option<string>
  {
    var i := IndexFrom(reg, player, 0);
    if i < 0 then None else Some(reg[i].1)
  }

  /** `Map.set`: an existing entry keeps its place and takes the new socket; a
      new key is appended. */
  function MapSet(reg: Registry, player: int, socket: string): Registry
  {
    var i := IndexFrom(reg, player, 0);
    if i < 0 then reg + [(player, socket)] else reg[i := (player, socket)]
  }

  /** With distinct keys, the entry at position k is the one `get` finds. */
  lemma IndexOfDistinct(reg: Registry, k: int)
    requires KeysDistinct(reg) && 0 <= k < |reg|
    ensures IndexFrom(reg, reg[k].0, 0) == k
  {
  }

  /** After `set`, the player's socket is the new one, every other player's is
      as before, the keys stay distinct, the registry grows exactly when the
      player had no entry, and the order of the other entries is kept. */
  lemma MapSetGet(reg: Registry, player: int, socket: string, other: int)
    requires KeysDistinct(reg)
    ensures KeysDistinct(MapSet(reg, player, socket))
    ensures MapGet(MapSet(reg, player, socket), player) == Some(socket)
    ensures other != player ==> MapGet(MapSet(reg, player, socket), other) == MapGet(reg, other)
    ensures |MapSet(reg, player, socket)| == if MapGet(reg, player).Some? then |reg| else |reg| + 1
    ensures forall k :: 0 <= k < |reg| && reg[k].0 != player ==> MapSet(reg, player, socket)[k] == reg[k]
  {
    var r := MapSet(reg, player, socket);
    var i := IndexFrom(reg, player, 0);
    assert KeysDistinct(r) by {
      forall a, b | 0 <= a < b < |r| ensures r[a].0 != r[b].0 {
        if i >= 0 {
          if a != i && b != i { assert r[a] == reg[a] && r[b] == reg[b]; }
          else if a == i { assert reg[b].0 != reg[i].0; }
          else { assert reg[a].0 != reg[i].0; }
        } else if b == |reg| {
          assert r[a] == reg[a];
        } else {
          assert r[a] == reg[a] && r[b] == reg[b];
        }
      }
    }
    var j := IndexFrom(r, player, 0);
    if i >= 0 {
      IndexOfDistinct(r, i);
    } else {
      IndexOfDistinct(r, |reg|);
    }
    if other != player {
      var io := IndexFrom(reg, other, 0);
      if io >= 0 {
        IndexOfDistinct(reg, io);
        IndexOfDistinct(r, io);
      } else {
        assert forall k :: 0 <= k < |r| ==> r[k].0 != other by {
          forall k | 0 <= k < |r| ensures r[k].0 != other {
            if k < |reg| && k != i { assert r[k] == reg[k]; }
          }
        }
      }
    }
  }

  /** The position of the first entry holding `socket` at or after i, or -1. */
  function SocketIndexFrom(reg: Registry, socket: string, i: nat): (r: int)
    requires i <= |reg|
    ensures r == -1 || i <= r < |reg|
    ensures r >= 0 ==> reg[r].1 == socket && forall k :: i <= k < r ==> reg[k].1 != socket
    ensures r == -1 ==> forall k :: i <= k < |reg| ==> reg[k].1 != socket
    decreases |reg| - i
  {
    if i == |reg| then -1 else if reg[i].1 == socket then i else SocketIndexFrom(reg, socket, i + 1)
  }

  /** The registry after deleting the first entry whose socket is `socket`. */
  function RemoveFirstWithSocket(reg: Registry, socket: string): Registry
  {
    var i := SocketIndexFrom(reg, socket, 0);
    if i < 0 then reg else reg[..i] + reg[i + 1..]
  }

  /** Deleting the entry at position i shifts the later entries down by one. */
  lemma DeleteAtShifts(reg: Registry, i: int)
    requires 0 <= i < |reg|
    ensures var r := reg[..i] + reg[i + 1..];
      |r| == |reg| - 1 && forall a :: 0 <= a < |r| ==> r[a] == reg[if a < i then a else a + 1]
  {
  }

  /** Deleting one entry keeps the keys distinct, removes that entry's player,
      and leaves every other player's socket as it was. */
  lemma DeleteAtGet(reg: Registry, i: int, p: int)
    requires KeysDistinct(reg) && 0 <= i < |reg|
    ensures KeysDistinct(reg[..i] + reg[i + 1..])
    ensures MapGet(reg[..i] + reg[i + 1..], reg[i].0) == None
    ensures p != reg[i].0 ==> MapGet(reg[..i] + reg[i + 1..], p) == MapGet(reg, p)
  {
    var r := reg[..i] + reg[i + 1..];
    DeleteAtShifts(reg, i);
    assert KeysDistinct(r) by {
      forall a, b | 0 <= a < b < |r| ensures r[a].0 != r[b].0 {
        assert r[a] == reg[if a < i then a else a + 1] && r[b] == reg[if b < i then b else b + 1];
      }
    }
    assert forall a :: 0 <= a < |r| ==> r[a].0 != reg[i].0 by {
      forall a | 0 <= a < |r| ensures r[a].0 != reg[i].0 {
        assert r[a] == reg[if a < i then a else a + 1];
      }
    }
    if p != reg[i].0 {
      var ip := IndexFrom(reg, p, 0);
      if ip >= 0 {
        IndexOfDistinct(reg, ip);
        var a := if ip < i then ip else ip - 1;
        assert r[a] == reg[ip];
        IndexOfDistinct(r, a);
      } else {
        assert forall a :: 0 <= a < |r| ==> r[a].0 != p by {
          forall a | 0 <= a < |r| ensures r[a].0 != p {
            assert r[a] == reg[if a < i then a else a + 1];
          }
        }
      }
    }
  }

  /** Disconnecting removes at most one entry: with no entry holding the
      socket nothing changes; otherwise there is one entry fewer, the player of
      the first entry holding it (position i) loses its socket, every other
      player keeps its own, and the keys stay distinct. */
  lemma RemoveFirstShape(reg: Registry, socket: string, p: int)
    requires KeysDistinct(reg)
    ensures var r, i := RemoveFirstWithSocket(reg, socket), SocketIndexFrom(reg, socket, 0);
      KeysDistinct(r) &&
      (i < 0 ==> r == reg) &&
      (i >= 0 ==> |r| == |reg| - 1 && MapGet(r, reg[i].0) == None &&
                  (p != reg[i].0 ==> MapGet(r, p) == MapGet(reg, p)))
  {
    var i := SocketIndexFrom(reg, socket, 0);
    if i >= 0 {
      DeleteAtShifts(reg, i);
      DeleteAtGet(reg, i, p);
    }
  }

  /** A socket registered for two players (the same client joined twice under
      different ids) is only forgotten for the first of them. */
  lemma DisconnectKeepsLaterEntry(a: int, b: int, socket: string)
    requires a != b
    ensures RemoveFirstWithSocket([(a, socket), (b, socket)], socket) == [(b, socket)]
    ensures MapGet(RemoveFirstWithSocket([(a, socket), (b, socket)], socket), b) == Some(socket)
  {
  }

  /** `handleJoinGame`'s reply: `{ status: 'joined', room }`. */
  datatype JoinReply = Joined(room: string)

  /** A reply `{ status, message }` of the kill request handler. */
  datatype Reply = Reply(status: string, message: string)

  /** A message sent to one socket: the event name and its message text. */
  datatype Notice = Notice(socket: string, event: string, message: string)

  /** The name of the room of game `gameId`. */
  function RoomName(gameId: int): (r: string)
    ensures |r| == 5 + |IntToString(gameId)|
    ensures r[..5] == "game-" && r[5..] == IntToString(gameId)
  {
    "game-" + IntToString(gameId)
  }

  /** Different games have different rooms. */
  lemma RoomNameInjective(a: int, b: int)
    requires RoomName(a) == RoomName(b)
    ensures a == b
  {
    assert IntToString(a) == RoomName(a)[5..] == RoomName(b)[5..] == IntToString(b);
    IntToStringInjective(a, b);
  }

  /** JavaScript truthiness of a looked-up socket id: missing or "" is false. */
  predicate SocketTruthy(s: Option<string>)
  {
    s.Some? && s.value != ""
  }

  /** The reply and the popup of a kill request, given the proximity check's
      answer and the registry: an error, or "waiting" with a popup to the
      target's socket. A popup goes out exactly when the target is nearby and
      connected, and it goes to that target's socket. */
  function KillRequestReply(prox: Result<ProximityReply, Error>, reg: Registry): (out: (Reply, Option<Notice>))
    ensures out.1.Some? <==>
      prox.Ok? && prox.value.isNearby && SocketTruthy(MapGet(reg, prox.value.targetId))
    ensures out.1.Some? ==>
      out.1.value.socket == MapGet(reg, prox.value.targetId).value && out.1.value.event == "killRequest"
    ensures out.0.status == "waiting" <==> out.1.Some?
    ensures out.0.status != "waiting" ==> out.0.status == "error"
  {
    if prox.Err? then (Reply("error", prox.error.message), None)
    else if !prox.value.isNearby then (Reply("error", "Target is too far away!"), None)
    else
      var s := MapGet(reg, prox.value.targetId);
      if !SocketTruthy(s) then (Reply("error", "Target is disconnected"), None)
      else (Reply("waiting", "Waiting for target confirmation..."),
            Some(Notice(s.value, "killRequest", "Your hunter is close! Did they get you?")))
  }

  /** The registry enters a kill request only through the target's entry: two
      registries that agree on the target give the same reply and popup. */
  lemma KillRequestReadsOnlyTargetSocket(prox: Result<ProximityReply, Error>, reg1: Registry, reg2: Registry)
    requires prox.Ok? ==> MapGet(reg1, prox.value.targetId) == MapGet(reg2, prox.value.targetId)
    ensures KillRequestReply(prox, reg1) == KillRequestReply(prox, reg2)
  {
  }

  /** "Too far away" is decided before any socket is looked up: whatever the
      registry holds, a target not nearby gets that reply and no popup. */
  lemma TooFarIgnoresRegistry(prox: Result<ProximityReply, Error>, reg1: Registry, reg2: Registry)
    requires prox.Ok? && !prox.value.isNearby
    ensures KillRequestReply(prox, reg1) == KillRequestReply(prox, reg2)
    ensures KillRequestReply(prox, reg1) == (Reply("error", "Target is too far away!"), None)
  {
  }

  class GameGateway {
    /** `playerSocketMap`. */
    var sockets: Registry
    /** Which client is in which room: (socket id, room name). */
    var rooms: set<(string, string)>
    const service: PlayerService

    ghost predicate Valid()
      reads this, service
    {
      KeysDistinct(sockets) && service.Valid()
    }

    constructor(service0: PlayerService)
      requires service0.Valid()
      ensures Valid()
      ensures sockets == [] && rooms == {} && service == service0
    {
      sockets := [];
      rooms := {};
      service := service0;
    }

    /** `handleJoinGame({gameId, playerId}, client)`: the client joins room
        `game-<gameId>` and becomes the player's socket, replacing any earlier
        one. */
    method HandleJoinGame(gameId: int, playerId: int, clientId: string) returns (r: JoinReply)
      requires Valid()
      modifies this
      ensures Valid()
      ensures r == Joined(RoomName(gameId))
      ensures sockets == MapSet(old(sockets), playerId, clientId)
      ensures MapGet(sockets, playerId) == Some(clientId)
      ensures forall other :: other != playerId ==> MapGet(sockets, other) == MapGet(old(sockets), other)
      ensures rooms == old(rooms) + {(clientId, RoomName(gameId))}
    {
      var room := RoomName(gameId);
      rooms := rooms + {(clientId, room)};
      forall other ensures other != playerId ==> MapGet(MapSet(sockets, playerId, clientId), other) == MapGet(sockets, other) {
        MapSetGet(sockets, playerId, clientId, other);
      }
      MapSetGet(sockets, playerId, clientId, playerId);
      sockets := MapSet(sockets, playerId, clientId);
      r := Joined(room);
    }

    /** `handleDisconnect(client)`: scan the entries in order and delete the
        first one holding the client's socket. */
    method HandleDisconnect(clientId: string)
      requires Valid()
      modifies this
      ensures Valid()
      ensures sockets == RemoveFirstWithSocket(old(sockets), clientId)
      ensures rooms == old(rooms)
    {
      ghost var reg := sockets;
      RemoveFirstShape(reg, clientId, 0);
      var i := 0;
      while i < |sockets|
        invariant 0 <= i <= |sockets| && sockets == reg
        invariant forall k :: 0 <= k < i ==> reg[k].1 != clientId
      {
        if sockets[i].1 == clientId {
          sockets := sockets[..i] + sockets[i + 1..];
          break;
        }
        i := i + 1;
      }
      assert i < |reg| ==> i == SocketIndexFrom(reg, clientId, 0);
    }

    /** `handleKillRequest({hunterId})`: the proximity check's error, if it
        raises one, is the reply; a target not nearby is too far away, whatever
        the registry holds; a target with no socket is disconnected; otherwise
        the target's socket is asked to confirm and the hunter waits. */
    method HandleKillRequest(hunterId: int, dist: (Location, Location) -> real)
      returns (r: Reply, popup: Option<Notice>)
      ensures (r, popup) == KillRequestReply(ProximityDecision(service.players, service.locations, hunterId, dist), sockets)
      ensures var prox := ProximityDecision(service.players, service.locations, hunterId, dist);
        (prox.Err? ==> r == Reply("error", prox.error.message) && popup == None) &&
        (prox.Ok? && !prox.value.isNearby ==> r == Reply("error", "Target is too far away!") && popup == None) &&
        (prox.Ok? && prox.value.isNearby ==>
          var s := MapGet(sockets, prox.value.targetId);
          (!SocketTruthy(s) ==> r == Reply("error", "Target is disconnected") && popup == None) &&
          (SocketTruthy(s) ==>
            r == Reply("waiting", "Waiting for target confirmation...") &&
            popup == Some(Notice(s.value, "killRequest", "Your hunter is close! Did they get you?"))))
    {
      var canKill := ProximityDecision(service.players, service.locations, hunterId, dist);
      if canKill.Err? {
        return Reply("error", canKill.error.message), None;
      }
      if !canKill.value.isNearby {
        return Reply("error", "Target is too far away!"), None;
      }
      var targetSocket := MapGet(sockets, canKill.value.targetId);
      if !SocketTruthy(targetSocket) {
        return Reply("error", "Target is disconnected"), None;
      }
      popup := Some(Notice(targetSocket.value, "killRequest", "Your hunter is close! Did they get you?"));
      r := Reply("waiting", "Waiting for target confirmation...");
    }

    /** `handleKillResponse({gameId, targetId, hunterId, accepted})` at clock
        reading `now`: a denial leaves the game alone and tells the hunter; an
        acceptance looks the target up in the game and runs `killTarget` with
        the target's own code, then tells the hunter the outcome or the error.
        The hunter hears nothing when it has no socket. */
    method HandleKillResponse(gameId: int, targetId: int, hunterId: int, accepted: bool, now: int)
      returns (notice: Option<Notice>)
      requires Valid()
      modifies service
      ensures Valid()
      ensures service.nextId == old(service.nextId) && service.locations == old(service.locations)
      ensures !accepted ==> service.players == old(service.players) && service.games == old(service.games)
      ensures var hs := MapGet(sockets, hunterId);
        !SocketTruthy(hs) ==> notice == None
      ensures var hs := MapGet(sockets, hunterId);
        SocketTruthy(hs) && !accepted ==>
          notice == Some(Notice(hs.value, "killDenied", "Target denied the kill. Get closer!"))
      ensures accepted && GetPlayerById(old(service.players), old(service.games), gameId, targetId).Err? ==>
        service.players == old(service.players) && service.games == old(service.games) &&
        (SocketTruthy(MapGet(sockets, hunterId)) ==>
          notice == Some(Notice(MapGet(sockets, hunterId).value, "killError", "Player not found")))
      ensures accepted && GetPlayerById(old(service.players), old(service.games), gameId, targetId).Ok? ==>
        exists res :: KillStep(old(service.players), old(service.games), hunterId,
                               old(service.players)[targetId].secretCode, now,
                               service.players, service.games, res) &&
          (SocketTruthy(MapGet(sockets, hunterId)) ==>
            notice == Some(if res.Ok? then Notice(MapGet(sockets, hunterId).value, "killConfirmed", "success")
                           else Notice(MapGet(sockets, hunterId).value, "killError", res.error.message)))
    {
      var hunterSocket := MapGet(sockets, hunterId);
      notice := None;
      if accepted {
        var found := GetPlayerById(service.players, service.games, gameId, targetId);
        if found.Err? {
          if SocketTruthy(hunterSocket) {
            notice := Some(Notice(hunterSocket.value, "killError", found.error.message));
          }
        } else {
          var code := service.players[found.value].secretCode;
          var res := service.KillTarget(hunterId, code, now);
          if SocketTruthy(hunterSocket) {
            if res.Ok? {
              notice := Some(Notice(hunterSocket.value, "killConfirmed", "success"));
            } else {
              notice := Some(Notice(hunterSocket.value, "killError", res.error.message));
            }
          }
        }
      } else {
        if SocketTruthy(hunterSocket) {
          notice := Some(Notice(hunterSocket.value, "killDenied", "Target denied the kill. Get closer!"));
        }
      }
    }
  }
}
