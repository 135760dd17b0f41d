/** `ClientPlayerEntity`: the local player, whose position the translator
    keeps in step with the Java client through teleport ids. Positions and
    rotations are opaque values of `P` compared by equality; whether a
    position lies in an unloaded chunk section is the parameter `unloaded`. */
module ClientPlayer {
  import opened Wrappers
  import opened JavaLang
  import opened EntityModel

  /** The `PlayerAuthInputPacket_InputData` flags the player sets by name;
      the jump and direction flags derived from float movement come in as
      `Movement` values. */
  datatype InputData =
    | BlockBreakingDelayEnabled
    | SneakDown | Sneaking | WantDown
    | SprintDown | Sprinting
    | HandledTeleport
    | Movement(value: int)

  datatype PlayerAction = StartJump | HandledTeleportAction

  /** What the player sends, to the Java client or to the Bedrock server. */
  datatype Event<P> =
    | PlayerPosition(teleportId: Int32, keepRotation: bool)
    | Action(action: PlayerAction)
    | MovePlayer(position: P, rotation: P, onGround: bool)
    | AuthInput(flags: set<InputData>, tick: Int32)

  /** The teleport id handed out by the `n`-th position write: the counter
      starts at 1 and counts up in 32-bit arithmetic. */
  function TeleportId(n: nat): (id: Int32)
    ensures n < INT_MAX ==> id == n + 1
  {
    Wrap32(n + 1)
  }

  /** Before the counter wraps, every id handed out is positive and later
      ids are larger. */
  lemma TeleportIdsIncrease(i: nat, j: nat)
    requires i < j < INT_MAX
    ensures 0 < TeleportId(i) < TeleportId(j)
  {
  }

  /** The counter does wrap: the id after `Integer.MAX_VALUE` is negative. */
  lemma TeleportIdWraps()
    ensures TeleportId(INT_MAX) == INT_MIN
  {
  }

  /** The id written for a fake teleport: the pending id negated. */
  function FakeId(n: nat): Int32
  {
    Wrap32(TeleportId(n) * -1)
  }

  /** The last check of `preMove`: the move changes the position, the
      rotation or the on-ground flag. */
  predicate Differs<P(==)>(position: P, rotation: P, onGround: bool, newPosition: Option<P>, newRotation: Option<P>, newOnGround: bool)
  {
    (newPosition.Some? && position != newPosition.value)
    || (newRotation.Some? && rotation != newRotation.value)
    || onGround != newOnGround
  }

  /** `Differs` holds exactly when applying the move changes the state. */
  lemma DiffersIffChanged<P>(position: P, rotation: P, onGround: bool, newPosition: Option<P>, newRotation: Option<P>, newOnGround: bool)
    ensures Differs(position, rotation, onGround, newPosition, newRotation, newOnGround) <==>
      (newPosition.GetOr(position), newRotation.GetOr(rotation), newOnGround) != (position, rotation, onGround)
  {
  }

  /** What `preMove` decides and does to the sync state: whether the move
      passes, the new waiting and unloaded-chunk flags, and the fake teleport
      it sends back to the client, if any, with its keep-rotation flag. */
  datatype SyncStep = SyncStep(move: bool, waiting: bool, wasInside: bool, resend: Option<bool>)

  /** `preMove`'s branches over the state before the call; `spawned` is
      `initiallySpawned && !changingDimension`. A move that passes sends
      nothing and starts no wait, and a wait starts only with a teleport
      that keeps the rotation. */
  function PreMoveStep<P(==)>(waiting: bool, wasInside: bool, pendingTeleportId: Int32, spawned: bool,
                              position: P, rotation: P, onGround: bool,
                              newPosition: Option<P>, newRotation: Option<P>, newOnGround: bool, unloaded: P -> bool): (s: SyncStep)
    ensures s.move ==> s.resend.None? && !s.waiting && !s.wasInside
    ensures s.resend == Some(true) ==> s.waiting
    ensures s.waiting && !waiting ==> s.resend == Some(true)
    ensures waiting ==> s.resend.None? && s.wasInside == wasInside
  {
    if waiting then
      SyncStep(false, !(pendingTeleportId == 0 && newPosition.Some? && newRotation.Some?), wasInside, None)
    else if unloaded(position) then
      var resend := Some(position) != newPosition;
      SyncStep(false, resend && spawned, true, if resend then Some(spawned) else None)
    else if wasInside || (newPosition.Some? && unloaded(newPosition.value)) then
      SyncStep(false, true, false, Some(true))
    else if !spawned then
      SyncStep(false, false, false, if Some(position) != newPosition then Some(false) else None)
    else
      SyncStep(Differs(position, rotation, onGround, newPosition, newRotation, newOnGround), false, false, None)
  }

  /** `PreMoveStep` branch by branch: a sync in progress holds every packet
      back until a full move arrives with nothing pending; an unloaded
      section, leaving one or entering one resends the position; a player
      not spawned gets the position back whenever it would move; and a move
      passes exactly when none of these applies and it changes the state. */
  lemma PreMoveStepBranches<P>(waiting: bool, wasInside: bool, pendingTeleportId: Int32, spawned: bool,
                               position: P, rotation: P, onGround: bool,
                               newPosition: Option<P>, newRotation: Option<P>, newOnGround: bool, unloaded: P -> bool)
    ensures var s := PreMoveStep(waiting, wasInside, pendingTeleportId, spawned, position, rotation, onGround,
                                 newPosition, newRotation, newOnGround, unloaded);
      && (s.move <==>
           && !waiting && !unloaded(position) && !wasInside
           && !(newPosition.Some? && unloaded(newPosition.value)) && spawned
           && Differs(position, rotation, onGround, newPosition, newRotation, newOnGround))
      && (waiting ==> s.waiting == !(pendingTeleportId == 0 && newPosition.Some? && newRotation.Some?))
      && (!waiting && unloaded(position) ==>
           && s.wasInside && s.waiting == (Some(position) != newPosition && spawned)
           && s.resend == if Some(position) != newPosition then Some(spawned) else None)
      && (!waiting && !unloaded(position) && (wasInside || (newPosition.Some? && unloaded(newPosition.value))) ==>
           !s.wasInside && s.waiting && s.resend == Some(true))
      && (!waiting && !unloaded(position) && !wasInside && !(newPosition.Some? && unloaded(newPosition.value)) && !spawned ==>
           !s.waiting && !s.wasInside && s.resend == if Some(position) != newPosition then Some(false) else None)
      && (!waiting && !unloaded(position) && !wasInside && !(newPosition.Some? && unloaded(newPosition.value)) && spawned ==>
           !s.waiting && !s.wasInside && s.resend.None?)
  {
  }

  /** The flags of the next auth input: those queued, the always-set block
      breaking delay, the sneak and sprint flags, and the movement flags. */
  function AuthFlags(queued: set<InputData>, sneaking: bool, sprinting: bool, movement: set<InputData>): (flags: set<InputData>)
    ensures queued <= flags && movement <= flags && BlockBreakingDelayEnabled in flags
    ensures Sneaking in flags <==> Sneaking in queued + movement || sneaking
    ensures Sprinting in flags <==> Sprinting in queued + movement || sprinting
  {
    queued + {BlockBreakingDelayEnabled}
    + (if sneaking then {SneakDown, Sneaking, WantDown} else {})
    + (if sprinting then {SprintDown, Sprinting} else {})
    + movement
  }

  class ClientPlayerEntity<P(==), K(==), V> {
    /** The `Entity` part: position, rotation, on-ground flag and age. */
    const base: Entity<P, K, V>
    /** `TELEPORT_ID`, the next teleport id. */
    var teleportIdCounter: Int32
    /** The ids handed out so far. */
    ghost var issued: seq<Int32>
    var initiallySpawned: bool
    var changingDimension: bool
    var wasInsideUnloadedChunk: bool
    var pendingTeleportId: Int32
    var waitingForPositionSync: bool
    var prevPosition: Option<P>
    var authInputData: set<InputData>
    var sneaking: bool
    var sprinting: bool
    var events: seq<Event<P>>

    /** The counter is the next id, and a pending id is the last one handed
        out or 0. */
    ghost predicate Valid()
      reads this
    {
      && teleportIdCounter == TeleportId(|issued|)
      && (forall i :: 0 <= i < |issued| ==> issued[i] == TeleportId(i))
      && (pendingTeleportId == 0 || (|issued| > 0 && pendingTeleportId == issued[|issued| - 1]))
    }

    constructor (base: Entity<P, K, V>)
      ensures Valid() && this.base == base
      ensures teleportIdCounter == 1 && issued == [] && pendingTeleportId == 0
      ensures !initiallySpawned && !changingDimension && !wasInsideUnloadedChunk && !waitingForPositionSync
      ensures prevPosition == None && authInputData == {} && !sneaking && !sprinting && events == []
    {
      this.base := base;
      teleportIdCounter := 1;
      issued := [];
      initiallySpawned := false;
      changingDimension := false;
      wasInsideUnloadedChunk := false;
      pendingTeleportId := 0;
      waitingForPositionSync := false;
      prevPosition := None;
      authInputData := {};
      sneaking := false;
      sprinting := false;
      events := [];
    }

    /** The teleport-id part of `writePlayerPositionPacketToClient`: the next
        id becomes pending and is written, negated for a fake teleport. */
    method WritePlayerPosition(fakeTeleport: bool) returns (teleportId: Int32)
      requires Valid()
      modifies this`teleportIdCounter, this`issued, this`pendingTeleportId
      ensures Valid()
      ensures issued == old(issued) + [TeleportId(|old(issued)|)]
      ensures pendingTeleportId == TeleportId(|old(issued)|)
      ensures teleportId == Wrap32(pendingTeleportId * if fakeTeleport then -1 else 1)
    {
      pendingTeleportId := teleportIdCounter;
      Wrap32Succ(|issued| + 1);
      teleportIdCounter := Wrap32(teleportIdCounter + 1);
      issued := issued + [pendingTeleportId];
      teleportId := Wrap32(pendingTeleportId * if fakeTeleport then -1 else 1);
    }

    /** `sendPlayerPositionPacketToClient`: a fake teleport to the current
        position. */
    method SendPlayerPosition(keepRotation: bool)
      requires Valid()
      modifies this`teleportIdCounter, this`issued, this`pendingTeleportId, this`events
      ensures Valid()
      ensures issued == old(issued) + [TeleportId(|old(issued)|)]
      ensures pendingTeleportId == TeleportId(|old(issued)|)
      ensures events == old(events) + [PlayerPosition(FakeId(|old(issued)|), keepRotation)]
    {
      var id := WritePlayerPosition(true);
      events := events + [PlayerPosition(id, keepRotation)];
    }

    /** `confirmTeleport`: a negative id confirms the fake teleport whose id
        it negates; any other id is a server teleport, acknowledged to the
        server at once or with the next auth input. */
    method ConfirmTeleport(teleportId: Int32, clientAuthoritative: bool)
      requires Valid()
      modifies this`pendingTeleportId, this`events, this`authInputData
      ensures Valid()
      ensures teleportId < 0 ==>
        && pendingTeleportId == (if old(pendingTeleportId) == Wrap32(-(teleportId as int)) then 0 else old(pendingTeleportId))
        && events == old(events) && authInputData == old(authInputData)
      ensures teleportId >= 0 ==> pendingTeleportId == old(pendingTeleportId)
      ensures teleportId >= 0 && clientAuthoritative ==>
        events == old(events) + [Action(HandledTeleportAction)] && authInputData == old(authInputData)
      ensures teleportId >= 0 && !clientAuthoritative ==>
        events == old(events) && authInputData == old(authInputData) + {HandledTeleport}
    {
      if teleportId < 0 {
        if pendingTeleportId == Wrap32(-(teleportId as int)) {
          pendingTeleportId := 0;
        }
      } else {
        if clientAuthoritative {
          events := events + [Action(HandledTeleportAction)];
        } else {
          authInputData := authInputData + {HandledTeleport};
        }
      }
    }

    /** `preMove`: whether a movement packet from the Java client may pass.
        While a position sync is pending, or the player is in or enters an
        unloaded section, or is not spawned yet, the packet is held back and
        the client may be teleported back. */
    method PreMove(newPosition: Option<P>, newRotation: Option<P>, newOnGround: bool, unloaded: P -> bool) returns (move: bool)
      requires Valid() && base.position.Some?
      modifies this`waitingForPositionSync, this`wasInsideUnloadedChunk, this`teleportIdCounter, this`issued
      modifies this`pendingTeleportId, this`events
      ensures Valid()
      // a fake teleport goes out exactly when an event is added, with the next id
      ensures |events| == |old(events)| ==> issued == old(issued) && pendingTeleportId == old(pendingTeleportId)
      ensures |events| != |old(events)| ==>
        issued == old(issued) + [TeleportId(|old(issued)|)] && pendingTeleportId == TeleportId(|old(issued)|)
      ensures move <==>
        && !old(waitingForPositionSync)
        && !unloaded(base.position.value) && !old(wasInsideUnloadedChunk)
        && !(newPosition.Some? && unloaded(newPosition.value))
        && initiallySpawned && !changingDimension
        && Differs(base.position.value, base.rotation, base.onGround, newPosition, newRotation, newOnGround)
      ensures move ==> events == old(events) && waitingForPositionSync == old(waitingForPositionSync) && !wasInsideUnloadedChunk
      ensures old(waitingForPositionSync) ==>
        && events == old(events) && pendingTeleportId == old(pendingTeleportId) && wasInsideUnloadedChunk == old(wasInsideUnloadedChunk)
        && waitingForPositionSync == !(old(pendingTeleportId) == 0 && newPosition.Some? && newRotation.Some?)
      ensures !old(waitingForPositionSync) && unloaded(base.position.value) ==>
        var resend := Some(base.position.value) != newPosition;
        var sync := resend && initiallySpawned && !changingDimension;
        && wasInsideUnloadedChunk && waitingForPositionSync == sync
        && events == old(events) + if resend then [PlayerPosition(FakeId(|old(issued)|), sync)] else []
      ensures !old(waitingForPositionSync) && !unloaded(base.position.value) && old(wasInsideUnloadedChunk) ==>
        && !wasInsideUnloadedChunk && waitingForPositionSync
        && events == old(events) + [PlayerPosition(FakeId(|old(issued)|), true)]
      ensures !old(waitingForPositionSync) && !unloaded(base.position.value) && !old(wasInsideUnloadedChunk)
              && newPosition.Some? && unloaded(newPosition.value) ==>
        waitingForPositionSync && !wasInsideUnloadedChunk && events == old(events) + [PlayerPosition(FakeId(|old(issued)|), true)]
      ensures !old(waitingForPositionSync) && !unloaded(base.position.value) && !old(wasInsideUnloadedChunk)
              && !(newPosition.Some? && unloaded(newPosition.value)) && !(initiallySpawned && !changingDimension) ==>
        && !waitingForPositionSync && !wasInsideUnloadedChunk
        && events == old(events) + if Some(base.position.value) != newPosition then [PlayerPosition(FakeId(|old(issued)|), false)] else []
      ensures !old(waitingForPositionSync) && !unloaded(base.position.value) && !old(wasInsideUnloadedChunk)
              && !(newPosition.Some? && unloaded(newPosition.value)) && initiallySpawned && !changingDimension ==>
        !waitingForPositionSync && !wasInsideUnloadedChunk && events == old(events)
    {
      var position := base.position.value;
      var positionLook := newPosition.Some? && newRotation.Some?;
      move := false;
      if waitingForPositionSync {
        if pendingTeleportId == 0 && positionLook {
          waitingForPositionSync := false;
        }
      } else if unloaded(position) {
        wasInsideUnloadedChunk := true;
        if Some(position) != newPosition {
          if !initiallySpawned || changingDimension {
            SendPlayerPosition(false);
          } else {
            waitingForPositionSync := true;
            SendPlayerPosition(true);
          }
        }
      } else if wasInsideUnloadedChunk {
        wasInsideUnloadedChunk := false;
        waitingForPositionSync := true;
        SendPlayerPosition(true);
      } else if newPosition.Some? && unloaded(newPosition.value) {
        waitingForPositionSync := true;
        SendPlayerPosition(true);
      } else if !initiallySpawned || changingDimension {
        if Some(position) != newPosition {
          SendPlayerPosition(false);
        }
      } else {
        move := Differs(position, base.rotation, base.onGround, newPosition, newRotation, newOnGround);
      }
    }

    /** The four `updatePlayerPosition` overloads: a position, a rotation,
        both or neither, and the on-ground flag. A move `preMove` lets pass
        updates the entity and is forwarded as a move packet when the client
        is authoritative; otherwise the packet is cancelled. `startJump` is
        the float comparison of the height gained with a jump's. */
    method UpdatePlayerPosition(newPosition: Option<P>, newRotation: Option<P>, onGround: bool,
                                clientAuthoritative: bool, startJump: bool, unloaded: P -> bool)
      returns (packet: Option<Event<P>>)
      requires Valid() && base.position.Some?
      modifies this, base`position, base`rotation, base`onGround
      ensures Valid()
      ensures var move := old(!waitingForPositionSync
        && !unloaded(base.position.value) && !wasInsideUnloadedChunk
        && !(newPosition.Some? && unloaded(newPosition.value))
        && initiallySpawned && !changingDimension
        && Differs(base.position.value, base.rotation, base.onGround, newPosition, newRotation, onGround));
        && (!move ==> packet == None && unchanged(base))
        && (move ==>
             && base.position == Some(newPosition.GetOr(old(base.position.value)))
             && base.rotation == newRotation.GetOr(old(base.rotation))
             && base.onGround == onGround
             && packet == (if clientAuthoritative then Some(MovePlayer(base.position.value, base.rotation, onGround)) else None)
             && events == old(events) + if clientAuthoritative && newPosition.Some? && startJump then [Action(StartJump)] else [])
      // a refused move leaves the sync state and the teleport it sent as `preMove` does
      ensures var s := old(PreMoveStep(waitingForPositionSync, wasInsideUnloadedChunk, pendingTeleportId,
                                       initiallySpawned && !changingDimension, base.position.value, base.rotation, base.onGround,
                                       newPosition, newRotation, onGround, unloaded));
        && waitingForPositionSync == s.waiting && wasInsideUnloadedChunk == s.wasInside
        && (s.resend.None? ==> issued == old(issued) && pendingTeleportId == old(pendingTeleportId))
        && (s.resend.None? && !s.move ==> events == old(events))
        && (s.resend.Some? ==>
             && events == old(events) + [PlayerPosition(FakeId(|old(issued)|), s.resend.value)]
             && issued == old(issued) + [TeleportId(|old(issued)|)] && pendingTeleportId == TeleportId(|old(issued)|))
      ensures initiallySpawned == old(initiallySpawned) && changingDimension == old(changingDimension)
      ensures prevPosition == old(prevPosition) && authInputData == old(authInputData)
      ensures sneaking == old(sneaking) && sprinting == old(sprinting)
    {
      PreMoveStepBranches(waitingForPositionSync, wasInsideUnloadedChunk, pendingTeleportId,
                          initiallySpawned && !changingDimension, base.position.value, base.rotation, base.onGround,
                          newPosition, newRotation, onGround, unloaded);
      var move := PreMove(newPosition, newRotation, onGround, unloaded);
      if !move {
        return None;
      }
      if clientAuthoritative && newPosition.Some? && startJump {
        events := events + [Action(StartJump)];
      }
      if newPosition.Some? {
        base.position := newPosition;
      }
      if newRotation.Some? {
        base.rotation := newRotation.value;
      }
      base.onGround := onGround;
      if clientAuthoritative {
        packet := Some(MovePlayer(base.position.value, base.rotation, base.onGround));
      } else {
        packet := None;
      }
    }

    /** `setPosition`: a teleport, after which no previous position is known. */
    method SetPosition(position: P)
      modifies this`prevPosition, base`position
      ensures prevPosition == None && base.position == Some(position)
    {
      prevPosition := None;
      base.SetPosition(position);
    }

    /** `sendPlayerAuthInputPacketToServer`: the queued flags and the
        derived ones go out with the tick, then the queue is cleared and the
        current position becomes the previous one. */
    method SendPlayerAuthInput(movement: set<InputData>)
      modifies this`prevPosition, this`authInputData, this`events
      ensures authInputData == {} && prevPosition == base.position
      ensures events == old(events) + [AuthInput(AuthFlags(old(authInputData), sneaking, sprinting, movement), base.age)]
    {
      if prevPosition == None {
        prevPosition := base.position;
      }
      authInputData := authInputData + {BlockBreakingDelayEnabled};
      if sneaking {
        authInputData := authInputData + {SneakDown, Sneaking, WantDown};
      }
      if sprinting {
        authInputData := authInputData + {SprintDown, Sprinting};
      }
      authInputData := authInputData + movement;
      assert authInputData == AuthFlags(old(authInputData), sneaking, sprinting, movement);
      events := events + [AuthInput(authInputData, base.age)];
      prevPosition := base.position;
      authInputData := {};
    }

    /** `tick`: one more tick of age, and an auth input each tick once the
        player has spawned under server-authoritative movement. */
    method Tick(clientAuthoritative: bool, isDead: bool, movement: set<InputData>)
      modifies this`prevPosition, this`authInputData, this`events, base`age
      ensures base.age == Wrap32(old(base.age) + 1)
      ensures !clientAuthoritative && initiallySpawned && !isDead ==>
        && authInputData == {}
        && events == old(events) + [AuthInput(AuthFlags(old(authInputData), sneaking, sprinting, movement), base.age)]
      ensures !(!clientAuthoritative && initiallySpawned && !isDead) ==>
        events == old(events) && authInputData == old(authInputData) && prevPosition == old(prevPosition)
    {
      base.Tick();
      if !clientAuthoritative && initiallySpawned && !isDead {
        SendPlayerAuthInput(movement);
      }
    }

    method SetInitiallySpawned()
      modifies this`initiallySpawned
      ensures initiallySpawned
    {
      initiallySpawned := true;
    }

    method SetChangingDimension(changingDimension: bool)
      modifies this`changingDimension
      ensures this.changingDimension == changingDimension
    {
      this.changingDimension := changingDimension;
    }

    method SetSneaking(sneaking: bool)
      modifies this`sneaking
      ensures this.sneaking == sneaking
    {
      this.sneaking := sneaking;
    }

    method SetSprinting(sprinting: bool)
      modifies this`sprinting
      ensures this.sprinting == sprinting
    {
      this.sprinting := sprinting;
    }

    /** `addAuthInputData`: flags queued for the next auth input. */
    method AddAuthInputData(data: set<InputData>)
      modifies this`authInputData
      ensures authInputData == old(authInputData) + data
    {
      authInputData := authInputData + data;
    }
  }

  /** A fake teleport is confirmed by the id the client was sent: after
      `sendPlayerPositionPacketToClient`, confirming the id it wrote clears
      the pending id, as long as the counter has not wrapped. */
  method SyncRoundTrip<P(==), K(==), V>(player: ClientPlayerEntity<P, K, V>, keepRotation: bool)
    requires player.Valid() && |player.issued| < INT_MAX
    modifies player
    ensures player.Valid() && player.pendingTeleportId == 0
  {
    player.SendPlayerPosition(keepRotation);
    var sent := player.events[|player.events| - 1].teleportId;
    assert sent == -player.pendingTeleportId < 0;
    player.ConfirmTeleport(sent, false);
  }
}
