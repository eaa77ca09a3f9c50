/** Characters as objects that hook each other: `CCharacterCore` and `CWorldCore` of src/game/gamecore.cpp. */
module Character {
  import opened GameCore

  class CWorldCore {
    var characters: seq<CCharacterCore?>
    var dummies: seq<CCharacterCore>

    ghost function Present(): set<CCharacterCore>
      reads `characters
    {
      set c: CCharacterCore | c in characters
    }

    predicate Occupied(k: int)
      reads `characters
    {
      0 <= k < |characters| && characters[k] != null
    }

    /** Slot `k` holds the character with id `k`. */
    ghost predicate Slots()
      reads `characters, Present()`id, Present()`world
    {
      && |characters| == MAX_CLIENTS
      && forall k :: 0 <= k < MAX_CLIENTS && characters[k] != null ==>
           characters[k].id == k && characters[k].world == this
    }

    /** Who is attached to a character is exactly who hooks it, with character `who` taken to hook `target`. */
    ghost predicate AttachedAs(who: int, target: int)
      requires Slots()
      reads `characters, Present()`id, Present()`world, Present()`attachedPlayers, Present()`hookedPlayer
    {
      forall k, i :: Occupied(k) ==>
        (i in characters[k].attachedPlayers <==>
          Occupied(i) && (if i == who then target else characters[i].hookedPlayer) == k)
    }

    ghost predicate Attached()
      requires Slots()
      reads `characters, Present()`id, Present()`world, Present()`attachedPlayers, Present()`hookedPlayer
    {
      forall k, i :: Occupied(k) ==>
        (i in characters[k].attachedPlayers <==> Occupied(i) && characters[i].hookedPlayer == k)
    }
  }

  class CCharacterCore {
    var world: CWorldCore?
    var id: int
    var hookState: int
    var hookTick: int
    var hookedPlayer: int
    var hookedDummy: CCharacterCore?
    ghost var dummyNumber: nat
    var attachedPlayers: set<int>
    var jumped: bv8
    var jumpedTotal: int
    var jumps: int
    var triggeredEvents: set<Event>
    var alive: bool

    ghost predicate Valid()
      reads `world, `id, `hookedPlayer, world, Others()`id, Others()`world, Others()`attachedPlayers,
            Others()`hookedPlayer
    {
      && -1 <= hookedPlayer < MAX_CLIENTS
      && Placed()
      && (world != null ==> world.Attached())
    }

    ghost function Others(): set<CCharacterCore>
      reads `world, world
    {
      if world == null then {} else world.Present()
    }

    /** This character is in its slot of the world, or is not known to it by an id. */
    ghost predicate Placed()
      reads `world, `id, world, Others()`id, Others()`world
    {
      world != null ==> world.Slots() && (id == -1 || (0 <= id < MAX_CLIENTS && world.characters[id] == this))
    }

    lemma AsItIs()
      requires world != null && Placed() && world.Attached()
      ensures world.AttachedAs(id, hookedPlayer)
      ensures id == -1 ==> forall target :: world.AttachedAs(id, target)
    {
    }

    method Detach()
      requires world != null && id != -1 && Placed() && -1 <= hookedPlayer < MAX_CLIENTS
      requires world.AttachedAs(id, hookedPlayer)
      modifies Others()`attachedPlayers
      ensures Placed() && world.AttachedAs(id, -1)
    {
      if hookedPlayer != -1 {
        var other := world.characters[hookedPlayer];
        if other != null {
          other.attachedPlayers := other.attachedPlayers - {id};
        }
      }
    }

    method Attach(target: int)
      requires world != null && id != -1 && Placed() && -1 <= target < MAX_CLIENTS && world.AttachedAs(id, -1)
      modifies Others()`attachedPlayers
      ensures Placed() && world.AttachedAs(id, target)
    {
      if target != -1 {
        var other := world.characters[target];
        if other != null {
          other.attachedPlayers := other.attachedPlayers + {id};
        }
      }
    }

    method Aim(target: int)
      requires Placed() && -1 <= target < MAX_CLIENTS && (world != null ==> world.AttachedAs(id, target))
      modifies this`hookedPlayer
      ensures Valid() && hookedPlayer == target
    {
      hookedPlayer := target;
    }

    method SetHookedPlayer(target: int)
      requires Valid() && -1 <= target < MAX_CLIENTS
      modifies this`hookedPlayer, Others()`attachedPlayers
      ensures Valid() && hookedPlayer == target
    {
      if target != hookedPlayer {
        if world != null {
          AsItIs();
          if id != -1 {
            Detach();
            Attach(target);
          }
        }
        Aim(target);
      }
    }

    /** The hooked dummy is the one it was before, or the world's dummy of the number that was recorded. */
    ghost predicate DummyKnown(before: CCharacterCore?, number: nat)
      reads `world, world, `hookedDummy, `dummyNumber
    {
      || hookedDummy == null
      || (hookedDummy == before && dummyNumber == number)
      || (world != null && dummyNumber < |world.dummies| && hookedDummy == world.dummies[dummyNumber])
    }

    /** The character as a value, and the world around it. */
    ghost function State(): Core
      reads this, hookedDummy
    {
      Core(id, hookState, hookTick, hookedPlayer,
           if hookedDummy == null then NoDummy else Hooked(dummyNumber, hookedDummy.alive),
           jumped, jumpedTotal, jumps, triggeredEvents)
    }

    ghost function PresentPlayers(): set<int>
      reads `world, world
    {
      if world == null then {} else set k | 0 <= k < MAX_CLIENTS && world.Occupied(k)
    }

    ghost function AllDummies(): set<CCharacterCore>
      reads `world, world
    {
      if world == null then {} else set c: CCharacterCore | c in world.dummies
    }

    ghost function LivingDummies(): set<int>
      reads `world, world, AllDummies()`alive
    {
      if world == null then {}
      else set j | 0 <= j < |world.dummies| && world.dummies[j] != this && world.dummies[j].alive
    }

    ghost function Surroundings(): World
      reads `world, world, AllDummies()`alive
    {
      World(world != null, PresentPlayers(), LivingDummies())
    }

    method HandleJump(input: Input)
      requires Valid()
      modifies `jumped, `jumpedTotal, `triggeredEvents
      ensures Valid() && State() == JumpInput(old(State()), input)
      ensures Surroundings() == old(Surroundings())
    {
      hide Valid, PresentPlayers, Pressed, AirUsed, With, Without;
      if input.jump {
        if !Pressed(jumped) {
          if input.grounded && (!AirUsed(jumped) || jumps != 0) {
            triggeredEvents := triggeredEvents + {GroundJump};
            if jumps > 1 {
              jumped := With(jumped, 1);
            } else {
              jumped := With(jumped, 3);
            }
            jumpedTotal := 0;
          } else if !AirUsed(jumped) {
            triggeredEvents := triggeredEvents + {AirJump};
            jumped := With(jumped, 3);
            jumpedTotal := jumpedTotal + 1;
          }
        }
      } else {
        jumped := Without(jumped, 1);
      }
    }

    method LetGo()
      requires Valid()
      modifies `hookedPlayer, `hookedDummy, Others()`attachedPlayers
      ensures Valid() && State() == old(State()).(hookedPlayer := -1, dummy := NoDummy)
      ensures Surroundings() == old(Surroundings())
      ensures hookedDummy == old(hookedDummy) || hookedDummy == null
    {
      hide Valid;
      SetHookedPlayer(-1);
      hookedDummy := null;
    }

    method HandleHook(input: Input)
      requires Valid()
      modifies `hookState, `hookTick, `hookedPlayer, `hookedDummy, `triggeredEvents, Others()`attachedPlayers
      ensures Valid() && State() == HookInput(old(State()), input)
      ensures hookedDummy == old(hookedDummy) || hookedDummy == null
    {
      hide Valid;
      if input.hook {
        if hookState == HOOK_IDLE {
          hookState := HOOK_FLYING;
          LetGo();
          hookTick := input.startTick;
          triggeredEvents := triggeredEvents + {HookLaunch};
        }
      } else {
        LetGo();
        hookState := HOOK_IDLE;
      }
    }

    lemma OwnSlot(k: int)
      requires Valid() && world != null && 0 <= k < MAX_CLIENTS
      ensures world.Slots()
      ensures k in PresentPlayers() - {id} <==> world.characters[k] != null && world.characters[k] != this
    {
    }

    method Grab(k: int)
      requires Valid() && 0 <= k < MAX_CLIENTS
      modifies `hookState, `hookedPlayer, `triggeredEvents, Others()`attachedPlayers
      ensures Valid() && State() == GrabPlayer(old(State()), k)
      ensures Surroundings() == old(Surroundings())
    {
      hide Valid, PresentPlayers;
      triggeredEvents := triggeredEvents + {AttachPlayer};
      hookState := HOOK_GRABBED;
      SetHookedPlayer(k);
    }

    /** One slot of the loop over the players: the hook takes this player if it prefers it to what it has. */
    method CatchPlayer(k: int, sight: Sight, distance: real) returns (near: real)
      requires Valid() && world != null && world.Slots() && 0 <= k < MAX_CLIENTS
      modifies `hookState, `hookedPlayer, `triggeredEvents, Others()`attachedPlayers
      ensures Valid()
      ensures var taken := k in PresentPlayers() - {id} && Prefers(old(State()), sight, distance);
              && State() == (if taken then GrabPlayer(old(State()), k) else old(State()))
              && near == if taken then sight.distance else distance
      ensures Surroundings() == old(Surroundings())
    {
      OwnSlot(k);
      hide Valid, PresentPlayers, Surroundings, GrabPlayer;
      near := distance;
      var other := world.characters[k];
      if other == null || other == this || !sight.reached {
        return;
      }
      if hookedPlayer == -1 || hookedDummy == null || sight.distance < distance {
        Grab(k);
        near := sight.distance;
      }
    }

    /** The loop over the players in the path of the hook. */
    method CatchPlayers(input: Input) returns (distance: real)
      requires Valid() && world != null && world.Slots() && |input.players| == MAX_CLIENTS
      modifies `hookState, `hookedPlayer, `triggeredEvents, Others()`attachedPlayers
      ensures Valid()
      ensures (State(), distance) == GrabPlayers(old(State()), input.players, PresentPlayers() - {id}, 0, 0.0)
      ensures Surroundings() == old(Surroundings())
    {
      hide Valid, PresentPlayers, State, Prefers, GrabPlayer;
      ghost var others := PresentPlayers() - {id};
      ghost var goal := GrabPlayers(State(), input.players, others, 0, 0.0);
      distance := 0.0;
      var i := 0;
      while i < MAX_CLIENTS
        invariant 0 <= i <= MAX_CLIENTS && Valid()
        invariant PresentPlayers() - {id} == others && Surroundings() == old(Surroundings())
        invariant GrabPlayers(State(), input.players, others, i, distance) == goal
      {
        distance := CatchPlayer(i, input.players[i], distance);
        i := i + 1;
      }
    }

    /** One turn of the loop over the dummies. */
    method CatchDummy(j: int, sight: Sight, distance: real) returns (near: real)
      requires Valid() && world != null && 0 <= j < |world.dummies|
      modifies `hookState, `hookedDummy, `dummyNumber, `triggeredEvents
      ensures Valid()
      ensures var taken := j in LivingDummies() && Prefers(old(State()), sight, distance);
              && State() == (if taken then GrabDummy(old(State()), j) else old(State()))
              && near == if taken then sight.distance else distance
      ensures Surroundings() == old(Surroundings())
      ensures DummyKnown(old(hookedDummy), old(dummyNumber))
    {
      hide Valid;
      near := distance;
      var other := world.dummies[j];
      if other == this || !other.alive || !sight.reached {
        return;
      }
      if hookedPlayer == -1 || hookedDummy == null || sight.distance < distance {
        triggeredEvents := triggeredEvents + {AttachPlayer};
        hookState := HOOK_GRABBED;
        hookedDummy := other;
        dummyNumber := j;
        near := sight.distance;
      }
    }

    /** The loop over the dummies in the path of the hook. */
    method CatchDummies(input: Input, distance: real)
      requires Valid() && world != null && |input.dummies| == |world.dummies|
      modifies `hookState, `hookedDummy, `dummyNumber, `triggeredEvents
      ensures Valid() && State() == GrabDummies(old(State()), input.dummies, LivingDummies(), 0, distance)
      ensures Surroundings() == old(Surroundings())
      ensures DummyKnown(old(hookedDummy), old(dummyNumber))
    {
      hide Valid, LivingDummies, State, Prefers, GrabDummy;
      ghost var living := LivingDummies();
      ghost var goal := GrabDummies(State(), input.dummies, living, 0, distance);
      var near := distance;
      var j := 0;
      while j < |world.dummies|
        invariant 0 <= j <= |world.dummies| && Valid() && DummyKnown(old(hookedDummy), old(dummyNumber))
        invariant LivingDummies() == living && Surroundings() == old(Surroundings())
        invariant GrabDummies(State(), input.dummies, living, j, near) == goal
      {
        near := CatchDummy(j, input.dummies[j], near);
        j := j + 1;
      }
    }

    lemma HasSlots()
      requires Valid() && world != null
      ensures world.Slots()
    {
    }

    method FlyHook(input: Input)
      requires Valid() && |input.players| == MAX_CLIENTS && (world != null ==> |input.dummies| == |world.dummies|)
      requires hookState == HOOK_FLYING
      modifies `hookState, `hookedPlayer, `hookedDummy, `dummyNumber, `triggeredEvents, Others()`attachedPlayers
      ensures Valid() && State() == Fly(old(State()), input, Surroundings())
      ensures Surroundings() == old(Surroundings())
      ensures DummyKnown(old(hookedDummy), old(dummyNumber))
    {
      hide Valid, GrabPlayers, GrabDummies, LivingDummies, PresentPlayers;
      if input.outOfRange {
        hookState := HOOK_RETRACT_START;
      }
      if input.playerHooking && world != null {
        HasSlots();
        var distance := CatchPlayers(input);
        CatchDummies(input, distance);
      }
      LandHook(input.hit);
    }

    method LandHook(hit: int)
      requires Valid()
      modifies `hookState, `triggeredEvents
      ensures Valid() && State() == HitGround(old(State()), hit)
      ensures Surroundings() == old(Surroundings())
    {
      hide Valid;
      var goingToHitGround := hit != 0 && hit != TILE_NOHOOK;
      var goingToRetract := hit == TILE_NOHOOK;
      if hookState == HOOK_FLYING {
        if goingToHitGround {
          triggeredEvents := triggeredEvents + {AttachGround};
          hookState := HOOK_GRABBED;
        } else if goingToRetract {
          triggeredEvents := triggeredEvents + {HitNoHook};
          hookState := HOOK_RETRACT_START;
        }
      }
    }

    method DoHook(input: Input)
      requires Valid() && |input.players| == MAX_CLIENTS && (world != null ==> |input.dummies| == |world.dummies|)
      modifies `hookState, `hookedPlayer, `hookedDummy, `dummyNumber, `triggeredEvents, Others()`attachedPlayers
      ensures Valid() && State() == MoveHook(old(State()), input, Surroundings())
      ensures Surroundings() == old(Surroundings())
      ensures DummyKnown(old(hookedDummy), old(dummyNumber))
    {
      hide Valid, Fly, Surroundings;
      if hookState == HOOK_IDLE {
        LetGo();
      } else if hookState >= HOOK_RETRACT_START && hookState < HOOK_RETRACT_END {
        hookState := hookState + 1;
      } else if hookState == HOOK_RETRACT_END {
        triggeredEvents := triggeredEvents + {HookRetract};
        hookState := HOOK_RETRACTED;
      } else if hookState == HOOK_FLYING {
        FlyHook(input);
      }
    }

    lemma Present(k: int)
      requires Valid() && world != null && 0 <= k < MAX_CLIENTS
      ensures world.Slots() && (k in PresentPlayers() <==> world.characters[k] != null)
    {
    }

    lemma InRange()
      requires Valid()
      ensures -1 <= hookedPlayer < MAX_CLIENTS
    {
    }

    method CheckPlayer()
      requires Valid()
      modifies `hookState, `hookedPlayer, Others()`attachedPlayers
      ensures Valid() && State() == LosePlayer(old(State()), Surroundings())
      ensures Surroundings() == old(Surroundings())
    {
      hide Valid, PresentPlayers;
      if hookedPlayer != -1 && world != null {
        InRange();
        Present(hookedPlayer);
        var other := world.characters[hookedPlayer];
        if other == null || id == -1 {
          SetHookedPlayer(-1);
          hookState := HOOK_RETRACTED;
        }
      }
    }

    method CheckDummy()
      requires Valid()
      modifies `hookState, `hookedDummy
      ensures Valid() && State() == LoseDummy(old(State()))
      ensures Surroundings() == old(Surroundings())
      ensures hookedDummy == old(hookedDummy) || hookedDummy == null
    {
      hide Valid, PresentPlayers;
      if hookedDummy != null && !hookedDummy.alive {
        hookedDummy := null;
        hookState := HOOK_RETRACTED;
      }
    }

    method AdvanceClock()
      requires Valid()
      modifies `hookState, `hookTick, `hookedPlayer, `hookedDummy, Others()`attachedPlayers
      ensures Valid() && State() == Timeout(old(State()), Surroundings())
      ensures Surroundings() == old(Surroundings())
      ensures hookedDummy == old(hookedDummy) || hookedDummy == null
    {
      hide Valid, PresentPlayers, LivingDummies;
      var noChr := false;
      if hookedPlayer != -1 && world != null {
        InRange();
        Present(hookedPlayer);
        noChr := world.characters[hookedPlayer] == null;
      }
      hookTick := hookTick + 1;
      if hookedDummy != null || hookedPlayer != -1 {
        var hookOut := hookTick > SERVER_TICK_SPEED + SERVER_TICK_SPEED / 5;
        if hookOut || noChr {
          LetGo();
          hookState := HOOK_RETRACTED;
        }
      }
    }

    method ReadInput(input: Input)
      requires Valid()
      modifies `jumped, `jumpedTotal, `hookState, `hookTick, `hookedPlayer, `hookedDummy, `triggeredEvents,
               Others()`attachedPlayers
      ensures Valid() && State() == UseInput(old(State()), input)
      ensures Surroundings() == old(Surroundings())
      ensures hookedDummy == old(hookedDummy) || hookedDummy == null
    {
      hide Valid, JumpInput, HookInput;
      if input.useInput {
        HandleJump(input);
        HandleHook(input);
      }
    }

    method TouchGround(grounded: bool)
      requires Valid()
      modifies `jumped, `jumpedTotal
      ensures Valid() && State() == GroundContact(old(State()), grounded)
      ensures Surroundings() == old(Surroundings())
    {
      hide Valid, Without;
      if grounded {
        jumped := Without(jumped, 2);
        jumpedTotal := 0;
      }
    }

    /** The part of `Tick` that looks after a grabbed hook. */
    method KeepHold()
      requires Valid()
      modifies `hookState, `hookTick, `hookedPlayer, `hookedDummy, Others()`attachedPlayers
      ensures Valid() && State() == HoldOn(old(State()), Surroundings())
      ensures Surroundings() == old(Surroundings())
      ensures hookedDummy == old(hookedDummy) || hookedDummy == null
    {
      hide Valid, LosePlayer, LoseDummy, Timeout, Surroundings;
      if hookState == HOOK_GRABBED {
        CheckPlayer();
        CheckDummy();
        AdvanceClock();
      }
    }

    /** `Tick` up to the hook. */
    method StartTick(input: Input)
      requires Valid()
      modifies `jumped, `jumpedTotal, `hookState, `hookTick, `hookedPlayer, `hookedDummy, `triggeredEvents,
               Others()`attachedPlayers
      ensures Valid() && State() == GroundContact(UseInput(old(State()).(events := {}), input), input.grounded)
      ensures Surroundings() == old(Surroundings())
      ensures hookedDummy == old(hookedDummy) || hookedDummy == null
    {
      hide Valid, UseInput, GroundContact;
      triggeredEvents := {};
      ReadInput(input);
      TouchGround(input.grounded);
    }

    /** `Tick`, without the forces. Valid() keeps `attachedPlayers` the exact inverse of `hookedPlayer`. */
    method Tick(input: Input)
      requires Valid() && |input.players| == MAX_CLIENTS && (world != null ==> |input.dummies| == |world.dummies|)
      modifies `jumped, `jumpedTotal, `hookState, `hookTick, `hookedPlayer, `hookedDummy, `dummyNumber,
               `triggeredEvents, Others()`attachedPlayers
      ensures Valid() && State() == GameCore.Tick(old(State()), input, Surroundings())
      ensures Surroundings() == old(Surroundings())
      ensures DummyKnown(old(hookedDummy), old(dummyNumber))
    {
      hide Valid, UseInput, GroundContact, MoveHook, HoldOn, Surroundings;
      StartTick(input);
      DoHook(input);
      KeepHold();
    }

    /** The part of `Move` that looks at the ground. */
    method Move(grounded: bool)
      requires Valid()
      modifies `jumped, `jumpedTotal
      ensures Valid() && State() == Step(old(State()), Moves(grounded))
      ensures Surroundings() == old(Surroundings())
    {
      hide Valid, Without;
      TouchGround(grounded);
    }
  }

  /** The attached sets are the world's, so a character that is valid makes every other one in the world valid. */
  lemma ValidForAll(one: CCharacterCore, other: CCharacterCore)
    requires one.Valid() && one.world != null && other in one.world.Present()
    requires -1 <= other.hookedPlayer < MAX_CLIENTS
    ensures other.Valid() && other.world == one.world
  {
  }
}
