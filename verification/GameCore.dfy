/** The hook and the jump of a character as steps on values: src/game/gamecore.cpp without the forces. */
module GameCore {

  const HOOK_RETRACTED := -1
  const HOOK_IDLE := 0
  const HOOK_RETRACT_START := 1
  const HOOK_RETRACT_END := 3
  const HOOK_FLYING := 4
  const HOOK_GRABBED := 5

  const TILE_NOHOOK := 3
  const MAX_CLIENTS := 64
  const SERVER_TICK_SPEED := 50

  datatype Event = GroundJump | AirJump | HookLaunch | AttachPlayer | AttachGround | HitNoHook | HookRetract

  /** The hooked dummy, if any: its number among the world's dummies and whether it is alive. */
  datatype Dummy = NoDummy | Hooked(number: nat, alive: bool)

  /** The part of a character that hooking and jumping use. */
  datatype Core = Core(id: int, hookState: int, hookTick: int, hookedPlayer: int, dummy: Dummy,
                       jumped: bv8, jumpedTotal: int, jumps: int, events: set<Event>)

  /** Whether the hook's line passes close enough to another character that it may take, and how far away that
      one is from the hook. */
  datatype Sight = Sight(reached: bool, distance: real)

  /** What one tick gets from the player's input and from the geometry of the map and of the characters. */
  datatype Input = Input(useInput: bool, jump: bool, hook: bool, grounded: bool, startTick: int, outOfRange: bool,
                         hit: int, playerHooking: bool, players: seq<Sight>, dummies: seq<Sight>)

  /** The world around the character: the occupied slots and the dummies that are alive, itself left out. */
  datatype World = World(hasWorld: bool, present: set<int>, living: set<int>)

  predicate Pressed(jumped: bv8) { jumped & 1 != 0 }

  predicate AirUsed(jumped: bv8) { jumped & 2 != 0 }

  function With(jumped: bv8, bits: bv8): bv8 { jumped | bits }

  function Without(jumped: bv8, bits: bv8): bv8 { jumped & !bits }

  function JumpInput(c: Core, input: Input): Core {
    if !input.jump then c.(jumped := Without(c.jumped, 1))
    else if Pressed(c.jumped) then c
    else if input.grounded && (!AirUsed(c.jumped) || c.jumps != 0) then
      c.(jumped := With(c.jumped, if c.jumps > 1 then 1 else 3), jumpedTotal := 0, events := c.events + {GroundJump})
    else if !AirUsed(c.jumped) then
      c.(jumped := With(c.jumped, 3), jumpedTotal := c.jumpedTotal + 1, events := c.events + {AirJump})
    else c
  }

  function HookInput(c: Core, input: Input): Core {
    if !input.hook then c.(hookedPlayer := -1, dummy := NoDummy, hookState := HOOK_IDLE)
    else if c.hookState == HOOK_IDLE then
      c.(hookState := HOOK_FLYING, hookedPlayer := -1, dummy := NoDummy, hookTick := input.startTick,
         events := c.events + {HookLaunch})
    else c
  }

  function GroundContact(c: Core, grounded: bool): Core {
    if grounded then c.(jumped := Without(c.jumped, 2), jumpedTotal := 0) else c
  }

  predicate Prefers(c: Core, sight: Sight, best: real) {
    sight.reached && (c.hookedPlayer == -1 || c.dummy == NoDummy || sight.distance < best)
  }

  function GrabPlayer(c: Core, i: int): Core {
    c.(hookState := HOOK_GRABBED, hookedPlayer := i, events := c.events + {AttachPlayer})
  }

  function GrabDummy(c: Core, j: nat): Core {
    c.(hookState := HOOK_GRABBED, dummy := Hooked(j, true), events := c.events + {AttachPlayer})
  }

  /** The loop over the players' slots, from slot `i` on. */
  function GrabPlayers(c: Core, sights: seq<Sight>, others: set<int>, i: nat, best: real): (Core, real)
    requires i <= |sights|
    decreases |sights| - i
  {
    if i == |sights| then (c, best)
    else if i in others && Prefers(c, sights[i], best) then
      GrabPlayers(GrabPlayer(c, i), sights, others, i + 1, sights[i].distance)
    else GrabPlayers(c, sights, others, i + 1, best)
  }

  /** The loop over the dummies, from number `j` on. */
  function GrabDummies(c: Core, sights: seq<Sight>, living: set<int>, j: nat, best: real): Core
    requires j <= |sights|
    decreases |sights| - j
  {
    if j == |sights| then c
    else if j in living && Prefers(c, sights[j], best) then
      GrabDummies(GrabDummy(c, j), sights, living, j + 1, sights[j].distance)
    else GrabDummies(c, sights, living, j + 1, best)
  }

  function GrabSomeone(c: Core, input: Input, w: World): Core {
    if input.playerHooking && w.hasWorld then
      var (caught, best) := GrabPlayers(c, input.players, w.present - {c.id}, 0, 0.0);
      GrabDummies(caught, input.dummies, w.living, 0, best)
    else c
  }

  function HitGround(c: Core, hit: int): Core {
    if c.hookState != HOOK_FLYING || hit == 0 then c
    else if hit == TILE_NOHOOK then c.(hookState := HOOK_RETRACT_START, events := c.events + {HitNoHook})
    else c.(hookState := HOOK_GRABBED, events := c.events + {AttachGround})
  }

  function Fly(c: Core, input: Input, w: World): Core {
    HitGround(GrabSomeone(if input.outOfRange then c.(hookState := HOOK_RETRACT_START) else c, input, w), input.hit)
  }

  function MoveHook(c: Core, input: Input, w: World): Core {
    if c.hookState == HOOK_IDLE then c.(hookedPlayer := -1, dummy := NoDummy)
    else if HOOK_RETRACT_START <= c.hookState < HOOK_RETRACT_END then c.(hookState := c.hookState + 1)
    else if c.hookState == HOOK_RETRACT_END then
      c.(hookState := HOOK_RETRACTED, events := c.events + {HookRetract})
    else if c.hookState == HOOK_FLYING then Fly(c, input, w)
    else c
  }

  /** A hooked player who is not there any more is let go. */
  function LosePlayer(c: Core, w: World): Core {
    if c.hookedPlayer != -1 && w.hasWorld && !(c.hookedPlayer in w.present && c.id != -1) then
      c.(hookedPlayer := -1, hookState := HOOK_RETRACTED)
    else c
  }

  /** A hooked dummy that died is let go. */
  function LoseDummy(c: Core): Core {
    if c.dummy.Hooked? && !c.dummy.alive then c.(dummy := NoDummy, hookState := HOOK_RETRACTED) else c
  }

  /** The hook's clock: someone is held for at most 60 ticks. */
  function Timeout(c: Core, w: World): Core {
    var c := c.(hookTick := c.hookTick + 1);
    var someone := c.dummy != NoDummy || c.hookedPlayer != -1;
    var gone := c.hookedPlayer != -1 && w.hasWorld && c.hookedPlayer !in w.present;
    if someone && (c.hookTick > SERVER_TICK_SPEED + SERVER_TICK_SPEED / 5 || gone) then
      c.(hookedPlayer := -1, dummy := NoDummy, hookState := HOOK_RETRACTED)
    else c
  }

  function HoldOn(c: Core, w: World): Core {
    if c.hookState == HOOK_GRABBED then Timeout(LoseDummy(LosePlayer(c, w)), w) else c
  }

  function UseInput(c: Core, input: Input): Core {
    if input.useInput then HookInput(JumpInput(c, input), input) else c
  }

  /** `Tick` up to the point where the hook has moved. */
  function Reaching(c: Core, input: Input, w: World): Core {
    MoveHook(GroundContact(UseInput(c.(events := {}), input), input.grounded), input, w)
  }

  /** `Tick` */
  function Tick(c: Core, input: Input, w: World): Core {
    HoldOn(Reaching(c, input, w), w)
  }

  // ---------------------------------------------------------------------------------------------
  // Runs
  // ---------------------------------------------------------------------------------------------

  /** What can happen to a character: a tick, a move that may land, and, of the changes made by the rest of the game,
      the death of a hooked dummy and a new number of jumps. */
  datatype Op =
    | Ticks(input: Input, w: World)
    | Moves(grounded: bool)
    | DummyDies
    | GetsJumps(n: int)

  function Step(c: Core, op: Op): Core {
    match op
    case Ticks(input, w) => Tick(c, input, w)
    case Moves(grounded) => GroundContact(c, grounded)
    case DummyDies => if c.dummy == NoDummy then c else c.(dummy := Hooked(c.dummy.number, false))
    case GetsJumps(n) => c.(jumps := n)
  }

  function After(c: Core, run: seq<Op>, n: nat): Core
    requires n <= |run|
  {
    if n == 0 then c else Step(After(c, run, n - 1), run[n - 1])
  }

  /** A character as `Reset` leaves it, apart from its id and its number of jumps. */
  predicate Fresh(c: Core) {
    c.hookState == HOOK_IDLE && c.hookedPlayer == -1 && c.dummy == NoDummy && c.jumped == 0
  }

  predicate HoldsSomeone(c: Core) {
    c.hookedPlayer != -1 || c.dummy != NoDummy
  }

  /** What every operation keeps. */
  predicate Inv(c: Core) {
    && HOOK_RETRACTED <= c.hookState <= HOOK_GRABBED
    && c.jumped <= 3
    && (HoldsSomeone(c) ==> c.hookState == HOOK_GRABBED || c.hookState == HOOK_RETRACTED)
    && (c.hookState == HOOK_GRABBED && HoldsSomeone(c) ==> c.hookTick <= 60)
  }

  /** `Inv` in the middle of a tick, before the hook's clock has been looked at. */
  predicate Mid(c: Core) {
    && HOOK_RETRACTED <= c.hookState <= HOOK_GRABBED
    && c.jumped <= 3
    && (HoldsSomeone(c) ==> c.hookState == HOOK_GRABBED || c.hookState == HOOK_RETRACTED)
  }

  lemma UseInputMid(c: Core, input: Input)
    requires Mid(c)
    ensures Mid(UseInput(c, input))
  {
  }

  lemma ContactMid(c: Core, grounded: bool)
    requires Mid(c)
    ensures Mid(GroundContact(c, grounded))
  {
  }

  /** Nothing but the hook's state, its target and the events differ, and a new target means a grabbed hook. */
  predicate Grabbed(c: Core, r: Core) {
    && r == c.(hookState := r.hookState, hookedPlayer := r.hookedPlayer, dummy := r.dummy, events := r.events)
    && (r == c || (r.hookState == HOOK_GRABBED && r.events == c.events + {AttachPlayer} && HoldsSomeone(r)))
  }

  lemma {:induction false} GrabPlayersOnly(c: Core, sights: seq<Sight>, others: set<int>, i: nat, best: real)
    requires i <= |sights|
    ensures Grabbed(c, GrabPlayers(c, sights, others, i, best).0)
    decreases |sights| - i
  {
    if i < |sights| {
      if i in others && Prefers(c, sights[i], best) {
        GrabPlayersOnly(GrabPlayer(c, i), sights, others, i + 1, sights[i].distance);
      } else {
        GrabPlayersOnly(c, sights, others, i + 1, best);
      }
    }
  }

  lemma {:induction false} GrabDummiesOnly(c: Core, sights: seq<Sight>, living: set<int>, j: nat, best: real)
    requires j <= |sights|
    ensures Grabbed(c, GrabDummies(c, sights, living, j, best))
    decreases |sights| - j
  {
    if j < |sights| {
      if j in living && Prefers(c, sights[j], best) {
        GrabDummiesOnly(GrabDummy(c, j), sights, living, j + 1, sights[j].distance);
      } else {
        GrabDummiesOnly(c, sights, living, j + 1, best);
      }
    }
  }

  lemma GrabSomeoneOnly(c: Core, input: Input, w: World)
    ensures Grabbed(c, GrabSomeone(c, input, w))
  {
    if input.playerHooking && w.hasWorld {
      var (caught, best) := GrabPlayers(c, input.players, w.present - {c.id}, 0, 0.0);
      GrabPlayersOnly(c, input.players, w.present - {c.id}, 0, 0.0);
      GrabDummiesOnly(caught, input.dummies, w.living, 0, best);
    }
  }

  lemma MoveHookMid(c: Core, input: Input, w: World)
    requires Mid(c)
    ensures Mid(MoveHook(c, input, w))
  {
    hide GrabSomeone;
    GrabSomeoneOnly(if input.outOfRange then c.(hookState := HOOK_RETRACT_START) else c, input, w);
  }

  lemma HoldOnInv(c: Core, w: World)
    requires Mid(c)
    ensures Inv(HoldOn(c, w))
  {
  }

  lemma InvStep(c: Core, op: Op)
    requires Inv(c)
    ensures Inv(Step(c, op))
  {
    if op.Ticks? {
      var start := c.(events := {});
      var used := UseInput(start, op.input);
      var landed := GroundContact(used, op.input.grounded);
      UseInputMid(start, op.input);
      ContactMid(used, op.input.grounded);
      MoveHookMid(landed, op.input, op.w);
      HoldOnInv(MoveHook(landed, op.input, op.w), op.w);
      hide UseInput, GroundContact, MoveHook, HoldOn;
    } else if op.Moves? {
      ContactMid(c, op.grounded);
    }
  }

  /** On every run from a fresh character: the hook state stays in range, the jump bits are at most 3, the hook
      holds somebody only while grabbed or retracted, and while grabbed for at most 60 ticks of its clock. */
  lemma {:induction false} InvAlways(c: Core, run: seq<Op>, n: nat)
    requires Fresh(c) && n <= |run|
    ensures Inv(After(c, run, n))
    decreases n
  {
    if n > 0 {
      InvAlways(c, run, n - 1);
      InvStep(After(c, run, n - 1), run[n - 1]);
    }
  }

  // ---------------------------------------------------------------------------------------------
  // Latches: what must happen between two launches, two jumps and two air jumps
  // ---------------------------------------------------------------------------------------------

  datatype Latch = HookLatch | JumpLatch | AirLatch

  /** The operation does what the latch guards: launches the hook, jumps, jumps in the air. */
  predicate Fires(latch: Latch, c: Core, op: Op) {
    op.Ticks? &&
    match latch
    case HookLatch => HookLaunch in Step(c, op).events
    case JumpLatch => GroundJump in Step(c, op).events || AirJump in Step(c, op).events
    case AirLatch => AirJump in Step(c, op).events
  }

  predicate Latched(latch: Latch, c: Core) {
    match latch
    case HookLatch => c.hookState != HOOK_IDLE
    case JumpLatch => Pressed(c.jumped)
    case AirLatch => AirUsed(c.jumped)
  }

  predicate TouchesGround(op: Op) {
    (op.Ticks? && op.input.grounded) || (op.Moves? && op.grounded)
  }

  /** The operation opens the latch again: hook key up, jump key up, ground contact. */
  predicate Opens(latch: Latch, op: Op) {
    match latch
    case HookLatch => op.Ticks? && op.input.useInput && !op.input.hook
    case JumpLatch => op.Ticks? && op.input.useInput && !op.input.jump
    case AirLatch => TouchesGround(op)
  }

  /** The jump events and bits after a tick. */
  lemma TickJump(c: Core, input: Input, w: World)
    ensures var start := UseInput(c.(events := {}), input); var end := Tick(c, input, w);
            && (GroundJump in end.events <==> GroundJump in start.events)
            && (AirJump in end.events <==> AirJump in start.events)
            && (HookLaunch in end.events <==> HookLaunch in start.events)
            && end.jumped == GroundContact(start, input.grounded).jumped
            && (start.hookState == HOOK_IDLE <==> end.hookState == HOOK_IDLE)
  {
    var start := UseInput(c.(events := {}), input);
    var landed := GroundContact(start, input.grounded);
    var hooked := MoveHook(landed, input, w);
    hide UseInput, With, Without, Pressed, AirUsed;
    MoveHookFrame(landed, input, w);
    HoldOnFrame(hooked, w);
  }

  lemma MoveHookFrame(c: Core, input: Input, w: World)
    ensures var r := MoveHook(c, input, w);
            && r.jumped == c.jumped && (r.hookState == HOOK_IDLE <==> c.hookState == HOOK_IDLE)
            && (forall e :: e in {GroundJump, AirJump, HookLaunch} ==> (e in r.events <==> e in c.events))
  {
    hide GrabSomeone;
    GrabSomeoneOnly(if input.outOfRange then c.(hookState := HOOK_RETRACT_START) else c, input, w);
  }

  lemma HoldOnFrame(c: Core, w: World)
    ensures var r := HoldOn(c, w);
            r.jumped == c.jumped && r.events == c.events && (r.hookState == HOOK_IDLE <==> c.hookState == HOOK_IDLE)
  {
  }

  lemma UseInputLatch(latch: Latch, c: Core, input: Input)
    requires c.jumped <= 3 && c.events == {}
    ensures var r := UseInput(c, input);
            && r.jumped <= 3
            && (HookLaunch in r.events ==> c.hookState == HOOK_IDLE && r.hookState != HOOK_IDLE)
            && (GroundJump in r.events || AirJump in r.events ==> !Pressed(c.jumped) && Pressed(r.jumped))
            && (AirJump in r.events ==> !AirUsed(c.jumped) && AirUsed(r.jumped) && !input.grounded)
            && (c.hookState != HOOK_IDLE && !(input.useInput && !input.hook) ==> r.hookState != HOOK_IDLE)
            && (Pressed(c.jumped) && !(input.useInput && !input.jump) ==> Pressed(r.jumped))
            && (AirUsed(c.jumped) ==> AirUsed(r.jumped))
  {
  }

  lemma ContactLatch(c: Core, grounded: bool)
    requires c.jumped <= 3
    ensures Pressed(GroundContact(c, grounded).jumped) == Pressed(c.jumped)
    ensures AirUsed(GroundContact(c, grounded).jumped) == (AirUsed(c.jumped) && !grounded)
  {
  }

  lemma UseInputOpens(c: Core, input: Input)
    requires c.jumped <= 3 && c.events == {}
    ensures var r := UseInput(c, input);
            && (r.hookState == HOOK_IDLE <==>
                (input.useInput && !input.hook) || (c.hookState == HOOK_IDLE && HookLaunch !in r.events))
            && (Pressed(r.jumped) <==> GroundJump in r.events || AirJump in r.events
                                       || (Pressed(c.jumped) && !(input.useInput && !input.jump)))
            && (!input.grounded ==> (AirUsed(r.jumped) <==> AirUsed(c.jumped) || AirJump in r.events))
  {
  }

  /** A latch fires only when open; it is closed after an operation exactly if it fired, or was closed and not
      opened. */
  lemma LatchStep(latch: Latch, c: Core, op: Op)
    requires c.jumped <= 3
    ensures Fires(latch, c, op) ==> !Latched(latch, c)
    ensures Latched(latch, Step(c, op)) <==> Fires(latch, c, op) || (Latched(latch, c) && !Opens(latch, op))
  {
    hide With, Without, Pressed, AirUsed;
    if op.Ticks? {
      var start := c.(events := {});
      TickJump(c, op.input, op.w);
      UseInputLatch(latch, start, op.input);
      UseInputOpens(start, op.input);
      ContactLatch(UseInput(start, op.input), op.input.grounded);
      hide UseInput, GroundContact, MoveHook, HoldOn, Tick;
    } else if op.Moves? {
      ContactLatch(c, op.grounded);
    }
  }

  lemma {:induction false} LatchedUntilOpened(latch: Latch, c: Core, run: seq<Op>, i: nat, j: nat)
    requires Fresh(c) && i <= j <= |run| && Latched(latch, After(c, run, i))
    requires forall k :: i <= k < j ==> !Opens(latch, run[k])
    ensures Latched(latch, After(c, run, j))
    decreases j
  {
    hide Latched, Opens, Step, Inv, Fresh;
    if i < j {
      LatchedUntilOpened(latch, c, run, i, j - 1);
      BitsInRange(c, run, j - 1);
      LatchStep(latch, After(c, run, j - 1), run[j - 1]);
    }
  }

  lemma BitsInRange(c: Core, run: seq<Op>, n: nat)
    requires Fresh(c) && n <= |run|
    ensures After(c, run, n).jumped <= 3
  {
    InvAlways(c, run, n);
  }

  /** Two hook launches are separated by a tick with the hook key up, two jumps by one with the jump key up, and
      two air jumps by a ground contact. */
  lemma Separated(latch: Latch, c: Core, run: seq<Op>, i: nat, j: nat) returns (k: nat)
    requires Fresh(c) && i < j < |run|
    requires Fires(latch, After(c, run, i), run[i]) && Fires(latch, After(c, run, j), run[j])
    ensures i < k < j && Opens(latch, run[k])
  {
    hide Fires, Latched, Opens, Step, Fresh;
    BitsInRange(c, run, i);
    BitsInRange(c, run, j);
    LatchStep(latch, After(c, run, i), run[i]);
    LatchStep(latch, After(c, run, j), run[j]);
    assert After(c, run, i + 1) == Step(After(c, run, i), run[i]);
    if forall m :: i < m < j ==> !Opens(latch, run[m]) {
      LatchedUntilOpened(latch, c, run, i + 1, j);
    }
    k :| i < k < j && Opens(latch, run[k]);
  }

  /** The latch fired at operation `i` of the first `n` and was not opened since. */
  predicate FiredLast(latch: Latch, c: Core, run: seq<Op>, i: int, n: nat)
    requires n <= |run|
  {
    0 <= i < n && Fires(latch, After(c, run, i), run[i]) && forall k :: i < k < n ==> !Opens(latch, run[k])
  }

  lemma FiredOneLonger(latch: Latch, c: Core, run: seq<Op>, i: int, n: nat)
    requires n < |run|
    ensures FiredLast(latch, c, run, i, n + 1) <==>
              if i == n then Fires(latch, After(c, run, n), run[n])
              else FiredLast(latch, c, run, i, n) && !Opens(latch, run[n])
  {
    hide Fires, Opens, After;
  }

  /** On every run a latch is closed exactly if it has fired and was not opened since. */
  lemma {:induction false} LatchedIff(latch: Latch, c: Core, run: seq<Op>, n: nat)
    requires Fresh(c) && n <= |run|
    ensures Latched(latch, After(c, run, n)) <==> exists i :: FiredLast(latch, c, run, i, n)
    decreases n
  {
    if n > 0 {
      var m := n - 1;
      hide Step, Fires, Latched, Opens, Inv, Fresh, FiredLast;
      assert After(c, run, n) == Step(After(c, run, m), run[m]);
      LatchedIff(latch, c, run, m);
      BitsInRange(c, run, m);
      LatchStep(latch, After(c, run, m), run[m]);
      NotYetFired(latch, c, run, m);
      FiredOneLonger(latch, c, run, m, m);
      if i :| FiredLast(latch, c, run, i, m) {
        FiredOneLonger(latch, c, run, i, m);
      }
      if i :| FiredLast(latch, c, run, i, n) {
        FiredOneLonger(latch, c, run, i, m);
      }
    }
  }

  lemma NotYetFired(latch: Latch, c: Core, run: seq<Op>, n: nat)
    requires n <= |run|
    ensures !FiredLast(latch, c, run, n, n)
  {
  }

  lemma JumpEvents(c: Core, input: Input)
    requires c.events == {}
    ensures var r := JumpInput(c, input);
            && r.hookState == c.hookState && HookLaunch !in r.events
            && (GroundJump in r.events <==>
                input.jump && !Pressed(c.jumped) && input.grounded && (!AirUsed(c.jumped) || c.jumps != 0))
            && (AirJump in r.events <==>
                input.jump && !Pressed(c.jumped) && !AirUsed(c.jumped) && !input.grounded)
  {
  }

  lemma HookEvents(c: Core, input: Input)
    requires HookLaunch !in c.events
    ensures var r := HookInput(c, input);
            && (GroundJump in r.events <==> GroundJump in c.events)
            && (AirJump in r.events <==> AirJump in c.events)
            && (HookLaunch in r.events <==> input.hook && c.hookState == HOOK_IDLE)
  {
  }

  /** Exactly when a tick launches the hook, jumps from the ground and jumps in the air. */
  lemma EventsIff(c: Core, input: Input, w: World)
    ensures var events := Tick(c, input, w).events;
            && (HookLaunch in events <==> input.useInput && input.hook && c.hookState == HOOK_IDLE)
            && (GroundJump in events <==>
                input.useInput && input.jump && !Pressed(c.jumped) && input.grounded
                && (!AirUsed(c.jumped) || c.jumps != 0))
            && (AirJump in events <==>
                input.useInput && input.jump && !Pressed(c.jumped) && !AirUsed(c.jumped) && !input.grounded)
  {
    TickJump(c, input, w);
    if input.useInput {
      var start := c.(events := {});
      JumpEvents(start, input);
      HookEvents(JumpInput(start, input), input);
    }
    hide Tick, With, Without, Pressed, AirUsed, JumpInput, HookInput;
  }

  /** Whatever the number of jumps, a jump from the ground leaves the air jump unused: the tick's own ground contact
      clears the second bit that the jump may have set. */
  lemma GroundJumpLeavesAirJump(c: Core, input: Input, w: World)
    requires c.jumped <= 3 && GroundJump in Tick(c, input, w).events
    ensures !AirUsed(Tick(c, input, w).jumped)
  {
    EventsIff(c, input, w);
    TickJump(c, input, w);
    UseInputLatch(JumpLatch, c.(events := {}), input);
    ContactLatch(UseInput(c.(events := {}), input), input.grounded);
    hide Tick, With, Without, Pressed, AirUsed, UseInput, GroundContact;
  }

  // ---------------------------------------------------------------------------------------------
  // Who is hooked, and for how long
  // ---------------------------------------------------------------------------------------------

  predicate Reachable(sights: seq<Sight>, others: set<int>, k: int) {
    0 <= k < |sights| && k in others && sights[k].reached
  }

  /** Without a hooked dummy the players' loop ends with the last reachable slot, however far away that player is. */
  lemma {:induction false} HooksLastReachable(c: Core, sights: seq<Sight>, others: set<int>, i: nat, best: real, k: int)
    requires i <= k && c.dummy == NoDummy && Reachable(sights, others, k)
    requires forall m :: k < m < |sights| ==> !Reachable(sights, others, m)
    ensures GrabPlayers(c, sights, others, i, best).0.hookedPlayer == k
    ensures GrabPlayers(c, sights, others, i, best).1 == sights[k].distance
    decreases |sights| - i
  {
    var taken := i in others && Prefers(c, sights[i], best);
    assert taken <==> Reachable(sights, others, i);
    var (next, near) := if taken then (GrabPlayer(c, i), sights[i].distance) else (c, best);
    if i == k {
      HooksNobody(next, sights, others, i + 1, near);
    } else {
      HooksLastReachable(next, sights, others, i + 1, near, k);
    }
  }

  lemma {:induction false} HooksNobody(c: Core, sights: seq<Sight>, others: set<int>, i: nat, best: real)
    requires i <= |sights| && forall m :: i <= m < |sights| ==> !Reachable(sights, others, m)
    ensures GrabPlayers(c, sights, others, i, best) == (c, best)
    decreases |sights| - i
  {
    if i < |sights| {
      assert !Reachable(sights, others, i);
      HooksNobody(c, sights, others, i + 1, best);
    }
  }

  /** Without a hooked player the dummies' loop ends with the last living dummy in reach. */
  lemma {:induction false} HooksLastDummy(c: Core, sights: seq<Sight>, living: set<int>, j: nat, best: real, k: int)
    requires j <= k && c.hookedPlayer == -1 && Reachable(sights, living, k)
    requires forall m :: k < m < |sights| ==> !Reachable(sights, living, m)
    ensures GrabDummies(c, sights, living, j, best).dummy == Hooked(k, true)
    ensures GrabDummies(c, sights, living, j, best).hookedPlayer == -1
    decreases |sights| - j
  {
    var taken := j in living && Prefers(c, sights[j], best);
    assert taken <==> Reachable(sights, living, j);
    var (next, near) := if taken then (GrabDummy(c, j), sights[j].distance) else (c, best);
    if j == k {
      HooksNoDummy(next, sights, living, j + 1, near);
    } else {
      HooksLastDummy(next, sights, living, j + 1, near, k);
    }
  }

  lemma {:induction false} HooksNoDummy(c: Core, sights: seq<Sight>, living: set<int>, j: nat, best: real)
    requires j <= |sights| && forall m :: j <= m < |sights| ==> !Reachable(sights, living, m)
    ensures GrabDummies(c, sights, living, j, best) == c
    decreases |sights| - j
  {
    if j < |sights| {
      assert !Reachable(sights, living, j);
      HooksNoDummy(c, sights, living, j + 1, best);
    }
  }

  /** `k` is in reach, and of the dummies from `j` on none is nearer and none before `k` as near. */
  ghost predicate FirstNearest(sights: seq<Sight>, living: set<int>, j: int, k: int) {
    && j <= k && Reachable(sights, living, k)
    && (forall m :: j <= m < k && Reachable(sights, living, m) ==> sights[m].distance > sights[k].distance)
    && (forall m :: k < m && Reachable(sights, living, m) ==> sights[m].distance >= sights[k].distance)
  }

  /** With a player and a dummy hooked, the dummy is exchanged for the first of the nearest if that one is nearer
      than what was taken last; -1 stands for no exchange. */
  lemma {:induction false} ExchangesDummy(c: Core, sights: seq<Sight>, living: set<int>, j: nat, best: real)
    returns (k: int)
    requires j <= |sights| && c.hookedPlayer != -1 && c.dummy != NoDummy
    ensures GrabDummies(c, sights, living, j, best).hookedPlayer == c.hookedPlayer
    ensures k == -1 ==> GrabDummies(c, sights, living, j, best).dummy == c.dummy
    ensures k == -1 ==> forall m :: j <= m && Reachable(sights, living, m) ==> sights[m].distance >= best
    ensures k != -1 ==> FirstNearest(sights, living, j, k) && sights[k].distance < best
    ensures k != -1 ==> GrabDummies(c, sights, living, j, best).dummy == Hooked(k, true)
    decreases |sights| - j
  {
    if j == |sights| {
      k := -1;
    } else if Reachable(sights, living, j) && sights[j].distance < best {
      k := ExchangesDummy(GrabDummy(c, j), sights, living, j + 1, sights[j].distance);
      k := if k == -1 then j else k;
    } else {
      k := ExchangesDummy(c, sights, living, j + 1, best);
    }
  }

  /** With a player hooked and no dummy yet, the dummies' loop ends with the first of the nearest living dummies in
      reach, whatever the player's distance; -1 stands for none. */
  lemma {:induction false} HooksNearestDummy(c: Core, sights: seq<Sight>, living: set<int>, j: nat, best: real)
    returns (k: int)
    requires j <= |sights| && c.hookedPlayer != -1 && c.dummy == NoDummy
    ensures GrabDummies(c, sights, living, j, best).hookedPlayer == c.hookedPlayer
    ensures k == -1 ==> GrabDummies(c, sights, living, j, best) == c
    ensures k == -1 ==> forall m :: j <= m ==> !Reachable(sights, living, m)
    ensures k != -1 ==> FirstNearest(sights, living, j, k)
    ensures k != -1 ==> GrabDummies(c, sights, living, j, best).dummy == Hooked(k, true)
    decreases |sights| - j
  {
    if j == |sights| {
      k := -1;
    } else if Reachable(sights, living, j) {
      assert Prefers(c, sights[j], best);
      k := ExchangesDummy(GrabDummy(c, j), sights, living, j + 1, sights[j].distance);
      k := if k == -1 then j else k;
    } else {
      k := HooksNearestDummy(c, sights, living, j + 1, best);
    }
  }

  /** Without a hooked dummy the dummies' loop hooks one exactly if a living one is reachable. */
  lemma {:induction false} CatchesDummyIff(c: Core, sights: seq<Sight>, living: set<int>, j: nat, best: real)
    requires j <= |sights| && c.dummy == NoDummy
    ensures GrabDummies(c, sights, living, j, best).dummy != NoDummy <==>
              exists k :: j <= k && Reachable(sights, living, k)
    ensures GrabDummies(c, sights, living, j, best).hookedPlayer == c.hookedPlayer
    decreases |sights| - j
  {
    if j < |sights| {
      if Reachable(sights, living, j) {
        assert Prefers(c, sights[j], best);
        DummyStays(GrabDummy(c, j), sights, living, j + 1, sights[j].distance);
      } else {
        CatchesDummyIff(c, sights, living, j + 1, best);
      }
    }
  }

  lemma {:induction false} DummyStays(c: Core, sights: seq<Sight>, living: set<int>, j: nat, best: real)
    requires j <= |sights| && c.dummy.Hooked? && c.dummy.alive
    ensures GrabDummies(c, sights, living, j, best).dummy.Hooked?
    ensures GrabDummies(c, sights, living, j, best).dummy.alive
    ensures GrabDummies(c, sights, living, j, best).hookedPlayer == c.hookedPlayer
    decreases |sights| - j
  {
    if j < |sights| {
      if j in living && Prefers(c, sights[j], best) {
        DummyStays(GrabDummy(c, j), sights, living, j + 1, sights[j].distance);
      } else {
        DummyStays(c, sights, living, j + 1, best);
      }
    }
  }

  lemma {:induction false} CatchesPlayerIff(c: Core, sights: seq<Sight>, others: set<int>, i: nat, best: real)
    requires i <= |sights| && c.dummy == NoDummy && c.hookedPlayer == -1
    ensures GrabPlayers(c, sights, others, i, best).0.hookedPlayer != -1 <==>
              exists k :: i <= k && Reachable(sights, others, k)
    ensures GrabPlayers(c, sights, others, i, best).0.dummy == NoDummy
    decreases |sights| - i
  {
    if i < |sights| {
      if Reachable(sights, others, i) {
        assert Prefers(c, sights[i], best);
        PlayerStays(GrabPlayer(c, i), sights, others, i + 1, sights[i].distance);
      } else {
        CatchesPlayerIff(c, sights, others, i + 1, best);
      }
    }
  }

  lemma {:induction false} PlayerStays(c: Core, sights: seq<Sight>, others: set<int>, i: nat, best: real)
    requires i <= |sights| && c.dummy == NoDummy && c.hookedPlayer != -1
    ensures GrabPlayers(c, sights, others, i, best).0.hookedPlayer != -1
    ensures GrabPlayers(c, sights, others, i, best).0.dummy == NoDummy
    decreases |sights| - i
  {
    if i < |sights| {
      if i in others && Prefers(c, sights[i], best) {
        PlayerStays(GrabPlayer(c, i), sights, others, i + 1, sights[i].distance);
      } else {
        PlayerStays(c, sights, others, i + 1, best);
      }
    }
  }

  /** Some other player or some living dummy is in reach of the hook. */
  ghost predicate SomeoneReachable(c: Core, input: Input, w: World) {
    && input.playerHooking && w.hasWorld
    && ((exists k :: 0 <= k && Reachable(input.players, w.present - {c.id}, k))
        || exists j :: 0 <= j && Reachable(input.dummies, w.living, j))
  }

  lemma GrabSomeoneIff(c: Core, input: Input, w: World)
    requires c.dummy == NoDummy && c.hookedPlayer == -1
    ensures HoldsSomeone(GrabSomeone(c, input, w)) <==> SomeoneReachable(c, input, w)
  {
    hide Reachable, Prefers;
    if input.playerHooking && w.hasWorld {
      var others := w.present - {c.id};
      var (caught, best) := GrabPlayers(c, input.players, others, 0, 0.0);
      CatchesPlayerIff(c, input.players, others, 0, 0.0);
      CatchesDummyIff(caught, input.dummies, w.living, 0, best);
    }
  }

  /** Where a flying hook is after its flight: somebody in reach is grabbed even at the end of the hook's length;
      otherwise the length, a tile that cannot be hooked and solid ground decide, in this order. */
  lemma FlyOutcome(c: Core, input: Input, w: World)
    requires c.hookState == HOOK_FLYING && c.dummy == NoDummy && c.hookedPlayer == -1
    ensures Fly(c, input, w).hookState ==
            if SomeoneReachable(c, input, w) then HOOK_GRABBED
            else if input.outOfRange || input.hit == 3 then HOOK_RETRACT_START
            else if input.hit != 0 then HOOK_GRABBED
            else HOOK_FLYING
  {
    var start := if input.outOfRange then c.(hookState := HOOK_RETRACT_START) else c;
    GrabSomeoneIff(start, input, w);
    GrabSomeoneOnly(start, input, w);
    assert SomeoneReachable(start, input, w) <==> SomeoneReachable(c, input, w);
    hide GrabSomeone, SomeoneReachable;
  }

  /** A hook on its way back takes one tick for each of its three states. */
  lemma RetractTick(c: Core, input: Input, w: World)
    requires HOOK_RETRACT_START <= c.hookState <= HOOK_RETRACT_END && KeepsHook(Ticks(input, w))
    ensures Tick(c, input, w).hookState == if c.hookState < HOOK_RETRACT_END then c.hookState + 1 else HOOK_RETRACTED
    ensures HookRetract in Tick(c, input, w).events <==> c.hookState == HOOK_RETRACT_END
  {
    ReachingRetract(c, input, w);
    hide Reaching;
  }

  /** Before the hook moves, a tick that keeps a hook out changes only jumping and events. */
  lemma BeforeHook(c: Core, input: Input)
    requires c.hookState != HOOK_IDLE && KeepsHook(Ticks(input, World(false, {}, {})))
    ensures var r := GroundContact(UseInput(c.(events := {}), input), input.grounded);
            && r == c.(jumped := r.jumped, jumpedTotal := r.jumpedTotal, events := r.events)
            && HookRetract !in r.events
  {
    hide With, Without, Pressed, AirUsed;
    JumpFrame(c.(events := {}), input);
    assert HookRetract !in JumpInput(c.(events := {}), input).events;
    hide JumpInput;
  }

  lemma ReachingRetract(c: Core, input: Input, w: World)
    requires HOOK_RETRACT_START <= c.hookState <= HOOK_RETRACT_END && KeepsHook(Ticks(input, w))
    ensures Reaching(c, input, w).hookState
            == if c.hookState < HOOK_RETRACT_END then c.hookState + 1 else HOOK_RETRACTED
    ensures HookRetract in Reaching(c, input, w).events <==> c.hookState == HOOK_RETRACT_END
  {
    BeforeHook(c, input);
    hide UseInput, GroundContact;
  }

  // ---------------------------------------------------------------------------------------------
  // The jump count, the hook's clock and its events
  // ---------------------------------------------------------------------------------------------

  /** The air jumps since the last ground contact. */
  function AirJumps(c: Core, run: seq<Op>, n: nat): int
    requires n <= |run|
  {
    if n == 0 then c.jumpedTotal
    else if TouchesGround(run[n - 1]) then 0
    else AirJumps(c, run, n - 1) + if Fires(AirLatch, After(c, run, n - 1), run[n - 1]) then 1 else 0
  }

  lemma JumpCountStep(c: Core, op: Op)
    ensures Step(c, op).jumpedTotal
            == if TouchesGround(op) then 0 else c.jumpedTotal + if Fires(AirLatch, c, op) then 1 else 0
  {
    if op.Ticks? {
      var start := c.(events := {});
      TickJump(c, op.input, op.w);
      CountKept(GroundContact(UseInput(start, op.input), op.input.grounded), op.input, op.w);
      InputCount(start, op.input);
      hide MoveHook, HoldOn, UseInput;
    }
  }

  lemma InputCount(c: Core, input: Input)
    requires c.events == {}
    ensures !input.grounded ==>
              UseInput(c, input).jumpedTotal == c.jumpedTotal + if AirJump in UseInput(c, input).events then 1 else 0
  {
    hide With, Without, Pressed, AirUsed;
  }

  lemma MoveHookKeeps(c: Core, input: Input, w: World)
    ensures MoveHook(c, input, w).jumpedTotal == c.jumpedTotal && MoveHook(c, input, w).hookTick == c.hookTick
  {
    hide GrabSomeone;
    GrabSomeoneOnly(if input.outOfRange then c.(hookState := HOOK_RETRACT_START) else c, input, w);
  }

  lemma CountKept(c: Core, input: Input, w: World)
    ensures HoldOn(MoveHook(c, input, w), w).jumpedTotal == c.jumpedTotal
  {
    hide MoveHook;
    MoveHookKeeps(c, input, w);
  }

  /** On every run `m_JumpedTotal` is the number of air jumps since the last ground contact. */
  lemma {:induction false} JumpsCounted(c: Core, run: seq<Op>, n: nat)
    requires n <= |run|
    ensures After(c, run, n).jumpedTotal == AirJumps(c, run, n)
  {
    if n > 0 {
      hide Step, Fires;
      JumpsCounted(c, run, n - 1);
      JumpCountStep(After(c, run, n - 1), run[n - 1]);
    }
  }

  /** The clock starts with a launch and counts the ticks in which the hook is grabbed once it has moved. */
  lemma ClockTick(c: Core, input: Input, w: World)
    ensures Tick(c, input, w).hookTick
            == (if HookLaunch in Tick(c, input, w).events then input.startTick else c.hookTick)
               + if Reaching(c, input, w).hookState == HOOK_GRABBED then 1 else 0
  {
    var start := c.(events := {});
    var landed := GroundContact(UseInput(start, input), input.grounded);
    TickJump(c, input, w);
    LaunchClock(start, input);
    MoveHookKeeps(landed, input, w);
    hide MoveHook, UseInput;
  }

  lemma LaunchClock(c: Core, input: Input)
    requires c.events == {}
    ensures UseInput(c, input).hookTick
            == if HookLaunch in UseInput(c, input).events then input.startTick else c.hookTick
  {
    hide With, Without, Pressed, AirUsed;
  }

  /** The hook is in flight when it is moved in this tick. */
  predicate InFlight(c: Core, input: Input) {
    if input.useInput then input.hook && (c.hookState == HOOK_FLYING || c.hookState == HOOK_IDLE)
    else c.hookState == HOOK_FLYING
  }

  /** Exactly when a tick attaches the hook to somebody or to the ground, when it hits what cannot be hooked, and when
      a returning hook is back. */
  lemma HookEventsIff(c: Core, input: Input, w: World)
    requires Inv(c)
    ensures var events, someone := Tick(c, input, w).events, SomeoneReachable(c, input, w);
            && (AttachPlayer in events <==> InFlight(c, input) && someone)
            && (AttachGround in events <==> InFlight(c, input) && !someone && !input.outOfRange
                                            && input.hit != 0 && input.hit != 3)
            && (HitNoHook in events <==> InFlight(c, input) && !someone && !input.outOfRange && input.hit == 3)
            && (HookRetract in events <==> c.hookState == HOOK_RETRACT_END && KeepsHook(Ticks(input, w)))
  {
    var landed := GroundContact(UseInput(c.(events := {}), input), input.grounded);
    InputState(c.(events := {}), input);
    HoldOnFrame(MoveHook(landed, input, w), w);
    SameReach(landed, c, input, w);
    hide UseInput, GroundContact, Fly, HoldOn, SomeoneReachable;
    if landed.hookState == HOOK_FLYING {
      FlyEvents(landed, input, w);
    }
  }

  lemma SameReach(c: Core, r: Core, input: Input, w: World)
    requires c.id == r.id
    ensures SomeoneReachable(c, input, w) <==> SomeoneReachable(r, input, w)
  {
  }

  lemma InputState(c: Core, input: Input)
    requires Inv(c) && c.events == {}
    ensures var r := GroundContact(UseInput(c, input), input.grounded);
            && r.id == c.id && r.events <= {GroundJump, AirJump, HookLaunch}
            && r.hookState == (if input.useInput && !input.hook then HOOK_IDLE
                               else if InFlight(c, input) then HOOK_FLYING else c.hookState)
            && (r.hookState == HOOK_FLYING ==> !HoldsSomeone(r))
  {
    hide With, Without, Pressed, AirUsed;
  }

  lemma FlyEvents(c: Core, input: Input, w: World)
    requires c.hookState == HOOK_FLYING && !HoldsSomeone(c) && c.events <= {GroundJump, AirJump, HookLaunch}
    ensures var events, someone := Fly(c, input, w).events, SomeoneReachable(c, input, w);
            && (AttachPlayer in events <==> someone)
            && (AttachGround in events <==> !someone && !input.outOfRange && input.hit != 0 && input.hit != 3)
            && (HitNoHook in events <==> !someone && !input.outOfRange && input.hit == 3)
            && HookRetract !in events
  {
    var start := if input.outOfRange then c.(hookState := HOOK_RETRACT_START) else c;
    GrabSomeoneIff(start, input, w);
    GrabSomeoneOnly(start, input, w);
    assert SomeoneReachable(start, input, w) <==> SomeoneReachable(c, input, w);
    hide GrabSomeone, SomeoneReachable;
  }

  // ---------------------------------------------------------------------------------------------
  // Exactly how long somebody is held
  // ---------------------------------------------------------------------------------------------

  /** With the key up every tick ends with the hook idle and nobody held, whatever the state before. */
  lemma KeyUpReleases(c: Core, input: Input, w: World)
    requires input.useInput && !input.hook
    ensures Tick(c, input, w).hookState == HOOK_IDLE && !HoldsSomeone(Tick(c, input, w))
  {
    hide JumpInput;
  }

  /** A tick that ends with the hook idle leaves nobody held, whatever the state before. */
  lemma IdleHoldsNobody(c: Core, input: Input, w: World)
    requires Tick(c, input, w).hookState == HOOK_IDLE
    ensures !HoldsSomeone(Tick(c, input, w))
  {
    hide UseInput, GroundContact;
    var landed := GroundContact(UseInput(c.(events := {}), input), input.grounded);
    if landed.hookState == HOOK_FLYING {
      NeverIdle(landed, input, w);
    }
    hide Fly;
  }

  lemma NeverIdle(c: Core, input: Input, w: World)
    requires c.hookState == HOOK_FLYING
    ensures Fly(c, input, w).hookState != HOOK_IDLE
  {
    var start := if input.outOfRange then c.(hookState := HOOK_RETRACT_START) else c;
    GrabSomeoneOnly(start, input, w);
    hide GrabSomeone;
  }

  /** Where a tick leaves a grabbed hook: each of the two hooked ones is kept unless it is lost by itself or the time
      is up, and losing one, or both to the clock, retracts the hook. */
  lemma GrabbedOutcome(c: Core, input: Input, w: World)
    requires Inv(c) && c.hookState == HOOK_GRABBED && KeepsHook(Ticks(input, w))
    ensures var r := Tick(c, input, w);
            var player := c.hookedPlayer != -1 && !LosesPlayer(c, w);
            var dummy := c.dummy != NoDummy && c.dummy.alive;
            var timeUp := (player || dummy) && c.hookTick >= 60;
            && r.hookedPlayer == (if player && !timeUp then c.hookedPlayer else -1)
            && r.dummy == (if dummy && !timeUp then c.dummy else NoDummy)
            && (r.hookState == HOOK_RETRACTED <==>
                timeUp || (c.hookedPlayer != -1 && !player) || (c.dummy != NoDummy && !dummy))
            && (r.hookState == HOOK_GRABBED || r.hookState == HOOK_RETRACTED)
            && r.hookTick == c.hookTick + 1
  {
    ReachingGrabbed(c, input, w);
    hide Reaching;
  }

  /** A grabbed hook goes on holding: the key is not up, nobody is lost, and the time is not up. */
  predicate GoesOn(c: Core, op: Op) {
    op.Ticks? ==>
      && KeepsHook(op) && c.hookTick < 60
      && (c.hookedPlayer != -1 ==> !LosesPlayer(c, op.w))
      && (c.dummy != NoDummy ==> c.dummy.alive)
  }

  /** The hook is grabbed and holds the same player and the same dummy. */
  predicate SameHold(c: Core, r: Core) {
    && r.hookState == HOOK_GRABBED && r.hookedPlayer == c.hookedPlayer
    && (r.dummy == NoDummy <==> c.dummy == NoDummy) && (c.dummy != NoDummy ==> r.dummy.number == c.dummy.number)
  }

  lemma HoldStep(c: Core, op: Op)
    requires Inv(c) && Holding(c)
    ensures SameHold(c, Step(c, op)) <==> GoesOn(c, op)
  {
    if op.Ticks? {
      if KeepsHook(op) {
        GrabbedOutcome(c, op.input, op.w);
      } else {
        KeyUpReleases(c, op.input, op.w);
      }
      hide Tick;
    }
  }

  /** The hold of operation `i` is still there before every operation up to `n`. */
  predicate SameThrough(c: Core, run: seq<Op>, i: nat, n: nat)
    requires n <= |run|
  {
    forall k :: i <= k <= n ==> SameHold(After(c, run, i), After(c, run, k))
  }

  predicate GoesOnThrough(c: Core, run: seq<Op>, i: nat, n: nat)
    requires n <= |run|
  {
    forall k :: i <= k < n ==> GoesOn(After(c, run, k), run[k])
  }

  lemma OneOperationLonger(c: Core, run: seq<Op>, i: nat, n: nat)
    requires i <= n < |run|
    ensures SameThrough(c, run, i, n + 1) <==>
              SameThrough(c, run, i, n) && SameHold(After(c, run, i), After(c, run, n + 1))
    ensures GoesOnThrough(c, run, i, n + 1) <==> GoesOnThrough(c, run, i, n) && GoesOn(After(c, run, n), run[n])
    ensures SameThrough(c, run, i, n) ==> SameHold(After(c, run, i), After(c, run, n))
  {
    hide SameHold, GoesOn, After;
  }

  lemma SameHoldPasses(a: Core, b: Core, r: Core)
    requires SameHold(a, b) && Holding(a)
    ensures Holding(b) && (SameHold(a, r) <==> SameHold(b, r))
  {
  }

  lemma NoOperation(c: Core, run: seq<Op>, i: nat)
    requires i <= |run| && Holding(After(c, run, i))
    ensures SameThrough(c, run, i, i) && GoesOnThrough(c, run, i, i)
  {
    hide After;
  }

  /** On every run a hold lasts exactly as long as every operation lets it go on. */
  lemma {:induction false} HeldExactly(c: Core, run: seq<Op>, i: nat, n: nat)
    requires Fresh(c) && i <= n <= |run| && Holding(After(c, run, i))
    ensures SameThrough(c, run, i, n) <==> GoesOnThrough(c, run, i, n)
    decreases n
  {
    hide Step, GoesOn, Inv, Fresh, SameHold, Holding, SameThrough, GoesOnThrough;
    if i == n {
      NoOperation(c, run, i);
    } else {
      var m := n - 1;
      HeldExactly(c, run, i, m);
      OneOperationLonger(c, run, i, m);
      InvAlways(c, run, m);
      if SameThrough(c, run, i, m) {
        SameHoldPasses(After(c, run, i), After(c, run, m), After(c, run, n));
        HoldStep(After(c, run, m), run[m]);
      }
    }
  }

  function Ticked(run: seq<Op>, n: nat): nat
    requires n <= |run|
  {
    if n == 0 then 0 else Ticked(run, n - 1) + if run[n - 1].Ticks? then 1 else 0
  }

  predicate Holding(c: Core) {
    c.hookState == HOOK_GRABBED && HoldsSomeone(c)
  }

  lemma HoldingTick(c: Core, op: Op)
    requires Inv(c) && Holding(c) && Holding(Step(c, op))
    ensures Step(c, op).hookTick == c.hookTick + if op.Ticks? then 1 else 0
  {
  }

  /** Somebody who is held through a whole stretch of a run is held for at most as many ticks as the clock allows. */
  lemma {:induction false} HeldForAtMost(c: Core, run: seq<Op>, n: nat)
    requires Inv(c) && n <= |run| && forall i: nat :: i <= n ==> Holding(After(c, run, i))
    ensures Inv(After(c, run, n)) && c.hookTick + Ticked(run, n) == After(c, run, n).hookTick <= 60
    decreases n
  {
    hide Step;
    assert Holding(After(c, run, n));
    if n > 0 {
      HeldForAtMost(c, run, n - 1);
      InvStep(After(c, run, n - 1), run[n - 1]);
      HoldingTick(After(c, run, n - 1), run[n - 1]);
    }
  }

  predicate KeepsHook(op: Op) {
    op.Ticks? ==> (op.input.useInput ==> op.input.hook)
  }

  lemma JumpFrame(c: Core, input: Input)
    ensures var r := JumpInput(c, input);
            r == c.(jumped := r.jumped, jumpedTotal := r.jumpedTotal, events := r.events)
  {
  }

  // ---------------------------------------------------------------------------------------------
  // Holding on without a limit
  // ---------------------------------------------------------------------------------------------

  /** The hook has retracted but still holds somebody; its clock does not run any more. */
  predicate Stuck(c: Core) {
    c.hookState == HOOK_RETRACTED && HoldsSomeone(c)
  }

  /** A hooked player who is let go: the slot is empty or the character has no id. */
  predicate LosesPlayer(c: Core, w: World) {
    w.hasWorld && !(c.hookedPlayer in w.present && c.id != -1)
  }

  /** A grabbed hook holds a player and a dummy, within the limit, and loses exactly one of the two. */
  predicate LosesOneOfTwo(c: Core, w: World) {
    && c.hookState == HOOK_GRABBED && c.hookedPlayer != -1 && c.dummy != NoDummy && c.hookTick < 60
    && LosesPlayer(c, w) != !c.dummy.alive
  }

  /** Exactly when the end of a tick leaves the hook retracted with somebody held. */
  lemma GetsStuckIff(c: Core, w: World)
    requires Mid(c) && !Stuck(c)
    ensures Stuck(HoldOn(c, w)) <==> LosesOneOfTwo(c, w)
  {
  }

  lemma ReachingMid(c: Core, input: Input, w: World)
    requires Inv(c)
    ensures Mid(Reaching(c, input, w))
  {
    var start := c.(events := {});
    UseInputMid(start, input);
    ContactMid(UseInput(start, input), input.grounded);
    MoveHookMid(GroundContact(UseInput(start, input), input.grounded), input, w);
    hide UseInput, GroundContact, MoveHook;
  }

  lemma ReachingGrabbed(c: Core, input: Input, w: World)
    requires c.hookState == HOOK_GRABBED
    ensures var r := Reaching(c, input, w);
            if KeepsHook(Ticks(input, w)) then
              r.hookState == HOOK_GRABBED && r.hookedPlayer == c.hookedPlayer && r.dummy == c.dummy
              && r.hookTick == c.hookTick && r.id == c.id
            else r.hookState == HOOK_IDLE
  {
    JumpFrame(c.(events := {}), input);
    hide JumpInput;
  }

  /** Exactly when a tick from a grabbed hook does so. */
  lemma GrabbedGetsStuckIff(c: Core, input: Input, w: World)
    requires Inv(c) && c.hookState == HOOK_GRABBED
    ensures Stuck(Tick(c, input, w)) <==> KeepsHook(Ticks(input, w)) && LosesOneOfTwo(c, w)
  {
    ReachingMid(c, input, w);
    ReachingGrabbed(c, input, w);
    GetsStuckIff(Reaching(c, input, w), w);
    hide Reaching, HoldOn;
  }

  /** Exactly when the tick in which a hook flies does so: only without an id, with a player and a dummy in reach. */
  lemma FlyGetsStuckIff(c: Core, input: Input, w: World)
    requires Mid(c) && c.hookState == HOOK_FLYING
    ensures Stuck(HoldOn(Fly(c, input, w), w)) <==>
              c.id == -1 && c.hookTick < 60 && input.playerHooking && w.hasWorld
              && (exists k :: 0 <= k && Reachable(input.players, w.present - {c.id}, k))
              && (exists j :: 0 <= j && Reachable(input.dummies, w.living, j))
  {
    var start := if input.outOfRange then c.(hookState := HOOK_RETRACT_START) else c;
    var r := GrabSomeone(start, input, w);
    GrabSomeoneOnly(start, input, w);
    GrabsBothIff(start, input, w);
    hide GrabSomeone, Reachable;
    assert Mid(Fly(c, input, w)) && !Stuck(Fly(c, input, w));
    GetsStuckIff(Fly(c, input, w), w);
    hide HoldOn;
  }

  /** A flying hook catches a player, who is present, and a dummy, which is alive, exactly if each is in reach. */
  lemma GrabsBothIff(c: Core, input: Input, w: World)
    requires c.dummy == NoDummy && c.hookedPlayer == -1
    ensures var r := GrabSomeone(c, input, w);
            && (r.hookedPlayer != -1 <==> input.playerHooking && w.hasWorld
                                          && exists k :: 0 <= k && Reachable(input.players, w.present - {c.id}, k))
            && (r.dummy != NoDummy <==> input.playerHooking && w.hasWorld
                                        && exists j :: 0 <= j && Reachable(input.dummies, w.living, j))
            && (r.hookedPlayer != -1 ==> r.hookedPlayer in w.present)
            && (r.dummy != NoDummy ==> r.dummy.alive)
  {
    if input.playerHooking && w.hasWorld {
      var others := w.present - {c.id};
      var (caught, best) := GrabPlayers(c, input.players, others, 0, 0.0);
      CatchesPlayerIff(c, input.players, others, 0, 0.0);
      CatchesDummyIff(caught, input.dummies, w.living, 0, best);
      PlayerPresent(c, input.players, others, 0, 0.0);
      DummyAlive(caught, input.dummies, w.living, 0, best);
      hide Reachable, Prefers, GrabPlayers, GrabDummies;
    }
  }

  lemma {:induction false} PlayerPresent(c: Core, sights: seq<Sight>, others: set<int>, i: nat, best: real)
    requires i <= |sights| && (c.hookedPlayer != -1 ==> c.hookedPlayer in others)
    ensures var p := GrabPlayers(c, sights, others, i, best).0.hookedPlayer; p != -1 ==> p in others
    decreases |sights| - i
  {
    if i < |sights| {
      if i in others && Prefers(c, sights[i], best) {
        PlayerPresent(GrabPlayer(c, i), sights, others, i + 1, sights[i].distance);
      } else {
        PlayerPresent(c, sights, others, i + 1, best);
      }
    }
  }

  lemma {:induction false} DummyAlive(c: Core, sights: seq<Sight>, living: set<int>, j: nat, best: real)
    requires j <= |sights| && (c.dummy != NoDummy ==> c.dummy.alive)
    ensures var d := GrabDummies(c, sights, living, j, best).dummy; d != NoDummy ==> d.alive
    decreases |sights| - j
  {
    if j < |sights| {
      if j in living && Prefers(c, sights[j], best) {
        DummyAlive(GrabDummy(c, j), sights, living, j + 1, sights[j].distance);
      } else {
        DummyAlive(c, sights, living, j + 1, best);
      }
    }
  }

  /** A stuck hook stays stuck, holding the same player and dummy, exactly until a tick with the hook key up. */
  lemma StuckStep(c: Core, op: Op)
    requires Stuck(c)
    ensures Stuck(Step(c, op)) <==> KeepsHook(op)
    ensures !KeepsHook(op) ==> !HoldsSomeone(Step(c, op))
    ensures KeepsHook(op) ==> Step(c, op).hookedPlayer == c.hookedPlayer
    ensures KeepsHook(op) ==> (c.dummy == NoDummy <==> Step(c, op).dummy == NoDummy)
    ensures KeepsHook(op) && c.dummy != NoDummy ==> Step(c, op).dummy.number == c.dummy.number
  {
    if op.Ticks? {
      JumpFrame(c.(events := {}), op.input);
      hide JumpInput;
    }
  }

  /** Operation `i` of a run makes the hook stuck. */
  predicate GetsStuckAt(c: Core, run: seq<Op>, i: int) {
    && 0 <= i < |run| && run[i].Ticks?
    && LosesOneOfTwo(Reaching(After(c, run, i), run[i].input, run[i].w), run[i].w)
  }

  lemma StepGetsStuckIff(c: Core, run: seq<Op>, i: nat)
    requires i < |run| && Inv(After(c, run, i)) && !Stuck(After(c, run, i))
    ensures Stuck(After(c, run, i + 1)) <==> GetsStuckAt(c, run, i)
  {
    var b := After(c, run, i);
    assert After(c, run, i + 1) == Step(b, run[i]);
    if run[i].Ticks? {
      ReachingMid(b, run[i].input, run[i].w);
      NotStuckReaching(b, run[i].input, run[i].w);
      GetsStuckIff(Reaching(b, run[i].input, run[i].w), run[i].w);
      hide Reaching, HoldOn, LosesOneOfTwo;
    }
  }

  lemma NotStuckReaching(c: Core, input: Input, w: World)
    requires Inv(c)
    ensures Stuck(Reaching(c, input, w)) ==> Stuck(c)
  {
    var landed := GroundContact(UseInput(c.(events := {}), input), input.grounded);
    if c.hookState != HOOK_IDLE && KeepsHook(Ticks(input, w)) {
      BeforeHook(c, input);
    } else {
      HookFromIdle(c, input);
    }
    GrabSomeoneOnly(if input.outOfRange then landed.(hookState := HOOK_RETRACT_START) else landed, input, w);
    hide UseInput, GroundContact, GrabSomeone;
  }

  lemma HookFromIdle(c: Core, input: Input)
    requires Inv(c) && !(c.hookState != HOOK_IDLE && KeepsHook(Ticks(input, World(false, {}, {}))))
    ensures var r := GroundContact(UseInput(c.(events := {}), input), input.grounded);
            !HoldsSomeone(r) && (r.hookState == HOOK_IDLE || r.hookState == HOOK_FLYING)
  {
    hide With, Without, Pressed, AirUsed;
  }

  /** Operation `i` made the hook stuck, and the hook key was not up in a tick since. */
  predicate StuckSince(c: Core, run: seq<Op>, i: int, n: nat)
    requires n <= |run|
  {
    0 <= i < n && GetsStuckAt(c, run, i) && forall j :: i < j < n ==> KeepsHook(run[j])
  }

  lemma StuckOneLonger(c: Core, run: seq<Op>, i: int, n: nat)
    requires n < |run|
    ensures StuckSince(c, run, i, n + 1) <==>
              if i == n then GetsStuckAt(c, run, n) else StuckSince(c, run, i, n) && KeepsHook(run[n])
  {
    hide GetsStuckAt, KeepsHook;
  }

  /** On every run the hook is stuck exactly if some tick made it so and the hook key was not up in a tick since. */
  lemma {:induction false} StuckIff(c: Core, run: seq<Op>, n: nat)
    requires Fresh(c) && n <= |run|
    ensures Stuck(After(c, run, n)) <==> exists i :: StuckSince(c, run, i, n)
    decreases n
  {
    hide Stuck, GetsStuckAt, KeepsHook, Inv, Fresh, After, StuckSince;
    if n == 0 {
      NotYetStuck(c, run);
    } else {
      var m := n - 1;
      StuckIff(c, run, m);
      StuckOperation(c, run, m);
      StuckOneLonger(c, run, m, m);
      if i :| StuckSince(c, run, i, m) {
        StuckOneLonger(c, run, i, m);
      }
      if i :| StuckSince(c, run, i, n) {
        StuckOneLonger(c, run, i, m);
      }
    }
  }

  lemma NotYetStuck(c: Core, run: seq<Op>)
    requires Fresh(c)
    ensures !Stuck(After(c, run, 0))
    ensures forall i :: !StuckSince(c, run, i, 0)
  {
  }

  lemma StuckOperation(c: Core, run: seq<Op>, i: nat)
    requires Fresh(c) && i < |run|
    ensures Stuck(After(c, run, i + 1)) <==>
              GetsStuckAt(c, run, i) || (Stuck(After(c, run, i)) && KeepsHook(run[i]))
    ensures !StuckSince(c, run, i, i)
  {
    InvAlways(c, run, i);
    if Stuck(After(c, run, i)) {
      StuckStep(After(c, run, i), run[i]);
      StuckNotAgain(c, run, i);
    } else {
      StepGetsStuckIff(c, run, i);
    }
    assert After(c, run, i + 1) == Step(After(c, run, i), run[i]);
    hide Stuck, GetsStuckAt, KeepsHook, Step, Inv;
  }

  lemma StuckNotAgain(c: Core, run: seq<Op>, i: nat)
    requires i < |run| && Stuck(After(c, run, i))
    ensures !GetsStuckAt(c, run, i)
  {
    if run[i].Ticks? {
      JumpFrame(After(c, run, i).(events := {}), run[i].input);
      hide JumpInput;
    }
  }

  /** The end of a stretch that began with the clock at `start` and took `n` ticks. */
  predicate HeldSince(c: Core, start: int, n: int) {
    Stuck(c) || (Holding(c) && start + n == c.hookTick <= 60)
  }

  lemma HeldNow(c: Core)
    requires Inv(c) && HoldsSomeone(c)
    ensures HeldSince(c, c.hookTick, 0)
  {
  }

  lemma HeldOn(c: Core, op: Op, start: int, n: int)
    requires Inv(c) && HeldSince(c, start, n) && Inv(Step(c, op)) && HoldsSomeone(Step(c, op))
    ensures HeldSince(Step(c, op), start, n + if op.Ticks? then 1 else 0)
  {
    hide Step;
    if Stuck(c) {
      StuckStep(c, op);
    } else if Holding(Step(c, op)) {
      HoldingTick(c, op);
    }
  }

  /** Somebody who is held through a whole stretch of a run is at its end held by a stuck hook, or by a grabbed one
      whose clock has counted every tick of the stretch and stands at 60 at most. */
  lemma {:induction false} HeldOrStuck(c: Core, run: seq<Op>, i: nat, n: nat)
    requires Fresh(c) && i <= n <= |run| && forall k: nat :: i <= k <= n ==> HoldsSomeone(After(c, run, k))
    ensures HeldSince(After(c, run, n), After(c, run, i).hookTick, Ticked(run, n) - Ticked(run, i))
    decreases n
  {
    hide HeldSince, Step, Inv, Fresh, HoldsSomeone;
    InvAlways(c, run, n);
    if i == n {
      HeldNow(After(c, run, n));
    } else {
      InvAlways(c, run, n - 1);
      HeldOrStuck(c, run, i, n - 1);
      HeldOn(After(c, run, n - 1), run[n - 1], After(c, run, i).hookTick, Ticked(run, n - 1) - Ticked(run, i));
    }
  }

  /** The ways there, each for a fresh character that catches player 1 and dummy 0 in its first tick: the dummy
      dies, ... */
  lemma StuckWithPlayer(c: Core) returns (run: seq<Op>)
    requires Fresh(c) && c.id == 0
    ensures |run| == 3 && Stuck(After(c, run, 3)) && After(c, run, 3).hookedPlayer == 1
  {
    var w := World(true, {1}, {0});
    var rest := Ticks(IdleInput(), w);
    run := [Ticks(CatchInput(), w), DummyDies, rest];
    CatchesBoth(c, w);
    Unrolled(c, run);
    HeldLeadsOn(After(c, run, 2), w);
  }

  /** ... or the player's slot becomes empty, ... */
  lemma StuckWithDummy(c: Core) returns (run: seq<Op>)
    requires Fresh(c) && c.id == 0
    ensures |run| == 2 && run[0].Ticks? && run[1].Ticks? && HoldsSomeone(After(c, run, 1)) && Stuck(After(c, run, 2))
    ensures After(c, run, 2).dummy == Hooked(0, true)
  {
    var w, empty := World(true, {1}, {0}), World(true, {}, {0});
    run := [Ticks(CatchInput(), w), Ticks(IdleInput(), empty)];
    CatchesBoth(c, w);
    assert After(c, run, 0) == c && After(c, run, 1) == Step(c, run[0]);
    assert After(c, run, 2) == Step(After(c, run, 1), run[1]);
    HeldLeadsOn(After(c, run, 1), empty);
  }

  /** ... or the character has no id, which needs no second tick. */
  lemma StuckWithoutId(c: Core) returns (run: seq<Op>)
    requires Fresh(c) && c.id == -1
    ensures |run| == 1 && Stuck(After(c, run, 1)) && After(c, run, 1).dummy == Hooked(0, true)
  {
    var w := World(true, {1}, {0});
    run := [Ticks(CatchInput(), w)];
    CatchesBoth(c, w);
    assert After(c, run, 0) == c && After(c, run, 1) == Step(c, run[0]);
    hide Reaching;
  }

  /** A stuck hook holds somebody for any number of ticks: here a dummy for `m` more than two. */
  lemma {:induction false} HeldWithoutLimit(c: Core, m: nat) returns (run: seq<Op>)
    requires Fresh(c) && c.id == 0
    ensures |run| == m + 2 && Ticked(run, m + 2) == m + 2
    ensures forall k: nat :: 1 <= k <= m + 2 ==> HoldsSomeone(After(c, run, k))
    ensures Stuck(After(c, run, m + 2))
  {
    hide Step, Fresh, IdleInput, Stuck, HoldsSomeone;
    if m == 0 {
      run := StuckWithDummy(c);
      StuckHolds(After(c, run, 2));
      assert Ticked(run, 1) == 1;
    } else {
      var before := HeldWithoutLimit(c, m - 1);
      var op := Ticks(IdleInput(), World(true, {}, {0}));
      run := before + [op];
      AfterPrefix(c, before, op, m + 1);
      IdleKeepsHook(op);
      StuckStep(After(c, before, m + 1), op);
      StuckHolds(After(c, run, m + 2));
      forall k: nat | 1 <= k <= m + 1
        ensures HoldsSomeone(After(c, run, k))
      {
        AfterPrefix(c, before, op, k);
      }
    }
  }

  lemma IdleKeepsHook(op: Op)
    requires op == Ticks(IdleInput(), World(true, {}, {0}))
    ensures KeepsHook(op)
  {
  }

  lemma StuckHolds(c: Core)
    requires Stuck(c)
    ensures HoldsSomeone(c)
  {
  }

  lemma {:induction false} AfterPrefix(c: Core, run: seq<Op>, op: Op, n: nat)
    requires n <= |run|
    ensures After(c, run + [op], n) == After(c, run, n) && Ticked(run + [op], n) == Ticked(run, n)
  {
    hide Step;
    if n > 0 {
      AfterPrefix(c, run, op, n - 1);
    }
  }

  /** The hook key goes down with player 1 and dummy 0 in reach. */
  function CatchInput(): Input {
    Input(true, false, true, false, 0, false, 0, true, [Sight(false, 0.0), Sight(true, 1.0)], [Sight(true, 1.0)])
  }

  /** A tick without input. */
  function IdleInput(): Input {
    Input(false, false, true, false, 0, false, 0, true, [], [])
  }

  lemma Unrolled(c: Core, run: seq<Op>)
    requires |run| == 3
    ensures After(c, run, 1) == Step(c, run[0]) && After(c, run, 2) == Step(After(c, run, 1), run[1])
    ensures After(c, run, 3) == Step(After(c, run, 2), run[2])
  {
    hide Step;
    assert After(c, run, 0) == c;
  }

  lemma CatchesBoth(c: Core, w: World)
    requires Fresh(c) && (c.id == 0 || c.id == -1) && w == World(true, {1}, {0})
    ensures var r := Reaching(c, CatchInput(), w);
            && r.hookState == HOOK_GRABBED && r.hookedPlayer == 1 && r.dummy == Hooked(0, true) && r.hookTick == 0
            && r.id == c.id && r.jumped <= 3
    ensures c.id == 0 ==> Tick(c, CatchInput(), w) == Reaching(c, CatchInput(), w).(hookTick := 1)
  {
    var flying := UseInput(c.(events := {}), CatchInput());
    JumpFrame(c.(events := {}), CatchInput());
    UseInputMid(c.(events := {}), CatchInput());
    hide JumpInput;
    CatchesBothFlying(flying, w);
    hide MoveHook;
  }

  lemma CatchesBothFlying(c: Core, w: World)
    requires c.hookState == HOOK_FLYING && c.dummy == NoDummy && c.hookedPlayer == -1 && (c.id == 0 || c.id == -1)
    requires w == World(true, {1}, {0})
    ensures MoveHook(c, CatchInput(), w) == GrabDummy(GrabPlayer(c, 1), 0)
  {
    var input, others := CatchInput(), w.present - {c.id};
    assert others == {1};
    assert GrabPlayers(c, input.players, others, 1, 0.0) == (GrabPlayer(c, 1), 1.0);
    assert GrabPlayers(c, input.players, others, 0, 0.0) == (GrabPlayer(c, 1), 1.0);
    assert GrabDummies(GrabPlayer(c, 1), input.dummies, w.living, 0, 1.0) == GrabDummy(GrabPlayer(c, 1), 0);
  }

  lemma HeldLeadsOn(c: Core, w: World)
    requires c.hookState == HOOK_GRABBED && c.hookedPlayer == 1 && c.dummy.Hooked? && c.hookTick == 1 && c.id == 0
    requires w.hasWorld && (1 in w.present <==> !c.dummy.alive)
    ensures Stuck(Tick(c, IdleInput(), w))
    ensures Tick(c, IdleInput(), w).hookedPlayer == (if 1 in w.present then 1 else -1)
    ensures Tick(c, IdleInput(), w).dummy == (if c.dummy.alive then c.dummy else NoDummy)
  {
  }
}
