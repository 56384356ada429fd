/** What one frame's tick does with the intent, and the whole controller as
    a transition system over the events it sees: received chunks, ticks,
    and collisions reported by the physics engine. */
module Motion {
  import opened Ascii
  import opened Commands

  /** A 2D vector (velocity or force). Components are exact reals: the tick
      only negates `moveSpeed` and scales the unit vector, which are exact
      in floating point too. */
  datatype Vector2 = Vector2(x: real, y: real)

  /** `Vector2.up`. */
  const Up := Vector2(0.0, 1.0)

  function Scale(v: Vector2, k: real): Vector2 {
    Vector2(v.x * k, v.y * k)
  }

  /** The tag that marks objects the actor can stand on. */
  const GroundTag := "Ground"

  /** The horizontal velocity a tick sets: left wins over right. */
  function HorizontalVelocity(i: Intent, moveSpeed: real): real {
    if i.moveLeft then -moveSpeed else if i.moveRight then moveSpeed else 0.0
  }

  /** With exclusive intent the priority of left over right never matters:
      the velocity is the rightward part minus the leftward part. */
  lemma HorizontalVelocityBalanced(i: Intent, moveSpeed: real)
    requires Exclusive(i)
    ensures HorizontalVelocity(i, moveSpeed)
            == (if i.moveRight then moveSpeed else 0.0) - (if i.moveLeft then moveSpeed else 0.0)
  {
  }

  /** A tick fires the jump impulse when a jump is pending and the actor
      stands on the ground. */
  predicate JumpFires(i: Intent, grounded: bool) {
    i.jump && grounded
  }

  /** The intent after a tick: a fired jump is consumed. */
  function TickIntent(i: Intent, grounded: bool): Intent {
    if JumpFires(i, grounded) then i.(jump := false) else i
  }

  /** The controller's state between events. */
  datatype Frame = Frame(intent: Intent, grounded: bool)

  /** The state at start-up. */
  const Initial := Frame(Idle, false)

  /** What can happen to the controller, in the order it happens. */
  datatype Event =
    | Received(chunk: seq<byte>)
    | Tick
    | CollisionEnter(tag: string)
    | CollisionExit(tag: string)

  function Step(f: Frame, e: Event): Frame {
    match e
    case Received(chunk) => f.(intent := ApplyChunk(f.intent, chunk))
    case Tick => f.(intent := TickIntent(f.intent, f.grounded))
    case CollisionEnter(tag) => if tag == GroundTag then f.(grounded := true) else f
    case CollisionExit(tag) => if tag == GroundTag then f.(grounded := false) else f
  }

  /** Whether handling `e` in state `f` emits the jump impulse. */
  predicate Fires(f: Frame, e: Event) {
    e.Tick? && JumpFires(f.intent, f.grounded)
  }

  /** The state after the events, handled first to last. */
  function Run(f: Frame, es: seq<Event>): Frame
    decreases |es|
  {
    if es == [] then f else Run(Step(f, es[0]), es[1..])
  }

  /** How many jump impulses the events emit. */
  function Impulses(f: Frame, es: seq<Event>): nat
    decreases |es|
  {
    if es == [] then 0
    else (if Fires(f, es[0]) then 1 else 0) + Impulses(Step(f, es[0]), es[1..])
  }

  predicate RequestsJump(e: Event) {
    e.Received? && Decode(Token(e.chunk)) == Jump
  }

  /** How many received chunks ask for a jump. */
  function JumpRequests(es: seq<Event>): nat
    decreases |es|
  {
    if es == [] then 0 else (if RequestsJump(es[0]) then 1 else 0) + JumpRequests(es[1..])
  }

  /** No event puts the actor on the ground. */
  predicate Airborne(es: seq<Event>) {
    forall k :: 0 <= k < |es| ==> es[k] != CollisionEnter(GroundTag)
  }

  /** The events that the chunks of one connection are, in arrival order. */
  function Deliveries(chunks: seq<seq<byte>>): (es: seq<Event>)
    ensures |es| == |chunks|
    ensures forall k :: 0 <= k < |chunks| ==> es[k] == Received(chunks[k])
  {
    seq(|chunks|, k requires 0 <= k < |chunks| => Received(chunks[k]))
  }

  /** Receiving a run of chunks is folding the command update over them,
      first chunk first, and leaves the ground flag alone. */
  lemma {:induction false} RunDeliveries(f: Frame, chunks: seq<seq<byte>>)
    ensures Run(f, Deliveries(chunks)) == Frame(ApplyAll(f.intent, chunks), f.grounded)
    decreases |chunks|
  {
    if chunks != [] {
      var es := Deliveries(chunks);
      assert es[1..] == Deliveries(chunks[1..]);
      RunDeliveries(Step(f, es[0]), chunks[1..]);
      assert chunks == [chunks[0]] + chunks[1..];
      ApplyAllFirst(f.intent, chunks[0], chunks[1..]);
    }
  }

  /** A tick changes neither the movement flags nor the ground flag; it
      clears the jump flag exactly when the jump fires. */
  lemma TickEffect(f: Frame)
    ensures var g := Step(f, Tick);
            && g.intent.moveLeft == f.intent.moveLeft
            && g.intent.moveRight == f.intent.moveRight
            && g.grounded == f.grounded
            && g.intent.jump == (f.intent.jump && !f.grounded)
    ensures Fires(f, Tick) <==> f.intent.jump && f.grounded
  {
  }

  /** A received chunk never changes the ground flag. */
  lemma ReceivedKeepsGround(f: Frame, chunk: seq<byte>)
    ensures Step(f, Received(chunk)).grounded == f.grounded
    ensures !Fires(f, Received(chunk))
  {
  }

  /** Touching a ground-tagged object grounds the actor, leaving one
      un-grounds it, and other collisions change nothing. No collision
      touches the intent. */
  lemma CollisionEffect(f: Frame, tag: string)
    ensures Step(f, CollisionEnter(tag)).grounded == (tag == GroundTag || f.grounded)
    ensures Step(f, CollisionExit(tag)).grounded == (tag != GroundTag && f.grounded)
    ensures Step(f, CollisionEnter(tag)).intent == f.intent
    ensures Step(f, CollisionExit(tag)).intent == f.intent
  {
  }

  lemma StepKeepsExclusive(f: Frame, e: Event)
    requires Exclusive(f.intent)
    ensures Exclusive(Step(f, e).intent)
  {
    if e.Received? {
      ApplyKeepsExclusive(f.intent, Decode(Token(e.chunk)));
    }
  }

  /** However chunks, ticks and collisions interleave, the actor is never
      asked to move both ways at once. */
  lemma {:induction false} RunKeepsExclusive(f: Frame, es: seq<Event>)
    requires Exclusive(f.intent)
    ensures Exclusive(Run(f, es).intent)
    decreases |es|
  {
    if es != [] {
      StepKeepsExclusive(f, es[0]);
      RunKeepsExclusive(Step(f, es[0]), es[1..]);
    }
  }

  /** From start-up, no sequence of events sets both movement flags. */
  lemma NeverBothDirections(es: seq<Event>)
    ensures !(Run(Initial, es).intent.moveLeft && Run(Initial, es).intent.moveRight)
  {
    RunKeepsExclusive(Initial, es);
  }

  /** Handling two runs of events one after the other. */
  lemma {:induction false} RunAppend(f: Frame, a: seq<Event>, b: seq<Event>)
    ensures Run(f, a + b) == Run(Run(f, a), b)
    ensures Impulses(f, a + b) == Impulses(f, a) + Impulses(Run(f, a), b)
    decreases |a|
  {
    if a == [] {
      assert a + b == b;
    } else {
      assert (a + b)[0] == a[0] && (a + b)[1..] == a[1..] + b;
      RunAppend(Step(f, a[0]), a[1..], b);
    }
  }

  /** Jumps are one-shot: every impulse is paid for by a jump that was
      pending at the start or by a `JUMP` chunk, each at most once. */
  lemma {:induction false} ImpulsesBounded(f: Frame, es: seq<Event>)
    ensures Impulses(f, es) <= (if f.intent.jump then 1 else 0) + JumpRequests(es)
    decreases |es|
  {
    if es != [] {
      var e := es[0];
      var g := Step(f, e);
      ImpulsesBounded(g, es[1..]);
      if e.Received? {
        ApplyJump(f.intent, Decode(Token(e.chunk)));
      }
    }
  }

  /** While the actor stays in the air no impulse is emitted and a
      requested jump stays pending: it is set after the events exactly
      when it was set before or some chunk asked for a jump. */
  lemma {:induction false} AirborneKeepsJumpPending(f: Frame, es: seq<Event>)
    requires !f.grounded && Airborne(es)
    ensures Impulses(f, es) == 0
    ensures !Run(f, es).grounded
    ensures Run(f, es).intent.jump <==> f.intent.jump || JumpRequests(es) > 0
    decreases |es|
  {
    if es != [] {
      var e := es[0];
      assert e != CollisionEnter(GroundTag);
      if e.Received? {
        ApplyJump(f.intent, Decode(Token(e.chunk)));
      }
      assert Airborne(es[1..]) by {
        forall k | 0 <= k < |es[1..]| ensures es[1..][k] != CollisionEnter(GroundTag) {
          assert es[1..][k] == es[k + 1];
        }
      }
      AirborneKeepsJumpPending(Step(f, e), es[1..]);
    }
  }

  /** A jump requested in the air fires exactly once, on the first tick
      after the actor lands. */
  lemma LandingFiresPendingJump(f: Frame, es: seq<Event>)
    requires !f.grounded && Airborne(es)
    requires f.intent.jump
    ensures var all := es + [CollisionEnter(GroundTag), Tick];
            Impulses(f, all) == 1 && !Run(f, all).intent.jump
  {
    AirborneKeepsJumpPending(f, es);
    var landing := [CollisionEnter(GroundTag), Tick];
    RunAppend(f, es, landing);
    var g := Run(f, es);
    var h := Step(g, landing[0]);
    assert h.grounded && h.intent.jump;
    assert landing[1..] == [Tick];
    assert Fires(h, Tick) && !Step(h, Tick).intent.jump;
    assert Impulses(h, [Tick]) == 1 + Impulses(Step(h, Tick), []);
    assert Run(h, [Tick]) == Run(Step(h, Tick), []);
  }

  /** `JUMP` on the ground and then a tick: one impulse, and the request is
      consumed so a second tick fires nothing. */
  lemma JumpOnGroundFiresOnce(f: Frame, chunk: seq<byte>)
    requires f.grounded && Decode(Token(chunk)) == Jump
    ensures Impulses(f, [Received(chunk), Tick, Tick]) == 1
    ensures !Run(f, [Received(chunk), Tick, Tick]).intent.jump
  {
    var es := [Received(chunk), Tick, Tick];
    var f1 := Step(f, es[0]);
    assert f1.intent.jump && f1.grounded;
    var f2 := Step(f1, Tick);
    assert !f2.intent.jump && Fires(f1, Tick) && !Fires(f2, Tick);
    assert es[1..] == [Tick, Tick] && es[1..][1..] == [Tick];
    assert Impulses(f2, [Tick]) == 0 + Impulses(Step(f2, Tick), []);
    assert Run(f2, [Tick]) == Run(Step(f2, Tick), []);
  }

  /** A client sends `LEFT`: the next tick, which sets the velocity from the
      intent it reads, moves left at full speed; it then sends `STOP`: the
      next tick stands still. The intent after each tick still gives that
      velocity, since a tick keeps the movement flags. */
  lemma LeftThenStop(f: Frame, moveSpeed: real)
    ensures AllAscii("LEFT") && AllAscii("STOP")
    ensures var beforeTick := Run(f, [Received(GetBytes("LEFT"))]);
            HorizontalVelocity(beforeTick.intent, moveSpeed) == -moveSpeed
    ensures var beforeTick := Run(f, [Received(GetBytes("LEFT")), Tick, Received(GetBytes("STOP"))]);
            HorizontalVelocity(beforeTick.intent, moveSpeed) == 0.0
    ensures var afterLeft := Run(f, [Received(GetBytes("LEFT")), Tick]);
            HorizontalVelocity(afterLeft.intent, moveSpeed) == -moveSpeed
    ensures var afterStop := Run(f, [Received(GetBytes("LEFT")), Tick, Received(GetBytes("STOP")), Tick]);
            HorizontalVelocity(afterStop.intent, moveSpeed) == 0.0
  {
    WireChunkApplies(f.intent, Left);
    var e1 := Received(GetBytes("LEFT"));
    var g1 := Step(f, e1);
    var g2 := Step(g1, Tick);
    WireChunkApplies(g2.intent, Stop);
    var e3 := Received(GetBytes("STOP"));
    var g3 := Step(g2, e3);
    var g4 := Step(g3, Tick);
    assert Run(f, [e1]) == g1 by { assert [e1][1..] == []; }
    assert Run(g2, [e3]) == g3 by { assert [e3][1..] == []; }
    assert Run(g1, [Tick, e3]) == g3 by { assert [Tick, e3][1..] == [e3]; }
    assert Run(f, [e1, Tick, e3]) == g3 by { assert [e1, Tick, e3][1..] == [Tick, e3]; }
    assert Run(g1, [Tick]) == g2 by { assert [Tick][1..] == []; }
    assert Run(f, [e1, Tick]) == g2 by { assert [e1, Tick][1..] == [Tick]; }
    assert Run(g3, [Tick]) == g4 by { assert [Tick][1..] == []; }
    assert Run(g2, [e3, Tick]) == g4 by { assert [e3, Tick][1..] == [Tick]; }
    assert Run(g1, [Tick, e3, Tick]) == g4 by { assert [Tick, e3, Tick][1..] == [e3, Tick]; }
    assert Run(f, [e1, Tick, e3, Tick]) == g4 by { assert [e1, Tick, e3, Tick][1..] == [Tick, e3, Tick]; }
  }
}
