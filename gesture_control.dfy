/** The `GestureControl` component: the intent fields, the listener's read
    loop and command switch, the per-frame update and the collision
    callbacks, acting on the actor's rigid body. */
module Gesture {
  import opened Ascii
  import opened Commands
  import opened Motion

  /** Size of the buffer each stream read fills. */
  const ReadBufferSize := 1024

  /** The part of the actor's `Rigidbody2D` the controller uses: its
      velocity, and the impulses handed to `AddForce` that the physics step
      has yet to integrate. */
  class Rigidbody {
    var velocity: Vector2
    var impulses: seq<Vector2>

    constructor (v: Vector2)
      ensures velocity == v && impulses == []
    {
      velocity := v;
      impulses := [];
    }

    /** `AddForce(force, ForceMode2D.Impulse)`: queues the impulse. */
    method AddForce(force: Vector2)
      modifies this`impulses
      ensures impulses == old(impulses) + [force]
    {
      impulses := impulses + [force];
    }
  }

  class GestureControl {
    var moveSpeed: real
    var jumpForce: real
    var moveLeft: bool
    var moveRight: bool
    var jump: bool
    var rb: Rigidbody
    var isGrounded: bool

    /** The movement intent held in the three flags. */
    function CurrentIntent(): Intent
      reads this
    {
      Intent(moveLeft, moveRight, jump)
    }

    /** The state the transition system of `Motion` describes. */
    function State(): Frame
      reads this
    {
      Frame(CurrentIntent(), isGrounded)
    }

    /** The object invariant: never both directions at once. */
    ghost predicate Valid()
      reads this
    {
      Exclusive(CurrentIntent())
    }

    /** Field initialisers and `Start`: the default speeds, every flag
        false, and the rigid body of the actor. */
    constructor (body: Rigidbody)
      ensures Valid() && State() == Initial
      ensures rb == body && moveSpeed == 5.0 && jumpForce == 10.0
    {
      moveSpeed := 5.0;
      jumpForce := 10.0;
      moveLeft, moveRight, jump := false, false, false;
      isGrounded := false;
      rb := body;
    }

    /** `Update`: set the horizontal velocity from the intent, keep the
        vertical one, and fire a pending jump if the actor is grounded. */
    method Update()
      requires Valid()
      modifies this`jump, rb
      ensures Valid()
      ensures State() == Step(old(State()), Tick)
      ensures rb.velocity == Vector2(HorizontalVelocity(old(CurrentIntent()), moveSpeed), old(rb.velocity.y))
      ensures rb.impulses == old(rb.impulses) + if Fires(old(State()), Tick) then [Scale(Up, jumpForce)] else []
    {
      rb.velocity := Vector2(0.0, rb.velocity.y);
      if moveLeft {
        rb.velocity := Vector2(-moveSpeed, rb.velocity.y);
      } else if moveRight {
        rb.velocity := Vector2(moveSpeed, rb.velocity.y);
      }
      if jump && isGrounded {
        rb.AddForce(Scale(Up, jumpForce));
        jump := false;
      }
    }

    /** The `switch` on one trimmed token. */
    method HandleCommand(command: string)
      requires Valid()
      modifies this`moveLeft, this`moveRight, this`jump
      ensures Valid()
      ensures CurrentIntent() == Apply(old(CurrentIntent()), Decode(command))
    {
      if command == "LEFT" {
        moveLeft := true;
        moveRight := false;
      } else if command == "RIGHT" {
        moveRight := true;
        moveLeft := false;
      } else if command == "JUMP" {
        jump := true;
      } else if command == "STOP" {
        moveLeft := false;
        moveRight := false;
      }
    }

    /** One pass of the read loop: `stream.Read` puts the next `chunk` at
        the start of the buffer; its bytes are copied out, decoded as ASCII,
        trimmed and handled as one command. */
    method ReceiveChunk(bytes: array<byte>, chunk: seq<byte>)
      requires Valid()
      requires |chunk| <= bytes.Length
      modifies this`moveLeft, this`moveRight, this`jump, bytes
      ensures Valid()
      ensures CurrentIntent() == ApplyChunk(old(CurrentIntent()), chunk)
      ensures bytes[..|chunk|] == chunk
      ensures bytes[|chunk|..] == old(bytes[|chunk|..])
    {
      var length := |chunk|;
      forall k | 0 <= k < length {
        bytes[k] := chunk[k];
      }
      var incomingData := new byte[length];
      forall k | 0 <= k < length {
        incomingData[k] := bytes[k];
      }
      assert incomingData[..] == chunk;
      var command := Trim(GetString(incomingData[..]));
      HandleCommand(command);
    }

    /** The read loop for one accepted client. `readResults` holds what the
        successive `stream.Read` calls deliver; an empty one means the peer
        closed the connection. */
    method ServeClient(readResults: seq<seq<byte>>)
      requires Valid()
      requires forall k :: 0 <= k < |readResults| ==> |readResults[k]| <= ReadBufferSize
      modifies this`moveLeft, this`moveRight, this`jump
      ensures Valid()
      ensures CurrentIntent() == ApplyAll(old(CurrentIntent()), Arrived(readResults))
    {
      var bytes := new byte[ReadBufferSize];
      var n := 0;
      while n < |readResults| && |readResults[n]| != 0
        invariant 0 <= n <= |readResults|
        invariant forall k :: 0 <= k < n ==> |readResults[k]| > 0
        invariant Valid()
        invariant Intent(moveLeft, moveRight, jump) == ApplyAll(old(CurrentIntent()), readResults[..n])
      {
        ReceiveChunk(bytes, readResults[n]);
        ApplyAllNext(old(CurrentIntent()), readResults, n);
        n := n + 1;
      }
      ArrivedUpTo(readResults, n);
    }

    /** `ListenForCommands`: accept one client after another and serve
        each until it closes. `clients` holds the read results of the
        connections in the order they were accepted. */
    method ListenForCommands(clients: seq<seq<seq<byte>>>)
      requires Valid()
      requires forall c, k :: 0 <= c < |clients| && 0 <= k < |clients[c]| ==> |clients[c][k]| <= ReadBufferSize
      modifies this`moveLeft, this`moveRight, this`jump
      ensures Valid()
      ensures CurrentIntent() == ApplySessions(old(CurrentIntent()), clients)
    {
      var c := 0;
      while c < |clients|
        invariant 0 <= c <= |clients|
        invariant Valid()
        invariant Intent(moveLeft, moveRight, jump) == ApplySessions(old(CurrentIntent()), clients[..c])
      {
        ServeClient(clients[c]);
        assert clients[..c + 1][..c] == clients[..c];
        c := c + 1;
      }
      assert clients[..c] == clients;
    }

    /** `OnCollisionEnter2D`, given the tag of the other object. */
    method OnCollisionEnter2D(otherTag: string)
      requires Valid()
      modifies this`isGrounded
      ensures Valid()
      ensures State() == Step(old(State()), CollisionEnter(otherTag))
    {
      if otherTag == GroundTag {
        isGrounded := true;
      }
    }

    /** `OnCollisionExit2D`, given the tag of the other object. */
    method OnCollisionExit2D(otherTag: string)
      requires Valid()
      modifies this`isGrounded
      ensures Valid()
      ensures State() == Step(old(State()), CollisionExit(otherTag))
    {
      if otherTag == GroundTag {
        isGrounded := false;
      }
    }
  }
}
