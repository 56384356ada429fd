# Gesture-controlled actor: command listener and motion controller

This project models `GestureControl`, the Unity component that moves a 2D
actor in response to gesture commands sent over TCP by a hand-tracking
client. The component has three parts:

- A listener accepts one client at a time. It reads the stream into a
  1024-byte buffer and turns each chunk a read returns into one command.
  The chunk's bytes are decoded as ASCII, trimmed, and matched exactly
  against `LEFT`, `RIGHT`, `JUMP` and `STOP`. Each match updates three
  intent flags: `moveLeft`, `moveRight` and `jump`.
- A per-frame `Update` turns the intent into a horizontal velocity. It keeps
  the vertical velocity, and fires a pending jump as one upward impulse when
  the actor stands on the ground.
- Collision callbacks set and clear `isGrounded` for objects tagged
  `Ground`.

The Dafny sources are organised as follows:

- `ascii.dfy` (module `Ascii`): the two .NET library calls the listener
  uses. `Encoding.ASCII.GetString` maps each byte above 0x7F to `?`.
  `String.Trim()` removes the characters `Char.IsWhiteSpace` accepts from
  both ends. The module also has the client's `str.encode()` on ASCII text.
- `commands.dfy` (module `Commands`): the command vocabulary and how one
  chunk becomes a command. It defines the effect of each command on the
  intent, and the fold of that effect over the chunks of a connection and
  over successive connections.
- `motion.dfy` (module `Motion`): the tick as a pure rule. It also defines
  the whole controller as a transition system over received chunks, ticks
  and collisions. The invariants and jump behaviour are proved over every
  interleaving of those events.
- `gesture_control.dfy` (module `Gesture`): the component itself. It is a
  class with the source's fields and methods. The nested read loops are
  `while` loops over a 1024-byte `array` buffer. `Update` and the two
  collision callbacks are proved to move the object exactly as the matching
  step of `Motion` does. `HandleCommand`, `ReceiveChunk`, `ServeClient` and
  `ListenForCommands` are proved to set the flags to `Commands.Apply`,
  `ApplyChunk`, `ApplyAll` and `ApplySessions` of the old flags.
  `Motion.RunDeliveries` links those functions to the received-chunk steps
  of `Motion`. Every method keeps the class invariant that the two
  movement flags are never both set.

The model keeps the source's one-chunk-one-command rule. The client sends
its words with no delimiter, so two sends that arrive in one read form a
single token such as `LEFTLEFT`, and the controller ignores it. This is
stated and proved as `Commands.ConcatenatedChunkIgnored`.

Points of the code's behaviour worth knowing:

- The listener keeps no bytes across reads: every read is one token, and a
  command split over two reads is lost.
- The intent flags are plain fields. The listener thread writes them and
  `Update` reads them, with no lock. Not modelled, see "## Left out": the
  model covers every interleaving of whole events only. For example,
  between the two writes of the `LEFT` case (controller.cs lines 71-72)
  after a `RIGHT`, both movement flags are true for a moment. A tick that
  reads `moveLeft` before those writes and `moveRight` after them sets the
  horizontal velocity to 0.
- Chunks are decoded with `Encoding.ASCII`, so every byte at or above 0x80
  becomes `?`. Such a chunk matches no command
  (`Commands.NonAsciiChunkIgnored`). This holds even when the bytes are a
  UTF-8 encoded white-space character: `LEFT` followed by the no-break
  space (bytes C2 A0) decodes to `LEFT??` and is ignored.
- `stream.Read` is not guarded. A read that fails (the connection is reset)
  throws out of `ListenForCommands`, the listener thread ends, and no later
  client is accepted. The code does not recover from a read error. Not
  modelled, see "## Left out".

## Model

| member | source | states |
|---|---|---|
| Ascii.GetString | UnityGame/Assets/controller.cs:66 | one character per byte, all ASCII; every byte below 128 keeps its code and every byte at or above 128 becomes `?` |
| Ascii.GetBytes | python/hand_gesture_control.py:84 | the bytes `str.encode()` sends for ASCII text: one byte per character, each below 128 |
| Ascii.GetStringGetBytes | UnityGame/Assets/controller.cs:66 | decoding the bytes a client encoded from ASCII text gives that text back |
| Ascii.IsWhiteSpace | UnityGame/Assets/controller.cs:66 | the `Char.IsWhiteSpace` set that `Trim()` removes: tab to carriage return, space, U+0085, U+00A0, U+1680, U+2000 to U+200A, U+2028, U+2029, U+202F, U+205F, U+3000 |
| Ascii.Trim | UnityGame/Assets/controller.cs:66 | the trimmed token has no white space at either end and is no longer than the input |
| Ascii.TrimIsInfix | UnityGame/Assets/controller.cs:66 | the token is a contiguous piece of the text with only white space before and after it |
| Ascii.TrimPadded | UnityGame/Assets/controller.cs:66 | white space around trimmed text is removed and the text itself is kept |
| Ascii.TrimAllWhiteSpace | UnityGame/Assets/controller.cs:66 | text made only of white space trims to the empty token |
| Ascii.TrimIdempotent | UnityGame/Assets/controller.cs:66 | trimming twice is trimming once |
| Commands.Wire | python/hand_gesture_control.py:13-18 | every word the client sends is in the controller's vocabulary, 4 or 5 ASCII characters with no surrounding white space |
| Commands.Decode | UnityGame/Assets/controller.cs:68-85 | a token is unknown exactly when it is not one of the four words, and a known token is the word of its command |
| Commands.Token | UnityGame/Assets/controller.cs:66 | the token of a chunk: ASCII text, no longer than the chunk, with no white space at either end |
| Commands.Apply | UnityGame/Assets/controller.cs:68-85 | the `switch`: `LEFT` sets left and clears right, `RIGHT` the reverse, `JUMP` sets `jump`, `STOP` clears both movement flags, anything else changes nothing; its properties are the `Apply…` and `Move…` lemmas below |
| Commands.ApplyChunk | UnityGame/Assets/controller.cs:64-85 | one pass of the read loop body: copy, decode, trim, switch |
| Commands.DecodeWire | UnityGame/Assets/controller.cs:68-85 | decoding inverts what the client sends |
| Commands.ApplyKeepsExclusive | UnityGame/Assets/controller.cs:70-84 | no command makes both movement flags true, and a movement command makes them exclusive whatever they were |
| Commands.ApplyJump | UnityGame/Assets/controller.cs:78-80 | only `JUMP` touches `jump`, and it only sets it |
| Commands.ApplyNonMoveKeepsMovement | UnityGame/Assets/controller.cs:78-80 | `JUMP` and unknown tokens leave `moveLeft` and `moveRight` unchanged |
| Commands.MoveOverwrites | UnityGame/Assets/controller.cs:70-84 | `LEFT`, `RIGHT` and `STOP` set the movement flags regardless of their previous values and keep `jump` |
| Commands.MoveMeaning | UnityGame/Assets/controller.cs:70-84 | after a movement command, `moveLeft` holds exactly when it was `LEFT` and `moveRight` exactly when it was `RIGHT` |
| Commands.ApplyIdempotent | UnityGame/Assets/controller.cs:68-85 | applying the same command twice is applying it once |
| Commands.Arrived | UnityGame/Assets/controller.cs:62 | the chunks a connection delivers are the read results before the first empty one, all non-empty |
| Commands.ArrivedUpTo | UnityGame/Assets/controller.cs:62 | the read loop that stops at the first empty read has consumed exactly the arrived chunks |
| Commands.ApplyCommands | UnityGame/Assets/controller.cs:62-86 | the switch applied to each decoded command in turn, oldest first |
| Commands.ApplyAll | UnityGame/Assets/controller.cs:62-86 | the read loop of one client: every arrived chunk applied in order |
| Commands.ApplyAllLast | UnityGame/Assets/controller.cs:62-85 | one more chunk is applied after all earlier ones |
| Commands.ApplyAllAppend | UnityGame/Assets/controller.cs:62-86 | applying two runs of chunks in turn is applying their concatenation |
| Commands.ApplyAllFirst | UnityGame/Assets/controller.cs:62-86 | chunks are applied in arrival order, the first one first |
| Commands.ApplyCommandsJump | UnityGame/Assets/controller.cs:78-80 | after a run of commands `jump` is set exactly when it was set before or some command was `JUMP` |
| Commands.ApplyCommandsLastMove | UnityGame/Assets/controller.cs:70-84 | after a run of commands the movement flags are those the last movement command set, or unchanged if there was none |
| Commands.ApplyCommandsKeepsExclusive | UnityGame/Assets/controller.cs:70-84 | exclusive movement flags stay exclusive through any run of commands |
| Commands.ApplySessions | UnityGame/Assets/controller.cs:54-87 | the accept loop: each client's arrived chunks applied to the flags the previous client left, with no reset |
| Commands.ApplySessionsIsApplyAll | UnityGame/Assets/controller.cs:54-87 | serving connections one after another applies every delivered chunk, in order, to the intent the previous connection left |
| Commands.TokenOfPadded | UnityGame/Assets/controller.cs:64-66 | the token of a chunk is the sent text without its white-space padding |
| Commands.PaddedWireDecodes | UnityGame/Assets/controller.cs:64-85 | a command word with any white-space padding decodes to its command |
| Commands.WireChunkApplies | UnityGame/Assets/controller.cs:64-85 | a chunk holding exactly a command word applies that command |
| Commands.LongChunkIgnored | UnityGame/Assets/controller.cs:66-85 | a chunk whose token is longer than every command word changes no flag |
| Commands.BlankChunkIgnored | UnityGame/Assets/controller.cs:66-85 | a chunk of white space only changes no flag |
| Commands.UnknownTokenIgnored | UnityGame/Assets/controller.cs:68-85 | a chunk whose token is not one of the four words changes no flag (the switch has no default case) |
| Commands.NonAsciiChunkIgnored | UnityGame/Assets/controller.cs:66-85 | a chunk holding any byte at or above 0x80 changes no flag, because that byte decodes to `?`, which survives the trim and is in no command word |
| Commands.LowerCaseIgnored | UnityGame/Assets/controller.cs:68-85 | matching is case-sensitive: `left` changes no flag |
| Commands.ConcatenatedChunkIgnored | UnityGame/Assets/controller.cs:62-85 | two sends of command words arriving in one read (their encodings back to back) change no flag |
| Ascii.GetBytesAppend | python/hand_gesture_control.py:84 | two sends on one stream carry the encoding of the joined text |
| Motion.HorizontalVelocity | UnityGame/Assets/controller.cs:31-40 | `-moveSpeed` when `moveLeft`, else `moveSpeed` when `moveRight`, else 0 |
| Motion.TickIntent | UnityGame/Assets/controller.cs:42-46 | a tick clears `jump` exactly when a jump is pending on the ground, and keeps every other flag |
| Motion.Step | UnityGame/Assets/controller.cs:28-104 | one event of the controller: a received chunk runs the switch, a tick runs `Update`, a collision runs its callback |
| Motion.HorizontalVelocityBalanced | UnityGame/Assets/controller.cs:31-40 | with exclusive flags the horizontal velocity is the rightward speed minus the leftward speed, so left-before-right priority never matters |
| Motion.TickEffect | UnityGame/Assets/controller.cs:28-47 | a tick keeps `moveLeft`, `moveRight` and `isGrounded`; it clears `jump` and fires exactly when a jump is pending on the ground |
| Motion.ReceivedKeepsGround | UnityGame/Assets/controller.cs:68-85 | commands never change `isGrounded` and never emit an impulse |
| Motion.CollisionEffect | UnityGame/Assets/controller.cs:90-104 | a `Ground` enter sets and a `Ground` exit clears the ground flag; other tags and the intent are untouched |
| Motion.StepKeepsExclusive | UnityGame/Assets/controller.cs:16 | no single event makes both movement flags true |
| Motion.RunKeepsExclusive | UnityGame/Assets/controller.cs:16 | exclusive movement flags stay exclusive through any interleaving of chunks, ticks and collisions |
| Motion.NeverBothDirections | UnityGame/Assets/controller.cs:16 | from start-up no sequence of events sets both `moveLeft` and `moveRight` |
| Motion.RunAppend | UnityGame/Assets/controller.cs:28-104 | handling two runs of events in turn is handling their concatenation, and their impulses add up |
| Motion.RunDeliveries | UnityGame/Assets/controller.cs:62-86 | receiving a run of chunks folds the command update over them in arrival order and keeps the ground flag |
| Motion.ImpulsesBounded | UnityGame/Assets/controller.cs:42-46 | every impulse is paid for by a jump pending at the start or by a `JUMP` chunk, each at most once |
| Motion.AirborneKeepsJumpPending | UnityGame/Assets/controller.cs:42-46 | while airborne no impulse fires, and `jump` stays latched exactly when it was pending or some chunk asked for a jump |
| Motion.LandingFiresPendingJump | UnityGame/Assets/controller.cs:42-46 | a jump requested in the air fires exactly once, on the first tick after landing, and is consumed |
| Motion.JumpOnGroundFiresOnce | UnityGame/Assets/controller.cs:42-46 | `JUMP` on the ground then two ticks emits exactly one impulse |
| Motion.LeftThenStop | UnityGame/Assets/controller.cs:31-40 | after `LEFT` the intent the next tick reads gives full leftward speed; after `STOP` it gives 0; the intents after those ticks give the same |
| Gesture.Rigidbody.AddForce | UnityGame/Assets/controller.cs:44 | the impulse is queued after the earlier ones |
| Gesture.GestureControl.constructor | UnityGame/Assets/controller.cs:14-22 | default speeds 5 and 10, every flag false, the actor's rigid body attached |
| Gesture.GestureControl.Update | UnityGame/Assets/controller.cs:28-47 | the new state is one tick of the transition system; velocity is (-speed, +speed or 0, old vertical); one impulse of `jumpForce` upward exactly when the jump fires |
| Gesture.GestureControl.HandleCommand | UnityGame/Assets/controller.cs:68-85 | the flags become the decoded command applied to the old flags, keeping them exclusive |
| Gesture.GestureControl.ReceiveChunk | UnityGame/Assets/controller.cs:62-85 | the read puts the chunk at the start of the buffer and leaves the rest; copying, decoding, trimming and switching apply that chunk to the flags |
| Gesture.GestureControl.ServeClient | UnityGame/Assets/controller.cs:59-86 | the flags after serving one client are the fold of every arrived chunk, in order, over the flags before |
| Gesture.GestureControl.ListenForCommands | UnityGame/Assets/controller.cs:49-88 | the flags after serving a series of clients are the fold over each client's arrived chunks in acceptance order |
| Gesture.GestureControl.OnCollisionEnter2D | UnityGame/Assets/controller.cs:90-96 | the new state is the collision-enter step of the transition system |
| Gesture.GestureControl.OnCollisionExit2D | UnityGame/Assets/controller.cs:98-104 | the new state is the collision-exit step of the transition system |

## Left out

- The TCP listener on port 65432, `AcceptTcpClient`, `GetStream` and the
  background thread (controller.cs lines 9-12, 23-25, 51-57) are I/O and
  concurrency. The model is given each connection's read results as a
  sequence of byte chunks, and a finite sequence of connections in place of
  the endless accept loop.
- Gesture.GestureControl.ListenForCommands: serves a finite list of clients.
  The source loops forever, so the state after every finite prefix of the
  accept loop is what the model states.
- Gesture.GestureControl.ListenForCommands: does not model a read that
  throws. In the source such a read ends the listener thread, and no later
  client is served.
- Gesture.GestureControl.ListenForCommands: moves on to the next client even
  when a client's read results run out without an empty read. In the source
  only a client whose peer closed is followed by the next client; otherwise
  `Read` blocks.
- Gesture.GestureControl.ServeClient: requires every read result to fit the
  1024-byte buffer. This is the contract of `NetworkStream.Read` with
  `count = bytes.Length`, not a check the source makes.
- The data race between the listener thread and `Update` cannot be
  expressed in a sequential model. The transition system in `Motion`
  covers every interleaving of whole chunk, tick and collision events, but
  not torn reads within one event.
- `OnApplicationQuit` (lines 106-113) only closes sockets.
- Rigidbody2D physics: the model records the velocity `Update` sets and the
  impulses `AddForce` queues. How the engine integrates them is not
  modelled.
- Floating point: `moveSpeed`, `jumpForce` and the velocity components are
  exact reals. The tick only negates the speed and scales the unit vector
  `Vector2.up`, so no rounding is involved except for NaN or infinite
  inspector values, which are not modelled.
- `Collision2D` is reduced to the tag of the other object, because
  `CompareTag("Ground")` is all the callbacks look at.
- `String.Trim()` is modelled with the `Char.IsWhiteSpace` set. After
  ASCII decoding only tab, line feed, vertical tab, form feed, carriage
  return and space can occur, so the other members of the set never
  matter here.
- python/hand_gesture_control.py is the camera and MediaPipe capture loop.
  Only its vocabulary (lines 13-18) and the bare `encode` send (line 84)
  appear in the model, as `Commands.Wire` and `Ascii.GetBytes`.
- UnityGame/Assets/Camera2DFollow.cs (camera smoothing) is not part of this
  model.
