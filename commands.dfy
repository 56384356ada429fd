/** The gesture command vocabulary, how one received chunk becomes a
    command, and how commands update the movement intent. */
module Commands {
  import opened Ascii

  datatype Command = Left | Right | Jump | Stop | Unknown

  /** The exact tokens the controller reacts to (case-sensitive). */
  const Vocabulary: set<string> := {"LEFT", "RIGHT", "JUMP", "STOP"}

  /** The text the gesture client sends for each command. */
  function Wire(c: Command): (token: string)
    requires !c.Unknown?
    ensures token in Vocabulary
    ensures 4 <= |token| <= 5 && Trimmed(token) && AllAscii(token)
  {
    match c
    case Left => "LEFT"
    case Right => "RIGHT"
    case Jump => "JUMP"
    case Stop => "STOP"
  }

  /** The `switch` on the trimmed token: an exact match against the
      vocabulary, and `Unknown` for anything else. */
  function Decode(token: string): (c: Command)
    ensures c.Unknown? <==> token !in Vocabulary
    ensures !c.Unknown? ==> Wire(c) == token
  {
    if token == "LEFT" then Left
    else if token == "RIGHT" then Right
    else if token == "JUMP" then Jump
    else if token == "STOP" then Stop
    else Unknown
  }

  /** Decoding is the inverse of what the client sends. */
  lemma DecodeWire(c: Command)
    requires !c.Unknown?
    ensures Decode(Wire(c)) == c
  {
  }

  /** The token of one received chunk: its bytes as ASCII text with the
      surrounding white space removed. The whole chunk is one token. */
  function Token(chunk: seq<byte>): (t: string)
    ensures Trimmed(t) && AllAscii(t) && |t| <= |chunk|
  {
    var s := GetString(chunk);
    TrimIsInfix(s);
    Trim(s)
  }

  /** The movement intent the listener writes and the tick reads. */
  datatype Intent = Intent(moveLeft: bool, moveRight: bool, jump: bool)

  /** The intent at start-up: every flag false. */
  const Idle := Intent(false, false, false)

  /** The actor is never asked to move both ways at once. */
  predicate Exclusive(i: Intent) {
    !(i.moveLeft && i.moveRight)
  }

  predicate IsMove(c: Command) {
    c.Left? || c.Right? || c.Stop?
  }

  /** The effect of one decoded command on the intent. */
  function Apply(i: Intent, c: Command): Intent {
    match c
    case Left => i.(moveLeft := true, moveRight := false)
    case Right => i.(moveLeft := false, moveRight := true)
    case Jump => i.(jump := true)
    case Stop => i.(moveLeft := false, moveRight := false)
    case Unknown => i
  }

  /** The effect of one received chunk on the intent. */
  function ApplyChunk(i: Intent, chunk: seq<byte>): Intent {
    Apply(i, Decode(Token(chunk)))
  }

  /** Every command keeps the two movement flags exclusive, and a movement
      command makes them exclusive whatever they were before. */
  lemma ApplyKeepsExclusive(i: Intent, c: Command)
    requires Exclusive(i) || IsMove(c)
    ensures Exclusive(Apply(i, c))
  {
  }

  /** Only `JUMP` touches the jump flag, and it only ever sets it. */
  lemma ApplyJump(i: Intent, c: Command)
    ensures Apply(i, c).jump == (i.jump || c == Jump)
  {
  }

  /** `JUMP` and unknown tokens leave the movement flags alone. */
  lemma ApplyNonMoveKeepsMovement(i: Intent, c: Command)
    requires !IsMove(c)
    ensures Apply(i, c).moveLeft == i.moveLeft && Apply(i, c).moveRight == i.moveRight
  {
  }

  /** A movement command sets the movement flags regardless of what they
      were: the last one applied wins. */
  lemma MoveOverwrites(i: Intent, j: Intent, c: Command)
    requires IsMove(c)
    ensures Apply(i, c).moveLeft == Apply(j, c).moveLeft
    ensures Apply(i, c).moveRight == Apply(j, c).moveRight
    ensures Apply(i, c).jump == i.jump
  {
  }

  /** `LEFT` asks for left only, `RIGHT` for right only, `STOP` for
      neither. */
  lemma MoveMeaning(i: Intent, c: Command)
    requires IsMove(c)
    ensures Apply(i, c).moveLeft <==> c == Left
    ensures Apply(i, c).moveRight <==> c == Right
  {
  }

  /** Applying a command twice is the same as applying it once. */
  lemma ApplyIdempotent(i: Intent, c: Command)
    ensures Apply(Apply(i, c), c) == Apply(i, c)
  {
  }

  /** The chunks one connection delivers: the results of successive reads
      up to, not including, the first empty one (the peer closed). */
  function Arrived(results: seq<seq<byte>>): (chunks: seq<seq<byte>>)
    ensures |chunks| <= |results| && chunks == results[..|chunks|]
    ensures forall k :: 0 <= k < |chunks| ==> |results[k]| > 0
    ensures |chunks| < |results| ==> |results[|chunks|]| == 0
  {
    if |results| == 0 || |results[0]| == 0 then []
    else
      var rest := Arrived(results[1..]);
      assert [results[0]] + rest == results[..|rest| + 1];
      [results[0]] + rest
  }

  /** The commands a run of chunks decodes to, one per chunk. */
  function Decoded(chunks: seq<seq<byte>>): (cs: seq<Command>)
    ensures |cs| == |chunks|
    decreases |chunks|
  {
    if chunks == [] then []
    else Decoded(chunks[..|chunks| - 1]) + [Decode(Token(chunks[|chunks| - 1]))]
  }

  lemma {:induction false} DecodedAppend(a: seq<seq<byte>>, b: seq<seq<byte>>)
    ensures Decoded(a + b) == Decoded(a) + Decoded(b)
    decreases |b|
  {
    if b == [] {
      assert a + b == a;
    } else {
      var b' := b[..|b| - 1];
      assert (a + b)[..|a + b| - 1] == a + b';
      DecodedAppend(a, b');
    }
  }

  /** The intent after the commands were applied one at a time. */
  function ApplyCommands(i: Intent, cs: seq<Command>): Intent
    decreases |cs|
  {
    if cs == [] then i
    else Apply(ApplyCommands(i, cs[..|cs| - 1]), cs[|cs| - 1])
  }

  /** The intent after the chunks were applied one at a time. */
  function ApplyAll(i: Intent, chunks: seq<seq<byte>>): Intent {
    ApplyCommands(i, Decoded(chunks))
  }

  /** Applying two runs of commands one after the other is applying their
      concatenation. */
  lemma {:induction false} ApplyCommandsAppend(i: Intent, a: seq<Command>, b: seq<Command>)
    ensures ApplyCommands(i, a + b) == ApplyCommands(ApplyCommands(i, a), b)
    decreases |b|
  {
    if b == [] {
      assert a + b == a;
    } else {
      var b' := b[..|b| - 1];
      assert (a + b)[..|a + b| - 1] == a + b';
      ApplyCommandsAppend(i, a, b');
    }
  }

  /** One more chunk: its command is applied after all earlier ones. */
  lemma ApplyAllLast(i: Intent, chunks: seq<seq<byte>>, c: seq<byte>)
    ensures ApplyAll(i, chunks + [c]) == ApplyChunk(ApplyAll(i, chunks), c)
  {
    assert (chunks + [c])[..|chunks|] == chunks;
    var cs := Decoded(chunks + [c]);
    assert cs[..|cs| - 1] == Decoded(chunks);
  }

  /** The chunks before position `n` arrive when none of them is empty and
      the read at `n` is empty or never happens. */
  lemma ArrivedUpTo(results: seq<seq<byte>>, n: nat)
    requires n <= |results|
    requires forall k :: 0 <= k < n ==> |results[k]| > 0
    requires n == |results| || |results[n]| == 0
    ensures Arrived(results) == results[..n]
  {
  }

  /** Applying one more read result of the stream. */
  lemma ApplyAllNext(i: Intent, results: seq<seq<byte>>, n: nat)
    requires n < |results|
    ensures ApplyAll(i, results[..n + 1]) == ApplyChunk(ApplyAll(i, results[..n]), results[n])
  {
    assert results[..n + 1] == results[..n] + [results[n]];
    ApplyAllLast(i, results[..n], results[n]);
  }

  /** Applying two runs of chunks one after the other is applying their
      concatenation. */
  lemma ApplyAllAppend(i: Intent, a: seq<seq<byte>>, b: seq<seq<byte>>)
    ensures ApplyAll(i, a + b) == ApplyAll(ApplyAll(i, a), b)
  {
    DecodedAppend(a, b);
    ApplyCommandsAppend(i, Decoded(a), Decoded(b));
  }

  /** The commands are applied in arrival order: the first one first. */
  lemma ApplyCommandsFirst(i: Intent, c: Command, rest: seq<Command>)
    ensures ApplyCommands(i, [c] + rest) == ApplyCommands(Apply(i, c), rest)
  {
    ApplyCommandsAppend(i, [c], rest);
    assert [c][..0] == [];
  }

  /** The chunks are applied in arrival order: the first one first. */
  lemma ApplyAllFirst(i: Intent, c: seq<byte>, rest: seq<seq<byte>>)
    ensures ApplyAll(i, [c] + rest) == ApplyAll(ApplyChunk(i, c), rest)
  {
    var x := Decode(Token(c));
    DecodedAppend([c], rest);
    assert Decoded([c]) == [x];
    ApplyCommandsFirst(i, x, Decoded(rest));
  }

  /** The jump flag ends up set exactly when it was set before or some
      command is `JUMP`. */
  lemma {:induction false} ApplyCommandsJump(i: Intent, cs: seq<Command>)
    ensures ApplyCommands(i, cs).jump <==> i.jump || Jump in cs
    decreases |cs|
  {
    if cs != [] {
      var front := cs[..|cs| - 1];
      ApplyCommandsJump(i, front);
      assert cs == front + [cs[|cs| - 1]];
    }
  }

  /** After a run of commands the movement flags are those the last
      movement command set, or unchanged when there was none. */
  lemma {:induction false} ApplyCommandsLastMove(i: Intent, cs: seq<Command>, k: int)
    requires -1 <= k < |cs|
    requires k >= 0 ==> IsMove(cs[k])
    requires forall m :: k < m < |cs| ==> !IsMove(cs[m])
    ensures var j := if k < 0 then i else Apply(i, cs[k]);
            ApplyCommands(i, cs).moveLeft == j.moveLeft && ApplyCommands(i, cs).moveRight == j.moveRight
    decreases |cs|
  {
    if cs != [] {
      var front := cs[..|cs| - 1];
      if k == |cs| - 1 {
        MoveOverwrites(ApplyCommands(i, front), i, cs[k]);
      } else {
        ApplyCommandsLastMove(i, front, k);
      }
    }
  }

  /** Exclusive intent stays exclusive through any run of commands. */
  lemma {:induction false} ApplyCommandsKeepsExclusive(i: Intent, cs: seq<Command>)
    requires Exclusive(i)
    ensures Exclusive(ApplyCommands(i, cs))
    decreases |cs|
  {
    if cs != [] {
      ApplyCommandsKeepsExclusive(i, cs[..|cs| - 1]);
    }
  }

  /** The intent after a series of connections, each served until its
      peer closed, in the order they were accepted. */
  function ApplySessions(i: Intent, sessions: seq<seq<seq<byte>>>): Intent
    decreases |sessions|
  {
    if sessions == [] then i
    else ApplyAll(ApplySessions(i, sessions[..|sessions| - 1]), Arrived(sessions[|sessions| - 1]))
  }

  /** The chunks of all connections, in the order they arrived. */
  function AllArrived(sessions: seq<seq<seq<byte>>>): seq<seq<byte>>
    decreases |sessions|
  {
    if sessions == [] then []
    else AllArrived(sessions[..|sessions| - 1]) + Arrived(sessions[|sessions| - 1])
  }

  /** A closed connection loses nothing: serving connections one after
      another is applying every chunk they delivered, in order, to the
      intent the previous connection left. */
  lemma {:induction false} ApplySessionsIsApplyAll(i: Intent, sessions: seq<seq<seq<byte>>>)
    ensures ApplySessions(i, sessions) == ApplyAll(i, AllArrived(sessions))
    decreases |sessions|
  {
    if sessions != [] {
      var front := sessions[..|sessions| - 1];
      ApplySessionsIsApplyAll(i, front);
      ApplyAllAppend(i, AllArrived(front), Arrived(sessions[|sessions| - 1]));
    }
  }

  /** The token of a chunk is the text the client sent, stripped of its
      white-space padding. */
  lemma TokenOfPadded(p: string, w: string, q: string)
    requires AllWhiteSpace(p) && AllWhiteSpace(q) && Trimmed(w)
    requires AllAscii(p) && AllAscii(w) && AllAscii(q)
    ensures AllAscii(p + w + q)
    ensures Token(GetBytes(p + w + q)) == w
  {
    var s := p + w + q;
    assert forall k :: 0 <= k < |s| ==> IsAscii(s[k]) by {
      forall k | 0 <= k < |s| ensures IsAscii(s[k]) {
        if k < |p| { assert s[k] == p[k]; }
        else if k < |p| + |w| { assert s[k] == w[k - |p|]; }
        else { assert s[k] == q[k - |p| - |w|]; }
      }
    }
    GetStringGetBytes(s);
    TrimPadded(p, w, q);
  }

  /** A wire token with any white-space padding decodes to its command. */
  lemma PaddedWireDecodes(c: Command, p: string, q: string)
    requires !c.Unknown?
    requires AllWhiteSpace(p) && AllAscii(p) && AllWhiteSpace(q) && AllAscii(q)
    ensures AllAscii(p + Wire(c) + q)
    ensures Decode(Token(GetBytes(p + Wire(c) + q))) == c
  {
    TokenOfPadded(p, Wire(c), q);
  }

  /** A chunk holding exactly the wire text of a command applies that
      command. */
  lemma WireChunkApplies(i: Intent, c: Command)
    requires !c.Unknown?
    ensures AllAscii(Wire(c))
    ensures ApplyChunk(i, GetBytes(Wire(c))) == Apply(i, c)
  {
    GetStringGetBytes(Wire(c));
    TrimTrimmed(Wire(c));
    DecodeWire(c);
  }

  /** A chunk whose text is longer than every command word matches
      nothing, so it changes no flag. */
  lemma LongChunkIgnored(i: Intent, s: string)
    requires Trimmed(s) && AllAscii(s) && |s| > 5
    ensures ApplyChunk(i, GetBytes(s)) == i
  {
    GetStringGetBytes(s);
    TrimTrimmed(s);
    assert Token(GetBytes(s)) == s;
    assert s !in Vocabulary;
    UnknownTokenIgnored(i, GetBytes(s));
  }

  /** The `switch` has no default case: a chunk whose token is not one of
      the four command words changes no flag. */
  lemma UnknownTokenIgnored(i: Intent, chunk: seq<byte>)
    requires Token(chunk) !in Vocabulary
    ensures ApplyChunk(i, chunk) == i
  {
    assert Decode(Token(chunk)) == Unknown;
  }

  /** No command word holds '?'. */
  lemma QuestionMarkInNoWord(t: string)
    requires '?' in t
    ensures t !in Vocabulary
  {
  }

  /** `Encoding.ASCII` turns a byte at or above 0x80 into '?', which is not
      white space, so it survives the trim; no command word holds '?', so
      such a chunk changes no flag, even when the bytes encode a white-space
      character in UTF-8. */
  lemma NonAsciiChunkIgnored(i: Intent, chunk: seq<byte>, k: nat)
    requires k < |chunk| && chunk[k] >= 128
    ensures ApplyChunk(i, chunk) == i
  {
    var s := GetString(chunk);
    TrimKeeps(s, k);
    assert '?' in Token(chunk);
    QuestionMarkInNoWord(Token(chunk));
    UnknownTokenIgnored(i, chunk);
  }

  /** A chunk of nothing but white space trims to the empty token, which
      matches nothing. */
  lemma BlankChunkIgnored(i: Intent, s: string)
    requires AllWhiteSpace(s) && AllAscii(s)
    ensures ApplyChunk(i, GetBytes(s)) == i
  {
    GetStringGetBytes(s);
    TrimAllWhiteSpace(s);
    UnknownTokenIgnored(i, GetBytes(s));
  }

  /** Matching is case-sensitive: a command word in lower case is ignored. */
  lemma LowerCaseIgnored(i: Intent)
    ensures AllAscii("left") && ApplyChunk(i, GetBytes("left")) == i
  {
    GetStringGetBytes("left");
    TrimTrimmed("left");
    UnknownTokenIgnored(i, GetBytes("left"));
  }

  /** Two command words joined into one text form a token longer than any
      command word, which matches nothing. */
  lemma JoinedWordsIgnored(i: Intent, a: Command, b: Command)
    requires !a.Unknown? && !b.Unknown?
    ensures AllAscii(Wire(a) + Wire(b))
    ensures ApplyChunk(i, GetBytes(Wire(a) + Wire(b))) == i
  {
    var wa, wb := Wire(a), Wire(b);
    var s := wa + wb;
    assert Trimmed(s) by {
      assert s[0] == wa[0];
      assert s[|s| - 1] == wb[|wb| - 1];
    }
    assert AllAscii(s) by {
      assert forall k :: 0 <= k < |s| ==> s[k] == if k < |wa| then wa[k] else wb[k - |wa|];
    }
    LongChunkIgnored(i, s);
  }

  /** The client sends each word with no delimiter: when two sends arrive in
      one read, the chunk is the two encodings back to back, it forms one
      token, and it changes no flag. */
  lemma ConcatenatedChunkIgnored(i: Intent, a: Command, b: Command)
    requires !a.Unknown? && !b.Unknown?
    ensures ApplyChunk(i, GetBytes(Wire(a)) + GetBytes(Wire(b))) == i
  {
    GetBytesAppend(Wire(a), Wire(b));
    JoinedWordsIgnored(i, a, b);
  }
}
