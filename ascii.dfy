/** The two .NET library operations the command listener relies on when it
    turns a received chunk into a token: `Encoding.ASCII.GetString` and
    `String.Trim()`, plus the client side's `str.encode()` on ASCII text. */
module Ascii {

  /** An 8-bit byte as read from the network stream. */
  newtype byte = x: int | 0 <= x < 256

  predicate IsAscii(c: char) {
    c as int < 128
  }

  predicate AllAscii(s: string) {
    forall k :: 0 <= k < |s| ==> IsAscii(s[k])
  }

  /** One byte through `Encoding.ASCII`: bytes above 0x7F have no ASCII
      meaning and decode to the replacement character '?'. */
  function DecodeByte(b: byte): char {
    if b < 128 then (b as int) as char else '?'
  }

  /** `Encoding.ASCII.GetString`: one character per byte, always ASCII;
      an ASCII byte keeps its code and any other byte becomes '?'. */
  function GetString(bytes: seq<byte>): (s: string)
    ensures |s| == |bytes|
    ensures AllAscii(s)
    ensures forall k :: 0 <= k < |bytes| && bytes[k] < 128 ==> s[k] as int == bytes[k] as int
    ensures forall k :: 0 <= k < |bytes| && bytes[k] >= 128 ==> s[k] == '?'
  {
    seq(|bytes|, k requires 0 <= k < |bytes| => DecodeByte(bytes[k]))
  }

  /** The bytes a client puts on the wire for ASCII text (UTF-8 and ASCII
      agree on it). */
  function GetBytes(s: string): (bytes: seq<byte>)
    requires AllAscii(s)
    ensures |bytes| == |s|
    ensures forall k :: 0 <= k < |bytes| ==> bytes[k] < 128
  {
    seq(|s|, k requires 0 <= k < |s| => (s[k] as int) as byte)
  }

  /** Decoding what was encoded gives the text back. */
  lemma GetStringGetBytes(s: string)
    requires AllAscii(s)
    ensures GetString(GetBytes(s)) == s
  {
    var t := GetString(GetBytes(s));
    assert forall k :: 0 <= k < |s| ==> t[k] == s[k];
  }

  /** Encoding concatenated text concatenates the encodings: two sends
      on one stream arrive as the concatenation of their bytes. */
  lemma GetBytesAppend(s: string, t: string)
    requires AllAscii(s) && AllAscii(t)
    ensures AllAscii(s + t)
    ensures GetBytes(s + t) == GetBytes(s) + GetBytes(t)
  {
    assert forall k :: 0 <= k < |s + t| ==> (s + t)[k] == if k < |s| then s[k] else t[k - |s|];
  }

  /** `Char.IsWhiteSpace`: the characters `String.Trim()` removes. */
  predicate IsWhiteSpace(c: char) {
    || c == ' ' || ('\t' <= c <= '\r') || c == '\U{85}' || c == '\U{A0}'
    || c == '\U{1680}' || ('\U{2000}' <= c <= '\U{200A}') || c == '\U{2028}'
    || c == '\U{2029}' || c == '\U{202F}' || c == '\U{205F}' || c == '\U{3000}'
  }

  predicate AllWhiteSpace(s: string) {
    forall k :: 0 <= k < |s| ==> IsWhiteSpace(s[k])
  }

  /** Every character of `s` from `lo` up to, not including, `hi` is white
      space. */
  predicate WhiteSpaceIn(s: string, lo: nat, hi: nat)
    requires lo <= hi <= |s|
  {
    forall k :: lo <= k < hi ==> IsWhiteSpace(s[k])
  }

  /** Neither end of `s` is white space. */
  predicate Trimmed(s: string) {
    s == [] || (!IsWhiteSpace(s[0]) && !IsWhiteSpace(s[|s| - 1]))
  }

  /** `String.Trim()`: the text of `s` without its leading and trailing
      white space, removed one character at a time from either end. */
  function Trim(s: string): (r: string)
    ensures Trimmed(r) && |r| <= |s|
    decreases |s|
  {
    if |s| > 0 && IsWhiteSpace(s[0]) then Trim(s[1..])
    else if |s| > 0 && IsWhiteSpace(s[|s| - 1]) then Trim(s[..|s| - 1])
    else s
  }

  /** A piece of `s[1..]` with white space around it is a piece of `s`
      with white space around it, when `s` starts with white space. */
  lemma InfixAfterFirst(s: string, i: nat, j: nat)
    requires |s| > 0 && IsWhiteSpace(s[0]) && i <= j <= |s| - 1
    requires WhiteSpaceIn(s[1..], 0, i) && WhiteSpaceIn(s[1..], j, |s| - 1)
    ensures s[1..][i..j] == s[i + 1..j + 1]
    ensures WhiteSpaceIn(s, 0, i + 1) && WhiteSpaceIn(s, j + 1, |s|)
  {
    assert forall k :: 0 < k < |s| ==> s[k] == s[1..][k - 1];
  }

  /** A piece of `s[..|s| - 1]` with white space around it is a piece of
      `s` with white space around it, when `s` ends with white space. */
  lemma InfixBeforeLast(s: string, i: nat, j: nat)
    requires |s| > 0 && IsWhiteSpace(s[|s| - 1]) && i <= j <= |s| - 1
    requires WhiteSpaceIn(s[..|s| - 1], 0, i) && WhiteSpaceIn(s[..|s| - 1], j, |s| - 1)
    ensures s[..|s| - 1][i..j] == s[i..j]
    ensures WhiteSpaceIn(s, 0, i) && WhiteSpaceIn(s, j, |s|)
  {
    assert forall k :: 0 <= k < |s| - 1 ==> s[k] == s[..|s| - 1][k];
  }

  /** What `Trim` keeps is a piece of `s` with only white space before and
      after it. */
  lemma {:induction false} TrimIsInfix(s: string)
    ensures exists i, j :: 0 <= i <= j <= |s| && Trim(s) == s[i..j]
                           && WhiteSpaceIn(s, 0, i) && WhiteSpaceIn(s, j, |s|)
    decreases |s|
  {
    if |s| > 0 && IsWhiteSpace(s[0]) {
      var t := s[1..];
      TrimIsInfix(t);
      var i, j :| 0 <= i <= j <= |t| && Trim(t) == t[i..j]
                  && WhiteSpaceIn(t, 0, i) && WhiteSpaceIn(t, j, |t|);
      InfixAfterFirst(s, i, j);
      assert Trim(s) == s[i + 1..j + 1];
    } else if |s| > 0 && IsWhiteSpace(s[|s| - 1]) {
      var t := s[..|s| - 1];
      TrimIsInfix(t);
      var i, j :| 0 <= i <= j <= |t| && Trim(t) == t[i..j]
                  && WhiteSpaceIn(t, 0, i) && WhiteSpaceIn(t, j, |t|);
      InfixBeforeLast(s, i, j);
      assert Trim(s) == s[i..j];
    } else {
      assert Trim(s) == s[0..|s|];
    }
  }

  /** `Trim` removes only white space: every other character of the text
      is kept. */
  lemma TrimKeeps(s: string, k: nat)
    requires k < |s| && !IsWhiteSpace(s[k])
    ensures s[k] in Trim(s)
  {
    TrimIsInfix(s);
    var i, j :| 0 <= i <= j <= |s| && Trim(s) == s[i..j]
                && WhiteSpaceIn(s, 0, i) && WhiteSpaceIn(s, j, |s|);
    assert i <= k < j;
    assert Trim(s)[k - i] == s[k];
  }

  /** Text with no white space at either end is its own trim. */
  lemma TrimTrimmed(s: string)
    requires Trimmed(s)
    ensures Trim(s) == s
  {
  }

  /** Trimming twice is trimming once. */
  lemma TrimIdempotent(s: string)
    ensures Trim(Trim(s)) == Trim(s)
  {
    TrimTrimmed(Trim(s));
  }

  /** Trimming text made only of white space leaves nothing. */
  lemma {:induction false} TrimAllWhiteSpace(s: string)
    requires AllWhiteSpace(s)
    ensures Trim(s) == []
    decreases |s|
  {
    if |s| > 0 {
      TrimAllWhiteSpace(s[1..]);
    }
  }

  /** Leading white space does not change what `Trim` keeps. */
  lemma {:induction false} TrimLeading(p: string, t: string)
    requires AllWhiteSpace(p)
    ensures Trim(p + t) == Trim(t)
    decreases |p|
  {
    if p == [] {
      assert p + t == t;
    } else {
      assert (p + t)[0] == p[0];
      assert (p + t)[1..] == p[1..] + t;
      TrimLeading(p[1..], t);
    }
  }

  /** Trailing white space after text that starts with a non-white-space
      character does not change what `Trim` keeps. */
  lemma {:induction false} TrimTrailing(w: string, q: string)
    requires |w| > 0 && !IsWhiteSpace(w[0]) && AllWhiteSpace(q)
    ensures Trim(w + q) == Trim(w)
    decreases |q|
  {
    if q == [] {
      assert w + q == w;
    } else {
      var s := w + q;
      assert s[0] == w[0] && s[|s| - 1] == q[|q| - 1];
      assert s[..|s| - 1] == w + q[..|q| - 1];
      TrimTrailing(w, q[..|q| - 1]);
    }
  }

  /** Trimming white-space padding around trimmed text gives that text. */
  lemma TrimPadded(p: string, w: string, q: string)
    requires AllWhiteSpace(p) && AllWhiteSpace(q) && Trimmed(w)
    ensures Trim(p + w + q) == w
  {
    assert p + w + q == p + (w + q);
    TrimLeading(p, w + q);
    if w == [] {
      assert w + q == q;
      TrimAllWhiteSpace(q);
    } else {
      TrimTrailing(w, q);
    }
  }
}
