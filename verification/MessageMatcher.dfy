/**
  The streaming matcher of network/wifi/at_parser.c (match_message): one index into a
  message, and on a mismatch a fallback to the first character only.  The reference is
  the longest prefix of the message that is a suffix of the input.
 */
module MessageMatcher {
  import opened Machine

  /** match_message: the new index and whether the message is complete. */
  function MatchStep(msg: seq<Byte>, idx: nat, ch: Byte): (nat, bool)
    requires idx < |msg|
  {
    if ch == msg[idx] then (idx + 1, idx + 1 == |msg|)
    else if ch == msg[0] then (1, false)
    else (0, false)
  }

  /** The index after the input since a reset; a complete match keeps it until the next reset. */
  function IdxAfter(msg: seq<Byte>, input: seq<Byte>): (idx: nat)
    requires msg != []
    ensures idx <= |msg|
  {
    if input == [] then 0
    else
      var n := |input| - 1;
      var idx := IdxAfter(msg, input[..n]);
      if idx == |msg| then idx else MatchStep(msg, idx, input[n]).0
  }

  /** The first k bytes of the message are the last k bytes of the input. */
  ghost predicate Overlap(msg: seq<Byte>, input: seq<Byte>, k: nat) {
    k <= |msg| && k <= |input| && msg[..k] == input[|input| - k..]
  }

  ghost predicate IsLongestOverlap(msg: seq<Byte>, input: seq<Byte>, k: nat) {
    Overlap(msg, input, k) && forall j: nat :: Overlap(msg, input, j) ==> j <= k
  }

  ghost predicate Occurs(msg: seq<Byte>, input: seq<Byte>) {
    exists n: nat :: n <= |input| && Overlap(msg, input[..n], |msg|)
  }

  /**
    Where the one-character fallback loses nothing: whenever a proper prefix of the message
    has a shorter prefix as its suffix, both continue with the same byte.
   */
  ghost predicate FallbackExact(msg: seq<Byte>) {
    forall j, b :: 1 <= b < j < |msg| && msg[..b] == msg[j - b..j] ==> msg[b] == msg[j]
  }

  /** No earlier occurrence: the message has not been completed before the last byte. */
  ghost predicate Fresh(msg: seq<Byte>, input: seq<Byte>) {
    input == [] || !Occurs(msg, input[..|input| - 1])
  }

  lemma OverlapShorter(msg: seq<Byte>, input: seq<Byte>, ch: Byte, k: nat)
    ensures Overlap(msg, input + [ch], k + 1) <==> Overlap(msg, input, k) && k < |msg| && msg[k] == ch
  {
    var t := input + [ch];
    if k < |msg| && k <= |input| {
      assert msg[..k + 1] == msg[..k] + [msg[k]];
      assert t[|t| - (k + 1)..] == input[|input| - k..] + [ch];
      assert (msg[..k] + [msg[k]])[..k] == msg[..k] && (msg[..k] + [msg[k]])[k] == msg[k];
      assert (input[|input| - k..] + [ch])[..k] == input[|input| - k..] && (input[|input| - k..] + [ch])[k] == ch;
    }
  }

  /** Two overlaps of the same input: the shorter one is a suffix of the longer one. */
  lemma OverlapsNest(msg: seq<Byte>, input: seq<Byte>, b: nat, j: nat)
    requires Overlap(msg, input, b) && Overlap(msg, input, j) && b <= j
    ensures msg[..b] == msg[j - b..j]
  {
  }

  /** One byte keeps the index at the longest overlap. */
  lemma StepKeepsLongest(msg: seq<Byte>, input: seq<Byte>, idx: nat, ch: Byte)
    requires FallbackExact(msg) && idx < |msg| && IsLongestOverlap(msg, input, idx)
    ensures IsLongestOverlap(msg, input + [ch], MatchStep(msg, idx, ch).0)
  {
    hide Overlap, FallbackExact;
    var next := MatchStep(msg, idx, ch).0;
    NoOverlap(msg, input);
    NoOverlap(msg, input + [ch]);
    OverlapShorter(msg, input, ch, idx);
    OverlapShorter(msg, input, ch, 0);
    assert Overlap(msg, input + [ch], next);
    forall k: nat | Overlap(msg, input + [ch], k)
      ensures k <= next
    {
      if k > 0 {
        OverlapShorter(msg, input, ch, k - 1);
        NoneLonger(msg, input, idx, ch, k - 1);
      }
    }
  }

  lemma NoOverlap(msg: seq<Byte>, input: seq<Byte>)
    ensures Overlap(msg, input, 0)
  {
  }

  /** No overlap that the byte extends gets longer than the new index. */
  lemma NoneLonger(msg: seq<Byte>, input: seq<Byte>, idx: nat, ch: Byte, b: nat)
    requires FallbackExact(msg) && idx < |msg| && IsLongestOverlap(msg, input, idx)
    requires Overlap(msg, input, b) && b < |msg| && msg[b] == ch
    ensures b < MatchStep(msg, idx, ch).0
  {
    hide Overlap;
    if 0 < b < idx {
      OverlapsNest(msg, input, b, idx);
      assert msg[..b] == msg[idx - b..idx];
    }
  }

  lemma OccursExtends(msg: seq<Byte>, a: seq<Byte>, b: seq<Byte>)
    ensures Occurs(msg, a) ==> Occurs(msg, a + b)
    ensures Overlap(msg, a, |msg|) ==> Occurs(msg, a)
  {
    if Occurs(msg, a) {
      var n: nat :| n <= |a| && Overlap(msg, a[..n], |msg|);
      assert (a + b)[..n] == a[..n];
    }
    assert a[..|a|] == a;
  }

  lemma FreshPrefix(msg: seq<Byte>, input: seq<Byte>, ch: Byte)
    requires Fresh(msg, input + [ch])
    ensures Fresh(msg, input) && !Overlap(msg, input, |msg|)
  {
    assert (input + [ch])[..|input|] == input;
    OccursExtends(msg, input, []);
    if input != [] {
      var n := |input| - 1;
      OccursExtends(msg, input[..n], [input[n]]);
      assert input[..n] + [input[n]] == input;
    }
  }

  /**
    For a message whose fallback is exact the index is always the longest overlap with the
    input since the reset, so the matcher fires exactly when the last bytes are the message.
   */
  lemma {:induction false} MatcherExact(msg: seq<Byte>, input: seq<Byte>)
    requires msg != [] && FallbackExact(msg) && Fresh(msg, input)
    ensures IsLongestOverlap(msg, input, IdxAfter(msg, input))
    ensures IdxAfter(msg, input) == |msg| <==> Overlap(msg, input, |msg|)
    decreases |input|
  {
    if input != [] {
      var n := |input| - 1;
      var before, ch := input[..n], input[n];
      assert input == before + [ch];
      FreshPrefix(msg, before, ch);
      MatcherExact(msg, before);
      StepKeepsLongest(msg, before, IdxAfter(msg, before), ch);
    }
  }

  lemma {:induction false} PrefixFollowed(msg: seq<Byte>, j: nat)
    requires j < |msg|
    ensures IdxAfter(msg, msg[..j]) == j
  {
    if j > 0 {
      assert msg[..j][..j - 1] == msg[..j - 1];
      PrefixFollowed(msg, j - 1);
    }
  }

  /** Where the fallback is not exact some input makes the index fall short. */
  lemma InexactFallback(msg: seq<Byte>, j: nat, b: nat)
    requires 1 <= b < j < |msg| && msg[..b] == msg[j - b..j] && msg[b] != msg[j]
    ensures var input := msg[..j] + [msg[b]];
            Fresh(msg, input) && !IsLongestOverlap(msg, input, IdxAfter(msg, input))
  {
    var input := msg[..j] + [msg[b]];
    assert input[..j] == msg[..j];
    PrefixFollowed(msg, j);
    assert IdxAfter(msg, input) <= 1;
    assert Overlap(msg, msg[..j], b);
    OverlapShorter(msg, msg[..j], msg[b], b);
  }

  /** The index is the longest overlap on every input if and only if the fallback is exact. */
  lemma MatcherExactIff(msg: seq<Byte>)
    requires msg != []
    ensures (forall input :: Fresh(msg, input) ==> IsLongestOverlap(msg, input, IdxAfter(msg, input)))
            <==> FallbackExact(msg)
  {
    hide *;
    if FallbackExact(msg) {
      forall input | Fresh(msg, input)
        ensures IsLongestOverlap(msg, input, IdxAfter(msg, input))
      {
        MatcherExact(msg, input);
      }
    } else {
      var _ := FallsShort(msg);
    }
  }

  lemma FallsShort(msg: seq<Byte>) returns (input: seq<Byte>)
    requires msg != [] && !FallbackExact(msg)
    ensures Fresh(msg, input) && !IsLongestOverlap(msg, input, IdxAfter(msg, input))
  {
    hide Fresh, IsLongestOverlap, IdxAfter;
    var j, b :| 1 <= b < j < |msg| && msg[..b] == msg[j - b..j] && msg[b] != msg[j];
    InexactFallback(msg, j, b);
    input := msg[..j] + [msg[b]];
  }

  // ----- The literals of the file's tables -----

  const IPD: seq<Byte> := [13, 10, 43, 73, 80, 68, 44]                               // \r\n+IPD,
  const CLOSED: seq<Byte> := [67, 76, 79, 83, 69, 68, 13, 10]                        // CLOSED\r\n
  const WIFI_DISCONNECT: seq<Byte> :=
    [87, 73, 70, 73, 32, 68, 73, 83, 67, 79, 78, 78, 69, 67, 84, 13, 10]             // WIFI DISCONNECT\r\n
  const WIFI_GOT_IP: seq<Byte> := [87, 73, 70, 73, 32, 71, 79, 84, 32, 73, 80, 13, 10] // WIFI GOT IP\r\n
  const READY: seq<Byte> := [114, 101, 97, 100, 121, 13, 10]                         // ready\r\n
  const RESP_ERROR: seq<Byte> := [13, 10, 69, 82, 82, 79, 82, 13, 10]                // \r\nERROR\r\n
  const RESP_FAIL: seq<Byte> := [13, 10, 70, 65, 73, 76, 13, 10]                     // \r\nFAIL\r\n
  const RESP_OK: seq<Byte> := [13, 10, 79, 75, 13, 10]                               // \r\nOK\r\n
  const RESP_SEND_OK: seq<Byte> := [13, 10, 83, 69, 78, 68, 32, 79, 75, 13, 10]      // \r\nSEND OK\r\n

  /** The shape all the literals have: the first byte recurs at most second to last, before the second byte. */
  ghost predicate SimpleShape(msg: seq<Byte>) {
    |msg| >= 2 && forall i :: 0 < i < |msg| && msg[i] == msg[0] ==> i == |msg| - 2 && msg[|msg| - 1] == msg[1]
  }

  lemma SimpleShapeExact(msg: seq<Byte>)
    requires SimpleShape(msg)
    ensures FallbackExact(msg)
  {
    forall j, b | 1 <= b < j < |msg| && msg[..b] == msg[j - b..j]
      ensures msg[b] == msg[j]
    {
      assert msg[..b][0] == msg[j - b..j][0];
    }
  }

  lemma LiteralsExact(m: seq<Byte>)
    requires m in [IPD, CLOSED, WIFI_DISCONNECT, WIFI_GOT_IP, READY, RESP_ERROR, RESP_FAIL, RESP_OK, RESP_SEND_OK]
    ensures FallbackExact(m)
  {
    SimpleShapeExact(m);
  }

  /** The bytes of an ASCII text. */
  function Ascii(s: string): seq<Byte> {
    seq(|s|, i requires 0 <= i < |s| => s[i] as int % 256)
  }

  lemma HeaderText()
    ensures IPD == Ascii("\r\n+IPD,")
  {
  }

  lemma AsyncTexts()
    ensures CLOSED == Ascii("CLOSED\r\n")
    ensures WIFI_GOT_IP == Ascii("WIFI GOT IP\r\n")
  {
  }

  lemma DisconnectText()
    ensures WIFI_DISCONNECT == Ascii("WIFI DISCONNECT\r\n")
  {
  }

  lemma ResponseTexts()
    ensures READY == Ascii("ready\r\n")
    ensures RESP_OK == Ascii("\r\nOK\r\n") && RESP_FAIL == Ascii("\r\nFAIL\r\n")
  {
  }

  lemma LongResponseTexts()
    ensures RESP_ERROR == Ascii("\r\nERROR\r\n") && RESP_SEND_OK == Ascii("\r\nSEND OK\r\n")
  {
  }
}
