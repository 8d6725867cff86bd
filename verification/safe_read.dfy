/** `safe_read`: drain `count` bytes from a file descriptor, retrying reads
    interrupted by a signal and continuing after short reads.

    The descriptor is replaced by a script: the outcomes the successive
    `read(2)` calls would have, in order. A script that runs out before the
    loop finishes stands for a `read` that has not returned yet. */
module SafeRead {
  import opened Word

  /** The outcome of one `read(fd, buf, remaining)` call. */
  datatype ReadCall =
    | Interrupted            // returned -1 with errno == EINTR
    | Failed(errno: int)     // returned -1 with any other errno
    | Eof                    // returned 0
    | Got(chunk: seq<byte>)  // the device had `chunk` ready; at most `remaining` of it is returned

  /** What `safe_read` ends with: a failed read's errno, the bytes it
      delivered, or `Starved` when the script ran out first. */
  datatype Drained = ReadError(errno: int) | Finished(bytes: seq<byte>) | Starved

  /** The C return value of a finished `safe_read`: -1 after a failed read,
      otherwise the number of bytes delivered (`buf - buf_`). */
  function ReturnValue(d: Drained): int
    requires !d.Starved?
  {
    if d.ReadError? then -1 else |d.bytes|
  }

  function Min(a: nat, b: nat): nat
  {
    if a <= b then a else b
  }

  /** A read that returns 0 while more bytes are wanted: end of file. */
  predicate EndsEarly(c: ReadCall)
  {
    c.Eof? || c == Got([])
  }

  /** Everything the device offered, in order: all chunks concatenated. */
  function Offered(script: seq<ReadCall>): (all: seq<byte>)
  {
    if |script| == 0 then []
    else (if script[0].Got? then script[0].chunk else []) + Offered(script[1..])
  }

  /** `d` with `prefix` delivered in front of whatever `d` delivered. */
  function Prepend(prefix: seq<byte>, d: Drained): (r: Drained)
  {
    if d.Finished? then Finished(prefix + d.bytes) else d
  }

  lemma PrependTwice(a: seq<byte>, b: seq<byte>, d: Drained)
    ensures Prepend(a, Prepend(b, d)) == Prepend(a + b, d)
  {
    if d.Finished? {
      assert a + (b + d.bytes) == (a + b) + d.bytes;
    }
  }

  /** The drain loop, one script entry at a time: the reference meaning of
      `safe_read(fd, buf, count)`. */
  function Drain(script: seq<ReadCall>, count: nat): (d: Drained)
    // never more bytes than requested
    ensures d.Finished? ==> |d.bytes| <= count
    decreases |script|
  {
    if |script| == 0 then Starved
    else
      match script[0]
      case Interrupted => Drain(script[1..], count)
      case Failed(e) => ReadError(e)
      case Eof => Finished([])
      case Got(chunk) =>
        var n := Min(|chunk|, count);
        if n == 0 then Finished([])
        else if n == count then Finished(chunk[..n])
        // here n == |chunk|: the whole chunk was read and more is wanted
        else Prepend(chunk, Drain(script[1..], count - n))
  }

  /** The drain never delivers more than requested, and what it delivers is
      what the device offered, in order: a prefix of all chunks. */
  lemma {:induction false} DrainDeliversOffered(script: seq<ReadCall>, count: nat)
    ensures Drain(script, count).Finished? ==>
              var bytes := Drain(script, count).bytes;
              |bytes| <= count && bytes <= Offered(script)
    decreases |script|
  {
    if |script| > 0 {
      var d := Drain(script, count);
      match script[0]
      case Interrupted =>
        DrainDeliversOffered(script[1..], count);
      case Got(chunk) =>
        assert Offered(script) == chunk + Offered(script[1..]);
        if 0 < |chunk| < count {
          var rest := Drain(script[1..], count - |chunk|);
          assert d == Prepend(chunk, rest);
          DrainDeliversOffered(script[1..], count - |chunk|);
        } else if 0 < count <= |chunk| {
          assert d == Finished(chunk[..count]);
        }
      case _ =>
    }
  }

  /** The first `j + 1` entries of a script are its first entry followed by
      the first `j` entries of the rest. */
  lemma PrefixOfRest(script: seq<ReadCall>, j: nat)
    requires j < |script|
    ensures script[..j + 1][0] == script[0]
    ensures script[..j + 1][1..] == script[1..][..j]
  {
  }

  /** The drain delivers fewer bytes than requested only when it stopped
      at a read that returned 0: the drain of the script up to that read is
      already the whole outcome, and what was delivered is everything the
      device offered before it. */
  lemma {:induction false} ShortOnlyAfterEof(script: seq<ReadCall>, count: nat)
    ensures Drain(script, count).Finished? && |Drain(script, count).bytes| < count ==>
              exists i :: 0 <= i < |script| && EndsEarly(script[i])
                          && Drain(script[..i + 1], count) == Drain(script, count)
                          && Drain(script, count).bytes == Offered(script[..i])
    decreases |script|
  {
    var d := Drain(script, count);
    if |script| > 0 && d.Finished? && |d.bytes| < count {
      if EndsEarly(script[0]) {
        PrefixOfRest(script, 0);
        assert script[..0] == [];
        assert Drain(script[..1], count) == d;
      } else if script[0].Interrupted? || script[0].Got? {
        var c := if script[0].Got? then count - |script[0].chunk| else count;
        var head := if script[0].Got? then script[0].chunk else [];
        assert d == Prepend(head, Drain(script[1..], c));
        ShortOnlyAfterEof(script[1..], c);
        var i :| 0 <= i < |script[1..]| && EndsEarly(script[1..][i])
                 && Drain(script[1..][..i + 1], c) == Drain(script[1..], c)
                 && Drain(script[1..], c).bytes == Offered(script[1..][..i]);
        LiftPrefix(script, count, c, head, i);
        assert EndsEarly(script[i + 1]);
      }
    }
  }

  /** A drain that continues past the first entry of the script, seen on a
      prefix: the prefix behaves as its first entry followed by the prefix
      of the rest. */
  lemma LiftPrefix(script: seq<ReadCall>, count: nat, c: nat, head: seq<byte>, i: nat)
    requires i + 1 < |script|
    requires script[0].Interrupted? ==> c == count && head == []
    requires script[0].Got? ==> 0 < |script[0].chunk| < count && c == count - |script[0].chunk|
                                && head == script[0].chunk
    requires script[0].Interrupted? || script[0].Got?
    ensures script[i + 1] == script[1..][i]
    ensures Drain(script[..i + 2], count) == Prepend(head, Drain(script[1..][..i + 1], c))
    ensures Offered(script[..i + 1]) == head + Offered(script[1..][..i])
  {
    PrefixOfRest(script, i + 1);
    PrefixOfRest(script, i);
    if script[0].Interrupted? {
      assert Prepend([], Drain(script[1..][..i + 1], c)) == Drain(script[1..][..i + 1], c) by {
        var e := Drain(script[1..][..i + 1], c);
        if e.Finished? {
          assert [] + e.bytes == e.bytes;
        }
      }
    }
  }

  /** A failed read ends the drain at once and reports its own errno: the
      drain of the script up to that read is already the whole outcome, so
      no later entry is consulted. */
  lemma {:induction false} ErrorPropagated(script: seq<ReadCall>, count: nat)
    ensures Drain(script, count).ReadError? ==>
              exists i :: 0 <= i < |script| && script[i] == Failed(Drain(script, count).errno)
                          && Drain(script[..i + 1], count) == Drain(script, count)
    decreases |script|
  {
    var d := Drain(script, count);
    if |script| > 0 && d.ReadError? {
      match script[0]
      case Failed(_) =>
        PrefixOfRest(script, 0);
        assert Drain(script[..1], count) == d;
      case Interrupted =>
        ErrorPropagated(script[1..], count);
        var i :| 0 <= i < |script[1..]| && script[1..][i] == Failed(d.errno)
                 && Drain(script[1..][..i + 1], count) == d;
        assert script[i + 1] == script[1..][i];
        PrefixOfRest(script, i + 1);
        assert Drain(script[..i + 2], count) == Drain(script[1..][..i + 1], count);
      case Got(chunk) =>
        var c := count - |chunk|;
        assert d == Drain(script[1..], c);
        ErrorPropagated(script[1..], c);
        var i :| 0 <= i < |script[1..]| && script[1..][i] == Failed(d.errno)
                 && Drain(script[1..][..i + 1], c) == d;
        assert script[i + 1] == script[1..][i];
        PrefixOfRest(script, i + 1);
        assert Drain(script[..i + 2], count) == Drain(script[1..][..i + 1], c);
      case Eof =>
    }
  }

  /** One step of `Drain` at position `i` of the script. */
  lemma DrainAt(script: seq<ReadCall>, i: nat, remaining: nat)
    requires i < |script|
    ensures script[i].Interrupted? ==> Drain(script[i..], remaining) == Drain(script[i + 1..], remaining)
    ensures script[i].Failed? ==> Drain(script[i..], remaining) == ReadError(script[i].errno)
    ensures script[i].Eof? ==> Drain(script[i..], remaining) == Finished([])
    ensures script[i].Got? ==>
              var chunk := script[i].chunk;
              if |chunk| == 0 || remaining == 0 then Drain(script[i..], remaining) == Finished([])
              else if |chunk| >= remaining then Drain(script[i..], remaining) == Finished(chunk[..remaining])
              else Drain(script[i..], remaining) == Prepend(chunk, Drain(script[i + 1..], remaining - |chunk|))
  {
    assert script[i..][0] == script[i];
    assert script[i..][1..] == script[i + 1..];
  }

  /** The inner loop of `safe_read`: reissue the read for as long as it is
      interrupted by a signal. Returns the position of the first read that
      was not interrupted (or the end of the script). */
  method RetryInterrupted(script: seq<ReadCall>, i: nat, ghost remaining: nat) returns (j: nat)
    requires i <= |script|
    ensures i <= j <= |script|
    ensures j < |script| ==> !script[j].Interrupted?
    ensures forall k :: i <= k < j ==> script[k].Interrupted?
    ensures Drain(script[j..], remaining) == Drain(script[i..], remaining)
  {
    j := i;
    while j < |script| && script[j].Interrupted?
      invariant i <= j <= |script|
      invariant forall k :: i <= k < j ==> script[k].Interrupted?
      invariant Drain(script[j..], remaining) == Drain(script[i..], remaining)
      decreases |script| - j
    {
      DrainAt(script, j, remaining);
      j := j + 1;
    }
  }

  /** `safe_read` as the C code writes it: an outer `do … while (count > 0)`
      loop around an inner loop that retries interrupted reads. */
  method SafeRead(script: seq<ReadCall>, count: nat) returns (d: Drained)
    ensures d == Drain(script, count)
    ensures !d.Starved? ==> ReturnValue(d) <= count
  {
    var i: nat := 0;
    var delivered: seq<byte> := [];
    var remaining: nat := count;
    while true
      invariant 0 <= i <= |script|
      invariant |delivered| + remaining == count
      invariant Drain(script, count) == Prepend(delivered, Drain(script[i..], remaining))
      decreases |script| - i
    {
      i := RetryInterrupted(script, i, remaining);
      if i == |script| {
        d := Starved;
        break;
      }
      DrainAt(script, i, remaining);
      var call := script[i];
      i := i + 1;
      if call.Failed? {
        d := ReadError(call.errno);
        break;
      }
      var n := if call.Got? then Min(|call.chunk|, remaining) else 0;
      if n == 0 {
        d := Finished(delivered);
        break;
      }
      ghost var tail := Drain(script[i..], remaining - n);
      delivered := delivered + call.chunk[..n];
      remaining := remaining - n;
      if remaining == 0 {
        d := Finished(delivered);
        break;
      }
      PrependTwice(delivered[..|delivered| - n], call.chunk, tail);
      assert delivered[..|delivered| - n] + call.chunk == delivered;
    }
  }

  /** The script with every interrupted read removed. */
  function WithoutInterruptions(script: seq<ReadCall>): (r: seq<ReadCall>)
    // no interrupted read is left
    ensures forall i :: 0 <= i < |r| ==> !r[i].Interrupted?
    // every other entry is kept
    ensures forall i :: 0 <= i < |script| && !script[i].Interrupted? ==> script[i] in r
    // and the device still offers the same bytes
    ensures Offered(r) == Offered(script)
  {
    if |script| == 0 then []
    else if script[0].Interrupted? then WithoutInterruptions(script[1..])
    else [script[0]] + WithoutInterruptions(script[1..])
  }

  /** Interrupted reads make no progress and lose nothing: removing them
      from the script changes nothing about the drain. */
  lemma {:induction false} InterruptionsIgnored(script: seq<ReadCall>, count: nat)
    ensures Drain(WithoutInterruptions(script), count) == Drain(script, count)
    decreases |script|
  {
    if |script| > 0 {
      var rest := WithoutInterruptions(script[1..]);
      if !script[0].Interrupted? {
        var w := [script[0]] + rest;
        assert w[0] == script[0] && w[1..] == rest;
        if script[0].Got? && 0 < |script[0].chunk| < count {
          InterruptionsIgnored(script[1..], count - |script[0].chunk|);
        }
      } else {
        InterruptionsIgnored(script[1..], count);
      }
    }
  }

  /** Scripts in which the device only ever hands out non-empty chunks, with
      any number of interruptions in between. */
  predicate ShortReadsOnly(script: seq<ReadCall>)
  {
    forall i :: 0 <= i < |script| ==> script[i].Interrupted? || (script[i].Got? && |script[i].chunk| > 0)
  }

  /** Short reads are survived: when the chunks add up to exactly `count`
      bytes, the drain delivers all of them, concatenated in order. */
  lemma {:induction false} ShortReadsSurvived(script: seq<ReadCall>, count: nat)
    requires ShortReadsOnly(script)
    requires count > 0 && |Offered(script)| == count
    ensures Drain(script, count) == Finished(Offered(script))
    decreases |script|
  {
    assert |script| > 0;
    assert ShortReadsOnly(script[1..]) by {
      forall i | 0 <= i < |script[1..]|
        ensures script[1..][i].Interrupted? || (script[1..][i].Got? && |script[1..][i].chunk| > 0)
      {
        assert script[1..][i] == script[i + 1];
      }
    }
    match script[0]
    case Interrupted =>
      ShortReadsSurvived(script[1..], count);
    case Got(chunk) =>
      if |chunk| < count {
        ShortReadsSurvived(script[1..], count - |chunk|);
      } else {
        assert chunk[..count] == chunk;
      }
  }

  /** With `count == 0` the `do … while` loop still issues a read: only a
      script of nothing but interruptions leaves the call pending, and a
      finished call delivers nothing. */
  lemma {:induction false} ZeroCountStillReads(script: seq<ReadCall>)
    ensures Drain(script, 0).Starved? <==> forall i :: 0 <= i < |script| ==> script[i].Interrupted?
    ensures Drain(script, 0).Finished? ==> Drain(script, 0).bytes == []
    decreases |script|
  {
    if |script| > 0 {
      ZeroCountStillReads(script[1..]);
      if script[0].Interrupted? {
        assert forall i :: 1 <= i < |script| ==> script[i] == script[1..][i - 1];
      }
    }
  }
}
