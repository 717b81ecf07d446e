/**
  * One pass of the firmware's main loop: drain the serial port, draw a
  * random value, and, when more than 1000 timer ticks have passed since the
  * last frame, write the value's digits and "\n\r" to the serial port and
  * restart the interval.
  */
module Firmware {
  import opened Types
  import opened Decimal
  import opened Format
  import opened Entropy

  /** Timer ticks that must pass, strictly exceeded, between two frames. */
  const INTERVAL: nat := 1000

  const LF: u8 := 10
  const CR: u8 := 13

  /** The frame terminator `b"\n\r"`. */
  const TERMINATOR: seq<u8> := [LF, CR]

  /** Rust's wrapping `u64` subtraction (a release build). */
  function WrappingSub(a: u64, b: u64): u64
  {
    (a - b) % 0x1_0000_0000_0000_0000
  }

  /** The timer gate of the main loop: `counter - ptime > 1_000`. */
  predicate Gate(ptime: u64, counter: u64)
  {
    WrappingSub(counter, ptime) > INTERVAL
  }

  /** On a timer that has not wrapped, the gate opens exactly when more than 1000 ticks have passed. */
  lemma GateElapsed(ptime: u64, counter: u64)
    requires ptime <= counter
    ensures Gate(ptime, counter) <==> counter > ptime + INTERVAL
  {
  }

  /** The bytes of one frame when every write succeeds: the non-zero bytes, then "\n\r". */
  function Frame(data: seq<u8>): seq<u8>
  {
    NonZero(data) + TERMINATOR
  }

  /**
    * The non-zero bytes of `data` whose single-byte write the channel
    * accepted; `accepts[i]` is the outcome of writing `data[i]`.
    */
  function Kept(data: seq<u8>, accepts: seq<bool>): seq<u8>
    requires |accepts| == |data|
  {
    if data == [] then []
    else (if data[0] != 0 && accepts[0] then [data[0]] else []) + Kept(data[1..], accepts[1..])
  }

  /**
    * The bytes one frame delivers: the accepted digit writes, then the
    * terminator if its write was accepted (`accepts[|data|]`).
    */
  function Delivered(data: seq<u8>, accepts: seq<bool>): seq<u8>
    requires |accepts| == |data| + 1
  {
    Kept(data, accepts[..|data|]) + (if accepts[|data|] then TERMINATOR else [])
  }

  /** `a` is `b` with some of its elements removed. */
  predicate IsSubsequence(a: seq<u8>, b: seq<u8>)
  {
    a == [] || (b != [] && ((a[0] == b[0] && IsSubsequence(a[1..], b[1..])) || IsSubsequence(a, b[1..])))
  }

  lemma {:induction false} KeptSnoc(data: seq<u8>, accepts: seq<bool>, x: u8, ok: bool)
    requires |accepts| == |data|
    ensures Kept(data + [x], accepts + [ok]) == Kept(data, accepts) + (if x != 0 && ok then [x] else [])
  {
    if data != [] {
      assert (data + [x])[1..] == data[1..] + [x];
      assert (accepts + [ok])[1..] == accepts[1..] + [ok];
      KeptSnoc(data[1..], accepts[1..], x, ok);
    }
  }

  /** When every write is accepted, the delivered bytes are the whole frame. */
  lemma {:induction false} KeptAll(data: seq<u8>, accepts: seq<bool>)
    requires |accepts| == |data| && forall i :: 0 <= i < |accepts| ==> accepts[i]
    ensures Kept(data, accepts) == NonZero(data)
  {
    if data != [] {
      KeptAll(data[1..], accepts[1..]);
    }
  }

  lemma {:induction false} SubsequenceRefl(a: seq<u8>)
    ensures IsSubsequence(a, a)
  {
    if a != [] {
      SubsequenceRefl(a[1..]);
    }
  }

  /** Dropping from both halves of a concatenation drops from the whole. */
  lemma {:induction false} SubsequenceAppend(a1: seq<u8>, b1: seq<u8>, a2: seq<u8>, b2: seq<u8>)
    requires IsSubsequence(a1, b1) && IsSubsequence(a2, b2)
    ensures IsSubsequence(a1 + a2, b1 + b2)
    decreases |b1|
  {
    if a1 == [] {
      assert a1 + a2 == a2;
      SubsequencePrefix(a2, b1, b2);
    } else {
      assert (b1 + b2)[1..] == b1[1..] + b2;
      if a1[0] == b1[0] && IsSubsequence(a1[1..], b1[1..]) {
        assert (a1 + a2)[1..] == a1[1..] + a2;
        SubsequenceAppend(a1[1..], b1[1..], a2, b2);
      } else {
        SubsequenceAppend(a1, b1[1..], a2, b2);
      }
    }
  }

  /** Putting elements in front of `b` keeps `a` a subsequence of it. */
  lemma {:induction false} SubsequencePrefix(a: seq<u8>, p: seq<u8>, b: seq<u8>)
    requires IsSubsequence(a, b)
    ensures IsSubsequence(a, p + b)
    decreases |p|
  {
    if p != [] {
      SubsequencePrefix(a, p[1..], b);
      assert (p + b)[1..] == p[1..] + b;
    } else {
      assert p + b == b;
    }
  }

  lemma {:induction false} KeptSubsequence(data: seq<u8>, accepts: seq<bool>)
    requires |accepts| == |data|
    ensures IsSubsequence(Kept(data, accepts), NonZero(data))
  {
    if data != [] {
      KeptSubsequence(data[1..], accepts[1..]);
      var head := if data[0] != 0 then [data[0]] else [];
      var kept := if data[0] != 0 && accepts[0] then [data[0]] else [];
      if kept == head {
        SubsequenceRefl(head);
      }
      SubsequenceAppend(kept, head, Kept(data[1..], accepts[1..]), NonZero(data[1..]));
    }
  }

  /**
    * Whatever the channel accepts, the delivered bytes are the ideal frame
    * with some bytes dropped; when it accepts every write, they are the frame.
    */
  lemma DeliveredWithinFrame(data: seq<u8>, accepts: seq<bool>)
    requires |accepts| == |data| + 1
    ensures IsSubsequence(Delivered(data, accepts), Frame(data))
    ensures (forall i :: 0 <= i < |accepts| ==> accepts[i]) ==> Delivered(data, accepts) == Frame(data)
  {
    KeptSubsequence(data, accepts[..|data|]);
    SubsequenceRefl(TERMINATOR);
    SubsequenceAppend(Kept(data, accepts[..|data|]), NonZero(data),
      if accepts[|data|] then TERMINATOR else [], TERMINATOR);
    if forall i :: 0 <= i < |accepts| ==> accepts[i] {
      KeptAll(data, accepts[..|data|]);
    }
  }

  /**
    * The frame for a value is its canonical decimal digits in ASCII followed
    * by "\n\r"; it always ends in the terminator.
    */
  lemma FrameOfValue(r: u64)
    ensures Frame(Formatted(r)) == Ascii(Digits(r)) + TERMINATOR
    ensures Frame(Formatted(r))[|Frame(Formatted(r))| - 2..] == TERMINATOR
  {
    VisibleDigits(r);
  }

  /** A value below 10000 makes a frame of at most four digits and the terminator. */
  lemma FrameLength(r: u64)
    requires r < RANGE
    ensures |Frame(Formatted(r))| <= 6
  {
    FourDigitBound(r);
  }

  /** The value zero has an empty digit run: its frame is only "\n\r". */
  lemma FrameOfZero()
    ensures Frame(Formatted(0)) == TERMINATOR
  {
    FrameOfValue(0);
    assert Digits(0) == [];
  }

  /**
    * With the bytes of a formatted value, the delivered bytes end in "\n\r"
    * exactly when the terminator write was accepted: no digit is a CR.
    */
  lemma TerminatedIffAccepted(r: u64, accepts: seq<bool>)
    requires |accepts| == WIDTH + 1
    ensures var d := Delivered(Formatted(r), accepts);
      (|d| >= 2 && d[|d| - 2..] == TERMINATOR) <==> accepts[WIDTH]
  {
    var data := Formatted(r);
    var kept := Kept(data, accepts[..WIDTH]);
    KeptDigits(data, accepts[..WIDTH]);
    FormattedLayout(r);
    var d := Delivered(data, accepts);
    if !accepts[WIDTH] && |d| >= 2 {
      assert d == kept;
      assert d[|d| - 1] != CR;
    }
  }

  /** The accepted bytes of a formatted buffer are all ASCII digits. */
  lemma {:induction false} KeptDigits(data: seq<u8>, accepts: seq<bool>)
    requires |accepts| == |data|
    requires forall i :: 0 <= i < |data| ==> data[i] == 0 || IsDigitChar(data[i])
    ensures forall i :: 0 <= i < |Kept(data, accepts)| ==> IsDigitChar(Kept(data, accepts)[i])
  {
    if data != [] {
      KeptDigits(data[1..], accepts[1..]);
    }
  }

  /** The host side of the CDC serial port: the bytes it has accepted so far. */
  class SerialPort {
    var written: seq<u8>

    constructor ()
      ensures written == []
    {
      written := [];
    }

    /**
      * A non-blocking write of `data`; `accepted` is the outcome the USB
      * stack reports. An accepted write appends the bytes, a refused one
      * leaves the port as it was.
      */
    method Write(data: seq<u8>, accepted: bool) returns (ok: bool)
      modifies this
      ensures ok == accepted
      ensures written == old(written) + (if accepted then data else [])
    {
      ok := accepted;
      if accepted {
        written := written + data;
      }
    }
  }

  /**
    * Frame emission: write every non-zero byte of `data` on its own, then
    * the terminator, ignoring each write's outcome.
    */
  method EmitFrame(port: SerialPort, data: seq<u8>, accepts: seq<bool>)
    requires |accepts| == |data| + 1
    modifies port
    ensures port.written == old(port.written) + Delivered(data, accepts)
  {
    for i := 0 to |data|
      invariant port.written == old(port.written) + Kept(data[..i], accepts[..i])
    {
      KeptSnoc(data[..i], accepts[..i], data[i], accepts[i]);
      assert data[..i + 1] == data[..i] + [data[i]];
      assert accepts[..i + 1] == accepts[..i] + [accepts[i]];
      if data[i] != 0 {
        var _ := port.Write([data[i]], accepts[i]);
      }
    }
    assert data[..|data|] == data;
    var _ := port.Write(TERMINATOR, accepts[|data|]);
  }

  /**
    * The drain before each value: retry `flush` until it succeeds, where
    * `flushes[k]` is the outcome of attempt `k`. Returns the number of
    * attempts made; every attempt before the last failed.
    */
  method Drain(flushes: seq<bool>) returns (attempts: nat)
    requires true in flushes
    ensures 0 < attempts <= |flushes| && flushes[attempts - 1]
    ensures forall k :: 0 <= k < attempts - 1 ==> !flushes[k]
  {
    var test := true;
    attempts := 0;
    while test
      invariant attempts <= |flushes|
      invariant forall k :: 0 <= k < attempts - (if test then 0 else 1) ==> !flushes[k]
      invariant test ==> true in flushes[attempts..]
      invariant !test ==> 0 < attempts && flushes[attempts - 1]
      decreases |flushes| - attempts, test
    {
      assert flushes[attempts..][0] == flushes[attempts];
      if flushes[attempts] {
        test := false;
      } else {
        assert flushes[attempts..] == [flushes[attempts]] + flushes[attempts + 1..];
      }
      attempts := attempts + 1;
    }
  }

  /** The firmware's state across loop iterations. */
  class Scheduler {
    /** Timer value when the last frame was written (or at start-up). */
    var ptime: u64
    const port: SerialPort

    constructor (port: SerialPort, counter: u64)
      ensures this.port == port && ptime == counter
    {
      this.port := port;
      ptime := counter;
    }

    /**
      * One pass of `loop`: drain, draw a value from `draws`, and if the timer
      * reading `counter` is more than 1000 ticks past `ptime`, emit its frame
      * and set `ptime` to the second reading `after`.
      */
    method Iterate(flushes: seq<bool>, draws: seq<bool>, counter: u64, accepts: seq<bool>, after: u64)
      returns (rand: u64, emitted: bool)
      requires true in flushes
      requires |draws| == DRAWS && |accepts| == WIDTH + 1
      modifies this, port
      ensures rand == RandomValue(draws) && rand < RANGE
      ensures emitted == Gate(old(ptime), counter)
      ensures ptime == if emitted then after else old(ptime)
      ensures port.written == old(port.written) + (if emitted then Delivered(Formatted(rand), accepts) else [])
    {
      var _ := Drain(flushes);
      rand := RandomGenerator(draws);
      emitted := Gate(ptime, counter);
      if emitted {
        var data := FormatU64(rand);
        EmitFrame(port, data, accepts);
        ptime := after;
      }
    }
  }

  /** Scenario: draws 1, 0, 1, 0, ... 0 give the value 5 and the frame "5\n\r". */
  lemma ScenarioFive()
    ensures Frame(Formatted(RandomValue(ToBits(5, DRAWS)))) == [53, LF, CR]
  {
    DrawsFive();
    FrameOfValue(5);
    assert Digits(5) == [5];
  }

  /** Scenario: an accumulator of 10000 gives the value 0 and the bare frame "\n\r". */
  lemma ScenarioWrap()
    ensures Frame(Formatted(RandomValue(ToBits(10000, DRAWS)))) == TERMINATOR
  {
    AccumulatorWraps();
    FrameOfZero();
  }

  /** Scenario: sixteen set bits give 65535, the value 5535 and the frame "5535\n\r". */
  lemma ScenarioAllOnes()
    ensures Frame(Formatted(RandomValue(seq(DRAWS, _ => true)))) == [53, 53, 51, 53, LF, CR]
  {
    AllOnes();
    FrameOfValue(5535);
    assert Digits(5535) == [5, 5, 3, 5];
  }
}
