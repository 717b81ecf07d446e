/**
  * `format_u64`: a `u64` rendered into a fixed 20-byte buffer, ASCII digits
  * right-justified, the leading positions left as the zero byte.
  */
module Format {
  import opened Types
  import opened Decimal

  /** Capacity of the digit buffer: a `u64` has at most 20 decimal digits. */
  const WIDTH: nat := 20

  /** ASCII code of the character '0'. */
  const ZERO_CHAR: u8 := 48

  lemma Pow10Width()
    ensures Pow10(19) == 10_000_000_000_000_000_000
    ensures Pow10(20) == 100_000_000_000_000_000_000
  {
    assert Pow10(5) == 100_000;
    assert Pow10(10) == 10_000_000_000;
    assert Pow10(15) == 1_000_000_000_000_000;
  }

  lemma U64Fits(n: u64)
    ensures n < Pow10(WIDTH)
  {
    Pow10Width();
  }

  /** Every `u64` has at most 20 canonical digits. */
  lemma DigitsFit(n: u64)
    ensures |Digits(n)| <= WIDTH
  {
    U64Fits(n);
    DigitsLength(n, WIDTH);
  }

  /** The largest `u64` needs all 20 places. */
  lemma U64MaxNeedsWidth()
    ensures |Digits(U64_MAX)| == WIDTH
  {
    DigitsFit(U64_MAX);
    Pow10Width();
    DigitsLength(U64_MAX, WIDTH - 1);
  }

  /** No digit is lost to the 20 places: the padded digits are zeros, then the canonical digits. */
  lemma PadFits(n: u64)
    ensures Pad(n, WIDTH) == ZeroDigits(Start(n)) + Digits(n)
  {
    DigitsFit(n);
    PadDigits(n, WIDTH);
  }

  /** The ASCII encoding of a digit sequence. */
  function Ascii(ds: seq<Digit>): (r: seq<u8>)
    ensures |r| == |ds|
    ensures forall i :: 0 <= i < |ds| ==> r[i] == ds[i] + ZERO_CHAR
  {
    seq(|ds|, i requires 0 <= i < |ds| => ds[i] + ZERO_CHAR)
  }

  /** The untouched buffer positions: `k` zero bytes, the zero digits taken as bytes. */
  function ZeroBytes(k: nat): (r: seq<u8>)
    ensures |r| == k && forall i :: 0 <= i < k ==> r[i] == 0
  {
    ZeroDigits(k)
  }

  /** Whether a byte is the ASCII code of a decimal digit. */
  predicate IsDigitChar(b: u8)
  {
    ZERO_CHAR <= b < ZERO_CHAR + 10
  }

  /** The digits a run of ASCII digit bytes spells, the inverse of `Ascii`. */
  function AsciiDigits(bs: seq<u8>): (ds: seq<Digit>)
    requires forall i :: 0 <= i < |bs| ==> IsDigitChar(bs[i])
    ensures |ds| == |bs|
  {
    if bs == [] then []
    else
      assert IsDigitChar(bs[0]);
      var d: Digit := bs[0] - ZERO_CHAR;
      [d] + AsciiDigits(bs[1..])
  }

  /** The number spelled by a run of ASCII digit bytes. */
  function AsciiValue(bs: seq<u8>): nat
    requires forall i :: 0 <= i < |bs| ==> IsDigitChar(bs[i])
  {
    Value(AsciiDigits(bs))
  }

  /** Decoding the ASCII encoding of digits gives the digits back. */
  lemma {:induction false} AsciiRoundTrip(ds: seq<Digit>)
    ensures AsciiDigits(Ascii(ds)) == ds
  {
    if ds != [] {
      assert Ascii(ds)[1..] == Ascii(ds[1..]);
      AsciiRoundTrip(ds[1..]);
    }
  }

  /** The bytes of `bs` that are not the zero byte, in order. */
  function NonZero(bs: seq<u8>): seq<u8>
  {
    if bs == [] then []
    else (if bs[0] != 0 then [bs[0]] else []) + NonZero(bs[1..])
  }

  /**
    * The buffer `format_u64(n)` returns: the canonical decimal digits of `n`
    * in ASCII, right-justified in 20 places, with zero bytes before them.
    */
  function Formatted(n: u64): seq<u8>
  {
    DigitsFit(n);
    ZeroBytes(WIDTH - |Digits(n)|) + Ascii(Digits(n))
  }

  /** Where the visible number starts in `Formatted(n)`. */
  function Start(n: u64): nat
  {
    DigitsFit(n);
    WIDTH - |Digits(n)|
  }

  /**
    * The first loop of `format_u64`: from index 19 leftwards, store the last
    * digit of `num` and divide `num` by ten, 20 times.
    */
  method FillDigits(n: u64, buffer: array<Digit>)
    requires buffer.Length == WIDTH
    modifies buffer
    ensures buffer[..] == Pad(n, WIDTH)
  {
    var num: nat := n;
    for i := WIDTH downto 0
      invariant Pad(num, i) + buffer[i..] == Pad(n, WIDTH)
    {
      buffer[i] := num % 10;
      num := num / 10;
      assert Pad(num, i) + buffer[i..] == Pad(num, i) + [buffer[i]] + buffer[i + 1..];
    }
    assert buffer[..] == buffer[0..];
  }

  /**
    * `format_u64`: fill `buffer` with the padded digits, then scan it left to
    * right, copying each digit as ASCII into `out` once the first non-zero
    * digit has been seen; the positions before stay the zero byte.
    */
  method FormatU64(n: u64) returns (buff: seq<u8>)
    ensures buff == Formatted(n)
  {
    var started := false;
    var buffer := new Digit[WIDTH](_ => 0);
    var out := new u8[WIDTH](_ => 0);
    FillDigits(n, buffer);

    ghost var z := Start(n);
    assert z <= WIDTH && (forall k :: 0 <= k < z ==> buffer[k] == 0) && (z < WIDTH ==> buffer[z] != 0) by {
      PadLayout(n);
    }
    for i := 0 to WIDTH
      modifies out
      invariant started <==> z < i
      invariant forall k :: 0 <= k < i ==> out[k] == if k < z then 0 else buffer[k] + ZERO_CHAR
      invariant forall k :: i <= k < WIDTH ==> out[k] == 0
    {
      if buffer[i] != 0 || started {
        started := true;
        out[i] := buffer[i] + ZERO_CHAR;
      }
    }
    buff := out[..];
    assert buff == Formatted(n) by {
      FormattedFromPad(n);
    }
  }

  /** The padded digits are zeros before `Start(n)`, and the digit there is not. */
  lemma PadLayout(n: u64)
    ensures Start(n) <= WIDTH
    ensures forall k :: 0 <= k < Start(n) ==> Pad(n, WIDTH)[k] == 0
    ensures Start(n) < WIDTH ==> Pad(n, WIDTH)[Start(n)] != 0
  {
    PadFits(n);
    DigitsCanonical(n);
    var z, ds, p := Start(n), Digits(n), Pad(n, WIDTH);
    assert p == ZeroDigits(z) + ds;
    forall k | 0 <= k < z
      ensures p[k] == 0
    {
    }
    if z < WIDTH {
      assert p[z] == ds[0];
    }
  }

  /**
    * The buffer read off the padded digits: zero bytes while the padded
    * digits are leading zeros, the ASCII digit from the first non-zero digit on.
    */
  lemma FormattedFromPad(n: u64)
    ensures Start(n) <= WIDTH && |Formatted(n)| == WIDTH
    ensures forall k :: 0 <= k < WIDTH ==>
      Formatted(n)[k] == if k < Start(n) then 0 else Pad(n, WIDTH)[k] + ZERO_CHAR
  {
    PadFits(n);
    var z, ds, p, f := Start(n), Digits(n), Pad(n, WIDTH), Formatted(n);
    assert f == ZeroBytes(z) + Ascii(ds);
    forall k | 0 <= k < WIDTH
      ensures f[k] == if k < z then 0 else p[k] + ZERO_CHAR
    {
      if k >= z {
        assert f[k] == Ascii(ds)[k - z];
        assert p[k] == ds[k - z];
      }
    }
  }

  /** The zero value has no digit, so its buffer is all zero bytes. */
  lemma FormattedZero()
    ensures Formatted(0) == ZeroBytes(WIDTH)
  {
    assert Digits(0) == [];
  }

  /**
    * The layout of the buffer: zero bytes up to `Start(n)`, ASCII digits from
    * there on, the first of them not '0'; the digits start inside the buffer
    * exactly when `n` is not zero.
    */
  lemma FormattedLayout(n: u64)
    ensures |Formatted(n)| == WIDTH && Start(n) <= WIDTH
    ensures forall i :: 0 <= i < Start(n) ==> Formatted(n)[i] == 0
    ensures forall i :: Start(n) <= i < WIDTH ==> IsDigitChar(Formatted(n)[i])
    ensures Start(n) < WIDTH <==> n > 0
    ensures n > 0 ==> Formatted(n)[Start(n)] != ZERO_CHAR
  {
    DigitsCanonical(n);
  }

  lemma {:induction false} NonZeroAppend(a: seq<u8>, b: seq<u8>)
    ensures NonZero(a + b) == NonZero(a) + NonZero(b)
  {
    if a != [] {
      assert (a + b)[0] == a[0];
      assert (a + b)[1..] == a[1..] + b;
      NonZeroAppend(a[1..], b);
    } else {
      assert a + b == b;
    }
  }

  lemma {:induction false} NonZeroOfZeros(k: nat)
    ensures NonZero(ZeroBytes(k)) == []
  {
    if k > 0 {
      assert ZeroBytes(k)[1..] == ZeroBytes(k - 1);
      NonZeroOfZeros(k - 1);
    }
  }

  lemma {:induction false} NonZeroOfDigitChars(bs: seq<u8>)
    requires forall i :: 0 <= i < |bs| ==> IsDigitChar(bs[i])
    ensures NonZero(bs) == bs
  {
    if bs != [] {
      NonZeroOfDigitChars(bs[1..]);
    }
  }

  /** Dropping the zero bytes of the buffer leaves exactly the ASCII canonical digits. */
  lemma VisibleDigits(n: u64)
    ensures NonZero(Formatted(n)) == Ascii(Digits(n))
    ensures NonZero(Formatted(n)) == Formatted(n)[Start(n)..]
  {
    DigitsFit(n);
    var ds := Digits(n);
    NonZeroAppend(ZeroBytes(WIDTH - |ds|), Ascii(ds));
    NonZeroOfZeros(WIDTH - |ds|);
    NonZeroOfDigitChars(Ascii(ds));
  }

  /**
    * Round trip: the non-zero run of the buffer is a run of ASCII digits with
    * no leading '0' that reads back as `n`.
    */
  lemma FormatRoundTrip(n: u64)
    ensures forall i :: 0 <= i < |NonZero(Formatted(n))| ==> IsDigitChar(NonZero(Formatted(n))[i])
    ensures NonZero(Formatted(n)) == [] || NonZero(Formatted(n))[0] != ZERO_CHAR
    ensures AsciiValue(NonZero(Formatted(n))) == n
  {
    VisibleDigits(n);
    DigitsCanonical(n);
    DigitsValue(n);
    AsciiRoundTrip(Digits(n));
  }

  /** Distinct values give distinct buffers. */
  lemma FormattedInjective(m: u64, n: u64)
    requires Formatted(m) == Formatted(n)
    ensures m == n
  {
    FormatRoundTrip(m);
    FormatRoundTrip(n);
  }

  /** A value below 10000 shows at most four digits. */
  lemma FourDigitBound(n: u64)
    requires n < 10000
    ensures |NonZero(Formatted(n))| <= 4
  {
    VisibleDigits(n);
    assert Pow10(4) == 10000;
    DigitsLength(n, 4);
  }
}
