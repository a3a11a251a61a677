/** Java facts the model relies on: exceptions as values, the signed widths of
    `byte` and `short`, the masks the I2C code applies, and `Integer.toString`. */
module Lang {

  datatype Option<T> = None | Some(value: T)

  /** The Java exceptions that the modelled code throws or lets escape. */
  datatype Exception =
    | IllegalArgument        // java.lang.IllegalArgumentException
    | IO(cause: IoCause)     // java.io.IOException, tagged with the check that raised it
    | IndexOutOfBounds       // an array or list index outside its bounds
    | NullPointer            // a dereference of null
    | NotFound               // the RuntimeException raised for a missing list element

  /** Which check raised an IOException (the source distinguishes them only by message). */
  datatype IoCause =
    | BadArgument            // an argument outside the accepted range
    | NotSupported           // a feature the port does not implement
    | NotInputMode           // the GPIO must be configured for input
    | NotOutputMode          // the GPIO must be configured for output
    | NullCallback           // a null callback was passed
    | OperationFailed        // the service reported failure

  /** A call that returns nothing: it either completes or throws. */
  datatype Outcome = Pass | Fail(error: Exception)

  /** A call that returns a value or throws. */
  datatype Result<T> = Ok(value: T) | Err(error: Exception)

  /** Java's `byte` and `short`. */
  type JByte = x: int | -128 <= x < 128
  type JShort = x: int | -32768 <= x < 32768

  /** The narrowing cast `(byte) x`: the value in byte range congruent to x modulo 2^8. */
  function ToByte(x: int): (b: JByte)
    ensures (b - x) % 256 == 0
    ensures -128 <= x < 128 ==> b == x
  {
    (x + 128) % 256 - 128
  }

  /** The narrowing cast `(short) x`: the value in short range congruent to x modulo 2^16. */
  function ToShort(x: int): (s: JShort)
    ensures (s - x) % 65536 == 0
    ensures -32768 <= x < 32768 ==> s == x
  {
    (x + 32768) % 65536 - 32768
  }

  /** `x & 0xFF` on a two's-complement integer: its low eight bits, unsigned. */
  function LowByte(x: int): (r: int)
    ensures 0 <= r < 256 && (r - x) % 256 == 0
  {
    x % 256
  }

  /** `x & 0xFF00` on a two's-complement integer: bits 8 to 15 of x, left in place. */
  function SecondByteBits(x: int): (r: int)
    ensures 0 <= r <= 0xFF00 && r % 256 == 0
  {
    (x % 65536) / 256 * 256
  }

  function DigitChar(d: int): char
    requires 0 <= d < 10
  {
    "0123456789"[d]
  }

  /** The decimal numeral of a natural number, most significant digit first. */
  function NatToString(n: nat): (s: string)
    ensures |s| >= 1
    ensures forall c :: c in s ==> '0' <= c <= '9'
    decreases n
  {
    if n < 10 then [DigitChar(n)] else NatToString(n / 10) + [DigitChar(n % 10)]
  }

  /** `Integer.toString(n)`: an optional minus sign followed by the decimal digits. */
  function IntToString(n: int): (s: string)
    ensures |s| >= 1
    ensures forall c :: c in s ==> c == '-' || '0' <= c <= '9'
  {
    if n < 0 then "-" + NatToString(-n) else NatToString(n)
  }

  /** The number a string of decimal digits denotes, most significant digit first. */
  function DigitsValue(s: string): int
    decreases |s|
  {
    if s == [] then 0 else DigitsValue(s[..|s| - 1]) * 10 + (s[|s| - 1] as int - '0' as int)
  }

  /** `Integer.parseInt(s)` on strings of the form `Integer.toString` produces. */
  function ParseInt(s: string): int
  {
    if |s| > 0 && s[0] == '-' then -DigitsValue(s[1..]) else DigitsValue(s)
  }

  lemma DigitCharValue(d: int)
    requires 0 <= d < 10
    ensures DigitChar(d) as int - '0' as int == d
  {
    assert d == 0 || d == 1 || d == 2 || d == 3 || d == 4 || d == 5 || d == 6 || d == 7 || d == 8 || d == 9;
  }

  /** The numeral denotes its number. */
  lemma {:induction false} NatToStringValue(n: nat)
    ensures DigitsValue(NatToString(n)) == n
    decreases n
  {
    var s := NatToString(n);
    if n < 10 {
      DigitCharValue(n);
      assert s[..|s| - 1] == [];
    } else {
      NatToStringValue(n / 10);
      DigitCharValue(n % 10);
      assert s[..|s| - 1] == NatToString(n / 10);
    }
  }

  /** Reading back `Integer.toString(n)` gives n. */
  lemma IntToStringRoundTrip(n: int)
    ensures ParseInt(IntToString(n)) == n
  {
    var t := IntToString(n);
    if n < 0 {
      var d := NatToString(-n);
      assert t == "-" + d;
      assert t[0] == '-' && t[1..] == d;
      NatToStringValue(-n);
      assert ParseInt(t) == -DigitsValue(d);
    } else {
      var d := NatToString(n);
      assert t == d;
      assert d[0] in d;
      assert d[0] != '-';
      NatToStringValue(n);
      assert ParseInt(t) == DigitsValue(d);
    }
  }

  /** Distinct numbers have distinct decimal strings. */
  lemma IntToStringInjective(a: int, b: int)
    ensures IntToString(a) == IntToString(b) ==> a == b
  {
    IntToStringRoundTrip(a);
    IntToStringRoundTrip(b);
  }
}
