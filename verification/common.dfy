/** Shared vocabulary: machine integer widths, the failure-carrying wrappers
    and big-endian byte assembly used by every decoder in the project. */
module Common {

  const U8: int := 0x100
  const U16: int := 0x1_0000
  const U32: int := 0x1_0000_0000

  type byte = x: int | 0 <= x < 0x100
  type u16 = x: int | 0 <= x < 0x1_0000
  type u32 = x: int | 0 <= x < 0x1_0000_0000

  /** The conventional Some/None wrapper, used where the source returns null. */
  datatype Option<+T> = None | Some(value: T)

  /** The exceptions the source raises, one constructor per distinct cause. */
  datatype Error =
    | Truncated         // the bytes ran out before a read completed
    | FormatError       // a chunk header carries the wrong magic number or size
    | DecodeError       // a MIDI event type below 0x8
    | CapacityError     // an index past the end of a fixed-size array
    | ArgumentError     // an argument the callee rejects
    | NullReference     // a member access through a null reference
    | ParseError        // a number that does not parse
    | DivideByZero      // an integer division by zero

  datatype Result<+T> = Ok(value: T) | Err(error: Error)

  /** The low eight bits of an integer, as C#'s `(byte)` cast keeps them
      (Dafny's `%` is Euclidean, so negative inputs wrap as two's complement). */
  function Lo8(x: int): (r: byte)
    ensures r == x % U8
    ensures 0 <= x < U8 ==> r == x
  {
    x % U8
  }

  /** Addition of two unsigned 32-bit values, wrapping as C#'s `uint` does. */
  function AddU32(a: u32, b: u32): (r: u32)
    ensures a + b < U32 ==> r == a + b
    ensures a + b >= U32 ==> r == a + b - U32
  {
    (a + b) % U32
  }

  function BE16(hi: byte, lo: byte): (r: u16)
    ensures r / U8 == hi && r % U8 == lo
  {
    hi * U8 + lo
  }

  function BE24(a: byte, b: byte, c: byte): (r: int)
    ensures 0 <= r < 0x100_0000
    ensures r / U16 == a && (r / U8) % U8 == b && r % U8 == c
  {
    (a * U8 + b) * U8 + c
  }

  function BE32(a: byte, b: byte, c: byte, d: byte): (r: u32)
    ensures r / 0x100_0000 == a && (r / U16) % U8 == b && (r / U8) % U8 == c && r % U8 == d
  {
    var x := BE24(a, b, c);
    ByteSplit(x, d);
    ShiftTwice(x * U8 + d);
    x * U8 + d
  }

  /** Appending a low byte shifts the rest up by eight bits. */
  lemma ByteSplit(x: nat, d: byte)
    ensures (x * U8 + d) / U8 == x && (x * U8 + d) % U8 == d
  {
  }

  /** Shifting right by sixteen or twenty-four bits is shifting by eight
      and then by the rest. */
  lemma ShiftTwice(n: nat)
    ensures n / U16 == (n / U8) / U8 && n / 0x100_0000 == (n / U8) / U16
  {
    var q := n / U8;
    assert n == q * U8 + n % U8;
    assert q == (q / U8) * U8 + q % U8;
    assert q == (q / U16) * U16 + q % U16;
  }

  /** Sum of a byte sequence, the quantity every 8-bit checksum reduces. */
  function Sum(s: seq<byte>): nat
  {
    if |s| == 0 then 0 else Sum(s[..|s| - 1]) + s[|s| - 1]
  }

  lemma {:induction false} SumAppend(a: seq<byte>, b: seq<byte>)
    ensures Sum(a + b) == Sum(a) + Sum(b)
    decreases |b|
  {
    if |b| == 0 {
      assert a + b == a;
    } else {
      assert (a + b)[..|a + b| - 1] == a + b[..|b| - 1];
      SumAppend(a, b[..|b| - 1]);
    }
  }
}
