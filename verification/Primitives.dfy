/** Machine integers, byte strings, errors and the byte cursor shared by every layer. */
module Primitives {

  type u8 = x: int | 0 <= x < 0x100
  type u16 = x: int | 0 <= x < 0x1_0000
  type u32 = x: int | 0 <= x < 0x1_0000_0000
  type i32 = x: int | -0x8000_0000 <= x < 0x8000_0000
  type Bytes = seq<u8>

  datatype Option<+T> = None | Some(value: T)

  datatype Result<+T, +E> = Ok(value: T) | Err(error: E) {
    predicate IsFailure() { Err? }

    function PropagateFailure<U>(): Result<U, E>
      requires Err?
    {
      Err(error)
    }

    function Extract(): T
      requires Ok?
    {
      value
    }
  }

  datatype ProtocolError =
    | UnexpectedEof
    | InvalidLength(expected: nat, actual: nat)
    | InvalidCrc
    | InvalidStartBytes
    | UnknownValue(field: string, value: u8)
    | InvalidSequence(expectedSequence: u8, actualSequence: u8)
    | InvalidFragment

  type Outcome<+T> = Result<T, ProtocolError>

  function Min(a: int, b: int): int { if a <= b then a else b }

  function Zeros(n: nat): (s: Bytes)
    ensures |s| == n && forall k :: 0 <= k < n ==> s[k] == 0
  {
    seq(n, _ => 0)
  }

  lemma ConcatAssociative<T>(a: seq<T>, b: seq<T>, c: seq<T>)
    ensures (a + b) + c == a + (b + c)
  {
  }

  /** Puts a prefix before a successful result. */
  function Prepend<T>(prefix: seq<T>, r: Outcome<seq<T>>): Outcome<seq<T>> {
    if r.Ok? then Ok(prefix + r.value) else r
  }

  lemma PrependConcat<T>(a: seq<T>, b: seq<T>, r: Outcome<seq<T>>)
    ensures Prepend(a, Prepend(b, r)) == Prepend(a + b, r)
    ensures Prepend([], r) == r
  {
    if r.Ok? {
      ConcatAssociative(a, b, r.value);
      assert [] + r.value == r.value;
    }
  }

  lemma PrependToNothing<T>(a: seq<T>)
    ensures Prepend(a, Ok([])) == Ok(a)
  {
    assert a + [] == a;
  }

  lemma ConsEqual<T>(x: T, y: T, xs: seq<T>, ys: seq<T>)
    ensures [x] + xs == [y] + ys <==> x == y && xs == ys
  {
    if [x] + xs == [y] + ys {
      assert ([x] + xs)[0] == ([y] + ys)[0];
      assert ([x] + xs)[1..] == xs && ([y] + ys)[1..] == ys;
    }
  }

  // Little-endian integers.

  function U16Bytes(v: u16): Bytes { [v % 0x100, v / 0x100] }

  function U16At(s: Bytes): u16
    requires |s| >= 2
  {
    s[0] as int + 0x100 * (s[1] as int)
  }

  function U32Bytes(v: u32): Bytes {
    [v % 0x100, v / 0x100 % 0x100, v / 0x1_0000 % 0x100, v / 0x100_0000]
  }

  function U32At(s: Bytes): u32
    requires |s| >= 4
  {
    s[0] as int + 0x100 * (s[1] as int) + 0x1_0000 * (s[2] as int) + 0x100_0000 * (s[3] as int)
  }

  /** Two and four bytes as a number, the low byte first. */
  function Word(a: u8, b: u8): int { a as int + 256 * (b as int) }

  function LongWord(a: u8, b: u8, c: u8, d: u8): int { Word(a, b) + 65536 * Word(c, d) }

  /** The bits of a signed 32-bit value read as an unsigned one. */
  function TwosComplement(v: i32): u32 { if v < 0 then v + 0x1_0000_0000 else v }

  function SignedAt(s: Bytes): i32
    requires |s| >= 4
  {
    var v := U32At(s);
    if v < 0x8000_0000 then v else v - 0x1_0000_0000
  }

  function SignedWordAt(s: Bytes): i32
    requires |s| >= 2
  {
    var v := U16At(s);
    if v < 0x8000 then v else v - 0x1_0000
  }

  lemma U16RoundTrip(v: u16, rest: Bytes)
    ensures U16At(U16Bytes(v) + rest) == v
  {
  }

  lemma U16Canonical(s: Bytes)
    requires |s| >= 2
    ensures U16Bytes(U16At(s)) == s[..2]
  {
  }

  lemma U32RoundTrip(v: u32, rest: Bytes)
    ensures U32At(U32Bytes(v) + rest) == v
  {
    var q := v / 0x100;
    var r := q / 0x100;
    assert v / 0x1_0000 == r && v / 0x100_0000 == r / 0x100;
    assert v == v % 0x100 + 0x100 * q && q == q % 0x100 + 0x100 * r && r == r % 0x100 + 0x100 * (r / 0x100);
  }

  lemma I32RoundTrip(v: i32, rest: Bytes)
    ensures SignedAt(U32Bytes(TwosComplement(v)) + rest) == v
  {
    U32RoundTrip(TwosComplement(v), rest);
  }

  // 48-bit timestamps.

  type Timestamp = t: int | 0 <= t < 0x1_0000_0000_0000

  function TimestampBytes(t: Timestamp): Bytes {
    U32Bytes(t % 0x1_0000_0000) + U16Bytes(t / 0x1_0000_0000)
  }

  function TimestampAt(s: Bytes): Timestamp
    requires |s| >= 6
  {
    U32At(s) as int + 0x1_0000_0000 * (U16At(s[4..]) as int)
  }

  lemma TimestampRoundTrip(t: Timestamp, rest: Bytes)
    ensures TimestampAt(TimestampBytes(t) + rest) == t
  {
    var low, high := U32Bytes(t % 0x1_0000_0000), U16Bytes(t / 0x1_0000_0000);
    assert TimestampBytes(t) + rest == low + (high + rest);
    assert (TimestampBytes(t) + rest)[4..] == high + rest;
    U32RoundTrip(t % 0x1_0000_0000, high + rest);
    U16RoundTrip(t / 0x1_0000_0000, rest);
  }

  // Vendor padding.

  /** What is left of `s` once runs of four zero bytes are removed from its front. */
  function SkipZeros(s: Bytes): (r: Bytes)
    ensures |r| <= |s| && r == s[|s| - |r|..]
  {
    if |s| >= 4 && s[..4] == [0, 0, 0, 0] then SkipZeros(s[4..]) else s
  }

  lemma SkipZerosAt(s: Bytes, i: nat)
    requires i <= |s|
    ensures SkipZeros(s[i..]) ==
      if |s| - i >= 4 && s[i..i + 4] == [0, 0, 0, 0] then SkipZeros(s[i + 4..]) else s[i..]
  {
    if |s| - i >= 4 {
      assert s[i..][..4] == s[i..i + 4];
      assert s[i..][4..] == s[i + 4..];
    }
  }

  lemma {:induction false} SkipZerosDropsPadding(n: nat, s: Bytes)
    ensures SkipZeros(Zeros(4 * n) + s) == SkipZeros(s)
  {
    if n == 0 {
      assert Zeros(0) + s == s;
    } else {
      var t := Zeros(4 * n) + s;
      assert t[..4] == [0, 0, 0, 0];
      assert t[4..] == Zeros(4 * (n - 1)) + s;
      SkipZerosDropsPadding(n - 1, s);
    }
  }

  /** A cursor over a byte string; `Rest` is the unread part. */
  class Reader {
    const input: Bytes
    var cursor: nat

    ghost predicate Valid()
      reads this
    {
      cursor <= |input|
    }

    ghost function Rest(): Bytes
      reads this
      requires Valid()
    {
      input[cursor..]
    }

    constructor (input: Bytes)
      ensures Valid() && Rest() == input
    {
      this.input := input;
      cursor := 0;
    }

    function Remaining(): (n: nat)
      reads this
      requires Valid()
      ensures n == |Rest()|
    {
      |input| - cursor
    }

    method SkipPaddingZeros()
      requires Valid()
      modifies this
      ensures Valid() && Rest() == SkipZeros(old(Rest()))
    {
      hide SkipZeros;
      ghost var target := SkipZeros(Rest());
      while Remaining() >= 4
        invariant Valid() && SkipZeros(input[cursor..]) == target
        decreases |input| - cursor
      {
        SkipZerosAt(input, cursor);
        if input[cursor..cursor + 4] != [0, 0, 0, 0] {
          return;
        }
        cursor := cursor + 4;
      }
      SkipZerosAt(input, cursor);
    }

    method ReadExact(len: nat) returns (r: Outcome<Bytes>)
      requires Valid()
      modifies this
      ensures Valid()
      ensures |old(Rest())| < len ==> r == Err(UnexpectedEof) && Rest() == old(Rest())
      ensures |old(Rest())| >= len ==> r == Ok(old(Rest())[..len]) && Rest() == old(Rest())[len..]
    {
      if Remaining() < len {
        return Err(UnexpectedEof);
      }
      var start := cursor;
      cursor := cursor + len;
      assert input[start..cursor] == old(Rest())[..len];
      return Ok(input[start..cursor]);
    }

    method ReadU8() returns (r: Outcome<u8>)
      requires Valid()
      modifies this
      ensures Valid()
      ensures old(Rest()) == [] ==> r == Err(UnexpectedEof)
      ensures old(Rest()) != [] ==> r == Ok(old(Rest())[0]) && Rest() == old(Rest())[1..]
    {
      var bytes :- ReadExact(1);
      return Ok(bytes[0]);
    }

    method ReadU16() returns (r: Outcome<u16>)
      requires Valid()
      modifies this
      ensures Valid()
      ensures |old(Rest())| < 2 ==> r == Err(UnexpectedEof)
      ensures |old(Rest())| >= 2 ==> r == Ok(U16At(old(Rest()))) && Rest() == old(Rest())[2..]
    {
      var bytes :- ReadExact(2);
      return Ok(U16At(bytes));
    }

    method ReadU32() returns (r: Outcome<u32>)
      requires Valid()
      modifies this
      ensures Valid()
      ensures |old(Rest())| < 4 ==> r == Err(UnexpectedEof)
      ensures |old(Rest())| >= 4 ==> r == Ok(U32At(old(Rest()))) && Rest() == old(Rest())[4..]
    {
      var bytes :- ReadExact(4);
      return Ok(U32At(bytes));
    }
  }
}
