/**
 Four-byte words read in network (big-endian) order: the first byte is the
 most significant. This is the reading under which each integer key of the
 protocol-version table equals the byte string written beside it.
 */
module Word32 {

  /** An octet, as one element of a Python bytes value. */
  newtype Byte = b: int | 0 <= b < 0x100

  const WordLimit: int := 0x1_0000_0000

  /** The unsigned value of a four-byte word, first byte most significant. */
  function BE32(word: seq<Byte>): (n: int)
    requires |word| == 4
    ensures 0 <= n < WordLimit
  {
    ((word[0] as int * 0x100 + word[1] as int) * 0x100 + word[2] as int) * 0x100 + word[3] as int
  }

  /** The four bytes of an unsigned 32-bit value, most significant first. */
  function ToBE32(n: int): (word: seq<Byte>)
    requires 0 <= n < WordLimit
    ensures |word| == 4
  {
    var q1 := n / 0x100;
    var q2 := q1 / 0x100;
    var q3 := q2 / 0x100;
    [q3 as Byte, (q2 % 0x100) as Byte, (q1 % 0x100) as Byte, (n % 0x100) as Byte]
  }

  /** Appending a low byte below hi can be undone by division and remainder. */
  lemma ShiftByte(hi: int, lo: int)
    requires 0 <= lo < 0x100
    ensures (hi * 0x100 + lo) / 0x100 == hi
    ensures (hi * 0x100 + lo) % 0x100 == lo
  {
  }

  /** Packing a word and splitting it again gives back the same bytes. */
  lemma ToBE32OfBE32(word: seq<Byte>)
    requires |word| == 4
    ensures ToBE32(BE32(word)) == word
  {
    var a, b, c, d := word[0] as int, word[1] as int, word[2] as int, word[3] as int;
    var n := BE32(word);
    ShiftByte((a * 0x100 + b) * 0x100 + c, d);
    ShiftByte(a * 0x100 + b, c);
    ShiftByte(a, b);
    var w := ToBE32(n);
    assert w[0] == word[0] && w[1] == word[1] && w[2] == word[2] && w[3] == word[3];
  }

  /** Splitting a value into bytes and packing them again gives back the value. */
  lemma BE32OfToBE32(n: int)
    requires 0 <= n < WordLimit
    ensures BE32(ToBE32(n)) == n
  {
  }
}
