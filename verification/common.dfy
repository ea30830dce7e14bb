/** Shared vocabulary: bytes, 32-bit unsigned fields, big-endian packing and bit unpacking. */
module Common {

  /** One octet of a byte string. */
  type byte = b: int | 0 <= b < 256

  /** The range of the `I` (unsigned 32-bit) field of Python's struct module. */
  const TWO_32: int := 0x1_0000_0000
  type u32 = n: int | 0 <= n < 0x1_0000_0000

  datatype Option<+T> = None | Some(value: T)

  /** struct.pack('>I', n): four bytes, most significant first. */
  function BE32(n: u32): (r: seq<byte>)
    ensures |r| == 4
  {
    [n / 0x100_0000, (n / 0x1_0000) % 256, (n / 0x100) % 256, n % 256]
  }

  /** struct.unpack('>I', s[0:4])[0]. */
  function ReadBE32(s: seq<byte>): (n: u32)
    requires |s| >= 4
  {
    (s[0] as int) * 0x100_0000 + (s[1] as int) * 0x1_0000 + (s[2] as int) * 0x100 + s[3] as int
  }

  lemma {:induction false} ReadBE32OfBE32(n: u32)
    ensures ReadBE32(BE32(n)) == n
  {
    var a, b, c := n / 0x100, n / 0x1_0000, n / 0x100_0000;
    assert n == a * 0x100 + n % 0x100;
    assert a == b * 0x100 + a % 0x100 && a % 0x100 == (n / 0x100) % 256 by {
      assert b == a / 0x100;
    }
    assert b == c * 0x100 + b % 0x100 by {
      assert c == b / 0x100;
    }
  }

  /** ReadBE32 only looks at the first four bytes. */
  lemma ReadBE32Prefix(s: seq<byte>, t: seq<byte>)
    requires |s| >= 4 && |t| >= 4 && s[..4] == t[..4]
    ensures ReadBE32(s) == ReadBE32(t)
  {
    assert s[0] == t[0] && s[1] == t[1] && s[2] == t[2] && s[3] == t[3] by {
      assert s[..4][0] == s[0] && s[..4][1] == s[1] && s[..4][2] == s[2] && s[..4][3] == s[3];
    }
  }

  /** Bit k (0 = most significant) of a byte. */
  function BitOf(b: byte, k: nat): bool
    requires k < 8
  {
    (b / Pow2(7 - k)) % 2 == 1
  }

  function Pow2(e: nat): (r: nat)
    ensures r >= 1
  {
    if e == 0 then 1 else 2 * Pow2(e - 1)
  }

  /** bitstring.BitArray(bytes=data): every byte contributes eight bits, high bit first. */
  function Bits(data: seq<byte>): (r: seq<bool>)
    ensures |r| == 8 * |data|
  {
    seq(8 * |data|, j requires 0 <= j < 8 * |data| => BitOf(data[j / 8], j % 8))
  }

  /** Concatenation of a list of byte strings (Python's b''.join). */
  function Concat(parts: seq<seq<byte>>): (r: seq<byte>)
  {
    if parts == [] then [] else parts[0] + Concat(parts[1..])
  }

  lemma {:induction false} ConcatAppend(parts: seq<seq<byte>>, last: seq<byte>)
    ensures Concat(parts + [last]) == Concat(parts) + last
  {
    if parts == [] {
      assert parts + [last] == [last];
    } else {
      assert (parts + [last])[1..] == parts[1..] + [last];
      ConcatAppend(parts[1..], last);
    }
  }

  /** ASCII bytes of a few literal tokens. */
  function Ascii(s: string): (r: seq<byte>)
    requires forall i :: 0 <= i < |s| ==> s[i] as int < 256
    ensures |r| == |s|
    ensures forall i :: 0 <= i < |s| ==> r[i] == s[i] as int
  {
    seq(|s|, i requires 0 <= i < |s| => s[i] as int)
  }
}
