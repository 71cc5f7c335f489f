/** Bytes, fixed-width unsigned integers and their little-endian encoding. */
module Bytes {

  type byte = b: int | 0 <= b < 0x100
  type u16 = n: int | 0 <= n < 0x1_0000
  type u32 = n: int | 0 <= n < 0x1_0000_0000
  type u64 = n: int | 0 <= n < 0x1_0000_0000_0000_0000

  const U32_LIMIT := 0x1_0000_0000
  const U64_LIMIT := 0x1_0000_0000_0000_0000

  datatype Option<+T> = None | Some(value: T)

  datatype Result<+T, +E> = Ok(value: T) | Err(error: E)

  function Min(a: int, b: int): (m: int)
    ensures m <= a && m <= b && (m == a || m == b)
  {
    if a <= b then a else b
  }

  /** `saturating_sub` on unsigned integers. */
  function SaturatingSub(a: nat, b: nat): nat {
    if b <= a then a - b else 0
  }

  /** `saturating_add` on `u64`. */
  function SaturatingAdd(a: u64, b: nat): u64 {
    if a + b < U64_LIMIT then a + b else U64_LIMIT - 1
  }

  function CeilDiv(a: nat, b: nat): nat
    requires 0 < b
  {
    if a % b == 0 then a / b else a / b + 1
  }

  function Pow256(width: nat): (p: nat)
    ensures p > 0
  {
    if width == 0 then 1 else 256 * Pow256(width - 1)
  }

  /** The `width` low-order bytes of `n`, least significant first. */
  function LittleEndian(n: nat, width: nat): (s: seq<byte>)
    ensures |s| == width
  {
    if width == 0 then [] else [n % 256] + LittleEndian(n / 256, width - 1)
  }

  function FromLittleEndian(s: seq<byte>): nat {
    if s == [] then 0 else s[0] + 256 * FromLittleEndian(s[1..])
  }

  lemma {:induction false} EncodeThenDecode(n: nat, width: nat)
    requires n < Pow256(width)
    ensures FromLittleEndian(LittleEndian(n, width)) == n
  {
    if width > 0 {
      EncodeThenDecode(n / 256, width - 1);
      assert LittleEndian(n, width)[1..] == LittleEndian(n / 256, width - 1);
    }
  }

  lemma {:induction false} DecodeThenEncode(s: seq<byte>)
    ensures FromLittleEndian(s) < Pow256(|s|)
    ensures LittleEndian(FromLittleEndian(s), |s|) == s
  {
    if s != [] {
      DecodeThenEncode(s[1..]);
      var rest := FromLittleEndian(s[1..]);
      assert (s[0] + 256 * rest) / 256 == rest && (s[0] + 256 * rest) % 256 == s[0];
    }
  }

  lemma Widths()
    ensures Pow256(2) == 0x1_0000
    ensures Pow256(4) == U32_LIMIT
    ensures Pow256(8) == U64_LIMIT
  {}

  function Le16(n: u16): seq<byte> { LittleEndian(n, 2) }
  function Le32(n: u32): seq<byte> { LittleEndian(n, 4) }
  function Le64(n: u64): seq<byte> { LittleEndian(n, 8) }

  function FromLe16(s: seq<byte>): (n: u16)
    requires |s| == 2
    ensures Le16(n) == s
  {
    DecodeThenEncode(s); Widths();
    FromLittleEndian(s)
  }

  function FromLe32(s: seq<byte>): (n: u32)
    requires |s| == 4
    ensures Le32(n) == s
  {
    DecodeThenEncode(s); Widths();
    FromLittleEndian(s)
  }

  function FromLe64(s: seq<byte>): (n: u64)
    requires |s| == 8
    ensures Le64(n) == s
  {
    DecodeThenEncode(s); Widths();
    FromLittleEndian(s)
  }

  lemma Le16RoundTrip(n: u16)
    ensures FromLe16(Le16(n)) == n
  {
    Widths(); EncodeThenDecode(n, 2);
  }

  lemma Le32RoundTrip(n: u32)
    ensures FromLe32(Le32(n)) == n
  {
    Widths(); EncodeThenDecode(n, 4);
  }

  lemma Le64RoundTrip(n: u64)
    ensures FromLe64(Le64(n)) == n
  {
    Widths(); EncodeThenDecode(n, 8);
  }

  /* ---- The same fields, byte by byte ---- */

  function U16(s: seq<byte>): nat
    requires |s| == 2
  {
    s[0] as int + 0x100 * s[1] as int
  }

  function U32(s: seq<byte>): nat
    requires |s| == 4
  {
    s[0] as int + 0x100 * s[1] as int + 0x1_0000 * s[2] as int + 0x100_0000 * s[3] as int
  }

  function U64(s: seq<byte>): nat
    requires |s| == 8
  {
    U32(s[..4]) + 0x1_0000_0000 * U32(s[4..])
  }

  lemma DecodedFields(s: seq<byte>)
    ensures |s| == 2 ==> FromLittleEndian(s) == U16(s)
    ensures |s| == 4 ==> FromLittleEndian(s) == U32(s)
  {
    if |s| == 4 {
      TwoBytes(s);
      TwoBytes(s[2..]);
      assert s[2..][2..] == [];
    } else if |s| == 2 {
      TwoBytes(s);
    }
  }

  lemma TwoBytes(s: seq<byte>)
    requires 2 <= |s|
    ensures FromLittleEndian(s) == s[0] as int + 0x100 * s[1] as int + 0x1_0000 * FromLittleEndian(s[2..])
  {
    assert s[1..][1..] == s[2..];
    assert FromLittleEndian(s[1..]) == s[1] + 256 * FromLittleEndian(s[2..]);
  }

  lemma DecodedWide(s: seq<byte>)
    requires |s| == 8
    ensures FromLittleEndian(s) == U64(s)
  {
    var rest := s[4..];
    Quarter(s);
    DecodedFields(s[..4]);
    DecodedFields(rest);
  }

  lemma Quarter(s: seq<byte>)
    requires |s| == 8
    ensures FromLittleEndian(s) == U32(s[..4]) + 0x1_0000_0000 * FromLittleEndian(s[4..])
  {
    hide FromLittleEndian;
    TwoBytes(s);
    TwoBytes(s[2..]);
    assert s[2..][2..] == s[4..];
  }

  /** What the encoders put into a field is there byte by byte. */
  lemma EncodedFields(n: nat)
    ensures n < 0x1_0000 ==> U16(LittleEndian(n, 2)) == n
    ensures n < U32_LIMIT ==> U32(LittleEndian(n, 4)) == n
    ensures n < U64_LIMIT ==> U64(LittleEndian(n, 8)) == n
  {
    hide FromLittleEndian, LittleEndian, U16, U32, U64;
    Widths();
    DecodedFields(LittleEndian(n, 2));
    DecodedFields(LittleEndian(n, 4));
    DecodedWide(LittleEndian(n, 8));
    if n < 0x1_0000 {
      EncodeThenDecode(n, 2);
    }
    if n < U32_LIMIT {
      EncodeThenDecode(n, 4);
    }
    if n < U64_LIMIT {
      EncodeThenDecode(n, 8);
    }
  }

  /** The concatenation of the parts, in order. */
  function Concat<T>(parts: seq<seq<T>>): seq<T> {
    if parts == [] then [] else parts[0] + Concat(parts[1..])
  }

  lemma {:induction false} ConcatSnoc<T>(parts: seq<seq<T>>, last: seq<T>)
    ensures Concat(parts + [last]) == Concat(parts) + last
  {
    if parts == [] {
      assert parts + [last] == [last];
      assert Concat<T>([last][1..]) == [];
    } else {
      ConcatSnoc(parts[1..], last);
      assert (parts + [last])[1..] == parts[1..] + [last];
    }
  }
}
