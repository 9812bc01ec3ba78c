/**
 * The parts of Python's `struct` module and of `str` that the two block files
 * rely on: signed 32-bit integers in native (here little-endian) byte order,
 * fixed-width `Ns` text fields written from `s[:N].ljust(N).encode()` and read
 * back with `.decode().rstrip()`, zero padding, and slicing that clamps at the
 * end of the data.
 */
module Struct {
  import opened Wrappers

  type byte = x: int | 0 <= x < 256

  const INT32_MIN: int := -0x8000_0000
  const INT32_MAX: int := 0x7FFF_FFFF
  const TWO_TO_32: int := 0x1_0000_0000

  predicate IsInt32(x: int) { INT32_MIN <= x <= INT32_MAX }

  /** The values a struct `i` field accepts; any other integer makes `struct.pack` raise. */
  type Int32 = x: int | -0x8000_0000 <= x <= 0x7FFF_FFFF

  /**
   * The exceptions a pack or unpack can raise: `struct.error` for a slice of the
   * wrong length (WrongSize) or an integer outside the 32-bit range (OutOfRange),
   * and `UnicodeDecodeError` for a text field that does not decode (NotText).
   */
  datatype CodecError = WrongSize | NotText | OutOfRange

  function Zeros(n: nat): (z: seq<byte>)
    ensures |z| == n
    ensures forall i :: 0 <= i < n ==> z[i] == 0
  {
    seq(n, _ => 0)
  }

  // ---------------------------------------------------------------------------
  // Unsigned little-endian numbers and the two's complement 32-bit `i` field

  function Pow256(n: nat): (p: nat)
    ensures p > 0
  {
    if n == 0 then 1 else 256 * Pow256(n - 1)
  }

  /** The n low-order bytes of u, least significant first. */
  function LittleEndian(u: nat, n: nat): (bs: seq<byte>)
    ensures |bs| == n
  {
    if n == 0 then [] else [u % 256] + LittleEndian(u / 256, n - 1)
  }

  /** The unsigned number whose little-endian bytes are bs; it fits in |bs| bytes. */
  function FromLittleEndian(bs: seq<byte>): (u: nat)
    ensures u < Pow256(|bs|)
  {
    if bs == [] then 0 else bs[0] + 256 * FromLittleEndian(bs[1..])
  }

  lemma {:induction false} LittleEndianRoundTrip(u: nat, n: nat)
    requires u < Pow256(n)
    ensures FromLittleEndian(LittleEndian(u, n)) == u
  {
    if n > 0 {
      LittleEndianRoundTrip(u / 256, n - 1);
      assert LittleEndian(u, n)[1..] == LittleEndian(u / 256, n - 1);
    }
  }

  /** `struct.pack('i', x)`: four bytes of two's complement. */
  function EncodeInt32(x: Int32): (bs: seq<byte>)
    ensures |bs| == 4
  {
    LittleEndian(if x < 0 then x + TWO_TO_32 else x, 4)
  }

  /** `struct.unpack('i', bs)`. */
  function DecodeInt32(bs: seq<byte>): (x: Int32)
    requires |bs| == 4
  {
    assert Pow256(4) == TWO_TO_32;
    var u := FromLittleEndian(bs);
    if u > INT32_MAX then u - TWO_TO_32 else u
  }

  lemma Int32RoundTrip(x: Int32)
    ensures DecodeInt32(EncodeInt32(x)) == x
  {
    assert Pow256(4) == TWO_TO_32;
    var u: nat := if x < 0 then x + TWO_TO_32 else x;
    LittleEndianRoundTrip(u, 4);
  }

  // ---------------------------------------------------------------------------
  // Fixed-width text fields

  predicate IsAscii(s: string)
  {
    forall i :: 0 <= i < |s| ==> s[i] as int < 128
  }

  /** Text a field can hold; multi-byte UTF-8 is not modelled. */
  type AsciiString = s: string | IsAscii(s)

  /** Python's `str.isspace` on an ASCII character: space, \t \n \v \f \r and \x1c-\x1f. */
  predicate IsSpace(c: char)
  {
    c == ' ' || 9 <= c as int <= 13 || 28 <= c as int <= 31
  }

  /** `s[:w]` */
  function Truncate(s: AsciiString, w: nat): (t: AsciiString)
  {
    if |s| <= w then s else s[..w]
  }

  /** `s.ljust(w)`: pads with spaces on the right up to width w. */
  function LJust(s: AsciiString, w: nat): (t: AsciiString)
  {
    if |s| >= w then s else s + seq(w - |s|, _ => ' ')
  }

  /** `s.rstrip()`: the longest prefix of s that does not end in white space. */
  function RStrip(s: string): (t: string)
    ensures t <= s
    ensures t == [] || !IsSpace(t[|t| - 1])
    ensures forall i :: |t| <= i < |s| ==> IsSpace(s[i])
  {
    if s != [] && IsSpace(s[|s| - 1]) then RStrip(s[..|s| - 1]) else s
  }

  function EncodeAscii(s: AsciiString): (bs: seq<byte>)
    ensures |bs| == |s|
  {
    seq(|s|, i requires 0 <= i < |s| => s[i] as int)
  }

  function DecodeAscii(bs: seq<byte>): (s: AsciiString)
    requires forall i :: 0 <= i < |bs| ==> bs[i] < 128
    ensures |s| == |bs|
  {
    seq(|bs|, i requires 0 <= i < |bs| => bs[i] as char)
  }

  /** The w bytes that `struct.pack('<w>s', s[:w].ljust(w).encode())` writes. */
  function TextField(s: AsciiString, w: nat): (bs: seq<byte>)
    ensures |bs| == w
  {
    EncodeAscii(LJust(Truncate(s, w), w))
  }

  predicate AllAscii(bs: seq<byte>)
  {
    forall i :: 0 <= i < |bs| ==> bs[i] < 128
  }

  /** `bs.decode().rstrip()`: fails on a byte that is not ASCII. */
  function DecodeText(bs: seq<byte>): (r: Option<AsciiString>)
  {
    if AllAscii(bs) then Some(StrippedText(bs)) else None
  }

  function StrippedText(bs: seq<byte>): (s: AsciiString)
    requires AllAscii(bs)
  {
    var t := DecodeAscii(bs);
    var s := RStrip(t);
    assert IsAscii(s) by {
      forall i | 0 <= i < |s| ensures s[i] as int < 128 { assert s[i] == t[i]; }
    }
    s
  }

  lemma {:induction false} RStripSpaces(t: string, n: nat)
    ensures RStrip(t + seq(n, _ => ' ')) == RStrip(t)
  {
    if n > 0 {
      var padded := t + seq(n, _ => ' ');
      assert padded[..|padded| - 1] == t + seq(n - 1, _ => ' ');
      RStripSpaces(t, n - 1);
    } else {
      assert t + seq(n, _ => ' ') == t;
    }
  }

  /** The value a w-byte text field holding s reads back as: `s[:w].rstrip()`. */
  function FieldValue(s: AsciiString, w: nat): (t: AsciiString)
  {
    var u := RStrip(Truncate(s, w));
    assert IsAscii(u) by {
      forall i | 0 <= i < |u| ensures u[i] as int < 128 { assert u[i] == Truncate(s, w)[i]; }
    }
    u
  }

  /** Text that fits its field and does not end in white space reads back unchanged. */
  lemma FieldValueKeeps(s: AsciiString, w: nat)
    requires |s| <= w && (s == [] || !IsSpace(s[|s| - 1]))
    ensures FieldValue(s, w) == s
  {
  }

  /** Reading a packed text field back gives the truncated text without its trailing white space. */
  lemma TextFieldRoundTrip(s: AsciiString, w: nat)
    ensures DecodeText(TextField(s, w)) == Some(FieldValue(s, w))
  {
    var t := Truncate(s, w);
    var bs := TextField(s, w);
    assert DecodeAscii(bs) == LJust(t, w);
    if |t| < w {
      RStripSpaces(t, w - |t|);
    }
  }

  // ---------------------------------------------------------------------------
  // Byte strings made of fixed-width slots

  function Concat(chunks: seq<seq<byte>>): (bs: seq<byte>)
  {
    if chunks == [] then [] else chunks[0] + Concat(chunks[1..])
  }

  lemma {:induction false} ConcatSlot(chunks: seq<seq<byte>>, w: nat, i: nat)
    requires forall j :: 0 <= j < |chunks| ==> |chunks[j]| == w
    requires i < |chunks|
    ensures i * w + w <= |Concat(chunks)|
    ensures Concat(chunks)[i * w .. i * w + w] == chunks[i]
  {
    ConcatSplit(chunks, i);
    var before := Concat(chunks[..i]);
    var after := Concat(chunks[i + 1..]);
    ConcatLength(chunks[..i], w);
    assert Concat(chunks[i..]) == chunks[i] + after by {
      assert chunks[i..][1..] == chunks[i + 1..];
    }
    assert Concat(chunks) == before + chunks[i] + after;
    assert |before| == i * w;
  }

  lemma {:induction false} ConcatSplit(chunks: seq<seq<byte>>, i: nat)
    requires i <= |chunks|
    ensures Concat(chunks) == Concat(chunks[..i]) + Concat(chunks[i..])
  {
    if i > 0 {
      ConcatSplit(chunks[1..], i - 1);
      assert chunks[1..][..i - 1] == chunks[..i][1..];
      assert chunks[1..][i - 1..] == chunks[i..];
    } else {
      assert chunks[..0] == [];
      assert chunks[0..] == chunks;
    }
  }

  lemma {:induction false} ConcatLength(chunks: seq<seq<byte>>, w: nat)
    requires forall j :: 0 <= j < |chunks| ==> |chunks[j]| == w
    ensures |Concat(chunks)| == |chunks| * w
  {
    if chunks != [] {
      ConcatLength(chunks[1..], w);
    }
  }

  lemma {:induction false} ConcatAppend(chunks: seq<seq<byte>>, c: seq<byte>)
    ensures Concat(chunks + [c]) == Concat(chunks) + c
  {
    if chunks != [] {
      assert (chunks + [c])[1..] == chunks[1..] + [c];
      ConcatAppend(chunks[1..], c);
    } else {
      assert Concat([c]) == c + Concat([]);
    }
  }

  /** Extending a prefix of the chunks by one chunk extends their concatenation by it. */
  lemma ConcatPrefixStep(chunks: seq<seq<byte>>, j: nat)
    requires j < |chunks|
    ensures Concat(chunks[..j + 1]) == Concat(chunks[..j]) + chunks[j]
  {
    assert chunks[..j + 1] == chunks[..j] + [chunks[j]];
    ConcatAppend(chunks[..j], chunks[j]);
  }

  /** The prefix of s as long as s is s itself. */
  lemma PrefixAll<T>(s: seq<T>)
    ensures s[..|s|] == s
  {
  }

  lemma SliceOfMiddle(x: seq<byte>, y: seq<byte>, z: seq<byte>, a: nat, w: nat)
    requires a + w <= |y|
    ensures (x + y + z)[|x| + a .. |x| + a + w] == y[a .. a + w]
  {
  }

  /** Chunk i of fixed-width chunks written after a header sits i chunks past the header. */
  lemma HeaderThenChunk(header: seq<byte>, chunks: seq<seq<byte>>, w: nat, i: nat)
    requires forall j :: 0 <= j < |chunks| ==> |chunks[j]| == w
    requires i < |chunks|
    ensures |header| + i * w + w <= |header + Concat(chunks)|
    ensures (header + Concat(chunks))[|header| + i * w .. |header| + i * w + w] == chunks[i]
  {
    ConcatSlot(chunks, w, i);
    SliceOfMiddle(header, Concat(chunks), [], i * w, w);
    assert header + Concat(chunks) + [] == header + Concat(chunks);
  }

  /** Python's `data[a:b]` for 0 <= a <= b: both ends clamp at the end of data. */
  function Slice(data: seq<byte>, a: nat, b: nat): (s: seq<byte>)
    requires a <= b
    ensures |s| == b - a <==> b <= |data| || a == b
  {
    if b <= |data| then data[a..b] else if a <= |data| then data[a..] else []
  }
}
