/**
 * The 2-bit packer of the four-tone greyscale output mode.
 *
 * The page is quantized to a 4-entry palette, so every byte of the raw
 * buffer holds a palette index. The packer walks the buffer four bytes at a
 * time, inverts each index with `^ 3` and packs the
 * four results into one byte, the earliest pixel in the two most significant
 * bits.
 *
 * `Pack` is the specification: it follows the packing loop of `main` group
 * by group, including the two ways the loop fails (reading past the end of
 * the buffer, and appending a value above 255 to a byte array). `Pack2bpp`
 * is the loop itself. `Unpack` is the inverse of `Pack`.
 */
module Packing {

  /** A Python `bytes` element. */
  newtype byte = x: int | 0 <= x < 256

  /** How the packing loop of `main` stops with an exception. */
  datatype PackError =
    | IndexError   // `im_bytes[k+1..k+3]` read past the end of the buffer
    | ValueError   // `bytearray.append` given a value outside 0..255

  datatype Result<T> = Ok(value: T) | Err(error: PackError)

  /** `v ^ 3`: complements the two low bits of a byte and keeps the six
    * high bits, which is what XOR with 0b11 does. The contract says so: the
    * two low fields add up to 3 over a shared high part `4 * (v / 4)`. */
  function Invert(v: byte): (r: byte)
    ensures r as int + v as int == 8 * (v as int / 4) + 3
  {
    (v as int + 3 - 2 * (v as int % 4)) as byte
  }

  /** `(a << 6) + (b << 4) + (c << 2) + d` after inverting each input; Python
    * integers do not wrap, so the sum may exceed 255. */
  function GroupValue(a: byte, b: byte, c: byte, d: byte): int
  {
    Invert(a) as int * 64 + Invert(b) as int * 16 + Invert(c) as int * 4 + Invert(d) as int
  }

  /** The group value of the four bytes starting at index `k`. */
  function GroupAt(s: seq<byte>, k: int): int
    requires 0 <= k && k + 4 <= |s|
  {
    GroupValue(s[k], s[k + 1], s[k + 2], s[k + 3])
  }

  /** Every complete group of `s` packs into a value that a byte can hold. */
  predicate GroupsFit(s: seq<byte>)
  {
    forall k :: 0 <= k && k + 4 <= |s| && k % 4 == 0 ==> GroupAt(s, k) <= 255
  }

  /** What the packing loop of `main` produces for the buffer `s`: the packed
    * bytes, one per group of four, or the exception of the first group that
    * fails. */
  function Pack(s: seq<byte>): (r: Result<seq<byte>>)
    ensures r.Ok? ==> 4 * |r.value| == |s|
    decreases |s|
  {
    if |s| == 0 then Ok([])
    else if |s| < 4 then Err(IndexError)
    else
      var v := GroupAt(s, 0);
      if v > 255 then Err(ValueError)
      else
        match Pack(s[4..])
        case Ok(rest) => Ok([v as byte] + rest)
        case Err(e) => Err(e)
  }

  /** The two-bit field `f` of `b`, counted from the most significant end. */
  function Field(b: byte, f: int): byte
    requires 0 <= f < 4
  {
    if f == 0 then b / 64 else if f == 1 then b / 16 % 4 else if f == 2 then b / 4 % 4 else b % 4
  }

  /** The inverse of `Pack`: each byte becomes its four two-bit fields, high
    * to low, each inverted back with `^ 3`. */
  function Unpack(p: seq<byte>): (s: seq<byte>)
    ensures |s| == 4 * |p|
  {
    if p == [] then []
    else
      [Invert(Field(p[0], 0)), Invert(Field(p[0], 1)), Invert(Field(p[0], 2)), Invert(Field(p[0], 3))]
      + Unpack(p[1..])
  }

  /** On palette indices `^ 3` is `3 - v`, so it reverses the order of the
    * four tones, and it is its own inverse. */
  lemma InvertPaletteIndex(v: byte)
    requires v <= 3
    ensures Invert(v) as int == 3 - v as int
    ensures Invert(Invert(v)) == v
  {
  }

  /** Base-four digits: four values 0..3 placed at weights 64, 16, 4, 1 make
    * a byte whose two-bit fields, high to low, are those values. */
  lemma BaseFour(x: int, y: int, z: int, w: int)
    requires 0 <= x < 4 && 0 <= y < 4 && 0 <= z < 4 && 0 <= w < 4
    ensures var v := x * 64 + y * 16 + z * 4 + w;
      0 <= v < 256 && v / 64 == x && v / 16 % 4 == y && v / 4 % 4 == z && v % 4 == w
  {
    var v := x * 64 + y * 16 + z * 4 + w;
    assert v / 16 == x * 4 + y;
    assert (x * 4 + y) % 4 == y;
    assert v / 4 == x * 16 + y * 4 + z;
    assert (x * 16 + y * 4 + z) % 4 == z;
  }

  /** A group of four palette indices always fits in a byte, and its fields,
    * read high to low and inverted back, are the four indices in order. */
  lemma GroupRoundTrip(a: byte, b: byte, c: byte, d: byte)
    requires a <= 3 && b <= 3 && c <= 3 && d <= 3
    ensures 0 <= GroupValue(a, b, c, d) <= 255
    ensures var v := GroupValue(a, b, c, d) as byte;
      Invert(Field(v, 0)) == a && Invert(Field(v, 1)) == b &&
      Invert(Field(v, 2)) == c && Invert(Field(v, 3)) == d
  {
    InvertPaletteIndex(a);
    InvertPaletteIndex(b);
    InvertPaletteIndex(c);
    InvertPaletteIndex(d);
    BaseFour(3 - a as int, 3 - b as int, 3 - c as int, 3 - d as int);
  }

  /** A number below 256 is its four base-four digits, high to low. */
  lemma Digits(v: int)
    requires 0 <= v < 256
    ensures 0 <= v / 64 < 4
    ensures v == v / 64 * 64 + v / 16 % 4 * 16 + v / 4 % 4 * 4 + v % 4
  {
    var a := v / 4;
    var b := a / 4;
    var c := b / 4;
    assert v == 4 * a + v % 4;
    assert a == 4 * b + a % 4;
    assert b == 4 * c + b % 4;
    assert v / 16 == b;
    assert v / 64 == c;
  }

  /** A byte as bits: the six high bits, shifted, and the two low bits. */
  lemma BitsOf(b: bv8)
    ensures b as int == 4 * ((b >> 2) as int) + (b & 3) as int
    ensures (b ^ 3) as int == 4 * ((b >> 2) as int) + (3 - (b & 3) as int)
    ensures (b & 3) as int < 4
  {
  }

  /** The arithmetic `Invert` is the bitwise `^ 3` on every byte, given here
    * by its eight bits `b`. */
  lemma XorAgrees(b: bv8)
    ensures Invert(b as int as byte) as int == (b ^ 3) as int
  {
    BitsOf(b);
    var v := b as int as byte;
    assert v as int / 4 == (b >> 2) as int && v as int % 4 == (b & 3) as int;
  }

  /** On every byte, `^ 3` keeps the high six bits, complements the low two,
    * and undoes itself. */
  lemma InvertFields(v: byte)
    ensures Invert(v) / 4 == v / 4 && Invert(v) % 4 == 3 - v % 4
    ensures Invert(Invert(v)) == v
  {
    var q, x := v as int / 4, v as int % 4;
    assert v as int == 4 * q + x;
    assert Invert(v) as int == 4 * q + (3 - x);
  }

  /** A byte is the group value of its own decoded fields. */
  lemma FieldsRoundTrip(v: byte)
    ensures GroupValue(Invert(Field(v, 0)), Invert(Field(v, 1)),
                       Invert(Field(v, 2)), Invert(Field(v, 3))) == v as int
  {
    Digits(v as int);
    var x, y, z, w := Field(v, 0), Field(v, 1), Field(v, 2), Field(v, 3);
    assert x as int == v as int / 64 && y as int == v as int / 16 % 4;
    assert z as int == v as int / 4 % 4 && w as int == v as int % 4;
    InvertPaletteIndex(x);
    InvertPaletteIndex(y);
    InvertPaletteIndex(z);
    InvertPaletteIndex(w);
  }

  /** Group `k` of `s[4..]` is group `k + 4` of `s`. */
  lemma GroupAtShift(s: seq<byte>, k: int)
    requires 0 <= k && k + 8 <= |s|
    ensures GroupAt(s[4..], k) == GroupAt(s, k + 4)
  {
    var t := s[4..];
    assert t[k] == s[k + 4] && t[k + 1] == s[k + 5] && t[k + 2] == s[k + 6] && t[k + 3] == s[k + 7];
  }

  lemma GroupsFitTail(s: seq<byte>)
    requires |s| >= 4
    ensures GroupsFit(s) <==> GroupAt(s, 0) <= 255 && GroupsFit(s[4..])
  {
    var t := s[4..];
    if GroupsFit(s) {
      forall k | 0 <= k && k + 4 <= |t| && k % 4 == 0 ensures GroupAt(t, k) <= 255 {
        GroupAtShift(s, k);
        ModFourShift(k + 4);
      }
    }
    if GroupAt(s, 0) <= 255 && GroupsFit(t) {
      forall k | 0 <= k && k + 4 <= |s| && k % 4 == 0 ensures GroupAt(s, k) <= 255 {
        if k > 0 {
          ModFourShift(k);
          GroupAtShift(s, k - 4);
        }
      }
    }
  }

  lemma ModFourShift(n: int)
    requires n >= 4
    ensures n % 4 == (n - 4) % 4
  {
  }

  /** Removing whole groups from a length that is a multiple of four leaves
    * a multiple of four; a nonempty one holds at least one group. */
  lemma WholeGroups(n: int, g: int)
    requires n % 4 == 0 && 0 <= 4 * g < n
    ensures n >= 4 * g + 4 && (n - 4 * g) % 4 == 0 && (n - 4 * g - 4) % 4 == 0
  {
  }

  /** How one group decides the outcome: an overflowing group stops the loop
    * with `ValueError`; otherwise the outcome is that of the rest. */
  lemma PackTail(s: seq<byte>)
    requires |s| >= 4
    ensures GroupAt(s, 0) > 255 ==> Pack(s) == Err(ValueError)
    ensures GroupAt(s, 0) <= 255 && Pack(s[4..]).Err? ==> Pack(s) == Pack(s[4..])
    ensures GroupAt(s, 0) <= 255 && Pack(s[4..]).Ok? ==> Pack(s).Ok?
  {
  }

  /** The loop runs to completion exactly when the buffer splits into whole
    * groups and every group fits in a byte. */
  lemma {:induction false} PackSucceeds(s: seq<byte>)
    ensures Pack(s).Ok? <==> |s| % 4 == 0 && GroupsFit(s)
    decreases |s|
  {
    if |s| >= 4 {
      GroupsFitTail(s);
      PackSucceeds(s[4..]);
      PackTail(s);
      ModFourShift(|s|);
    }
  }

  /** A completed run yields one byte per group of four pixels, the earliest
    * pixel of the group in the top bits. */
  lemma {:induction false} PackLayout(s: seq<byte>)
    requires Pack(s).Ok?
    ensures |Pack(s).value| == |s| / 4
    ensures forall k :: 0 <= k < |s| / 4 ==> Pack(s).value[k] as int == GroupAt(s, 4 * k)
    decreases |s|
  {
    if |s| >= 4 {
      var t := s[4..];
      PackLayout(t);
      var p := Pack(s).value;
      assert p == [GroupAt(s, 0) as byte] + Pack(t).value;
      forall k | 0 <= k < |s| / 4 ensures p[k] as int == GroupAt(s, 4 * k) {
        if k > 0 {
          assert p[k] == Pack(t).value[k - 1];
          assert GroupAt(t, 4 * (k - 1)) == GroupAt(s, 4 * k);
        }
      }
    }
  }

  /** Which exception stops the loop: a group above 255 is always reached
    * before the short tail, so `ValueError` wins whenever some whole group
    * overflows, and `IndexError` is raised only for a short tail after
    * groups that all fit. */
  lemma {:induction false} PackErrors(s: seq<byte>)
    ensures Pack(s) == Err(ValueError) <==> !GroupsFit(s)
    ensures Pack(s) == Err(IndexError) <==> GroupsFit(s) && |s| % 4 != 0
    decreases |s|
  {
    if |s| >= 4 {
      GroupsFitTail(s);
      PackErrors(s[4..]);
      PackTail(s);
      ModFourShift(|s|);
    }
  }

  /** Palette indices 0..3 never make a group overflow. */
  lemma PaletteGroupsFit(s: seq<byte>)
    requires forall i :: 0 <= i < |s| ==> s[i] <= 3
    ensures GroupsFit(s)
  {
    forall k | 0 <= k && k + 4 <= |s| && k % 4 == 0 ensures GroupAt(s, k) <= 255 {
      GroupRoundTrip(s[k], s[k + 1], s[k + 2], s[k + 3]);
    }
  }

  /** One step of the loop: a group that fits is appended in front of what
    * the rest of the buffer packs to. */
  lemma PackStep(s: seq<byte>)
    requires |s| >= 4 && GroupAt(s, 0) <= 255 && Pack(s[4..]).Ok?
    ensures Pack(s) == Ok([GroupAt(s, 0) as byte] + Pack(s[4..]).value)
  {
  }

  /** Decoding a byte in front of a packed string. */
  lemma UnpackStep(v: byte, p: seq<byte>)
    ensures Unpack([v] + p) ==
      [Invert(Field(v, 0)), Invert(Field(v, 1)), Invert(Field(v, 2)), Invert(Field(v, 3))] + Unpack(p)
  {
    assert ([v] + p)[1..] == p;
  }

  /** Round trip: packing a whole number of groups of palette indices
    * succeeds, and decoding the packed bytes gives the indices back. */
  lemma {:induction false} UnpackPack(s: seq<byte>)
    requires |s| % 4 == 0
    requires forall i :: 0 <= i < |s| ==> s[i] <= 3
    ensures Pack(s).Ok? && Unpack(Pack(s).value) == s
    decreases |s|
  {
    if |s| > 0 {
      WholeGroups(|s|, 0);
      var t := s[4..];
      UnpackPack(t);
      GroupRoundTrip(s[0], s[1], s[2], s[3]);
      PackStep(s);
      var v := GroupAt(s, 0) as byte;
      UnpackStep(v, Pack(t).value);
      assert s == s[..4] + t;
    }
  }

  /** The other direction: every byte string is the packing of its decoding,
    * so the packed format wastes no values. */
  lemma {:induction false} PackUnpack(p: seq<byte>)
    ensures Pack(Unpack(p)) == Ok(p)
  {
    if p != [] {
      var s := Unpack(p);
      assert s[4..] == Unpack(p[1..]);
      FieldsRoundTrip(p[0]);
      PackUnpack(p[1..]);
      assert p == [p[0]] + p[1..];
    }
  }

  /** Whole groups cut from the front of a buffer whose groups fit leave a
    * buffer whose groups fit. */
  lemma {:induction false} GroupsFitSuffix(s: seq<byte>, g: nat)
    requires 4 * g <= |s| && GroupsFit(s)
    ensures GroupsFit(s[4 * g..])
  {
    if g > 0 {
      GroupsFitSuffix(s, g - 1);
      var t := s[4 * (g - 1)..];
      GroupsFitTail(t);
      assert t[4..] == s[4 * g..];
    }
  }

  /** What one turn of the packing loop at offset `k` relies on: a whole
    * group is left, it fits, and the remaining buffer packs without error. */
  lemma LoopStep(s: seq<byte>, k: int, g: nat)
    requires |s| % 4 == 0 && GroupsFit(s) && 0 <= k < |s| && k == 4 * g
    ensures k + 4 <= |s| && GroupAt(s, k) <= 255 && Pack(s[k + 4..]).Ok?
    ensures Pack(s[k..]) == Ok([GroupAt(s, k) as byte] + Pack(s[k + 4..]).value)
  {
    WholeGroups(|s|, g);
    var rest := s[k..];
    assert rest[4..] == s[k + 4..];
    assert GroupAt(rest, 0) == GroupAt(s, k);
    GroupsFitSuffix(s, g);
    GroupsFitTail(rest);
    PackSucceeds(rest[4..]);
    PackStep(rest);
  }

  /** The packing loop lifted out of the page writer. It runs to completion
    * exactly on the buffers it is given here: whole groups of four, each
    * fitting in a byte (`PackSucceeds`). The raw bytes of a 4-colour
    * quantized image are such a buffer (`PaletteGroupsFit`), and for them
    * decoding gives the pixels back. */
  method Pack2bpp(imBytes: seq<byte>) returns (packed: seq<byte>)
    requires |imBytes| % 4 == 0 && GroupsFit(imBytes)
    ensures Pack(imBytes) == Ok(packed)
    ensures |packed| == |imBytes| / 4
    ensures forall k :: 0 <= k < |packed| ==> packed[k] as int == GroupAt(imBytes, 4 * k)
    ensures (forall i :: 0 <= i < |imBytes| ==> imBytes[i] <= 3) ==> Unpack(packed) == imBytes
  {
    PackSucceeds(imBytes);
    packed := [];
    var k := 0;
    assert imBytes[k..] == imBytes;
    assert packed + Pack(imBytes[k..]).value == Pack(imBytes).value;
    while k < |imBytes|
      invariant 0 <= k <= |imBytes| && k == 4 * |packed|
      invariant Pack(imBytes[k..]).Ok?
      invariant Pack(imBytes) == Ok(packed + Pack(imBytes[k..]).value)
    {
      LoopStep(imBytes, k, |packed|);
      var a := Invert(imBytes[k]);
      var b := Invert(imBytes[k + 1]);
      var c := Invert(imBytes[k + 2]);
      var d := Invert(imBytes[k + 3]);
      ghost var prev, tail := packed, Pack(imBytes[k + 4..]).value;
      var v := a as int * 64 + b as int * 16 + c as int * 4 + d as int;
      assert v == GroupAt(imBytes, k);
      packed := packed + [v as byte];
      assert packed + tail == prev + ([v as byte] + tail);
      k := k + 4;
    }
    assert imBytes[k..] == [];
    assert packed + [] == packed;
    PackLayout(imBytes);
    if forall i :: 0 <= i < |imBytes| ==> imBytes[i] <= 3 {
      UnpackPack(imBytes);
    }
  }

  /** A buffer that is not made of palette indices is packed too when its
    * groups fit: `[3, 3, 3, 4]` inverts to 0, 0, 0, 7 and packs into 7. */
  lemma NonPaletteExample()
    ensures Pack([3, 3, 3, 4]) == Ok([7])
  {
    var s: seq<byte> := [3, 3, 3, 4];
    assert Invert(3) == 0 && Invert(4) == 7;
    assert GroupValue(3, 3, 3, 4) == 7;
    assert GroupAt(s, 0) == 7;
    assert s[4..] == [];
    assert Pack(s[4..]) == Ok([]);
    PackStep(s);
    assert [GroupAt(s, 0) as byte] + Pack(s[4..]).value == [7];
  }

  /** A worked example: indices 0, 1, 2, 3 invert to 3, 2, 1, 0
    * and pack into 0b11_10_01_00. */
  lemma PackExample()
    ensures Pack([0, 1, 2, 3]) == Ok([0xE4])
  {
    InvertPaletteIndex(0);
    InvertPaletteIndex(1);
    InvertPaletteIndex(2);
    InvertPaletteIndex(3);
    var s: seq<byte> := [0, 1, 2, 3];
    assert GroupAt(s, 0) == 0xE4;
    assert s[4..] == [];
    assert Pack(s[4..]) == Ok([]);
    PackStep(s);
    assert [GroupAt(s, 0) as byte] + Pack(s[4..]).value == [0xE4];
  }
}
