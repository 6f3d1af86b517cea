/** URL-safe base64 (section 5 of RFC 4648) as Python's `base64` module computes it: the encoder pads with "=",
    the decoder is the lenient state machine of `binascii.a2b_base64`. */
module Base64 {
  import opened Text

  type Byte = b: int | 0 <= b < 256

  const PAD: CodePoint := 61

  function Symbol(v: int): (c: CodePoint)
    requires 0 <= v < 64
    ensures c != PAD && c < 128
  {
    if v < 26 then 65 + v else if v < 52 then 71 + v else if v < 62 then v - 4 else if v == 62 then 45 else 95
  }

  /** The value of a symbol of either alphabet; None for a character that the decoder skips. */
  function SymbolValue(c: CodePoint): Option<int> {
    if 65 <= c <= 90 then Some(c - 65)
    else if 97 <= c <= 122 then Some(c - 71)
    else if 48 <= c <= 57 then Some(c + 4)
    else if c == 45 || c == 43 then Some(62)
    else if c == 95 || c == 47 then Some(63)
    else None
  }

  function Group(x: Byte, y: Byte, z: Byte): Str {
    [Symbol(x / 4), Symbol(x % 4 * 16 + y / 16), Symbol(y % 16 * 4 + z / 64), Symbol(z % 64)]
  }

  function Encode(b: seq<Byte>): Str
    decreases |b|
  {
    if b == [] then []
    else if |b| == 1 then Group(b[0], 0, 0)[..2] + [PAD, PAD]
    else if |b| == 2 then Group(b[0], b[1], 0)[..3] + [PAD]
    else Group(b[0], b[1], b[2]) + Encode(b[3..])
  }

  /** The decoder's loop: `quad` symbols of the current group seen, `left` their bits not yet emitted. */
  function Decode(s: Str, quad: int, left: int, pads: int): Option<seq<Byte>>
    requires 0 <= quad < 4
    requires 0 <= left < (if quad == 0 then 1 else if quad == 1 then 64 else if quad == 2 then 16 else 4)
    decreases |s|
  {
    if s == [] then (if quad == 0 then Some([]) else None)
    else if s[0] == PAD then
      if quad >= 2 && quad + pads + 1 >= 4 then Some([])
      else Decode(s[1..], quad, left, if quad >= 2 then pads + 1 else pads)
    else
      match SymbolValue(s[0])
      case None => Decode(s[1..], quad, left, pads)
      case Some(v) =>
        if quad == 0 then Decode(s[1..], 1, v, 0)
        else if quad == 1 then Emit(left * 4 + v / 16, Decode(s[1..], 2, v % 16, 0))
        else if quad == 2 then Emit(left * 16 + v / 4, Decode(s[1..], 3, v % 4, 0))
        else Emit(left * 64 + v, Decode(s[1..], 0, 0, 0))
  }

  function Emit(b: Byte, rest: Option<seq<Byte>>): Option<seq<Byte>> {
    match rest
    case None => None
    case Some(bytes) => Some([b] + bytes)
  }

  /** `rstrip("=")`. */
  function StripPads(s: Str): Str {
    if s != [] && s[|s| - 1] == PAD then StripPads(s[..|s| - 1]) else s
  }

  /** `"=" * (-len(value) % 4)`. */
  function Pads(n: nat): Str
    decreases (4 - n % 4) % 4
  {
    if n % 4 == 0 then [] else [PAD] + Pads(n + 1)
  }

  function DecodeUrlSafe(s: Str): Option<seq<Byte>> {
    if exists c | c in s :: c >= 128 then None else Decode(s, 0, 0, 0)
  }

  /** The symbols are A to Z, a to z, 0 to 9, minus and underline, in this order. */
  lemma SymbolsAreUrlSafe(v: int)
    requires 0 <= v < 64
    ensures v < 26 ==> Symbol(v) == 'A' as int + v
    ensures 26 <= v < 52 ==> Symbol(v) == 'a' as int + (v - 26)
    ensures 52 <= v < 62 ==> Symbol(v) == '0' as int + (v - 52)
    ensures Symbol(62) == '-' as int && Symbol(63) == '_' as int
  {
  }

  /** A group spells its three bytes, most significant bits first. */
  lemma GroupIsPositional(x: Byte, y: Byte, z: Byte)
    ensures var g := Group(x, y, z);
      && SymbolValue(g[0]).Some? && SymbolValue(g[1]).Some? && SymbolValue(g[2]).Some? && SymbolValue(g[3]).Some?
      && ((SymbolValue(g[0]).value * 64 + SymbolValue(g[1]).value) * 64 + SymbolValue(g[2]).value) * 64
           + SymbolValue(g[3]).value
         == (x * 256 + y) * 256 + z
  {
    Sextets(x, y, z);
    SymbolIsRead(x / 4);
    SymbolIsRead(x % 4 * 16 + y / 16);
    SymbolIsRead(y % 16 * 4 + z / 64);
    SymbolIsRead(z % 64);
  }

  lemma SymbolIsRead(v: int)
    requires 0 <= v < 64
    ensures SymbolValue(Symbol(v)) == Some(v)
  {
  }

  lemma SymbolDecodes(v: int, rest: Str, quad: int, left: int)
    requires 0 <= v < 64 && 0 <= quad < 4
    requires 0 <= left < (if quad == 0 then 1 else if quad == 1 then 64 else if quad == 2 then 16 else 4)
    ensures Decode([Symbol(v)] + rest, quad, left, 0) ==
      if quad == 0 then Decode(rest, 1, v, 0)
      else if quad == 1 then Emit(left * 4 + v / 16, Decode(rest, 2, v % 16, 0))
      else if quad == 2 then Emit(left * 16 + v / 4, Decode(rest, 3, v % 4, 0))
      else Emit(left * 64 + v, Decode(rest, 0, 0, 0))
  {
    SymbolIsRead(v);
    assert ([Symbol(v)] + rest)[1..] == rest;
  }

  lemma Sextets(x: Byte, y: Byte, z: Byte)
    ensures var a, b, c, d := x / 4, x % 4 * 16 + y / 16, y % 16 * 4 + z / 64, z % 64;
      a * 4 + b / 16 == x && b % 16 * 16 + c / 4 == y && c % 4 * 64 + d == z && b < 64 && c < 64
  {
    assert (x % 4 * 16 + y / 16) / 16 == x % 4 && (x % 4 * 16 + y / 16) % 16 == y / 16;
    assert (y % 16 * 4 + z / 64) / 4 == y % 16 && (y % 16 * 4 + z / 64) % 4 == z / 64;
  }

  /** The first two symbols of a group carry its first byte. */
  lemma FirstByte(x: Byte, y: Byte, z: Byte, rest: Str)
    ensures Decode(Group(x, y, z)[..2] + rest, 0, 0, 0) == Emit(x, Decode(rest, 2, y / 16, 0))
  {
    var a, b := x / 4, x % 4 * 16 + y / 16;
    Sextets(x, y, z);
    assert b % 16 == y / 16;
    SymbolDecodes(b, rest, 1, a);
    SymbolDecodes(a, [Symbol(b)] + rest, 0, 0);
    assert Group(x, y, z)[..2] + rest == [Symbol(a)] + ([Symbol(b)] + rest);
  }

  lemma SecondByte(x: Byte, y: Byte, z: Byte, rest: Str)
    ensures Decode([Group(x, y, z)[2]] + rest, 2, y / 16, 0) == Emit(y, Decode(rest, 3, z / 64, 0))
  {
    var c := y % 16 * 4 + z / 64;
    Sextets(x, y, z);
    assert c % 4 == z / 64 && y / 16 * 16 + c / 4 == y;
    SymbolDecodes(c, rest, 2, y / 16);
  }

  lemma ThirdByte(x: Byte, y: Byte, z: Byte, rest: Str)
    ensures Decode([Group(x, y, z)[3]] + rest, 3, z / 64, 0) == Emit(z, Decode(rest, 0, 0, 0))
  {
    SymbolDecodes(z % 64, rest, 3, z / 64);
  }

  lemma OneByteDecodes(x: Byte)
    ensures Decode(Group(x, 0, 0)[..2] + [PAD, PAD], 0, 0, 0) == Some([x])
  {
    var tail := [PAD, PAD];
    FirstByte(x, 0, 0, tail);
    assert tail[1..] == [PAD];
    assert Decode([PAD], 2, 0, 1) == Some([]);
    assert Decode(tail, 2, 0, 0) == Some([]);
    assert [x] + [] == [x];
  }

  lemma TwoBytesDecode(x: Byte, y: Byte)
    ensures Decode(Group(x, y, 0)[..3] + [PAD], 0, 0, 0) == Some([x, y])
  {
    var g := Group(x, y, 0);
    SecondByte(x, y, 0, [PAD]);
    FirstByte(x, y, 0, [g[2]] + [PAD]);
    assert g[..3] + [PAD] == g[..2] + ([g[2]] + [PAD]);
    assert Decode([PAD], 3, 0, 0) == Some([]);
    assert [x] + ([y] + []) == [x, y];
  }

  lemma ThreeBytesDecode(x: Byte, y: Byte, z: Byte, rest: Str)
    ensures Decode(Group(x, y, z) + rest, 0, 0, 0) == Emit(x, Emit(y, Emit(z, Decode(rest, 0, 0, 0))))
  {
    var g := Group(x, y, z);
    ThirdByte(x, y, z, rest);
    SecondByte(x, y, z, [g[3]] + rest);
    FirstByte(x, y, z, [g[2]] + ([g[3]] + rest));
    assert g + rest == g[..2] + ([g[2]] + ([g[3]] + rest));
  }

  lemma {:induction false} EncodeDecodes(b: seq<Byte>)
    ensures Decode(Encode(b), 0, 0, 0) == Some(b)
    decreases |b|
  {
    if |b| == 1 {
      OneByteDecodes(b[0]);
      assert b == [b[0]];
    } else if |b| == 2 {
      TwoBytesDecode(b[0], b[1]);
      assert b == [b[0], b[1]];
    } else if |b| > 2 {
      EncodeDecodes(b[3..]);
      ThreeBytesDecode(b[0], b[1], b[2], Encode(b[3..]));
      assert b == [b[0]] + ([b[1]] + ([b[2]] + b[3..]));
    }
  }

  /** Stripping the padding loses nothing: the length modulo four tells how much there was. */
  lemma {:induction false} PadsAreRestored(s: Str, n: nat)
    requires |s| % 4 == 0 && n <= |s|
    requires forall i | n <= i < |s| :: s[i] == PAD
    requires |s| - 4 < n && (n == 0 || s[n - 1] != PAD)
    ensures StripPads(s) == s[..n]
    ensures s[..n] + Pads(n) == s
  {
    StripToLength(s, n);
    assert n % 4 == 0 ==> n == |s|;
    assert Pads(|s|) == [];
    if n % 4 == 1 {
      assert Pads(n + 3) == [] && Pads(n + 2) == [PAD] && Pads(n + 1) == [PAD, PAD] && Pads(n) == [PAD, PAD, PAD];
    } else if n % 4 == 2 {
      assert Pads(n + 2) == [] && Pads(n + 1) == [PAD] && Pads(n) == [PAD, PAD];
    } else if n % 4 == 3 {
      assert Pads(n + 1) == [] && Pads(n) == [PAD];
    }
  }

  lemma {:induction false} StripToLength(s: Str, n: nat)
    requires n <= |s| && forall i | n <= i < |s| :: s[i] == PAD
    requires n == 0 || s[n - 1] != PAD
    ensures StripPads(s) == s[..n]
    decreases |s|
  {
    if n < |s| {
      StripToLength(s[..|s| - 1], n);
      assert s[..|s| - 1][..n] == s[..n];
    } else {
      assert s[..n] == s;
    }
  }

  /** Where the padding of an encoding starts. */
  function Unpadded(b: seq<Byte>): nat {
    if |b| == 0 then 0 else if |b| == 1 then 2 else if |b| == 2 then 3 else 4 + Unpadded(b[3..])
  }

  lemma {:induction false} EncodingShape(b: seq<Byte>)
    ensures forall i | 0 <= i < |Encode(b)| :: Encode(b)[i] < 128 && (Encode(b)[i] == PAD <==> Unpadded(b) <= i)
    ensures |Encode(b)| % 4 == 0 && Unpadded(b) <= |Encode(b)| < Unpadded(b) + 4
    decreases |b|
  {
    if |b| > 2 {
      var rest := Encode(b[3..]);
      EncodingShape(b[3..]);
      assert forall i | 4 <= i < |Encode(b)| :: Encode(b)[i] == rest[i - 4];
    }
  }

  /** Decoding undoes encoding, through stripped and restored padding. */
  lemma RoundTrip(b: seq<Byte>)
    ensures var v := StripPads(Encode(b)); DecodeUrlSafe(v + Pads(|v|)) == Some(b)
  {
    EncodeDecodes(b);
    EncodingShape(b);
    PadsAreRestored(Encode(b), Unpadded(b));
  }
}
