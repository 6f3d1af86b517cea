/** `meemee/cursors.py`: a pagination cursor is the JSON array of two texts in unpadded URL-safe base64. */
module Cursors {
  import opened Text
  import Base64

  // ----- json.dumps of text (ensure_ascii) -----

  function HexDigit(v: int): CodePoint
    requires 0 <= v < 16
  {
    if v < 10 then 48 + v else 87 + v
  }

  /** `\uXXXX`. */
  function Unicode(c: int): Str
    requires 0 <= c < 0x1_0000
  {
    [92, 117, HexDigit(c / 16 / 16 / 16), HexDigit(c / 16 / 16 % 16), HexDigit(c / 16 % 16), HexDigit(c % 16)]
  }

  function HighHalf(c: int): int {
    0xD800 + (c - 0x1_0000) / 1024
  }

  function LowHalf(c: int): int {
    0xDC00 + (c - 0x1_0000) % 1024
  }

  function Escape(c: CodePoint): Str {
    if c == 34 || c == 92 then [92, c]
    else if c == 10 then [92, 110]
    else if c == 13 then [92, 114]
    else if c == 9 then [92, 116]
    else if c == 12 then [92, 102]
    else if c == 8 then [92, 98]
    else if 32 <= c < 127 then [c]
    else if c < 0x1_0000 then Unicode(c)
    else Unicode(HighHalf(c)) + Unicode(LowHalf(c))
  }

  function Escaped(s: Str): Str {
    if s == [] then [] else Escape(s[0]) + Escaped(s[1..])
  }

  predicate Ascii(s: Str) {
    forall i | 0 <= i < |s| :: s[i] < 128
  }

  lemma {:induction false} EscapedIsAscii(s: Str)
    ensures Ascii(Escaped(s))
  {
    if s != [] {
      EscapedIsAscii(s[1..]);
    }
  }

  function Dumps(a: Str, b: Str): (r: Str)
    ensures Ascii(r)
  {
    EscapedIsAscii(a);
    EscapedIsAscii(b);
    [91] + ([34] + (Escaped(a) + ([34] + ([44] + ([34] + (Escaped(b) + ([34] + [93])))))))
  }

  /** Printable, without a quote or a backslash. */
  predicate Unescaped(s: Str) {
    forall i | 0 <= i < |s| :: 32 <= s[i] < 127 && s[i] != 34 && s[i] != 92
  }

  lemma {:induction false} UnescapedStays(s: Str)
    requires Unescaped(s)
    ensures Escaped(s) == s
  {
    if s != [] {
      UnescapedStays(s[1..]);
      assert s == [s[0]] + s[1..];
    }
  }

  /** The array of two such texts holds them as they are, with nothing but the punctuation around them. */
  lemma DumpsVerbatim(a: Str, b: Str)
    requires Unescaped(a) && Unescaped(b)
    ensures var quote, comma := ['"' as int], [',' as int];
      Dumps(a, b) == (['[' as int] + quote) + a + (quote + comma + quote) + b + (quote + [']' as int])
  {
    UnescapedStays(a);
    UnescapedStays(b);
    Punctuated([91], [34], a, [44], b, [93]);
  }

  lemma Punctuated(p: Str, q: Str, a: Str, c: Str, b: Str, e: Str)
    ensures p + (q + (a + (q + (c + (q + (b + (q + e))))))) == (p + q) + a + (q + c + q) + b + (q + e)
  {
    var x := b + (q + e);
    assert q + (c + (q + x)) == (q + c + q) + x;
    var y := (q + c + q) + x;
    assert p + (q + (a + y)) == (p + q) + a + y;
    assert (p + q) + a + y == (p + q) + a + (q + c + q) + x;
  }

  function EncodeCursor(sortValue: Str, ident: Str): Str {
    Base64.StripPads(Base64.Encode(Dumps(sortValue, ident)))
  }

  // ----- json.loads of an array of two texts -----

  function HexValue(c: CodePoint): (r: Option<int>)
    ensures r.Some? ==> 0 <= r.value < 16
  {
    if 48 <= c <= 57 then Some(c - 48)
    else if 97 <= c <= 102 then Some(c - 87)
    else if 65 <= c <= 70 then Some(c - 55)
    else None
  }

  function FourDigits(w: int, x: int, y: int, z: int): (r: int)
    requires 0 <= w < 16 && 0 <= x < 16 && 0 <= y < 16 && 0 <= z < 16
    ensures 0 <= r < 0x1_0000
  {
    ((w * 16 + x) * 16 + y) * 16 + z
  }

  /** The code unit of a `\uXXXX` at the start of the text. */
  function UnicodeAt(t: Str): (r: Option<int>)
    ensures r.Some? ==> |t| >= 6 && 0 <= r.value < 0x1_0000
  {
    if |t| < 6 || t[0] != 92 || t[1] != 117 then None
    else
      match (HexValue(t[2]), HexValue(t[3]), HexValue(t[4]), HexValue(t[5]))
      case (Some(w), Some(x), Some(y), Some(z)) => Some(FourDigits(w, x, y, z))
      case _ => None
  }

  predicate High(c: int) {
    0xD800 <= c < 0xDC00
  }

  predicate Low(c: int) {
    0xDC00 <= c < 0xE000
  }

  function Join(high: int, low: int): CodePoint
    requires High(high) && Low(low)
  {
    0x1_0000 + (high - 0xD800) * 1024 + (low - 0xDC00)
  }

  function SimpleEscape(c: CodePoint): Option<CodePoint> {
    if c == 34 || c == 92 || c == 47 then Some(c)
    else if c == 98 then Some(8)
    else if c == 102 then Some(12)
    else if c == 110 then Some(10)
    else if c == 114 then Some(13)
    else if c == 116 then Some(9)
    else None
  }

  datatype Scanned = Scanned(text: Str, rest: Str)

  function Prepend(c: CodePoint, r: Option<Scanned>): Option<Scanned> {
    match r
    case None => None
    case Some(Scanned(text, rest)) => Some(Scanned([c] + text, rest))
  }

  datatype Token = Token(code: CodePoint, size: nat)

  /** The next character of a string and how much of the text spells it. */
  function ReadToken(t: Str): (r: Option<Token>)
    requires t != []
    ensures r.Some? ==> 0 < r.value.size <= |t|
  {
    if t[0] < 32 then None
    else if t[0] != 92 then Some(Token(t[0], 1))
    else if |t| < 2 then None
    else if t[1] != 117 then
      match SimpleEscape(t[1])
      case None => None
      case Some(c) => Some(Token(c, 2))
    else
      match UnicodeAt(t)
      case None => None
      case Some(u) =>
        match UnicodeAt(t[6..])
        case Some(v) => if High(u) && Low(v) then Some(Token(Join(u, v), 12)) else Some(Token(u, 6))
        case None => Some(Token(u, 6))
  }

  /** The string whose opening quote has just been read, and what follows its closing quote. */
  function ScanString(t: Str): (r: Option<Scanned>)
    ensures r.Some? ==> |r.value.rest| < |t|
    decreases |t|
  {
    if t == [] then None
    else if t[0] == 34 then Some(Scanned([], t[1..]))
    else
      match ReadToken(t)
      case None => None
      case Some(Token(c, n)) => Prepend(c, ScanString(t[n..]))
  }

  function SkipWhite(t: Str): (r: Str)
    ensures |r| <= |t|
  {
    if t != [] && t[0] in {9, 10, 13, 32} then SkipWhite(t[1..]) else t
  }

  /** The string after optional whitespace and an opening quote; None if there is none. */
  function ReadString(t: Str): Option<Scanned> {
    var u := SkipWhite(t);
    if u == [] || u[0] != 34 then None else ScanString(u[1..])
  }

  /** What follows optional whitespace and the character `c`; None if that is not there. */
  function ReadChar(t: Str, c: CodePoint): Option<Str> {
    var u := SkipWhite(t);
    if u == [] || u[0] != c then None else Some(u[1..])
  }

  /** The two texts of an array of exactly two strings; any other JSON text, and any text that is not JSON,
      gives None. */
  function Loads(t: Str): Option<(Str, Str)> {
    match ReadChar(t, 91)
    case None => None
    case Some(t1) =>
      match ReadString(t1)
      case None => None
      case Some(Scanned(a, t2)) =>
        match ReadChar(t2, 44)
        case None => None
        case Some(t3) =>
          match ReadString(t3)
          case None => None
          case Some(Scanned(b, t4)) =>
            match ReadChar(t4, 93)
            case None => None
            case Some(t5) => if SkipWhite(t5) == [] then Some((a, b)) else None
  }

  /** None is the ValueError for an invalid cursor. */
  function DecodeCursor(value: Str): Option<(Str, Str)> {
    match Base64.DecodeUrlSafe(value + Base64.Pads(|value|))
    case None => None
    case Some(bytes) =>
      if exists x | x in bytes :: x >= 128 then None
      else
        match Loads(bytes)
        case None => None
        case Some((a, b)) => if a == [] || b == [] then None else Some((a, b))
  }

  // ----- round trip -----

  /** What json.loads makes of json.dumps: a high surrogate before a low one becomes a single character. */
  function Joined(s: Str): Str
    decreases |s|
  {
    if s == [] then []
    else if |s| >= 2 && High(s[0]) && Low(s[1]) then [Join(s[0], s[1])] + Joined(s[2..])
    else [s[0]] + Joined(s[1..])
  }

  /** No high surrogate stands right before a low one; no text stored in SQLite contains surrogates at all. */
  predicate Unpaired(s: Str) {
    forall i | 0 <= i < |s| - 1 :: !(High(s[i]) && Low(s[i + 1]))
  }

  lemma {:induction false} JoinedIsIdentity(s: Str)
    ensures |Joined(s)| <= |s|
    ensures Joined(s) == [] <==> s == []
    ensures Joined(s) == s <==> Unpaired(s)
    decreases |s|
  {
    if s == [] {
    } else if |s| >= 2 && High(s[0]) && Low(s[1]) {
      JoinedIsIdentity(s[2..]);
    } else {
      JoinedIsIdentity(s[1..]);
      assert s == [s[0]] + s[1..];
      assert Joined(s)[1..] == Joined(s[1..]);
      assert Unpaired(s[1..]) ==> Unpaired(s) by {
        if Unpaired(s[1..]) {
          forall i | 0 <= i < |s| - 1 ensures !(High(s[i]) && Low(s[i + 1])) {
            if i > 0 {
              assert s[i] == s[1..][i - 1] && s[i + 1] == s[1..][i];
            }
          }
        }
      }
    }
  }

  lemma Regroup(a: Str, b: Str, c: Str)
    ensures (a + b) + c == a + (b + c)
  {
  }

  lemma HexIsRead(v: int)
    requires 0 <= v < 16
    ensures HexValue(HexDigit(v)) == Some(v)
  {
  }

  lemma UnicodeIsRead(c: int, rest: Str)
    requires 0 <= c < 0x1_0000
    ensures UnicodeAt(Unicode(c) + rest) == Some(c)
    ensures (Unicode(c) + rest)[6..] == rest
  {
    HexIsRead(c / 16 / 16 / 16);
    HexIsRead(c / 16 / 16 % 16);
    HexIsRead(c / 16 % 16);
    HexIsRead(c % 16);
  }

  lemma HalvesJoin(c: CodePoint)
    requires c >= 0x1_0000
    ensures High(HighHalf(c)) && Low(LowHalf(c)) && Join(HighHalf(c), LowHalf(c)) == c
  {
  }

  /** Only a low surrogate's own escape reads as one. */
  lemma LowAhead(s: Str, rest: Str)
    requires rest != [] && rest[0] == 34
    ensures var u := UnicodeAt(Escaped(s) + rest);
      u.Some? && Low(u.value) ==> s != [] && Low(s[0])
  {
    if s == [] {
      assert Escaped(s) + rest == rest;
    } else {
      var t := Escaped(s[1..]) + rest;
      Regroup(Escape(s[0]), Escaped(s[1..]), rest);
      if s[0] >= 0x1_0000 {
        HalvesJoin(s[0]);
        Regroup(Unicode(HighHalf(s[0])), Unicode(LowHalf(s[0])), t);
        UnicodeIsRead(HighHalf(s[0]), Unicode(LowHalf(s[0])) + t);
      } else if Escape(s[0]) == Unicode(s[0]) {
        UnicodeIsRead(s[0], t);
      }
    }
  }

  lemma CharacterIsRead(c: CodePoint, t: Str)
    requires High(c) ==> UnicodeAt(t).None? || !Low(UnicodeAt(t).value)
    ensures ReadToken(Escape(c) + t) == Some(Token(c, |Escape(c)|))
  {
    if c >= 0x1_0000 {
      HalvesJoin(c);
      PairIsRead(HighHalf(c), LowHalf(c), t);
      assert Escape(c) + t == Unicode(HighHalf(c)) + (Unicode(LowHalf(c)) + t);
    } else if Escape(c) == Unicode(c) {
      UnicodeIsRead(c, t);
    }
  }

  lemma PairIsRead(high: int, low: int, t: Str)
    requires High(high) && Low(low)
    ensures ReadToken(Unicode(high) + (Unicode(low) + t)) == Some(Token(Join(high, low), 12))
  {
    UnicodeIsRead(high, Unicode(low) + t);
    UnicodeIsRead(low, t);
  }

  lemma TokenIsScanned(w: Str, t: Str, c: CodePoint)
    requires w != [] && w[0] != 34 && ReadToken(w + t) == Some(Token(c, |w|))
    ensures ScanString(w + t) == Prepend(c, ScanString(t))
  {
    assert (w + t)[|w|..] == t;
  }

  lemma PairIsScanned(s: Str, q: Str)
    requires |s| >= 2 && High(s[0]) && Low(s[1])
    ensures ScanString(Escaped(s) + q) == Prepend(Join(s[0], s[1]), ScanString(Escaped(s[2..]) + q))
  {
    var t := Escaped(s[2..]) + q;
    PairIsRead(s[0], s[1], t);
    assert s[1..][1..] == s[2..];
    assert Unicode(s[0]) + (Unicode(s[1]) + t) == (Unicode(s[0]) + Unicode(s[1])) + t == Escaped(s) + q;
    TokenIsScanned(Unicode(s[0]) + Unicode(s[1]), t, Join(s[0], s[1]));
  }

  lemma CharacterIsScanned(s: Str, q: Str)
    requires s != [] && !(|s| >= 2 && High(s[0]) && Low(s[1]))
    requires q != [] && q[0] == 34
    ensures ScanString(Escaped(s) + q) == Prepend(s[0], ScanString(Escaped(s[1..]) + q))
  {
    var t := Escaped(s[1..]) + q;
    NextIsRead(s, q);
    TokenIsScanned(Escape(s[0]), t, s[0]);
    Regroup(Escape(s[0]), Escaped(s[1..]), q);
  }

  lemma NextIsRead(s: Str, q: Str)
    requires s != [] && !(|s| >= 2 && High(s[0]) && Low(s[1]))
    requires q != [] && q[0] == 34
    ensures ReadToken(Escape(s[0]) + (Escaped(s[1..]) + q)) == Some(Token(s[0], |Escape(s[0])|))
  {
    LowAhead(s[1..], q);
    CharacterIsRead(s[0], Escaped(s[1..]) + q);
  }

  lemma {:induction false} EscapedIsScanned(s: Str, rest: Str)
    ensures ScanString(Escaped(s) + ([34] + rest)) == Some(Scanned(Joined(s), rest))
    decreases |s|
  {
    var q := [34] + rest;
    if s == [] {
      assert Escaped(s) + q == q && q[1..] == rest;
    } else if |s| >= 2 && High(s[0]) && Low(s[1]) {
      EscapedIsScanned(s[2..], rest);
      PairIsScanned(s, q);
    } else {
      EscapedIsScanned(s[1..], rest);
      CharacterIsScanned(s, q);
    }
  }

  lemma CharIsRead(c: CodePoint, t: Str)
    requires c !in {9, 10, 13, 32}
    ensures ReadChar([c] + t, c) == Some(t)
  {
    assert ([c] + t)[1..] == t;
  }

  lemma StringIsRead(s: Str, rest: Str)
    ensures ReadString([34] + (Escaped(s) + ([34] + rest))) == Some(Scanned(Joined(s), rest))
  {
    var t := Escaped(s) + ([34] + rest);
    EscapedIsScanned(s, rest);
    assert ([34] + t)[1..] == t;
  }

  lemma DumpsIsLoaded(a: Str, b: Str)
    ensures Loads(Dumps(a, b)) == Some((Joined(a), Joined(b)))
  {
    var t4: Str := [93];
    var t3 := [34] + (Escaped(b) + ([34] + t4));
    var t2 := [44] + t3;
    var t1 := [34] + (Escaped(a) + ([34] + t2));
    CharIsRead(91, t1);
    StringIsRead(a, t2);
    CharIsRead(44, t3);
    StringIsRead(b, t4);
    assert t4 == [93] + [];
    CharIsRead(93, []);
  }

  /** A cursor always decodes to what JSON makes of its parts. */
  lemma CursorDecodes(a: Str, b: Str)
    ensures DecodeCursor(EncodeCursor(a, b)) == if a == [] || b == [] then None else Some((Joined(a), Joined(b)))
  {
    var dumped: seq<Base64.Byte> := Dumps(a, b);
    Base64.RoundTrip(dumped);
    DumpsIsLoaded(a, b);
    JoinedIsIdentity(a);
    JoinedIsIdentity(b);
  }

  /** The round trip holds exactly for non-empty texts in which no surrogate pair is spelled as two characters. */
  lemma CursorRoundTrip(a: Str, b: Str)
    ensures DecodeCursor(EncodeCursor(a, b)) == Some((a, b)) <==> a != [] && b != [] && Unpaired(a) && Unpaired(b)
  {
    CursorDecodes(a, b);
    JoinedIsIdentity(a);
    JoinedIsIdentity(b);
  }

  /** An input for which the round trip fails: the two halves of one character come back as that character. */
  lemma SplitPairIsJoined()
    ensures DecodeCursor(EncodeCursor([0xD83D, 0xDE00], [97])) == Some(([0x1_F600], [97]))
  {
    var split: Str := [0xD83D, 0xDE00];
    var plain: Str := [97];
    CursorDecodes(split, plain);
    assert split[2..] == [] && plain[1..] == [];
    assert Joined(split) == [Join(0xD83D, 0xDE00)] && Joined(plain) == plain;
  }
}
