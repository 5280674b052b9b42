/**
  Base 64 as the browser uses it on both sides of a data URL: the padded encoding of section 4 of
  RFC 4648 (what FileReader.readAsDataURL writes) and the "forgiving-base64 decode" of the WHATWG
  Infra standard (what `atob` runs), whose result `atob` returns as a string of code points 0..255.
 */
module Base64 {
  import opened Outcomes

  newtype byte = x: int | 0 <= x < 256

  /** The 64 characters of the alphabet of section 4 of RFC 4648. */
  predicate IsBase64Char(c: char) {
    ('A' <= c <= 'Z') || ('a' <= c <= 'z') || ('0' <= c <= '9') || c == '+' || c == '/'
  }

  predicate AllBase64(t: string) {
    forall i | 0 <= i < |t| :: IsBase64Char(t[i])
  }

  /** The character that encodes the six-bit value `v`. */
  function CharOf(v: int): (c: char)
    requires 0 <= v < 64
    ensures IsBase64Char(c)
  {
    if v < 26 then ('A' as int + v) as char
    else if v < 52 then ('a' as int + (v - 26)) as char
    else if v < 62 then ('0' as int + (v - 52)) as char
    else if v == 62 then '+'
    else '/'
  }

  /** The six-bit value a character of the alphabet encodes; the inverse of CharOf. */
  function ValueOf(c: char): (v: int)
    requires IsBase64Char(c)
    ensures 0 <= v < 64
  {
    if 'A' <= c <= 'Z' then c as int - 'A' as int
    else if 'a' <= c <= 'z' then c as int - 'a' as int + 26
    else if '0' <= c <= '9' then c as int - '0' as int + 52
    else if c == '+' then 62
    else 63
  }

  lemma ValueOfCharOf(v: int)
    requires 0 <= v < 64
    ensures ValueOf(CharOf(v)) == v
  {
  }

  /** The four characters that encode the bytes `b0`, `b1`, `b2`. */
  function Group(b0: byte, b1: byte, b2: byte): (g: string)
    ensures |g| == 4 && AllBase64(g)
  {
    [CharOf(b0 as int / 4), CharOf(b0 as int % 4 * 16 + b1 as int / 16),
     CharOf(b1 as int % 16 * 4 + b2 as int / 64), CharOf(b2 as int % 64)]
  }

  /** The two characters that encode a last single byte. */
  function Group1(b0: byte): (g: string)
    ensures |g| == 2 && AllBase64(g)
  {
    [CharOf(b0 as int / 4), CharOf(b0 as int % 4 * 16)]
  }

  /** The three characters that encode a last pair of bytes. */
  function Group2(b0: byte, b1: byte): (g: string)
    ensures |g| == 3 && AllBase64(g)
  {
    [CharOf(b0 as int / 4), CharOf(b0 as int % 4 * 16 + b1 as int / 16), CharOf(b1 as int % 16 * 4)]
  }

  /** Encoding without the trailing '=' characters: four characters per three bytes, then 0, 2 or 3. */
  function EncodeUnpadded(b: seq<byte>): (s: string)
    ensures AllBase64(s)
  {
    if |b| == 0 then []
    else if |b| == 1 then Group1(b[0])
    else if |b| == 2 then Group2(b[0], b[1])
    else
      Group(b[0], b[1], b[2]) + EncodeUnpadded(b[3..])
  }

  /** The '=' characters that complete the last group of four. */
  function Padding(n: nat): string {
    if n % 3 == 1 then "==" else if n % 3 == 2 then "=" else ""
  }

  /** Padded base 64 (section 4 of RFC 4648), as FileReader.readAsDataURL writes it. */
  function Encode(b: seq<byte>): string
  {
    EncodeUnpadded(b) + Padding(|b|)
  }

  /** The three bytes a group of four characters stands for. */
  function Ungroup(c0: char, c1: char, c2: char, c3: char): seq<byte>
    requires IsBase64Char(c0) && IsBase64Char(c1) && IsBase64Char(c2) && IsBase64Char(c3)
  {
    [(ValueOf(c0) * 4 + ValueOf(c1) / 16) as byte,
     (ValueOf(c1) % 16 * 16 + ValueOf(c2) / 4) as byte,
     (ValueOf(c2) % 4 * 64 + ValueOf(c3)) as byte]
  }

  /** The byte a last pair of characters stands for; the low four bits of the second are dropped. */
  function Ungroup1(c0: char, c1: char): seq<byte>
    requires IsBase64Char(c0) && IsBase64Char(c1)
  {
    [(ValueOf(c0) * 4 + ValueOf(c1) / 16) as byte]
  }

  /** The two bytes a last triple of characters stands for; the low two bits of the third are dropped. */
  function Ungroup2(c0: char, c1: char, c2: char): seq<byte>
    requires IsBase64Char(c0) && IsBase64Char(c1) && IsBase64Char(c2)
  {
    [(ValueOf(c0) * 4 + ValueOf(c1) / 16) as byte, (ValueOf(c1) % 16 * 16 + ValueOf(c2) / 4) as byte]
  }

  /** Decoding of a padding-free text: each group of four gives three bytes, a final 2 or 3 give 1 or 2. */
  function DecodeUnpadded(t: string): (b: seq<byte>)
    requires AllBase64(t) && |t| % 4 != 1
  {
    if |t| == 0 then []
    else if |t| == 2 then Ungroup1(t[0], t[1])
    else if |t| == 3 then Ungroup2(t[0], t[1], t[2])
    else
      Ungroup(t[0], t[1], t[2], t[3]) + DecodeUnpadded(t[4..])
  }

  /** ASCII whitespace in the sense of the WHATWG Infra standard: TAB, LF, FF, CR and SPACE. */
  predicate IsAsciiWhitespace(c: char) {
    c == '\t' || c == '\n' || c == '\U{000C}' || c == '\r' || c == ' '
  }

  function RemoveAsciiWhitespace(s: string): (r: string)
    ensures forall i | 0 <= i < |r| :: !IsAsciiWhitespace(r[i])
    ensures (forall i | 0 <= i < |s| :: !IsAsciiWhitespace(s[i])) ==> r == s
  {
    if s == [] then []
    else if IsAsciiWhitespace(s[0]) then RemoveAsciiWhitespace(s[1..])
    else [s[0]] + RemoveAsciiWhitespace(s[1..])
  }

  /** Removes one or two trailing '=' characters. */
  function StripPadding(t: string): string {
    if |t| >= 2 && t[|t| - 2] == '=' && t[|t| - 1] == '=' then t[..|t| - 2]
    else if |t| >= 1 && t[|t| - 1] == '=' then t[..|t| - 1]
    else t
  }

  /** The text forgiving-base64 decodes once whitespace and (for a multiple of four) padding are gone. */
  function Unpadded(s: string): string {
    var t := RemoveAsciiWhitespace(s);
    if |t| % 4 == 0 then StripPadding(t) else t
  }

  /** A string of code points 0..255, one per byte: the form in which `atob` returns bytes. */
  function BinaryString(b: seq<byte>): (s: string)
    ensures |s| == |b|
    ensures forall i | 0 <= i < |b| :: s[i] as int == b[i] as int
  {
    if b == [] then [] else [b[0] as int as char] + BinaryString(b[1..])
  }

  /**
    `atob(s)`: forgiving-base64 decode. It fails exactly when, after whitespace and padding are
    removed, one character is left over in the last group or a character outside the alphabet
    remains; otherwise it returns the decoded bytes as a binary string.
   */
  function Atob(s: string): (r: Result<string>)
    ensures r.Err? <==> |Unpadded(s)| % 4 == 1 || !AllBase64(Unpadded(s))
    ensures r.Err? ==> r.failure.kind == InvalidCharacter
    ensures r.Ok? ==> forall i | 0 <= i < |r.value| :: r.value[i] as int < 256
  {
    var u := Unpadded(s);
    if |u| % 4 == 1 || !AllBase64(u) then
      Err(Failure(InvalidCharacter, "The string to be decoded is not correctly encoded."))
    else
      Ok(BinaryString(DecodeUnpadded(u)))
  }

  /** Adding a group of four leaves the position within a group unchanged. */
  lemma ModFour(n: nat)
    ensures (n + 4) % 4 == n % 4
  {
  }

  lemma FillGroup(n: nat, k: nat)
    requires n % 4 + k == 4
    ensures (n + k) % 4 == 0
  {
  }

  lemma ModThree(n: nat)
    ensures (n + 3) % 3 == n % 3
  {
  }

  /** One full group: the four characters of three bytes decode to those bytes. */
  lemma UngroupGroup(b0: byte, b1: byte, b2: byte)
    ensures var g := Group(b0, b1, b2);
            Ungroup(g[0], g[1], g[2], g[3]) == [b0, b1, b2]
  {
    var v1 := b0 as int % 4 * 16 + b1 as int / 16;
    var v2 := b1 as int % 16 * 4 + b2 as int / 64;
    ValueOfCharOf(b0 as int / 4);
    ValueOfCharOf(v1);
    ValueOfCharOf(v2);
    ValueOfCharOf(b2 as int % 64);
    assert b0 as int / 4 * 4 + v1 / 16 == b0 as int;
    assert v1 % 16 * 16 + v2 / 4 == b1 as int;
    assert v2 % 4 * 64 + b2 as int % 64 == b2 as int;
  }

  /** The unpadded encoding never leaves a single character in its last group. */
  lemma {:induction false} EncodedLength(b: seq<byte>)
    ensures |EncodeUnpadded(b)| % 4 == (if |b| % 3 == 0 then 0 else |b| % 3 + 1)
    decreases |b|
  {
    if |b| >= 3 {
      EncodedLength(b[3..]);
      assert |EncodeUnpadded(b)| == |EncodeUnpadded(b[3..])| + 4;
      ModFour(|EncodeUnpadded(b[3..])|);
      ModThree(|b| - 3);
    }
  }

  lemma Ungroup1Group1(b0: byte)
    ensures var g := Group1(b0); Ungroup1(g[0], g[1]) == [b0]
  {
    ValueOfCharOf(b0 as int / 4);
    ValueOfCharOf(b0 as int % 4 * 16);
  }

  lemma Ungroup2Group2(b0: byte, b1: byte)
    ensures var g := Group2(b0, b1); Ungroup2(g[0], g[1], g[2]) == [b0, b1]
  {
    ValueOfCharOf(b0 as int / 4);
    ValueOfCharOf(b0 as int % 4 * 16 + b1 as int / 16);
    ValueOfCharOf(b1 as int % 16 * 4);
  }

  /** A final group of one or two bytes decodes back to those bytes. */
  lemma DecodeEncodeTail(b: seq<byte>)
    requires 1 <= |b| <= 2
    ensures DecodeUnpadded(EncodeUnpadded(b)) == b
  {
    if |b| == 1 {
      Ungroup1Group1(b[0]);
    } else {
      Ungroup2Group2(b[0], b[1]);
    }
  }

  /** Decoding a group followed by more text yields the group's three bytes, then the rest. */
  lemma DecodeGroupThen(b0: byte, b1: byte, b2: byte, r: string)
    requires AllBase64(r) && |r| % 4 != 1
    ensures AllBase64(Group(b0, b1, b2) + r) && |Group(b0, b1, b2) + r| % 4 != 1
    ensures DecodeUnpadded(Group(b0, b1, b2) + r) == [b0, b1, b2] + DecodeUnpadded(r)
  {
    var g := Group(b0, b1, b2);
    var t := g + r;
    assert |t| == |r| + 4;
    ModFour(|r|);
    assert t[4..] == r;
    assert t[0] == g[0] && t[1] == g[1] && t[2] == g[2] && t[3] == g[3];
    UngroupGroup(b0, b1, b2);
  }

  /** A full first group decodes to the first three bytes, ahead of the rest of the decoding. */
  lemma DecodeEncodeGroup(b: seq<byte>)
    requires |b| >= 3
    requires |EncodeUnpadded(b[3..])| % 4 != 1
    ensures DecodeUnpadded(EncodeUnpadded(b)) == b[..3] + DecodeUnpadded(EncodeUnpadded(b[3..]))
  {
    var rest := EncodeUnpadded(b[3..]);
    assert EncodeUnpadded(b) == Group(b[0], b[1], b[2]) + rest;
    DecodeGroupThen(b[0], b[1], b[2], rest);
    assert b[..3] == [b[0], b[1], b[2]];
  }

  /** Decoding undoes the unpadded encoding. */
  lemma {:induction false} DecodeEncodeUnpadded(b: seq<byte>)
    ensures |EncodeUnpadded(b)| % 4 != 1
    ensures DecodeUnpadded(EncodeUnpadded(b)) == b
    decreases |b|
  {
    EncodedLength(b);
    if |b| >= 3 {
      DecodeEncodeUnpadded(b[3..]);
      DecodeEncodeGroup(b);
      assert b[..3] + b[3..] == b;
    } else if |b| >= 1 {
      DecodeEncodeTail(b);
    }
  }

  /** Padding added after text from the alphabet is exactly what StripPadding removes. */
  lemma StripAddedPadding(e: string, n: nat)
    requires AllBase64(e)
    ensures StripPadding(e + Padding(n)) == e
  {
    var s := e + Padding(n);
    if n % 3 == 1 {
      assert s == e + ['=', '='];
      assert s[..|s| - 2] == e;
    } else if n % 3 == 2 {
      assert s == e + ['='];
      assert s[..|s| - 1] == e;
      assert |s| >= 2 ==> s[|s| - 2] == e[|e| - 1];
    } else {
      assert s == e;
      assert |e| >= 1 ==> IsBase64Char(e[|e| - 1]);
    }
  }

  /** The padded encoding holds no whitespace. */
  lemma EncodeHasNoSpace(b: seq<byte>)
    ensures RemoveAsciiWhitespace(Encode(b)) == Encode(b)
  {
    var e := EncodeUnpadded(b);
    var s := Encode(b);
    forall i | 0 <= i < |s| ensures !IsAsciiWhitespace(s[i]) {
      if i < |e| { assert s[i] == e[i]; }
    }
  }

  /** The padded encoding fills whole groups of four. */
  lemma EncodeFillsGroups(b: seq<byte>)
    ensures |Encode(b)| % 4 == 0
  {
    var n := |EncodeUnpadded(b)|;
    EncodedLength(b);
    assert |Encode(b)| == n + |Padding(|b|)|;
    if |b| % 3 == 0 {
      assert |Padding(|b|)| == 0;
    } else {
      assert n % 4 + |Padding(|b|)| == 4;
      FillGroup(n, |Padding(|b|)|);
    }
  }

  /** Whitespace removal and padding removal leave exactly the unpadded encoding. */
  lemma UnpaddedEncode(b: seq<byte>)
    ensures Unpadded(Encode(b)) == EncodeUnpadded(b)
  {
    EncodeHasNoSpace(b);
    EncodeFillsGroups(b);
    StripAddedPadding(EncodeUnpadded(b), |b|);
  }

  /** `atob` inverts the padded encoding: every byte comes back, in order. */
  lemma AtobEncode(b: seq<byte>)
    ensures Atob(Encode(b)) == Ok(BinaryString(b))
  {
    UnpaddedEncode(b);
    DecodeEncodeUnpadded(b);
  }
}
