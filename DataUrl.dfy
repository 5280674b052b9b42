/**
  Data URLs in the "data" scheme of RFC 2397 with a base 64 body: how the editor turns a file into
  one (FileReader.readAsDataURL) and back (`dataURLtoFile` in App.tsx, whose header parsing
  `fileToPart` in services/geminiService.ts repeats). Both parsers split the text at ',' and take
  the MIME type from the first match of the regular expression /:(.*?);/ in the first piece.
 */
module DataUrl {
  import opened Outcomes
  import opened JsText
  import opened Base64
  import opened Files

  // ---------------------------------------------------------------------------------------------
  // The regular expression /:(.*?);/
  // ---------------------------------------------------------------------------------------------

  /**
    A match of /:(.*?);/ that starts at position i and ends at position j: a ':' at i, a ';' at j,
    and in between neither a ';' (the lazy group stops at the first one) nor a line terminator
    (which `.` does not match).
   */
  ghost predicate Closes(h: string, i: int, j: int) {
    0 <= i < j < |h| && h[i] == ':' && h[j] == ';' &&
    forall k | i < k < j :: h[k] != ';' && !IsLineTerminator(h[k])
  }

  /** The expression matches at position i. */
  ghost predicate MatchesAt(h: string, i: int) {
    exists j | i < j < |h| :: Closes(h, i, j)
  }

  /** The first ';' at or after k that no line terminator precedes. */
  function CloseFrom(h: string, k: nat): (r: Option<nat>)
    ensures r.Some? ==> k <= r.value < |h| && h[r.value] == ';'
    ensures r.Some? ==> forall m | k <= m < r.value :: h[m] != ';' && !IsLineTerminator(h[m])
    ensures r.None? ==> forall j | k <= j < |h| :: h[j] == ';' ==> exists m | k <= m < j :: IsLineTerminator(h[m])
    decreases |h| - k
  {
    if k >= |h| then None
    else if h[k] == ';' then Some(k)
    else if IsLineTerminator(h[k]) then None
    else CloseFrom(h, k + 1)
  }

  /** The leftmost match at or after position `from`, as the positions of its ':' and its ';'. */
  function SearchFrom(h: string, from: nat): (r: Option<(nat, nat)>)
    ensures r.Some? ==> from <= r.value.0 && Closes(h, r.value.0, r.value.1)
    ensures r.Some? ==> forall i | from <= i < r.value.0 :: !MatchesAt(h, i)
    ensures r.None? ==> forall i | from <= i < |h| :: !MatchesAt(h, i)
    decreases |h| - from
  {
    if from >= |h| then None
    else if h[from] == ':' && CloseFrom(h, from + 1).Some? then
      Some((from, CloseFrom(h, from + 1).value))
    else
      NoMatchAt(h, from);
      SearchFrom(h, from + 1)
  }

  /** Where the search passes a position, the expression does not match there. */
  lemma NoMatchAt(h: string, i: nat)
    requires i < |h| && !(h[i] == ':' && CloseFrom(h, i + 1).Some?)
    ensures !MatchesAt(h, i)
  {
    if h[i] == ':' {
      forall j | i < j < |h| ensures !Closes(h, i, j) {
        if h[j] == ';' {
          var m :| i + 1 <= m < j && IsLineTerminator(h[m]);
        }
      }
    }
  }

  /** A match ends at the first ';' after its ':', so its end is determined by its start. */
  lemma ClosesUnique(h: string, i: int, j: int, j': int)
    requires Closes(h, i, j) && Closes(h, i, j')
    ensures j == j'
  {
  }

  /** `h.match(/:(.*?);/)`, reduced to its capture group: the text between the ':' and the ';'. */
  function MimeMatch(h: string): (r: Option<string>)
  {
    match SearchFrom(h, 0)
    case None => None
    case Some((i, j)) => Some(h[i + 1..j])
  }

  /**
    The capture group is that of the leftmost match, and there is none exactly when the expression
    matches nowhere.
   */
  lemma MimeMatchIsLeftmost(h: string)
    ensures MimeMatch(h).None? <==> forall i | 0 <= i < |h| :: !MatchesAt(h, i)
    ensures MimeMatch(h).Some? ==>
      exists i, j | 0 <= i < j < |h| ::
        Closes(h, i, j) && MimeMatch(h).value == h[i + 1..j] &&
        forall i' | 0 <= i' < i :: !MatchesAt(h, i')
  {
    var r := SearchFrom(h, 0);
    if r.Some? {
      var (i, j) := r.value;
      assert MatchesAt(h, i);
    }
  }

  // ---------------------------------------------------------------------------------------------
  // Splitting a data URL
  // ---------------------------------------------------------------------------------------------

  datatype Parts = Parts(mimeType: string, payload: string)

  const InvalidDataUrlMessage: string := "Invalid data URL"
  const NoMimeTypeMessage: string := "Could not parse MIME type from data URL"

  /** Text of `s` before its first comma (the first piece of `s.split(',')`). */
  function Header(s: string): string
    requires ',' in s
  {
    s[..IndexOf(s, ',')]
  }

  /**
    The header parsing shared by `dataURLtoFile` and `fileToPart`: no comma is an invalid data URL;
    no match of /:(.*?);/ in the text before the first comma, or an empty group, is a missing MIME
    type; otherwise the MIME type is the group and the payload is the text after the first comma,
    up to the next comma if there is one.
   */
  function ParseDataUrl(s: string): (r: Result<Parts>)
    ensures r.Err? && r.failure.kind == InvalidDataUrl <==> ',' !in s
    ensures r.Err? && ',' in s ==>
      r.failure.kind == NoMimeType && (MimeMatch(Header(s)).None? || MimeMatch(Header(s)).value == [])
    ensures r.Ok? ==> ',' in s && r.value.mimeType != [] && MimeMatch(Header(s)) == Some(r.value.mimeType)
    ensures r.Ok? ==>
      var rest := s[IndexOf(s, ',') + 1..];
      ',' !in r.value.payload && StartsWith(rest, r.value.payload) &&
      (|r.value.payload| == |rest| || rest[|r.value.payload|] == ',')
  {
    var arr := Split(s, ',');
    SplitHasSecondPiece(s, ',');
    if |arr| < 2 then Err(Failure(InvalidDataUrl, InvalidDataUrlMessage))
    else
      SplitAtFirst(s, ',');
      SplitPiecesOmitSeparator(s, ',');
      var rest := s[IndexOf(s, ',') + 1..];
      SplitSecondPiece(rest, ',');
      match MimeMatch(arr[0])
      case None => Err(Failure(NoMimeType, NoMimeTypeMessage))
      case Some(m) =>
        if m == [] then Err(Failure(NoMimeType, NoMimeTypeMessage)) else Ok(Parts(m, arr[1]))
  }

  /** A header without a ';' has nowhere for /:(.*?);/ to close, so the MIME type is missing. */
  lemma HeaderWithoutSemicolonRejected(s: string)
    requires ',' in s && ';' !in Header(s)
    ensures ParseDataUrl(s) == Err(Failure(NoMimeType, NoMimeTypeMessage))
  {
    MimeMatchIsLeftmost(Header(s));
  }

  /** The first piece of a split is a prefix that ends at a separator or at the end. */
  lemma SplitSecondPiece(rest: string, sep: char)
    ensures var p := Split(rest, sep)[0];
      StartsWith(rest, p) && (|p| == |rest| || rest[|p|] == sep)
  {
  }

  /** The data URL FileReader.readAsDataURL produces for a MIME type and a base 64 body. */
  function FormatDataUrl(mimeType: string, payload: string): string {
    "data:" + mimeType + ";base64," + payload
  }

  /** A MIME type whose characters cannot end the header or the expression's group early. */
  predicate HeaderSafeChars(t: string) {
    ';' !in t && ',' !in t && forall i | 0 <= i < |t| :: !IsLineTerminator(t[i])
  }

  /** A MIME type that survives the trip through a data URL's header. */
  predicate IsHeaderSafe(t: string) {
    t != [] && HeaderSafeChars(t)
  }

  /**
    Parsing a formatted data URL gives back its MIME type and body; an empty MIME type is
    reported as missing.
   */
  lemma ParseFormat(t: string, payload: string)
    requires HeaderSafeChars(t) && ',' !in payload
    ensures ParseDataUrl(FormatDataUrl(t, payload)) ==
      if t == [] then Err(Failure(NoMimeType, NoMimeTypeMessage)) else Ok(Parts(t, payload))
  {
    var h := "data:" + t + ";base64";
    assert ',' !in h by {
      assert forall i | 0 <= i < |h| :: h[i] == ',' ==> 5 <= i < 5 + |t| && h[i] == t[i - 5];
    }
    assert FormatDataUrl(t, payload) == Join([h, payload], ',');
    SplitJoin([h, payload], ',');
    HeaderMatch(t);
  }

  /** In the header "data:<t>;base64" the first match of /:(.*?);/ captures t. */
  lemma HeaderMatch(t: string)
    requires HeaderSafeChars(t)
    ensures MimeMatch("data:" + t + ";base64") == Some(t)
  {
    var h := "data:" + t + ";base64";
    var e := 5 + |t|;
    assert h[4] == ':' && h[e] == ';';
    assert forall k | 4 < k < e :: h[k] == t[k - 5];
    assert Closes(h, 4, e);
    assert MatchesAt(h, 4);
    var r := SearchFrom(h, 0);
    assert h[0] == 'd' && h[1] == 'a' && h[2] == 't' && h[3] == 'a';
    var (i, j) := r.value;
    assert i == 4;
    ClosesUnique(h, 4, j, e);
    assert h[5..e] == t;
  }

  // ---------------------------------------------------------------------------------------------
  // Files to data URLs and back
  // ---------------------------------------------------------------------------------------------

  /** `fileToDataURL`: FileReader.readAsDataURL on the file. */
  function FileToDataUrl(f: Artifact): string {
    FormatDataUrl(f.mimeType, Encode(f.bytes))
  }

  /** What storing `charCodeAt` results into a Uint8Array keeps of each character: its code modulo 256. */
  function CodeUnitByte(c: char): byte {
    (c as int % 256) as byte
  }

  /** The bytes of a binary string, one per character. */
  function CharCodes(bstr: string): (b: seq<byte>)
    ensures |b| == |bstr|
    ensures forall i | 0 <= i < |bstr| :: b[i] == CodeUnitByte(bstr[i])
  {
    seq(|bstr|, i requires 0 <= i < |bstr| => CodeUnitByte(bstr[i]))
  }

  /**
    `dataURLtoFile(dataurl, filename)` as a value: the parse errors of ParseDataUrl, then the error
    of `atob` on the payload, and otherwise a file of the given name whose type is the header's
    MIME type and whose bytes are the decoded payload.
   */
  function FileFromDataUrl(dataurl: string, filename: string): (r: Result<Artifact>)
    ensures r.Ok? ==> r.value.name == filename && IsNormalType(r.value.mimeType)
  {
    match ParseDataUrl(dataurl)
    case Err(f) => Err(f)
    case Ok(p) =>
      match Atob(p.payload)
      case Err(f) => Err(f)
      case Ok(bstr) =>
        FileTypeIsNormal(p.mimeType);
        Ok(NewFile(CharCodes(bstr), filename, p.mimeType))
  }

  /**
    `dataURLtoFile`: parses the header, decodes the body with `atob`, and fills a byte array from
    the last index down (`while (n--) u8arr[n] = bstr.charCodeAt(n)`).
   */
  method DataUrlToFile(dataurl: string, filename: string) returns (r: Result<Artifact>)
    ensures r == FileFromDataUrl(dataurl, filename)
    ensures r.Ok? ==>
      Atob(ParseDataUrl(dataurl).value.payload).Ok? &&
      r.value.bytes == CharCodes(Atob(ParseDataUrl(dataurl).value.payload).value)
  {
    var parsed := ParseDataUrl(dataurl);
    if parsed.Err? {
      return Err(parsed.failure);
    }
    var mime := parsed.value.mimeType;
    var decoded := Atob(parsed.value.payload);
    if decoded.Err? {
      return Err(decoded.failure);
    }
    var u8arr := FillCharCodes(decoded.value);
    return Ok(NewFile(u8arr[..], filename, mime));
  }

  /** `new Uint8Array(n)` filled from the last index down: `while (n--) u8arr[n] = bstr.charCodeAt(n)`. */
  method FillCharCodes(bstr: string) returns (u8arr: array<byte>)
    ensures fresh(u8arr)
    ensures u8arr[..] == CharCodes(bstr)
  {
    var n := |bstr|;
    u8arr := new byte[n];
    while n > 0
      invariant 0 <= n <= |bstr| == u8arr.Length
      invariant forall i | n <= i < |bstr| :: u8arr[i] == CodeUnitByte(bstr[i])
      decreases n
    {
      n := n - 1;
      u8arr[n] := CodeUnitByte(bstr[n]);
    }
  }

  /** A file whose type is normal and header-safe comes back whole from its data URL. */
  lemma FileRoundTrip(f: Artifact)
    requires IsNormalType(f.mimeType) && IsHeaderSafe(f.mimeType)
    ensures FileFromDataUrl(FileToDataUrl(f), f.name) == Ok(f)
  {
    var payload := Encode(f.bytes);
    EncodeAlphabet(f.bytes);
    ParseFormat(f.mimeType, payload);
    AtobEncode(f.bytes);
    CharCodesBinary(f.bytes);
  }

  /** Reading back the character codes of a binary string gives its bytes. */
  lemma CharCodesBinary(b: seq<byte>)
    ensures CharCodes(BinaryString(b)) == b
  {
  }

  /** The padded encoding uses only the alphabet and '='. */
  lemma EncodeAlphabet(b: seq<byte>)
    ensures ',' !in Encode(b)
  {
    var e := EncodeUnpadded(b);
    assert forall i | 0 <= i < |Encode(b)| :: i < |e| ==> Encode(b)[i] == e[i];
    assert forall i | 0 <= i < |Encode(b)| :: IsBase64Char(Encode(b)[i]) || Encode(b)[i] == '=';
  }
}
