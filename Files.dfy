/**
  Image artifacts: the browser `File` objects the editor keeps in its history. A file is a name,
  a MIME type and its bytes; the `File` constructor of the W3C File API normalises the type it is
  given (section 4.1 of the File API: a type with a character outside U+0020..U+007E becomes the
  empty string, any other is converted to ASCII lower case).
 */
module Files {
  import opened Base64

  datatype Artifact = Artifact(name: string, mimeType: string, bytes: seq<byte>)

  predicate IsPrintableAscii(c: char) {
    ' ' <= c <= '~'
  }

  function AsciiLower(c: char): char {
    if 'A' <= c <= 'Z' then (c as int + 32) as char else c
  }

  function LowerAll(t: string): (r: string)
    ensures |r| == |t|
    ensures forall i | 0 <= i < |t| :: r[i] == AsciiLower(t[i])
  {
    if t == [] then [] else [AsciiLower(t[0])] + LowerAll(t[1..])
  }

  /** The `type` a `File` ends up with when it is constructed with option `type: t`. */
  function FileType(t: string): string {
    if forall i | 0 <= i < |t| :: IsPrintableAscii(t[i]) then LowerAll(t) else ""
  }

  /** `new File([bytes], name, {type})`. */
  function NewFile(bytes: seq<byte>, name: string, mimeType: string): Artifact {
    Artifact(name, FileType(mimeType), bytes)
  }

  /** A type the File constructor leaves unchanged: printable ASCII with no upper-case letter. */
  predicate IsNormalType(t: string) {
    FileType(t) == t
  }

  /** Normalisation is idempotent, so every constructed file carries a normal type. */
  lemma FileTypeIsNormal(t: string)
    ensures IsNormalType(FileType(t))
  {
    var r := FileType(t);
    if forall i | 0 <= i < |t| :: IsPrintableAscii(t[i]) {
      assert forall i | 0 <= i < |r| :: IsPrintableAscii(r[i]) && AsciiLower(r[i]) == r[i];
      assert LowerAll(r) == r;
    } else {
      assert r == "";
    }
  }

  /** A normal type is printable ASCII without upper-case letters, and each such text is normal. */
  lemma NormalTypeChars(t: string)
    ensures IsNormalType(t) <==> forall i | 0 <= i < |t| :: IsPrintableAscii(t[i]) && !('A' <= t[i] <= 'Z')
  {
    if forall i | 0 <= i < |t| :: IsPrintableAscii(t[i]) && !('A' <= t[i] <= 'Z') {
      assert LowerAll(t) == t;
    }
    if IsNormalType(t) && forall i | 0 <= i < |t| :: IsPrintableAscii(t[i]) {
      forall i | 0 <= i < |t| ensures !('A' <= t[i] <= 'Z') {
        assert LowerAll(t)[i] == t[i];
      }
    }
  }
}
