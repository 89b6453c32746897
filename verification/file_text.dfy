/**
 * How a file's contents enter the prompt. The editor's `readFile` yields the
 * file's bytes (a `Uint8Array`), and the prompt is built by string
 * concatenation, which renders a `Uint8Array` as its decimal byte values
 * joined with commas. `JoinedBytes` models that as written; `DecodeText` is
 * the evidently intended text of the file, which the rest of the model uses.
 */
module FileText {
  import opened Text

  newtype byte = x: int | 0 <= x < 256

  /** As written: `"" + bytes`, i.e. `bytes.join(",")` of decimal numbers. */
  function JoinedBytes(bytes: seq<byte>): (r: string)
    ensures forall i :: 0 <= i < |r| ==> IsDigit(r[i]) || r[i] == ','
  {
    if bytes == [] then ""
    else if |bytes| == 1 then NatToString(bytes[0] as nat)
    else JoinedBytes(bytes[..|bytes| - 1]) + "," + NatToString(bytes[|bytes| - 1] as nat)
  }

  /** Intended: the file's text, one character per byte (exact for ASCII and Latin-1 files). */
  function DecodeText(bytes: seq<byte>): (r: string)
    ensures |r| == |bytes|
    ensures forall i :: 0 <= i < |r| ==> r[i] as int == bytes[i] as int
  {
    seq(|bytes|, i requires 0 <= i < |bytes| => bytes[i] as int as char)
  }

  predicate IsByteText(s: string)
  {
    forall i :: 0 <= i < |s| ==> s[i] as int < 256
  }

  /** The bytes of a one-byte-per-character file holding `s`. */
  function EncodeText(s: string): (r: seq<byte>)
    requires IsByteText(s)
    ensures |r| == |s|
  {
    seq(|s|, i requires 0 <= i < |s| => s[i] as int as byte)
  }

  /** Intended property: the prompt receives exactly the text the file holds. */
  lemma DecodeEncodedText(s: string)
    requires IsByteText(s)
    ensures DecodeText(EncodeText(s)) == s
  {
    var d := DecodeText(EncodeText(s));
    assert forall i :: 0 <= i < |s| ==> d[i] == s[i];
  }

  /** As written, a file holding `hi` is injected as `104,105`. */
  lemma JoinedBytesIsNotText()
    ensures EncodeText("hi") == [104, 105]
    ensures JoinedBytes(EncodeText("hi")) == "104,105" != "hi"
  {
    var b := EncodeText("hi");
    assert b == [104, 105];
    assert b[..1] == [104];
    assert NatToString(10) == "10";
    assert NatToString(104) == "104";
    assert NatToString(105) == "105";
  }

  /** As written, no file with a letter in it reaches the prompt as its text. */
  lemma JoinedBytesLosesLetters(bytes: seq<byte>, i: nat)
    requires i < |bytes| && IsLetter(bytes[i] as int as char)
    ensures JoinedBytes(bytes) != DecodeText(bytes)
  {
    var j := JoinedBytes(bytes);
    var d := DecodeText(bytes);
    if |j| == |d| {
      assert IsLetter(d[i]) && !IsLetter(j[i]);
      assert j[i] != d[i];
    }
  }
}
