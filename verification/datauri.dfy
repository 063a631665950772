/**
  The data-URI header the server puts in front of the base64 text of the
  canvas image before caching it, and the inverse step that removes that
  header before the cached text is decoded. The base64 text itself and the
  MIME sniffing are opaque inputs.
 */
module DataUri {
  import opened Text

  const PngPrefix := "data:image/png;base64,"
  const JpegPrefix := "data:image/jpeg;base64,"

  /** A character of the standard base64 alphabet, padding included. */
  predicate IsBase64Char(c: char)
  {
    ('A' <= c <= 'Z') || ('a' <= c <= 'z') || ('0' <= c <= '9') || c == '+' || c == '/' || c == '='
  }

  predicate IsBase64Text(s: string)
  {
    forall i :: 0 <= i < |s| ==> IsBase64Char(s[i])
  }

  /** The header chosen for a sniffed MIME type; any other type gets none. */
  function HeaderFor(mime: string): string
  {
    match mime
    case "image/jpeg" => JpegPrefix
    case "image/png" => PngPrefix
    case _ => ""
  }

  /** The string `imageToBase64String` returns for a file of type `mime` whose base64 text is `payload`. */
  function AddPrefix(mime: string, payload: string): (s: string)
    ensures mime == "image/png" ==> s == PngPrefix + payload
    ensures mime == "image/jpeg" ==> s == JpegPrefix + payload
    ensures mime != "image/png" && mime != "image/jpeg" ==> s == payload
  {
    HeaderFor(mime) + payload
  }

  /** The text `base64ToPng` hands to the base64 decoder: at most one known header removed. */
  function StripPrefix(data: string): (payload: string)
    ensures HasPrefix(data, PngPrefix) ==> data == PngPrefix + payload
    ensures HasPrefix(data, JpegPrefix) ==> data == JpegPrefix + payload
    ensures !HasPrefix(data, PngPrefix) && !HasPrefix(data, JpegPrefix) ==> payload == data
  {
    HeadersExclusive(data);
    if HasPrefix(data, PngPrefix) then data[|PngPrefix|..]
    else if HasPrefix(data, JpegPrefix) then data[|JpegPrefix|..]
    else data
  }

  /** No string carries both headers, so the order of the two tests does not matter. */
  lemma HeadersExclusive(s: string)
    ensures !(HasPrefix(s, PngPrefix) && HasPrefix(s, JpegPrefix))
  {
    if |s| > 11 {
      assert HasPrefix(s, PngPrefix) ==> s[11] == 'p';
      assert HasPrefix(s, JpegPrefix) ==> s[11] == 'j';
    }
  }

  /** Base64 text never starts with a header: ':' is not in the base64 alphabet. */
  lemma Base64HasNoHeader(b: string)
    requires IsBase64Text(b)
    ensures !HasPrefix(b, PngPrefix) && !HasPrefix(b, JpegPrefix)
  {
    if |b| > 4 {
      assert IsBase64Char(b[4]);
    }
  }

  /** Stripping undoes adding, for every MIME type, when the payload is base64 text. */
  lemma StripUndoesAdd(mime: string, b: string)
    requires IsBase64Text(b)
    ensures StripPrefix(AddPrefix(mime, b)) == b
  {
    var s := AddPrefix(mime, b);
    if mime == "image/png" {
      assert HasPrefix(s, PngPrefix);
    } else if mime == "image/jpeg" {
      assert HasPrefix(s, JpegPrefix);
      HeadersExclusive(s);
    } else {
      assert s == b;
      Base64HasNoHeader(b);
    }
  }
}
