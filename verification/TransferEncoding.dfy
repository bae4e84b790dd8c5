/**
  The content transfer encodings: which codec a body goes through.  Uudecoding
  is a parameter; there is no uuencoder, and the source hands such a body
  through unencoded.
 */
module TransferEncoding {
  import opened Octets
  import Base64
  import QuotedPrintable

  datatype Encoding = QP | Base64Encoding | Uuencode | Binary

  function Encoded(s: Bytes, e: Encoding, n: int): Bytes
  {
    match e
    case Base64Encoding => Base64.Encoded(s, n)
    case QP => QuotedPrintable.Encoded(s, false, n > 0)
    case _ => s
  }

  function Decoded(s: Bytes, e: Encoding, deUue: Bytes -> Bytes): Bytes
  {
    match e
    case Base64Encoding => Base64.Decoded(s)
    case QP => QuotedPrintable.Decoded(s, false)
    case Uuencode => deUue(s)
    case Binary => s
  }

  /** Decoding undoes encoding for base64, quoted-printable and binary, whatever the line length. */
  lemma RoundTrip(s: Bytes, e: Encoding, n: int, deUue: Bytes -> Bytes)
    requires e != Uuencode
    ensures Decoded(Encoded(s, e, n), e, deUue) == s
  {
    match e
    case Base64Encoding => Base64.RoundTrip(s, n);
    case QP => QuotedPrintable.RoundTrip(s, false, n > 0);
    case Binary =>
  }
}
