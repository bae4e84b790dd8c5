/**
  Parts that carry data: which data come back when the parts are printed, the
  text is split and the bodies are read.  The header says how the data are
  encoded.  What type a Content-Type value means is a parameter.
 */
module Attachments {
  import opened Octets
  import opened HeaderCase
  import opened HeaderText
  import opened Names
  import opened TransferEncoding
  import Base64
  import Base64Meaning
  import LineEndings
  import Multipart
  import NameSpelling
  import QuotedPrintable
  import QuotedTransit
  import Tokens

  datatype Attachment = Attachment(fields: seq<RawField>, data: Bytes)

  // --------------------------------------------------------- what a part says

  /** The first field of that name; the number of fields if there is none. */
  function FirstField(fs: seq<RawField>, name: Bytes): (i: nat)
    ensures i <= |fs|
  {
    if fs == [] || HeaderCased(fs[0].name) == name then 0 else 1 + FirstField(fs[1..], name)
  }

  const SEVEN_BIT: Bytes := [55, 98, 105, 116]
  const EIGHT_BIT: Bytes := [56, 98, 105, 116]
  const EIGHT_BITS: Bytes := [56, 98, 105, 116, 115]
  const BINARY: Bytes := [98, 105, 110, 97, 114, 121]
  const UNKNOWN: Bytes := [117, 110, 107, 110, 111, 119, 110]
  const QUOTED_PRINTABLE: Bytes := [113, 117, 111, 116, 101, 100, 45, 112, 114, 105, 110, 116, 97, 98, 108, 101]
  const BASE64: Bytes := [98, 97, 115, 101, 54, 52]
  const UUENCODE: Bytes := [117, 117, 101, 110, 99, 111, 100, 101]
  const X_UUENCODE: Bytes := [120, 45] + UUENCODE
  const BIT: Bytes := [98, 105, 116]

  predicate Contains(s: Bytes, w: Bytes) { exists i :: 0 <= i <= |s| && HasAt(s, i, w) }

  /** The encoding a value names, if it is one. */
  function Spoken(value: Bytes): Option<Encoding>
  {
    var t := Lower(Tokens.MIMEValue(value, 0).text);
    if t == SEVEN_BIT || t == EIGHT_BIT || t == EIGHT_BITS || t == BINARY || t == UNKNOWN then Some(Binary)
    else if t == QUOTED_PRINTABLE then Some(QP)
    else if t == BASE64 then Some(Base64Encoding)
    else if t == X_UUENCODE || t == UUENCODE then Some(Uuencode)
    else if t != [] && Contains(t, BIT) && IsDigit(t[0]) then Some(Binary)
    else None
  }

  predicate IsColonOrSpace(c: Byte) { c == COLON || c == SP }

  /**
    The encoding a Content-Transfer-Encoding stands for.  A value that names none
    is tried again without leading colons and spaces, and is quoted-printable if
    that names none either.  `None` if nothing is left to try, which stops the
    program.
   */
  function EncodingNamed(value: Bytes): Option<Encoding>
  {
    var i := SpanEnd(value, 0, IsColonOrSpace);
    if Spoken(value).Some? then Spoken(value)
    else if i == |value| then None
    else if Spoken(value[i..]).Some? then Spoken(value[i..])
    else Some(QP)
  }

  /** What each Content-Transfer-Encoding stands for, in order. */
  function Encodings(fs: seq<RawField>): seq<Option<Encoding>>
  {
    if fs == [] then []
    else OwnEncoding(fs[0]) + Encodings(fs[1..])
  }

  function OwnEncoding(f: RawField): seq<Option<Encoding>>
  {
    if HeaderCased(f.name) == CONTENT_TRANSFER_ENCODING then [EncodingNamed(f.value)] else []
  }

  /** The first one counts; `None` if one of them stops the program. */
  function EncodingOf(fs: seq<RawField>): Option<Encoding>
  {
    var es := Encodings(fs);
    if None in es then None else if es == [] then Some(Binary) else es[0]
  }

  /** The encoding the fields ask for, where they do not stop the program. */
  function EncodingUsed(fs: seq<RawField>): Encoding
  {
    match EncodingOf(fs)
    case None => Binary
    case Some(e) => e
  }

  /** The part has a type that is printed as encoded data. */
  predicate CarriesData(fs: seq<RawField>, typeOf: Bytes -> Bytes)
  {
    var i := FirstField(fs, CONTENT_TYPE);
    i < |fs| && var t := typeOf(fs[i].value); t != MESSAGE && Lower(t) != TEXT && t != MULTIPART
  }

  // ---------------------------------------------------------------- printing

  /** The line length the printer asks for. */
  const LINE_LENGTH := 72

  function AsPart(a: Attachment): Multipart.Part
  {
    Multipart.Part(a.fields, Encoded(a.data, EncodingUsed(a.fields), LINE_LENGTH))
  }

  function AsParts(atts: seq<Attachment>): (ps: seq<Multipart.Part>)
    ensures |ps| == |atts| && forall k :: 0 <= k < |atts| ==> ps[k] == AsPart(atts[k])
  {
    seq(|atts|, k requires 0 <= k < |atts| => AsPart(atts[k]))
  }

  /** The header is readable, the encoding has an inverse, and neither holds a boundary line; base64 never does. */
  predicate LegalAttachment(a: Attachment, d: Bytes, typeOf: Bytes -> Bytes)
  {
    && AllLegal(a.fields, CANONICAL)
    && (forall k :: 0 <= k < |a.fields| ==> Readable(a.fields[k]))
    && CarriesData(a.fields, typeOf)
    && EncodingOf(a.fields).Some? && EncodingUsed(a.fields) != Uuencode
    && Multipart.Quiet(if EncodingUsed(a.fields) == Base64Encoding then Printed(a.fields, CANONICAL) else Multipart.PartText(AsPart(a), Multipart.PLAIN), d)
  }

  lemma {:induction false} PrintedEndsLine(fs: seq<RawField>)
    ensures Printed(fs, CANONICAL) != [] ==> Printed(fs, CANONICAL)[|Printed(fs, CANONICAL)| - 1] == LF
  {
    if fs != [] { PrintedEndsLine(fs[1..]); }
  }

  /** A text without dashes after the header holds no boundary line. */
  lemma QuietBody(h: Bytes, body: Bytes, d: Bytes)
    requires Multipart.LegalDivider(d) && (h != [] ==> h[|h| - 1] == LF)
    requires forall k :: 0 <= k < |body| ==> body[k] != DASH
    ensures Multipart.Quiet(h + CRLF + body, d) <==> Multipart.Quiet(h, d)
  {
    hide Multipart.DividesAt, Multipart.LegalDivider;
    var t, rest := h + CRLF + body, CRLF + body;
    assert t == h + rest;
    forall k | 0 <= k < |t| && Multipart.NewLine(t, k)
      ensures Multipart.DividesAt(t, d, k) <==> k < |h| && Multipart.NewLine(h, k) && Multipart.DividesAt(h, d, k)
    {
      if k < |h| { InHeader(h, rest, k, d); } else { NoDash(t, d, k); }
    }
    assert forall k :: 0 <= k < |h| && Multipart.NewLine(h, k) ==> Multipart.NewLine(t, k);
  }

  lemma NoDash(t: Bytes, d: Bytes, k: nat)
    requires k < |t| && t[k] != DASH
    ensures !Multipart.DividesAt(t, d, k)
  {
    Multipart.HasAtFirst(t, k, Multipart.Delimiter(d));
  }

  /** A boundary line does not stretch over the line end. */
  lemma InHeader(h: Bytes, rest: Bytes, k: nat, d: Bytes)
    requires k < |h| && h[|h| - 1] == LF && Multipart.LegalDivider(d)
    ensures Multipart.DividesAt(h + rest, d, k) <==> Multipart.DividesAt(h, d, k)
  {
    hide Multipart.EndsLine;
    StandsInHeader(h, rest, k, Multipart.Delimiter(d));
    if HasAt(h, k, Multipart.Delimiter(d)) {
      var j := k + 2 + |d|;
      HasAtByte(h, k, Multipart.Delimiter(d), |d| + 1);
      EndsInHeader(h, rest, j);
    }
  }

  lemma StandsInHeader(h: Bytes, rest: Bytes, k: nat, w: Bytes)
    requires k < |h| && h[|h| - 1] == LF && NoBreaks(w)
    ensures HasAt(h + rest, k, w) <==> HasAt(h, k, w)
  {
    var t := h + rest;
    if k + |w| <= |h| {
      assert t[k..k + |w|] == h[k..k + |w|];
    } else if k + |w| <= |t| {
      assert t[k..k + |w|][|h| - 1 - k] == LF;
    }
  }

  lemma EndsInHeader(h: Bytes, rest: Bytes, j: nat)
    requires j < |h| && h[|h| - 1] == LF
    ensures Multipart.EndsLine(h + rest, j) <==> Multipart.EndsLine(h, j)
  {
    StandsInHeader(h, rest, j, DASHES);
    var k := if HasAt(h, j, DASHES) then j + 2 else j;
    if HasAt(h, j, DASHES) { HasAtByte(h, j, DASHES, 1); }
    SpanStops(h, k, IsBlank, |h| - 1);
    SpanIs(h + rest, k, IsBlank, SpanEnd(h, k, IsBlank));
  }

  lemma EncodedHasNoDash(data: Bytes, n: int)
    ensures var r := Base64.Encoded(data, n); forall k :: 0 <= k < |r| ==> r[k] != DASH
  {
    Base64.EncodeFromAlphabet(data, n, 0, [], 0);
  }

  lemma LegalAsPart(a: Attachment, d: Bytes, typeOf: Bytes -> Bytes)
    requires Multipart.LegalDivider(d) && LegalAttachment(a, d, typeOf)
    ensures Multipart.LegalPart(AsPart(a), d, Multipart.PLAIN)
  {
    hide Printed, Base64.Encoded, Multipart.Quiet, EncodingOf, EncodingUsed, CarriesData;
    if EncodingUsed(a.fields) == Base64Encoding {
      EncodedHasNoDash(a.data, LINE_LENGTH);
      PrintedEndsLine(a.fields);
      QuietBody(Printed(a.fields, CANONICAL), Base64.Encoded(a.data, LINE_LENGTH), d);
    }
  }

  /** What is printed: base64 in lines of 72 characters, quoted-printable that guards its line starts, or the data. */
  lemma PrintsAs(a: Attachment)
    ensures AsPart(a).fields == a.fields
    ensures AsPart(a).body ==
            match EncodingUsed(a.fields)
            case Base64Encoding => Base64Meaning.Chunked(Base64Meaning.Plain(a.data), 72, |a.data| % 3 != 0)
            case QP => QuotedPrintable.Encoded(a.data, false, true)
            case _ => a.data
  {
    hide Base64Meaning.Plain, Base64Meaning.Chunked, Base64.Encoded, QuotedPrintable.Encoded, EncodingUsed;
    Base64Meaning.EncodedLines(a.data, 72);
  }

  // --------------------------------------------------------------- reading

  /** What the reader makes of a part's body. */
  datatype Reception = Stopped | Received(data: Bytes)

  predicate Blank(body: Bytes) { body == [] || body == [CR] || body == [LF] || body == CRLF }

  /** Several encodings are named, quoted-printable among them. */
  predicate Muddled(fs: seq<RawField>) { |Encodings(fs)| > 1 && Some(QP) in Encodings(fs) }

  /** Where the encodings named are said not to matter, none is undone. */
  function EncodingRead(fs: seq<RawField>, body: Bytes): Encoding
  {
    if Muddled(fs) && EQUALS !in body then Binary else EncodingUsed(fs)
  }

  /**
    An empty body, or one of a lone CR, stops the program; one of a line break is
    taken as empty.  Line breaks are made canonical unless the text is base64 or
    uuencoded.
   */
  function Reading(fs: seq<RawField>, body: Bytes, deUue: Bytes -> Bytes): Reception
  {
    if body == [] || body == [CR] then Stopped
    else if body == [LF] || body == CRLF then Received([])
    else
      var e := EncodingRead(fs, body);
      var text := if e == Base64Encoding || e == Uuencode then body else LineEndings.Rewritten(body, false);
      Received(Decoded(text, e, deUue))
  }

  method ReadBody(fs: seq<RawField>, text: Bytes, deUue: Bytes -> Bytes) returns (r: Reception)
    ensures r == Reading(fs, text, deUue)
  {
    hide LineEndings.Rewritten, Decoded, Encodings;
    var start, end := 0, |text|;
    if start >= end { return Stopped; }
    if text[start] == CR { start := start + 1; }
    if start >= end {
      assert text == [CR];
      return Stopped;
    }
    if text[start] == LF { start := start + 1; }
    if end <= start {
      assert text == [LF] || text == CRLF;
      return Received([]);
    }
    var e := EncodingUsed(fs);
    if EQUALS !in text && Muddled(fs) { e := Binary; }
    var body := text;
    if e != Base64Encoding && e != Uuencode { body := LineEndings.ToCRLF(text); }
    return Received(Decoded(body, e, deUue));
  }

  /** Nothing and a lone CR stop the program; a line break is taken as nothing. */
  lemma BlankReads(fs: seq<RawField>, deUue: Bytes -> Bytes)
    ensures Reading(fs, [], deUue) == Stopped && Reading(fs, ['\r' as int], deUue) == Stopped
    ensures Reading(fs, ['\n' as int], deUue) == Received([]) && Reading(fs, ['\r' as int, '\n' as int], deUue) == Received([])
  {
  }

  // ------------------------------------------------- which encoding is meant

  predicate AllToken(v: Bytes) { forall k :: 0 <= k < |v| ==> Tokens.IsTokenChar(v[k]) }

  lemma TokenIsRead(v: Bytes)
    requires v != [] && AllToken(v)
    ensures Tokens.MIMEValue(v, 0).text == v
  {
    Tokens.CommentNone(v, 0);
    SpanIs(v, 0, Tokens.IsTokenChar, |v|);
    assert v[0..|v|] == v;
  }

  /** The spellings of an encoding, in any case. */
  predicate Spells(v: Bytes, e: Encoding)
  {
    var t := Lower(v);
    match e
    case Binary => IsText(t, "7bit") || IsText(t, "8bit") || IsText(t, "8bits") || IsText(t, "binary") || IsText(t, "unknown")
    case QP => IsText(t, "quoted-printable")
    case Base64Encoding => IsText(t, "base64")
    case Uuencode => IsText(t, "x-uuencode") || IsText(t, "uuencode")
  }

  lemma SpellingsAre()
    ensures IsText(SEVEN_BIT, "7bit") && IsText(EIGHT_BIT, "8bit") && IsText(EIGHT_BITS, "8bits") && IsText(BINARY, "binary")
    ensures IsText(UNKNOWN, "unknown") && IsText(QUOTED_PRINTABLE, "quoted-printable") && IsText(BASE64, "base64")
    ensures IsText(UUENCODE, "uuencode") && IsText(X_UUENCODE, "x-uuencode") && IsText(BIT, "bit")
  {
  }

  lemma SpellsMeans(v: Bytes, e: Encoding)
    ensures var t := Lower(v);
            Spells(v, e) <==>
            match e
            case Binary => t == SEVEN_BIT || t == EIGHT_BIT || t == EIGHT_BITS || t == BINARY || t == UNKNOWN
            case QP => t == QUOTED_PRINTABLE
            case Base64Encoding => t == BASE64
            case Uuencode => t == X_UUENCODE || t == UUENCODE
  {
    hide IsText, Lower;
    var t := Lower(v);
    SpellingsAre();
    SameText(SEVEN_BIT, t, "7bit");
    SameText(EIGHT_BIT, t, "8bit");
    SameText(EIGHT_BITS, t, "8bits");
    SameText(BINARY, t, "binary");
    SameText(UNKNOWN, t, "unknown");
    SameText(QUOTED_PRINTABLE, t, "quoted-printable");
    SameText(BASE64, t, "base64");
    SameText(X_UUENCODE, t, "x-uuencode");
    SameText(UUENCODE, t, "uuencode");
  }

  lemma TokenSpelled(v: Bytes, e: Encoding)
    requires Spells(v, e)
    ensures v != [] && AllToken(v)
  {
    hide IsText, Spells;
    SpellsMeans(v, e);
    var t := Lower(v);
    forall k | 0 <= k < |v| ensures Tokens.IsTokenChar(v[k]) { assert Tokens.IsTokenChar(t[k]); }
  }

  lemma SpokenAs(v: Bytes, e: Encoding)
    requires Spells(v, e) && Tokens.MIMEValue(v, 0).text == v
    ensures Spoken(v) == Some(e)
  {
    hide Tokens.MIMEValue, IsText, Spells, Lower;
    SpellsMeans(v, e);
  }

  /** Each of the spellings names its encoding. */
  lemma NamesEncoding(v: Bytes, e: Encoding)
    requires Spells(v, e)
    ensures EncodingNamed(v) == Some(e)
  {
    hide Tokens.MIMEValue, Spells, Spoken;
    TokenSpelled(v, e);
    TokenIsRead(v);
    SpokenAs(v, e);
  }

  /** Colons and spaces in front do not matter. */
  lemma ColonsSkipped(c: Bytes, v: Bytes, e: Encoding)
    requires Spells(v, e) && forall k :: 0 <= k < |c| ==> IsColonOrSpace(c[k])
    ensures EncodingNamed(c + v) == Some(e)
  {
    hide Tokens.MIMEValue, Spells, Spoken;
    var s := c + v;
    TokenSpelled(v, e);
    TokenIsRead(v);
    SpokenAs(v, e);
    SpanIs(s, 0, IsColonOrSpace, |c|);
    assert s[|c|..] == v;
    AfterBlanks(c, v, e);
  }

  lemma AfterBlanks(c: Bytes, v: Bytes, e: Encoding)
    requires v != [] && AllToken(v) && Spoken(v) == Some(e) && Tokens.MIMEValue(v, 0).text == v
    requires forall k :: 0 <= k < |c| ==> IsColonOrSpace(c[k])
    ensures Spoken(c + v) == Some(e) || Spoken(c + v) == None
  {
    hide Spoken, SpanEnd;
    var s := c + v;
    var k := SpanEnd(s, 0, Tokens.IsWhitespace);
    assert forall j :: 0 <= j < |c| ==> s[j] == c[j];
    assert s[|c|] == v[0];
    SpanStops(s, 0, Tokens.IsWhitespace, |c|);
    assert Tokens.Comment(s, 0).at == k;
    if k == |c| {
      TokenAfter(c, v);
      SameToken(s, v);
    } else {
      assert s[k] == COLON;
      NothingAtColon(s, k);
    }
  }

  lemma SameToken(s: Bytes, v: Bytes)
    requires Tokens.MIMEValue(s, 0).text == Tokens.MIMEValue(v, 0).text
    ensures Spoken(s) == Spoken(v)
  {
  }

  lemma TokenAfter(c: Bytes, v: Bytes)
    requires v != [] && AllToken(v) && Tokens.Comment(c + v, 0).at == |c|
    ensures Tokens.MIMEValue(c + v, 0).text == v
  {
    hide Tokens.QuotedRest, Tokens.Comment;
    var s, k := c + v, |c|;
    assert forall j :: k <= j < |s| ==> s[j] == v[j - k];
    assert s[k] == v[0];
    Tokens.CommentNone(s, k);
    SpanIs(s, k, Tokens.IsTokenChar, |s|);
    assert s[k..|s|] == v;
  }

  lemma NothingAtColon(s: Bytes, k: nat)
    requires k < |s| && s[k] == COLON && Tokens.Comment(s, 0).at == k
    ensures Spoken(s) == None
  {
    Tokens.CommentNone(s, k);
    Tokens.RunStep(s, k, Tokens.IsTokenChar, []);
    assert Tokens.MIMEValue(s, 0).text == [];
  }

  /** Any other token means quoted-printable, unless it starts with a digit and has `bit` in it. */
  lemma OtherwiseQuoted(v: Bytes)
    requires v != [] && AllToken(v) && forall e: Encoding :: !Spells(v, e)
    ensures EncodingNamed(v) == Some(if IsDigit(v[0]) && Contains(Lower(v), BIT) then Binary else QP)
  {
    hide Tokens.MIMEValue, Spells, Contains;
    TokenIsRead(v);
    SpellsMeans(v, Binary);
    SpellsMeans(v, QP);
    SpellsMeans(v, Base64Encoding);
    SpellsMeans(v, Uuencode);
    assert Lower(v)[0] == LowerByte(v[0]);
    SpanIs(v, 0, IsColonOrSpace, 0);
    assert v[0..] == v;
  }

  /** Nothing but colons and spaces stops the program. */
  lemma NothingNamed(c: Bytes)
    requires forall k :: 0 <= k < |c| ==> IsColonOrSpace(c[k])
    ensures EncodingNamed(c) == None
  {
    var k := SpanEnd(c, 0, Tokens.IsWhitespace);
    SpanIs(c, 0, IsColonOrSpace, |c|);
    if k < |c| {
      assert Tokens.Comment(c, 0).at == k;
      NothingAtColon(c, k);
    } else {
      assert Tokens.Comment(c, 0).at == |c|;
      assert Tokens.MIMEValue(c, 0).text == [];
    }
  }

  /** A field that says how the part is encoded. */
  predicate SaysEncoding(f: RawField) { IsText(Lower(f.name), "content-transfer-encoding") }

  lemma EncodingField(f: RawField)
    ensures SaysEncoding(f) <==> HeaderCased(f.name) == CONTENT_TRANSFER_ENCODING
  {
    hide HeaderCased, Lower, IsText;
    NameSpelling.ContentTransferEncodingSpelled();
    NameSpelling.KeyIs(f.name, CONTENT_TRANSFER_ENCODING, "content-transfer-encoding");
  }

  lemma {:induction false} EncodingsConcat(a: seq<RawField>, b: seq<RawField>)
    ensures Encodings(a + b) == Encodings(a) + Encodings(b)
  {
    hide OwnEncoding;
    if a == [] {
      assert a + b == b;
    } else {
      assert (a + b)[0] == a[0] && (a + b)[1..] == a[1..] + b;
      EncodingsConcat(a[1..], b);
      var h, x, y := OwnEncoding(a[0]), Encodings(a[1..]), Encodings(b);
      assert h + (x + y) == h + x + y;
    }
  }

  lemma {:induction false} NoEncodings(fs: seq<RawField>)
    requires forall k :: 0 <= k < |fs| ==> !SaysEncoding(fs[k])
    ensures Encodings(fs) == []
  {
    hide EncodingNamed, HeaderCased, SaysEncoding;
    if fs != [] {
      EncodingField(fs[0]);
      NoEncodings(fs[1..]);
    }
  }

  lemma OneEncoding(a: seq<RawField>, f: RawField, b: seq<RawField>, e: Encoding)
    requires forall k :: 0 <= k < |a| ==> !SaysEncoding(a[k])
    requires forall k :: 0 <= k < |b| ==> !SaysEncoding(b[k])
    requires SaysEncoding(f) && Spells(f.value, e)
    ensures Encodings(a + [f] + b) == [Some(e)]
  {
    hide Encodings, SaysEncoding, Spells;
    EncodingsConcat(a + [f], b);
    EncodingsConcat(a, [f]);
    NoEncodings(a);
    NoEncodings(b);
    EncodingAlone(f, e);
  }

  lemma EncodingAlone(f: RawField, e: Encoding)
    requires SaysEncoding(f) && Spells(f.value, e)
    ensures Encodings([f]) == [Some(e)]
  {
    hide EncodingNamed, HeaderCased, SaysEncoding, Spells;
    EncodingField(f);
    NamesEncoding(f.value, e);
    assert [f][1..] == [];
  }

  /**
    A part with one Content-Transfer-Encoding, in any spelling and at any place,
    and a body that is not blank is decoded by that codec; without one, only
    its line breaks are made canonical.
   */
  lemma ReadsAs(a: seq<RawField>, f: RawField, b: seq<RawField>, e: Encoding, body: Bytes, deUue: Bytes -> Bytes)
    requires forall k :: 0 <= k < |a| ==> !SaysEncoding(a[k])
    requires forall k :: 0 <= k < |b| ==> !SaysEncoding(b[k])
    requires SaysEncoding(f) && Spells(f.value, e) && !Blank(body)
    ensures Reading(a + [f] + b, body, deUue) ==
            match e
            case Base64Encoding => Received(Base64.Decoded(body))
            case QP => Received(QuotedPrintable.Decoded(LineEndings.Rewritten(body, false), false))
            case Binary => Received(LineEndings.Rewritten(body, false))
            case Uuencode => Received(deUue(body))
    ensures Reading(a + b, body, deUue) == Received(LineEndings.Rewritten(body, false))
  {
    hide Encodings, SaysEncoding, Spells, Base64.Decoded, QuotedPrintable.Decoded, LineEndings.Rewritten;
    OneEncoding(a, f, b, e);
    NoEncodings(a + b);
  }

  /** Reading by one codec. */
  function ReadBy(e: Encoding, body: Bytes, deUue: Bytes -> Bytes): Reception
  {
    match e
    case Base64Encoding => Received(Base64.Decoded(body))
    case QP => Received(QuotedPrintable.Decoded(LineEndings.Rewritten(body, false), false))
    case Binary => Received(LineEndings.Rewritten(body, false))
    case Uuencode => Received(deUue(body))
  }

  /** Of two encodings the first counts, except that neither does if one is quoted-printable and the body has no `=`. */
  lemma ReadsTwice(f: RawField, e: Encoding, g: RawField, other: Encoding, body: Bytes, deUue: Bytes -> Bytes)
    requires SaysEncoding(f) && Spells(f.value, e) && SaysEncoding(g) && Spells(g.value, other) && !Blank(body)
    ensures Reading([f, g], body, deUue) ==
            ReadBy(if (e == QP || other == QP) && '=' as int !in body then Binary else e, body, deUue)
  {
    hide Encodings, SaysEncoding, Spells, Base64.Decoded, QuotedPrintable.Decoded, LineEndings.Rewritten;
    assert [f, g] == [f] + [g];
    EncodingsConcat([f], [g]);
    EncodingAlone(f, e);
    EncodingAlone(g, other);
  }

  // -------------------------------------------------------- what comes back

  /** What it takes for the data to come back. */
  predicate Survives(fs: seq<RawField>, data: Bytes)
  {
    match EncodingUsed(fs)
    case Base64Encoding => data != [] && !(Muddled(fs) && |data| % 3 == 0)
    case QP => QuotedTransit.WholeLines(data) && data != CRLF
    case _ => LineEndings.Canonical(data) && data != CRLF
  }

  lemma {:induction false} DigitsFewer(s: Bytes, lf: bool)
    ensures |Base64.Digits(s)| <= |LineEndings.Rewritten(s, lf)|
    decreases |s|
  {
    if s != [] {
      var w := LineEndings.BreakWidth(s);
      if w > 0 {
        DigitsFewer(s[w..], true);
        assert forall k :: 0 <= k < w ==> IsBreak(s[k]) && s[..w][k] == s[k];
        Base64.DigitsOfIgnored(s[..w]);
        assert s == s[..w] + s[w..];
        Base64.DigitsConcat(s[..w], s[w..]);
      } else {
        DigitsFewer(s[1..], false);
      }
    }
  }

  /** Breaks alone hold no data. */
  lemma BreaksEmpty(s: Bytes)
    requires forall k :: 0 <= k < |s| ==> IsBreak(s[k])
    ensures Base64.Decoded(s) == []
  {
    Base64.DigitsOfIgnored(s);
    Base64.DecodedLength(s);
  }

  lemma Base64Back(fs: seq<RawField>, data: Bytes, deUue: Bytes -> Bytes)
    requires EncodingUsed(fs) == Base64Encoding
    ensures Reading(fs, Base64.Encoded(data, LINE_LENGTH), deUue) == Received(data) <==> Survives(fs, data)
  {
    hide EncodingOf, EncodingUsed, Base64.Encoded, Base64.Decoded, LineEndings.Rewritten, Muddled;
    var body := Base64.Encoded(data, LINE_LENGTH);
    Base64.RoundTrip(data, LINE_LENGTH);
    PaddingMeans(data);
    if Blank(body) { BreaksEmpty(body); }
    if data == [] { NothingEncoded(); }
    if data != [] { Longer(data, body); }
  }

  lemma NothingEncoded()
    ensures Base64.Encoded([], LINE_LENGTH) == []
  {
  }

  lemma PaddingMeans(data: Bytes)
    ensures EQUALS in Base64.Encoded(data, LINE_LENGTH) <==> |data| % 3 != 0
  {
    Base64.EncodeFromPadding(data, LINE_LENGTH, 0, [], 0);
  }

  /** Base64 that is not decoded is longer than the data. */
  lemma Longer(data: Bytes, body: Bytes)
    requires Base64.Decoded(body) == data != []
    ensures LineEndings.Rewritten(body, false) != data
  {
    Base64.DecodedLength(body);
    DigitsFewer(body, false);
  }

  lemma BinaryBack(fs: seq<RawField>, data: Bytes, deUue: Bytes -> Bytes)
    requires EncodingUsed(fs) == Binary
    ensures Reading(fs, data, deUue) == Received(data) <==> Survives(fs, data)
  {
    hide EncodingOf, EncodingUsed, LineEndings.Rewritten, Muddled;
    LineEndings.CanonicalFixed(data);
  }

  /** Text without an equals sign is its own quoted-printable form. */
  lemma {:induction false} PlainDecoded(t: Bytes)
    requires EQUALS !in t
    ensures QuotedPrintable.Decoded(t, false) == t
  {
    if t != [] {
      assert QuotedPrintable.First(t, false) == QuotedPrintable.Piece([t[0]], 1);
      assert EQUALS !in t[1..];
      PlainDecoded(t[1..]);
      assert [t[0]] + t[1..] == t;
    }
  }

  lemma {:induction false} NoEquals(s: Bytes, lf: bool)
    requires EQUALS !in s
    ensures EQUALS !in LineEndings.Rewritten(s, lf)
    decreases |s|
  {
    if s != [] {
      var w := LineEndings.BreakWidth(s);
      if w > 0 { NoEquals(s[w..], true); } else { NoEquals(s[1..], false); }
    }
  }

  lemma QuotedBack(fs: seq<RawField>, data: Bytes, deUue: Bytes -> Bytes)
    requires EncodingUsed(fs) == QP
    ensures Reading(fs, QuotedPrintable.Encoded(data, false, true), deUue) == Received(data) <==> Survives(fs, data)
  {
    hide EncodingOf, EncodingUsed, LineEndings.Rewritten, Muddled, QuotedPrintable.Encoded, QuotedPrintable.Decoded, QuotedTransit.Completed;
    var body := QuotedPrintable.Encoded(data, false, true);
    QuotedPrintable.RoundTrip(data, false, true);
    QuotedTransit.QuotedArrives(data, true);
    QuotedTransit.CompletedFixed(data);
    if EQUALS !in body {
      NoEquals(body, false);
      PlainDecoded(LineEndings.Rewritten(body, false));
    }
    if Blank(body) { PlainDecoded(body); }
    BreakEncoded();
  }

  lemma BreakEncoded()
    ensures QuotedPrintable.Encoded(CRLF, false, true) == CRLF
  {
    var st := QuotedPrintable.State([], 0);
    assert QuotedPrintable.AtLineBreak(CRLF, 0) && QuotedPrintable.Next(CRLF, 0) == 2;
    var next := QuotedPrintable.Step(CRLF, false, true, 0, st);
    assert [] + CRLF == CRLF && next == QuotedPrintable.State(CRLF, 0);
    assert QuotedPrintable.EncodeFrom(CRLF, false, true, 2, next) == CRLF;
  }

  /**
    Data come back exactly so: in base64 unless empty, or taken for plain text
    among several encodings; as they are if their lines are canonical; in
    quoted-printable if they are whole lines.
   */
  lemma ComesBack(a: Attachment, deUue: Bytes -> Bytes)
    requires EncodingUsed(a.fields) != Uuencode
    ensures Reading(a.fields, AsPart(a).body, deUue) == Received(a.data) <==> Survives(a.fields, a.data)
  {
    hide EncodingUsed, Reading, Survives, Base64.Encoded, QuotedPrintable.Encoded;
    match EncodingUsed(a.fields)
    case Base64Encoding => Base64Back(a.fields, a.data, deUue);
    case QP => QuotedBack(a.fields, a.data, deUue);
    case Binary => BinaryBack(a.fields, a.data, deUue);
  }

  /** For example `a` does not come back as it is, or in quoted-printable: a line break is added. */
  lemma LineBreakAdded(fs: seq<RawField>, deUue: Bytes -> Bytes)
    requires EncodingUsed(fs) == Binary || EncodingUsed(fs) == QP
    ensures Reading(fs, AsPart(Attachment(fs, [97])).body, deUue) != Received([97])
  {
    hide EncodingUsed, Reading, AsPart;
    var data: Bytes := [97];
    assert !QuotedTransit.WholeLines(data) && !LineEndings.Canonical(data);
    ComesBack(Attachment(fs, data), deUue);
  }

  /** The piece is that attachment: its place and its fields, and its data exactly if they survive. */
  predicate Carries(p: Multipart.Piece, k: nat, a: Attachment, deUue: Bytes -> Bytes)
  {
    && p.number == k + 1 && p.part.fields == a.fields
    && (Reading(p.part.fields, p.part.body, deUue) == Received(a.data) <==> Survives(a.fields, a.data))
  }

  /** The data of all pieces, unless one of them stops the program. */
  function Delivered(ps: seq<Multipart.Piece>, deUue: Bytes -> Bytes): Option<seq<Bytes>>
  {
    if ps == [] then Some([])
    else
      match (Reading(ps[0].part.fields, ps[0].part.body, deUue), Delivered(ps[1..], deUue))
      case (Received(x), Some(xs)) => Some([x] + xs)
      case (_, _) => None
  }

  function DataOf(atts: seq<Attachment>): seq<Bytes>
  {
    if atts == [] then [] else [atts[0].data] + DataOf(atts[1..])
  }

  lemma {:induction false} DeliveredIff(ps: seq<Multipart.Piece>, n: nat, atts: seq<Attachment>, deUue: Bytes -> Bytes)
    requires |ps| == |atts| && forall k :: 0 <= k < |ps| ==> Carries(ps[k], n + k, atts[k], deUue)
    ensures Delivered(ps, deUue) == Some(DataOf(atts)) <==> forall k :: 0 <= k < |atts| ==> Survives(atts[k].fields, atts[k].data)
  {
    hide Reading, Survives;
    if ps != [] {
      var qs, bs := ps[1..], atts[1..];
      forall k | 0 <= k < |qs| ensures Carries(qs[k], n + 1 + k, bs[k], deUue) { assert Carries(ps[k + 1], n + (k + 1), atts[k + 1], deUue); }
      DeliveredIff(qs, n + 1, bs, deUue);
      assert Carries(ps[0], n + 0, atts[0], deUue);
      assert forall k :: 0 < k < |atts| ==> atts[k] == bs[k - 1];
      assert DataOf(atts)[1..] == DataOf(bs);
      var d := Delivered(qs, deUue);
      assert d.Some? ==> ([atts[0].data] + d.value)[1..] == d.value;
      match Reading(ps[0].part.fields, ps[0].part.body, deUue)
      case Stopped =>
      case Received(x) => assert d.Some? ==> ([x] + d.value)[0] == x && ([x] + d.value)[1..] == d.value;
    }
  }

  /**
    For every divider that is nonempty and free of line breaks, and every list
    of attachments, the pieces found are the attachments printed, and all data
    come back exactly if each of them survives.
   */
  lemma AttachmentsSurvive(d: Bytes, atts: seq<Attachment>, typeOf: Bytes -> Bytes, deUue: Bytes -> Bytes)
    requires Multipart.LegalDivider(d) && forall k :: 0 <= k < |atts| ==> LegalAttachment(atts[k], d, typeOf)
    ensures var r := Multipart.Split(Multipart.Printed(d, AsParts(atts)), d);
            && r.Parts? && |r.pieces| == |atts|
            && (forall k :: 0 <= k < |atts| ==> Carries(r.pieces[k], k, atts[k], deUue))
            && (Delivered(r.pieces, deUue) == Some(DataOf(atts)) <==>
                forall k :: 0 <= k < |atts| ==> Survives(atts[k].fields, atts[k].data))
  {
    hide AsPart, Reading, Survives, Delivered, Multipart.LegalPart, EncodingUsed, LegalAttachment, Multipart.Split, Multipart.Printed;
    var ps := AsParts(atts);
    forall k | 0 <= k < |ps| ensures Multipart.LegalPart(ps[k], d, Multipart.PLAIN) { LegalAsPart(atts[k], d, typeOf); }
    Multipart.FramingInverse(d, ps);
    var qs := Multipart.Numbered(ps, 1);
    forall k | 0 <= k < |atts| ensures Carries(qs[k], 0 + k, atts[k], deUue) {
      Invertible(atts[k], d, typeOf);
      ComesBack(atts[k], deUue);
      PartFields(atts[k]);
    }
    DeliveredIff(qs, 0, atts, deUue);
    forall k | 0 <= k < |atts| ensures Carries(qs[k], k, atts[k], deUue) { assert Carries(qs[k], 0 + k, atts[k], deUue); }
  }

  lemma PartFields(a: Attachment)
    ensures AsPart(a).fields == a.fields
  {
  }

  lemma Invertible(a: Attachment, d: Bytes, typeOf: Bytes -> Bytes)
    requires LegalAttachment(a, d, typeOf)
    ensures EncodingUsed(a.fields) != Uuencode
  {
  }

  lemma StandsInData(h: Bytes, data: Bytes, k: nat, w: Bytes)
    ensures HasAt(h + data, |h| + k, w) <==> HasAt(data, k, w)
  {
    if k + |w| <= |data| { assert (h + data)[|h| + k..|h| + k + |w|] == data[k..k + |w|]; }
  }

  /** A boundary line of the data is one of the part. */
  lemma InData(h: Bytes, data: Bytes, d: Bytes, k: nat)
    requires Multipart.DividesAt(data, d, k)
    ensures Multipart.DividesAt(h + data, d, |h| + k)
  {
    hide HasAt;
    var j := k + 2 + |d|;
    StandsInData(h, data, k, Multipart.Delimiter(d));
    HasAtBound(data, k, Multipart.Delimiter(d));
    StandsInData(h, data, j, DASHES);
    if HasAt(data, j, DASHES) { HasAtBound(data, j, DASHES); }
    SpanShift(h, data, if HasAt(data, j, DASHES) then j + 2 else j, IsBlank);
  }

  /**
    Data that are not encoded are printed as they are: if they hold a boundary
    line, splitting does not give back the parts printed.
   */
  lemma RawDataSplit(d: Bytes, atts: seq<Attachment>, m: nat, k: nat)
    requires Multipart.LegalDivider(d) && m < |atts| && forall n :: 0 <= n < |atts| ==> AllLegal(atts[n].fields, CANONICAL)
    requires EncodingUsed(atts[m].fields) == Binary
    requires (k == 0 || Multipart.NewLine(atts[m].data, k)) && Multipart.DividesAt(atts[m].data, d, k)
    ensures Multipart.Split(Multipart.Printed(d, AsParts(atts)), d) != Multipart.Parts(Multipart.Numbered(AsParts(atts), 1))
  {
    hide AllLegal, EncodingUsed, Printed, Multipart.LegalDivider, Multipart.DividesAt, Multipart.Split, Multipart.Printed;
    var ps := AsParts(atts);
    forall n | 0 <= n < |ps| ensures AllLegal(ps[n].fields, CANONICAL) { PartFields(atts[n]); }
    var h, data := Printed(atts[m].fields, CANONICAL) + CRLF, atts[m].data;
    assert Multipart.PartText(ps[m], Multipart.PLAIN) == h + data;
    InData(h, data, d, k);
    assert |data| > k by { BoundaryBytes(data, d, k); }
    assert Multipart.NewLine(h + data, |h| + k);
    assert !Multipart.Quiet(h + data, d);
    assert !Multipart.Kept(ps[m], d, Multipart.PLAIN);
    Multipart.FramingExactly([], d, ps, Multipart.PLAIN, []);
    Multipart.FramedAlone(d, ps);
  }

  lemma BoundaryBytes(data: Bytes, d: Bytes, k: nat)
    requires Multipart.DividesAt(data, d, k)
    ensures k + 2 + |d| <= |data|
  {
  }
}
