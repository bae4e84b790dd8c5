/** Field names spelled out: the case of every letter, and which keys make which fields. */
module NameSpelling {
  import opened Octets
  import opened HeaderCase
  import opened Names
  import opened Headers

  predicate IsLetter(c: Byte) { IsUpper(c) || IsLower(c) }

  /** Letters at the start of a word are upper case, all others lower case. */
  predicate WordsCapital(r: Bytes)
  {
    forall k :: 0 <= k < |r| && IsLetter(r[k]) ==> (IsUpper(r[k]) <==> k == 0 || !IsAlnum(r[k - 1]))
  }

  /** The name starts with `mime-` in any case, and goes on. */
  predicate StartsMIME(s: Bytes)
  {
    && |s| > 5 && s[4] == '-' as int
    && LowerByte(s[0]) == 'm' as int && LowerByte(s[1]) == 'i' as int
    && LowerByte(s[2]) == 'm' as int && LowerByte(s[3]) == 'e' as int
  }

  /** The name ends with `-id` in any case, after something. */
  predicate EndsID(s: Bytes)
  {
    |s| > 3 && s[|s| - 3] == '-' as int && LowerByte(s[|s| - 2]) == 'i' as int && LowerByte(s[|s| - 1]) == 'd' as int
  }

  lemma CapitalWords(s: Bytes)
    ensures WordsCapital(WordCased(s))
  {
    var r := WordCased(s);
    forall k | 0 <= k < |r| && IsLetter(r[k]) ensures IsUpper(r[k]) <==> k == 0 || !IsAlnum(r[k - 1]) {
      if k > 0 { SameKind(s[k - 1], StartsWord(s, k - 1)); }
    }
  }

  lemma SameKind(c: Byte, first: bool)
    ensures IsAlnum(Cased(c, first)) <==> IsAlnum(c)
  {
  }

  lemma MIMEMeans(s: Bytes)
    ensures var w := WordCased(s); |s| > 5 && w[..5] == MIME_ <==> StartsMIME(s)
  {
    var w := WordCased(s);
    if |s| > 5 {
      assert w[..5] == [w[0], w[1], w[2], w[3], w[4]];
      assert w[..5] == MIME_ <==> w[0] == 77 && w[1] == 105 && w[2] == 109 && w[3] == 101 && w[4] == DASH;
      Starts(s, 0);
      Starts(s, 1);
      Starts(s, 2);
      Starts(s, 3);
      Starts(s, 4);
    }
  }

  lemma LastThree(w: Bytes)
    requires |w| > 3
    ensures w[|w| - 3..] == ID_ <==> w[|w| - 3] == DASH && w[|w| - 2] == 73 && w[|w| - 1] == 100
  {
    var n := |w| - 3;
    assert w[n..] == [w[n], w[n + 1], w[n + 2]];
  }

  lemma IDMeans(s: Bytes)
    ensures var w := WordCased(s); |s| > 3 && w[|s| - 3..] == ID_ <==> EndsID(s)
  {
    var n := |s| - 3;
    if |s| > 3 {
      LastThree(WordCased(s));
      Starts(s, n);
      Starts(s, n + 1);
      Starts(s, n + 2);
    }
  }

  lemma MIMEBytes(w: Bytes, k: nat)
    requires k < |w|
    ensures MIMEFixed(w)[k] == if |w| > 5 && w[..5] == MIME_ && k < 5 then MIME_UPPER[k] else w[k]
  {
  }

  lemma IDBytes(w: Bytes, k: nat)
    requires k < |w|
    ensures IDFixed(w)[k] == if |w| > 3 && w[|w| - 3..] == ID_ && k >= |w| - 3 then ID_UPPER[k - (|w| - 3)] else w[k]
  {
  }

  /** Correcting the front does not change whether the end is to be corrected. */
  lemma SameEnd(w: Bytes)
    requires |w| > 5 && w[..5] == MIME_
    ensures MIMEFixed(w)[|w| - 3..] == ID_ <==> w[|w| - 3..] == ID_
  {
    var m, n := MIMEFixed(w), |w| - 3;
    assert w[3] == w[..5][3] && w[4] == w[..5][4];
    MIMEBytes(w, n);
    MIMEBytes(w, n + 1);
    MIMEBytes(w, n + 2);
    assert m[n..] == [m[n], m[n + 1], m[n + 2]] && w[n..] == [w[n], w[n + 1], w[n + 2]];
  }

  /**
    Except for `MIME-` in front and `-ID` at the end, words start with a capital
    and go on without.
   */
  lemma Spelling(s: Bytes, k: nat)
    requires k < |s|
    ensures |HeaderCased(s)| == |s| && WordsCapital(WordCased(s)) && Lower(WordCased(s)) == Lower(s)
    ensures HeaderCased(s)[k] ==
            if EndsID(s) && k >= |s| - 3 then (if k == |s| - 3 then '-' as int else if k == |s| - 2 then 'I' as int else 'D' as int)
            else if StartsMIME(s) && k < 5 then
              (if k == 0 || k == 2 then 'M' as int else if k == 1 then 'I' as int else if k == 3 then 'E' as int else '-' as int)
            else WordCased(s)[k]
  {
    hide WordCased, MIMEFixed, IDFixed, WordsCapital, StartsMIME, EndsID;
    var w := WordCased(s);
    var m := MIMEFixed(w);
    LowerWords(s);
    CapitalWords(s);
    MIMEMeans(s);
    IDMeans(s);
    MIMEBytes(w, k);
    IDBytes(m, k);
    if StartsMIME(s) { SameEnd(w); } else { NotMIME(w); }
  }

  lemma LowerWords(s: Bytes)
    ensures Lower(WordCased(s)) == Lower(s)
  {
  }

  lemma NotMIME(w: Bytes)
    requires !(|w| > 5 && w[..5] == MIME_)
    ensures MIMEFixed(w) == w
  {
  }

  // -------------------------------------------------------------------- keys

  lemma {:induction false} Unchanged(s: Bytes)
    requires WordsCapital(s) && !StartsMIME(s) && !EndsID(s)
    ensures HeaderCased(s) == s
  {
    hide WordCased, HeaderCased;
    if s == [] { NothingCased(); } else { Spelling(s, 0); }
    forall k | 0 <= k < |s| ensures HeaderCased(s)[k] == s[k] {
      Spelling(s, k);
      AlreadyCapital(s, k);
    }
  }

  lemma NothingCased()
    ensures HeaderCased([]) == []
  {
  }

  lemma AlreadyCapital(s: Bytes, k: nat)
    requires WordsCapital(s) && k < |s|
    ensures WordCased(s)[k] == s[k]
  {
  }

  lemma MediaSpelled()
    ensures IsText(TEXT, "text") && IsText(MULTIPART, "multipart") && IsText(MESSAGE, "message")
  {
  }

  /** The name is spelled as `headerCase` spells it; in lower case it is `w`. */
  ghost predicate Proper(name: Bytes, w: string) { IsText(Lower(name), w) && HeaderCased(name) == name }

  lemma FromSpelled()
    ensures IsText(FROM, "From") && Proper(FROM, "from")
  {
    hide HeaderCased;
    assert |FROM| == 4 && FROM[0] == 70 && FROM[1] == 114 && FROM[2] == 111 && FROM[3] == 109;
    Unchanged(FROM);
  }

  lemma SenderSpelled()
    ensures IsText(SENDER, "Sender") && Proper(SENDER, "sender")
  {
    hide HeaderCased;
    Unchanged(SENDER);
  }

  lemma ReplyToSpelled()
    ensures IsText(REPLY_TO, "Reply-To") && Proper(REPLY_TO, "reply-to")
  {
    hide HeaderCased;
    Unchanged(REPLY_TO);
  }

  lemma ToSpelled()
    ensures IsText(TO, "To") && Proper(TO, "to")
  {
    hide HeaderCased;
    assert |TO| == 2 && TO[0] == 84 && TO[1] == 111;
    Unchanged(TO);
  }

  lemma CcSpelled()
    ensures IsText(CC, "Cc") && Proper(CC, "cc")
  {
    hide HeaderCased;
    assert |CC| == 2 && CC[0] == 67 && CC[1] == 99;
    Unchanged(CC);
  }

  lemma BccSpelled()
    ensures IsText(BCC, "Bcc") && Proper(BCC, "bcc")
  {
    hide HeaderCased;
    assert |BCC| == 3 && BCC[0] == 66 && BCC[1] == 99 && BCC[2] == 99;
    Unchanged(BCC);
  }

  lemma ReturnPathSpelled()
    ensures IsText(RETURN_PATH, "Return-Path") && Proper(RETURN_PATH, "return-path")
  {
    hide HeaderCased;
    Unchanged(RETURN_PATH);
  }

  lemma MessageIDByte(k: nat)
    requires k < |MESSAGE_ID|
    ensures |HeaderCased(MESSAGE_ID)| == |MESSAGE_ID| && HeaderCased(MESSAGE_ID)[k] == MESSAGE_ID[k]
  {
    hide HeaderCased;
    Spelling(MESSAGE_ID, k);
    Starts(MESSAGE_ID, k);
  }

  lemma MessageIDKept()
    ensures HeaderCased(MESSAGE_ID) == MESSAGE_ID
  {
    hide HeaderCased;
    MessageIDByte(0);
    forall k | 0 <= k < |MESSAGE_ID| ensures HeaderCased(MESSAGE_ID)[k] == MESSAGE_ID[k] { MessageIDByte(k); }
  }

  lemma MessageIDSpelled()
    ensures IsText(MESSAGE_ID, "Message-ID") && Proper(MESSAGE_ID, "message-id")
  {
    hide HeaderCased;
    MessageIDKept();
  }

  lemma ReferencesSpelled()
    ensures IsText(REFERENCES, "References") && Proper(REFERENCES, "references")
  {
    hide HeaderCased;
    Unchanged(REFERENCES);
  }

  lemma DateSpelled()
    ensures IsText(DATE, "Date") && Proper(DATE, "date")
  {
    hide HeaderCased;
    assert |DATE| == 4 && DATE[0] == 68 && DATE[1] == 97 && DATE[2] == 116 && DATE[3] == 101;
    Unchanged(DATE);
  }

  lemma OrigDateSpelled()
    ensures IsText(ORIG_DATE, "Orig-Date") && Proper(ORIG_DATE, "orig-date")
  {
    hide HeaderCased;
    Unchanged(ORIG_DATE);
  }

  lemma ResentDateSpelled()
    ensures IsText(RESENT_DATE, "Resent-Date") && Proper(RESENT_DATE, "resent-date")
  {
    hide HeaderCased;
    Unchanged(RESENT_DATE);
  }

  lemma SubjectSpelled()
    ensures IsText(SUBJECT, "Subject") && Proper(SUBJECT, "subject")
  {
    hide HeaderCased;
    Unchanged(SUBJECT);
  }

  /** `Version` is spelled like any word. */
  lemma VersionByte(k: nat)
    requires 5 <= k < |MIME_VERSION|
    ensures WordCased(MIME_VERSION)[k] == MIME_VERSION[k]
  {
    Starts(MIME_VERSION, k);
    if k == 5 { assert MIME_VERSION[4] == DASH; } else { assert IsLower(MIME_VERSION[k]) && IsAlnum(MIME_VERSION[k - 1]); }
  }

  lemma MIMEVersionByte(k: nat)
    requires k < |MIME_VERSION|
    ensures |HeaderCased(MIME_VERSION)| == |MIME_VERSION| && HeaderCased(MIME_VERSION)[k] == MIME_VERSION[k]
  {
    hide HeaderCased, WordCased;
    assert StartsMIME(MIME_VERSION) && !EndsID(MIME_VERSION);
    Spelling(MIME_VERSION, k);
    if k >= 5 { VersionByte(k); }
  }

  lemma MIMEVersionKept()
    ensures HeaderCased(MIME_VERSION) == MIME_VERSION
  {
    hide HeaderCased;
    MIMEVersionByte(0);
    forall k | 0 <= k < |MIME_VERSION| ensures HeaderCased(MIME_VERSION)[k] == MIME_VERSION[k] { MIMEVersionByte(k); }
  }

  lemma MIMEVersionSpelled()
    ensures IsText(MIME_VERSION, "MIME-Version") && Proper(MIME_VERSION, "mime-version")
  {
    hide HeaderCased;
    MIMEVersionKept();
  }

  lemma ContentTypeSpelled()
    ensures IsText(CONTENT_TYPE, "Content-Type") && Proper(CONTENT_TYPE, "content-type")
  {
    hide HeaderCased;
    Unchanged(CONTENT_TYPE);
  }

  lemma ContentTransferEncodingKept()
    ensures HeaderCased(CONTENT_TRANSFER_ENCODING) == CONTENT_TRANSFER_ENCODING
  {
    hide HeaderCased;
    assert WordsCapital(CONTENT_TRANSFER_ENCODING);
    Unchanged(CONTENT_TRANSFER_ENCODING);
  }

  lemma ContentTransferEncodingLower()
    ensures IsText(Lower(CONTENT_TRANSFER_ENCODING), "content-transfer-encoding")
  {
  }

  lemma ContentTransferEncodingSpelled()
    ensures IsText(CONTENT_TRANSFER_ENCODING, "Content-Transfer-Encoding")
    ensures Proper(CONTENT_TRANSFER_ENCODING, "content-transfer-encoding")
  {
    hide HeaderCased, Lower;
    ContentTransferEncodingKept();
    ContentTransferEncodingLower();
  }

  lemma KeyIs(key: Bytes, name: Bytes, w: string)
    requires Proper(name, w)
    ensures HeaderCased(key) == name <==> IsText(Lower(key), w)
  {
    hide HeaderCased, IsText;
    SameSpelling(key, name);
    SameText(Lower(name), Lower(key), w);
  }

  /** The key, in any case. */
  predicate Keyed(key: Bytes, n: Name)
  {
    var k := Lower(key);
    match n
    case From => IsText(k, "from")
    case Sender => IsText(k, "sender")
    case ReplyTo => IsText(k, "reply-to")
    case To => IsText(k, "to")
    case Cc => IsText(k, "cc")
    case Bcc => IsText(k, "bcc")
    case ReturnPath => IsText(k, "return-path")
    case MessageID => IsText(k, "message-id")
    case References => IsText(k, "references")
    case Date => IsText(k, "date") || IsText(k, "orig-date") || IsText(k, "resent-date")
    case Subject => IsText(k, "subject")
    case MIMEVersion => IsText(k, "mime-version")
    case ContentType => IsText(k, "content-type")
    case ContentTransferEncoding => IsText(k, "content-transfer-encoding")
    case Other(_) => false
  }

  /** Which name a key gives, for every key; any other key gives itself, spelled like a field name. */
  lemma KeysMean(key: Bytes, n: Name)
    ensures !n.Other? ==> (NameOf(key) == n <==> Keyed(key, n))
    ensures NameOf(key).Other? ==> NameOf(key) == Other(HeaderCased(key))
  {
    hide HeaderCased, Lower, IsText, Proper;
    FromSpelled();
    KeyIs(key, FROM, "from");
    SenderSpelled();
    KeyIs(key, SENDER, "sender");
    ReplyToSpelled();
    KeyIs(key, REPLY_TO, "reply-to");
    ToSpelled();
    KeyIs(key, TO, "to");
    CcSpelled();
    KeyIs(key, CC, "cc");
    BccSpelled();
    KeyIs(key, BCC, "bcc");
    ReturnPathSpelled();
    KeyIs(key, RETURN_PATH, "return-path");
    MessageIDSpelled();
    KeyIs(key, MESSAGE_ID, "message-id");
    ReferencesSpelled();
    KeyIs(key, REFERENCES, "references");
    DateSpelled();
    KeyIs(key, DATE, "date");
    OrigDateSpelled();
    KeyIs(key, ORIG_DATE, "orig-date");
    ResentDateSpelled();
    KeyIs(key, RESENT_DATE, "resent-date");
    SubjectSpelled();
    KeyIs(key, SUBJECT, "subject");
    MIMEVersionSpelled();
    KeyIs(key, MIME_VERSION, "mime-version");
    ContentTypeSpelled();
    KeyIs(key, CONTENT_TYPE, "content-type");
    ContentTransferEncodingSpelled();
    KeyIs(key, CONTENT_TRANSFER_ENCODING, "content-transfer-encoding");
  }
}
