# A model of go-mail's formats, header object and parser

go-mail reads and writes Internet mail.  This project models the code whose
correctness is not evident from reading one function: the transfer encodings,
the text of headers, MIME parameters and multiparts, the backtracking parser,
address lists, and the header object that merges, judges and repairs fields.

Text is a sequence of bytes.  What a piece of code computes is a function; the
loops, the array the quoted-printable encoder shifts in place, and the objects
whose fields are updated are methods and classes proved equal to that function;
the promises are lemmas about it.  An index or slice out of range and a nil
dereference, which stop the program, are outcomes of their own (`Panic`,
`OutOfRange`, `Crash`), not preconditions.

| file | what it models |
|---|---|
| `Octets`, `Names`, `LineWidth` | bytes, character classes, field names, lines of bounded width |
| `QuotedPrintable`, `QuotedLines`, `QuotedBoundaries`, `QuotedTransit`, `Base64`, `Base64Meaning`, `TransferEncoding` | the content transfer encodings, what their texts mean, the lines they start, what arrives of them |
| `LineEndings`, `Folding`, `Simplify` | canonical line breaks, wrapping long lines, collapsing white space |
| `Quoting`, `Tokens`, `TokenMeaning`, `Comments`, `EncodedWords`, `EncodedWordMeaning` | quoted strings, what the token functions read and return, encoded words and what they mean |
| `Cursor`, `Parser` | the stack of saved states, as a machine and as linked objects |
| `MimeParameters`, `ParameterReading`, `PrintedValues`, `MimeField` | printing, packing and parsing MIME parameters |
| `HeaderText`, `HeaderStart`, `Multipart`, `Attachments` | header text and what may precede it, multipart framing, attachments end to end |
| `HeaderCase`, `NameSpelling`, `Headers`, `HeaderRepair`, `Mending`, `MessageHeader` | spelling of names, merging, the cached verdict, repairs and what they mend, the header object |
| `Addresses`, `AddressList` | duplicates in and comparison of address lists, their layout |

The main results are the inverse laws (`QuotedPrintable.RoundTrip`,
`Base64.RoundTrip`, `Folding.FoldingInverse`, `HeaderText.HeaderInverse`,
`Multipart.FramingExactly`, `MimeParameters.ParametersInverse`,
`Quoting.QuotingInverse`, `Comments.ReadsComment`), their composition
`Attachments.AttachmentsSurvive`, which says exactly which data come back from
attachments that are encoded, framed, split, given canonical line breaks and
decoded, and laws over every run:
`Cursor.Transaction`, `Headers.AddedByName`, `Headers.CachedVerdict`,
`HeaderRepair.NeverWronglyValid`, what `Repair` does to any header
(`HeaderRepair.RepairRemoves`, `RepairSettles`, `RepairHarmless`,
`RepairCrashes`), and exact conditions where a promise is not kept
(`QuotedLines.FromExactly`, `QuotedBoundaries.BoundaryExactly`,
`Mending.Mended`, `EncodedWords.WordStops`, `HeaderText.CutHeader`).

Where the code and its comments disagree, the model follows the code:

- With `from`, the quoted-printable encoder is to start no line with `From ` or
  what looks like a boundary.  It looks at lines it starts itself, not at text
  moved by a soft break, and at the input, not at what it writes.
  `QuotedLines.FromExactly` says exactly when a line starts with `From `,
  `QuotedBoundaries.BoundaryExactly` exactly when one looks like a boundary, by
  the columns of the input.  `QuotedLines.LinesExactly` is about how lines start
  only: a line may start with two dashes and not look like a boundary
  (`QuotedBoundaries.DashesHarmless`).
- The reader makes line breaks canonical before it decodes, except in base64 and
  uuencoded text, and stops on an empty body.  So data that are not encoded must
  have canonical lines, data in quoted-printable must be whole lines, and empty
  data never come back (`Attachments.ComesBack`, `Attachments.LineBreakAdded`).
- The header scanner looks for the byte after a name, a colon or a `From ` line
  without asking whether there is one; `HeaderText.CutHeader` says exactly where
  a header may not break off.  The parameter parser steps over the end at a
  backslash in the last place and nowhere else (`MimeParameters.ParsingStays`,
  `BackslashStops`).
- A parser that fails quotes the text that follows, and `simplify` slices out of
  range on white space: a word that breaks off before white space, such as
  `=?u `, stops the program instead of being left alone
  (`EncodedWords.WordStops`, `Simplify.StopsOnBlank`).
- `addParameter` looks a name up in lower case but stores a new one as given,
  so what was added may not be found; `MimeField.AddThenGet` has the exact
  condition.
- `sameAddresses` fills both maps from its first list, so it checks one
  inclusion only; `Addresses.OneSided` shows the effect, and
  `Addresses.ComparisonIsEquality` that it does no harm after `Uniquify`.
- In `verify` the operators bind so that maxima count in both modes and minima
  in the matching mode only (`Headers.LegalMeans`).
- Removing fields and `Repair` keep the old verdict.  `HeaderRepair.RemovalStale`
  and `RemovalAtStale` say exactly when it is wrong after a removal;
  `Mending.Mended` says exactly which headers `Repair` makes legal, and
  `Mending.HonestAfterRepair` that it is those that are still said to be invalid.
- `Repair` dereferences the Content-Type even if there is none;
  `HeaderRepair.RepairCrashes` says exactly when.  Its comparison of Sender with
  From never runs, so a Sender that is not one address always goes.
- `mark` does not carry the error over to the new state, and going back to a
  mark makes the state it names current again (`Cursor.ReuseBreaks`).
- MIME values are quoted with `'` as the escape and read with a backslash;
  `PrintedValues.ReadAsPrinted` says exactly which ones survive.
- Packed MIME parameters may reach 79 columns, because the semicolon before a
  fold is not counted (`MimeParameters.PrintedWidth`, `WidthReached`).
- Orig-Date and Resent-Date fields carry the name Date (`Headers.CaseDoesNotMatter`).

## Model

| member | source | states |
|---|---|---|
| `QuotedPrintable.Decode` | strings.go:487-535 | the decoding loop with its look-ahead over trailing blanks computes `Decoded`, the decoding first unit by first unit |
| `QuotedPrintable.HexDecodes` | strings.go:487-538 | `=` and the two digits of any byte, taken from `0123456789ABCDEF` in either case, decode to that byte and the rest |
| `QuotedPrintable.SoftDecodes` | strings.go:504-525 | `=`, any blanks and a line break, CR LF or LF, vanish |
| `QuotedPrintable.PlainDecodes` | strings.go:487-535 | everything else: other bytes mean themselves, an underscore may mean a space, `=` without line break or two digits means itself, with fewer than two bytes after it NUL |
| `QuotedPrintable.MaybeBoundary` | strings.go:663-698 | the scan decides `LooksLikeBoundary`: two dashes and boundary characters up to the end of the line |
| `QuotedPrintable.BoundaryChars` | strings.go:672-691 | the boundary characters are letters, digits and ` '()+,-./:=?_` |
| `QuotedPrintable.RoundTrip` | strings.go:487-661 | for every byte string, either variant and either `from` flag, decoding what was encoded gives the string back, through look-back soft breaks, shifted bytes and rewritten spaces |
| `QuotedPrintable.OutputShape` | strings.go:555-661 | every output line has at most 76 characters, only printable bytes, tabs and line breaks occur, CR only before LF, no space before a break, and at most six bytes per input byte |
| `QuotedPrintable.ShortLine` | strings.go:613-656 | a text without line breaks that fits on a line is written byte by byte: printable ASCII but `=`, and tabs, as they are, or letters and digits with underscores for spaces, everything else as `=` and two upper-case digits, and so the first byte if the line start is to be guarded |
| `QuotedPrintable.WriteEscaped` | strings.go:621-627 | three bytes are written in place, the rest of the array is untouched |
| `QuotedPrintable.LookBack` | strings.go:589-597 | the backward scan finds how much text after the last space is to be moved, if a space is near |
| `QuotedPrintable.InsertSoftBreak` | strings.go:588-611 | shifting the tail of the array in place equals inserting a soft break in the text |
| `QuotedPrintable.ProtectSpace` | strings.go:571-577 | a space before a line break is rewritten in place as an escape |
| `QuotedPrintable.WriteBreak` | strings.go:567-585 | a line break of the input is kept as it is, after the space is protected |
| `QuotedPrintable.WriteUnit` | strings.go:613-656 | one byte is written raw, as an underscore or escaped, as `Unit` says |
| `QuotedPrintable.EncodeStep` | strings.go:566-659 | one round of the loop on the array is one step of the machine over values and adds at most six bytes per byte read |
| `QuotedPrintable.Encode` | strings.go:555-661 | no write leaves the array of six times the length, and the result is `Encoded` |
| `QuotedLines.LinesExactly` | strings.go:553-661 | with `from`, an output line starts with `From ` or `--` exactly if that stands in the input where the encoder starts a line and does not recognise it, or at a word after a space that a soft break moves, with columns worked out over the input |
| `QuotedLines.FromExactly` | strings.go:553-661 | an output line starts with `From ` exactly if that stands in the input after a space, in column 69 to 72, and not before a line break |
| `QuotedLines.CarriedWord` | strings.go:588-611 | a moved word stands after a space, in column 65 to 72 |
| `QuotedLines.NeverInWords` | strings.go:613-627 | the variant for encoded words never starts a line with either |
| `QuotedLines.LinesClear` | strings.go:553-661 | whatever the columns, no line starts with it if it never follows a space in the input and is recognised wherever it stands |
| `QuotedLines.FromGuarded` | strings.go:636-643 | `From ` is recognised everywhere, so for it only the space matters |
| `QuotedLines.FromMissed` | strings.go:588-611 | for example after 68 letters or digits a soft break moves ` From ` to the start of a line |
| `QuotedLines.BoundaryMissed` | strings.go:628-635 | a line of two dashes and any byte above 127 is not recognised and looks like a boundary once encoded |
| `QuotedBoundaries.BoundaryExactly` | strings.go:553-698 | with `from`, an output line looks like a boundary exactly if it starts with two dashes that were not recognised or that a soft break moved, and what the input has on that line is, up to a tab, boundary characters and bytes that are escaped; where lines start and end is worked out over the input |
| `QuotedBoundaries.DashesHarmless` | strings.go:628-635 | for example the encoding of `--"x` has a line that starts with two dashes and none that looks like a boundary |
| `QuotedTransit.QuotedArrives` | strings.go:487-661 | quoted-printable text whose line breaks are made canonical on the way decodes to the data with a CR before every LF that lacks one and a line break at the end |
| `QuotedTransit.CompletedFixed` | strings.go:972-1020 | that is the data themselves exactly if they end with LF and every LF follows a CR |
| `Base64.Decode` | strings.go:385-425 | the state loop over four characters computes the repacked digits |
| `Base64.DecodedLength` | strings.go:385-425 | k alphabet characters before the end give exactly floor(3k/4) bytes |
| `Base64.IgnoredAnywhere` | strings.go:359-425 | characters outside the alphabet may stand anywhere without effect |
| `Base64.NothingAfterEnd` | strings.go:385-425 | nothing after the first `=` or NUL matters |
| `Base64.RoundTrip` | strings.go:385-479 | decoding undoes encoding for every byte string and every line length |
| `Base64.LineBound` | strings.go:432-479 | no line is longer than the line length rounded up to a multiple of four |
| `Base64.EncodeFromAlphabet` | strings.go:432-479 | only alphabet characters, `=`, CR and LF are written |
| `Base64.EncodeFromPadding` | strings.go:432-479 | `=` is written exactly if the length is no multiple of three |
| `Base64.Encode` | strings.go:432-479 | the loop with its column counter computes `Encoded` |
| `Base64.TableMeans` | strings.go:359-427 | the characters of the alphabet are its digits in order, `=` and NUL end the text, and exactly the other bytes are ignored |
| `Base64Meaning.ReadsQuad` | strings.go:385-425 | four characters of the alphabet decode to three bytes, six bits each from the left, and the rest |
| `Base64Meaning.ReadsLast` | strings.go:385-425 | three characters before the end are two bytes, two are one, one is none |
| `Base64Meaning.PlainGroups` | strings.go:432-479 | on one line, three bytes become four characters of the alphabet, and one or two last bytes are padded |
| `Base64Meaning.EncodedLines` | strings.go:432-479 | with a line length the text is that of one line, cut after every so many characters, rounded up to whole groups; a last line that is only a padded group has no line break |
| `TransferEncoding.RoundTrip` | strings.go:236-255 | decoding undoes encoding for base64, quoted-printable and binary |
| `LineEndings.CanonicalPrefix` | strings.go:973-989 | the copy-free scan stops where rewriting can be resumed with the same result, or finds the text canonical |
| `LineEndings.ToCRLF` | strings.go:972-1020 | with or without the copy-free prefix, the result is that of rewriting from the start |
| `LineEndings.RewrittenLines` | strings.go:972-1020 | the result is the lines of the input, each followed by CR LF |
| `LineEndings.SameLines` | strings.go:972-1020 | the result has the same lines as the input; CR, LF, CR LF and CR CR LF are one break each |
| `LineEndings.RewrittenCanonical` | strings.go:972-1020 | CR and LF occur as CR LF only, and the text ends with it |
| `LineEndings.Idempotent` | strings.go:972-1020 | a second application changes nothing |
| `LineEndings.CanonicalFixed` | strings.go:972-1020 | the text is left as it is exactly if it is canonical |
| `LineEndings.RewritesLine` | strings.go:993-1018 | a line followed by LF, CR LF, CR CR LF, or a CR that none of these takes, becomes the line and CR LF |
| `LineEndings.RewritesLast` | strings.go:1016-1018 | a last line gets a CR LF |
| `Folding.BreakLine` | strings.go:1089-1107 | one break in the buffer is one step of the machine, whatever the trailing `linestart` was |
| `Folding.Wrap` | strings.go:1068-1111 | the loop computes `Wrapped` for every length, prefixes and flag |
| `Folding.BreaksRun` | strings.go:1089-1107 | where a line is broken, all spaces there are replaced by CR LF and the prefix, and one may stay before it |
| `Folding.FoldingInverse` | strings.go:1068-1111 | for single-spaced text without line breaks, deleting every CR LF gives the text back; each line has at most n characters, one less after the first, or no place to break; and no line is broken while it has room for the next word |
| `Quoting.Quote` | strings.go:67-80 | the loop computes the quoted form |
| `Quoting.CheckQuoted` | strings.go:23-41 | the loop decides whether a string is one quoted string |
| `Quoting.Unquote` | strings.go:49-63 | the loop computes the text inside the quotes, escapes removed |
| `Quoting.QuotingInverse` | strings.go:23-80 | what was quoted is recognised as quoted and unquotes to itself, for any quote and escape characters, even equal ones |
| `Quoting.QuotedMeans` | strings.go:23-41 | exactly texts between two quote characters of which the last has an even number of escapes before it are quoted |
| `Quoting.EscapesBytes` | strings.go:67-80 | byte by byte, exactly the quote and the escape are escaped |
| `Quoting.Unquotes` | strings.go:49-63 | a quoted text reads to its characters, without an escape before any of them; other text is left alone |
| `Quoting.CheckMIMEBoring` | strings.go:940-968 | the scan decides whether a value needs no quotes |
| `Quoting.BoringChars` | strings.go:940-968 | the characters are letters, digits and `!#$&+-.` |
| `Cursor.Transaction` | parser.go:598-613 | over every run that does not go back to the mark or an older one, `restore` brings back exactly the position, the error and all older states |
| `Cursor.RunKeepsBelow` | parser.go:14-30 | such a run leaves every state at or below the mark as it was |
| `Cursor.ReuseBreaks` | parser.go:598-613 | the condition cannot be dropped |
| `Parser.State.constructor` | parser.go:22-30 | a new state is at the position of the one below, has no error and the next mark |
| `Parser.Parser.constructor` | parser.go:40-43 | one state at position 0 |
| `Parser.Parser.Mark` | parser.go:598-601 | the linked states do what the machine does, and marks along the chain are consecutive |
| `Parser.Parser.Restore` | parser.go:605-613 | the walk down the chain is the machine's `Restored`; an unknown mark changes nothing |
| `Parser.Parser.Step` | parser.go:543-545 | a move of the machine |
| `Parser.Parser.SetError` | parser.go:571-575 | an error of the machine, at the same position |
| `Parser.Parser.Present` | parser.go:550-566 | true exactly if the word is next up to case; only then the cursor moves |
| `Parser.Parser.Require` | parser.go:571-588 | the same, with an error if the word is not there; stops before white space, while it quotes the text that follows |
| `Parser.Parser.Whitespace` | parser.go:69-80 | the loop takes the longest run of white space |
| `Parser.Parser.Comment` | parser.go:86-116 | the loop with its depth counter reads what `Tokens.Comment` says, and leaves the error alone |
| `Parser.Parser.Atom` | parser.go:185-193 | reads the longest atom after a comment |
| `Parser.Parser.MIMEToken` | parser.go:197-214 | reads the longest MIME token after a comment |
| `Parser.Parser.String` | parser.go:120-153 | reads a quoted string as `Tokens.String` says |
| `Parser.Parser.MIMEValue` | parser.go:218-224 | a quoted string or a token |
| `Parser.Parser.DotAtom` | parser.go:156-181 | ends just after the last atom, never stops, older states and the error of the current one unchanged |
| `Parser.Parser.WordPieces` | parser.go:261-319 | reads the pieces of a word as far as they go, every `require` in turn, and stops exactly where one of them does |
| `Parser.Parser.Erase` | parser.go:352-365 | the loop over backspaces, with its searches out of range |
| `Parser.Parser.EncodedWord` | parser.go:250-368 | unless the program stops, all or nothing: without a word the whole stack is as it was, with one a single new state stands right after it |
| `Parser.Parser.EncodedWords` | parser.go:376-394 | unless a word stops the program, ends where it began or right after the last word |
| `Tokens.DotAtomEnds` | parser.go:156-181 | a dot-atom ends after an atom character, never after a dot, and takes every atom it can |
| `TokenMeaning.DotAtomReads` | parser.go:156-181 | atoms with dots between them read to the atoms and dots, without the white space before and around the dots |
| `TokenMeaning.ReadsString` | parser.go:120-153 | a quoted string reads to its characters, with escapes removed and white space that holds a line break read as one space |
| `TokenMeaning.AtomChars` | parser.go:185-193 | atom characters are letters, digits and the nineteen of section 3.2.3 of RFC 5322 |
| `TokenMeaning.TokenChars` | parser.go:197-214 | token characters are the printable ones without the specials of section 5.1 of RFC 2045 |
| `TokenMeaning.WhitespaceChars` | parser.go:69-80 | white space is space, tab, CR, LF and byte 160 |
| `Comments.ReadsComment` | parser.go:86-116 | on the text of any tree of text, quoted pairs and subcomments, with white space around it, exactly that is consumed and the content without escapes returned |
| `Comments.StripComments` | strings.go:143-170 | the filter loop computes `Stripped` |
| `Comments.StripsComment` | strings.go:143-170 | at any nonnegative depth exactly the span that the parser reads as a comment is erased |
| `Comments.StripsText` | strings.go:143-170 | of any text with balanced comments exactly what stands outside them is left, without escapes; of one with an open comment, what stands before it |
| `EncodedWordMeaning.WordReads` | parser.go:250-368 | for every word `=?charset*language?letter?text?=` at the cursor, the letter in either case: nothing if the charset is not known, otherwise what the charset makes of the decoded octets, finished, with the cursor right after the word, or a stop if it cannot be finished |
| `EncodedWordMeaning.WordsRead` | parser.go:376-394 | a run of words with white space before each reads to their meanings one after the other |
| `EncodedWordMeaning.WordChars` | parser.go:262-311 | which characters may stand in a charset's name and in encoded text, for each encoding and place |
| `EncodedWordMeaning.Trims` | strings.go:212-216 | white space at both ends goes and nothing else |
| `EncodedWords.WordEnds` | parser.go:250-345 | a word ends right after its `?=` |
| `EncodedWords.WordsEnd` | parser.go:376-394 | a run of words that does not stop ends where it began or after the last `?=`, takes no white space after it, and no further word follows |
| `EncodedWords.QuotingStops` | parser.go:579-588 | quoting the text that follows stops exactly before white space to the end or for fifteen bytes |
| `EncodedWords.WordStops` | parser.go:250-368 | reading a word stops exactly if such white space stands where the word breaks off, or a complete word means white space with a line break in it, or a text that erasing at backspaces runs out of |
| `EncodedWords.FinishingStops` | parser.go:346-367 | the text of a word stops the program exactly in those two cases |
| `EncodedWords.WordsStop` | parser.go:376-394 | a run of words stops at a word, past its `=?` |
| `EncodedWords.CharsetOnlyStops` | parser.go:261-277 | for example `=?u ` |
| `EncodedWords.DotNeverStops` | parser.go:163-167 | requiring a dot after a comment never stops |
| `EncodedWords.TrailingBackspace` | parser.go:352-365 | one backspace in the text goes with the character before it, except that erasing runs out of the text exactly if the backspace is last and not first |
| `EncodedWords.BackspacedStops` | parser.go:250-368 | for example `=?u?q?a=08?=` with a known charset |
| `Simplify.Simplify` | strings.go:85-140 | both loops compute `Simplified`, or stop |
| `Simplify.StopsOnBlank` | strings.go:85-121 | stops exactly on a text that is white space and not empty |
| `Simplify.SameEitherWay` | strings.go:103-140 | on ASCII text with spaces between words, leaving the text alone is rebuilding it |
| `Simplify.Collapses` | strings.go:85-140 | for any words and white space: white space at the ends goes; between the words it is left alone if each is one character, otherwise each becomes one space, and bytes become characters |
| `Simplify.EncodedMeans` | strings.go:123-138 | such a character is in UTF-8 |
| `MimeParameters.ParametersInverse` | fields.go:855-1013 | for distinct lower-case names and quotable values, parsing the packed and folded text finds exactly the parameters, possibly reordered, each name with its value |
| `ParameterReading.Parses` | fields.go:855-968 | for any list of parameters, names in any case and repeated or not, white space around the equals signs, values of several words or in quotes, the parser stores each in turn and nothing else |
| `ParameterReading.StoresMean` | fields.go:943-966 | storing adds a new name at the end, replaces the value of an old one in its place, leaves values alone for a numbered part, and changes no other parameter |
| `ParameterReading.NamesMean` | fields.go:887-895 | exactly a number after the first star, with a sign or not, makes a numbered part |
| `ParameterReading.CharsetAlone` | fields.go:896-910 | a last word without a value becomes the charset exactly in a Content-Type without one, if it is the name of a charset |
| `PrintedValues.ReadAsPrinted` | fields.go:981-1013 | a value at the end of the text is read as it was printed exactly if it has no quotes, backslashes or line breaks |
| `PrintedValues.ReadsRaw` | parser.go:120-153 | what the reader, whose escape is the backslash, makes of a value quoted with the other escape |
| `MimeParameters.PrintedWidth` | fields.go:981-1013 | if the first line fits and no word is too long, no line has more than 79 characters |
| `MimeParameters.WidthReached` | fields.go:981-1013 | 79 is reached whenever the first line fills its 78 columns |
| `MimeParameters.ParsingStays` | fields.go:855-968 | unless the text ends with a backslash, parsing never slices out of range |
| `MimeParameters.BackslashStops` | fields.go:927-942 | for example `a=(` and a backslash does |
| `MimeField.AddThenGet` | fields.go:815-839 | what was added is found exactly if the name was there before, is in lower case, or the value is empty |
| `MimeField.AddKeepsOthers` | fields.go:815-839 | adding changes no other parameter |
| `MimeField.MIMEField.GetParameter` | fields.go:815-823 | the first parameter with the name in lower case, or nothing |
| `MimeField.MIMEField.AddParameter` | fields.go:826-839 | replaces every value of the name, or appends |
| `MimeField.MIMEField.RFC822` | fields.go:981-1013 | quoting and greedy packing with removal from the word list compute `Printed` |
| `MimeField.MIMEField.ParseParameters` | fields.go:855-968 | the loop over the parser object finds what `ParseFrom` says, or stops where a slice is out of range |
| `HeaderText.ReadHeader` | header.go:70-144 | the cursor loop computes `Scanned`, with the crashes of the scan itself |
| `HeaderText.NameChars` | header.go:87-90 | the bytes of a name are 33 to 127 without the colon |
| `HeaderText.ExtensionMeans` | header.go:121-123 | names that start with `x-` in either case may have no value |
| `HeaderText.AsText` | header.go:1661-1686 | the printing loop computes `Printed` |
| `HeaderText.HeaderInverse` | header.go:70-144 | for legal names and values, folds allowed, lines that end with CR LF or LF, and any blanks after the colons, scanning the printed header, a blank line and any body gives the readable fields in order and the exact byte count; nothing else is lost |
| `HeaderStart.MarkSkipped` | header.go:82-85 | a byte order mark before any header is skipped |
| `HeaderStart.FromSkipped` | header.go:92-101 | before any text a line that starts with `From ` in any case is skipped in a message header, with any number of CRs and the LF at its end, or CRs alone, and ends the header of a part |
| `HeaderStart.FromUnended` | header.go:92-101 | if such a line is not ended the program stops |
| `HeaderText.CutHeader` | header.go:70-144 | cut after any number of bytes, such a text stops the scan exactly if the cut is in a field's name or before its value, or leaves only white space of the value |
| `Multipart.ParseMultipart` | parts.go:145-215 | the scanning loop computes `Split`, with the crashes of the scan itself |
| `Multipart.AppendMultipart` | parts.go:31-48 | the printing loop appends `Printed` to the buffer |
| `Multipart.FramingExactly` | parts.go:145-215 | for every nonempty divider without line breaks, parts with legal headers, CR LF or LF at the line ends, blanks after the delimiters, whole lines before that hold no boundary, and any text after: splitting gives exactly those parts, in order, numbered from 1, if and only if every field is readable, no line of a part but the first is a boundary line, and with LF no body ends with CR |
| `Multipart.BodyBefore` | parts.go:179-199 | in every text, a part's body and then the CR LF, the LF or nothing that the text before the boundary ends with are what stands between header and boundary |
| `Multipart.OpenPart` | parts.go:151-199 | after one delimiter line, a part that no delimiter follows reaches to the end of the text but for a line end there, with exactly its readable fields; without a body the program stops; a delimiter line at the end of the text starts no part |
| `Multipart.FramingInverse` | parts.go:145-215 | so it does for all parts that meet this |
| `Multipart.CutInHeader` | parts.go:179-199 | a boundary line in a part's header stops the program |
| `Multipart.CutInBody` | parts.go:179-199 | one in its body stops the program or cuts the body short |
| `Attachments.QuietBody` | parts.go:145-164 | a body without dashes adds no boundary line, so base64 needs no check |
| `Attachments.PrintsAs` | parts.go:54-76 | base64 is printed in lines of 72 characters, quoted-printable with its line starts guarded, anything else as it is |
| `Attachments.ReadBody` | parts.go:340-390 | stops on an empty body and on a lone CR, takes a line break as empty, and otherwise decodes the body, with canonical line breaks unless it is base64 or uuencoded; of several encodings none is undone if quoted-printable is among them and there is no `=` |
| `Attachments.NamesEncoding` | fields.go:1192-1217 | each of the nine spellings, in any case, names its encoding |
| `Attachments.ColonsSkipped` | fields.go:1319-1337 | so it does after any colons and spaces |
| `Attachments.OtherwiseQuoted` | fields.go:1319-1337 | any other token is taken for quoted-printable, or for binary if it starts with a digit and has `bit` in it |
| `Attachments.NothingNamed` | fields.go:1319-1337 | colons and spaces only stop the program |
| `Attachments.ReadsAs` | parts.go:340-390 | a part with one Content-Transfer-Encoding of these, anywhere among its fields, and a body that is not blank is read by that codec, with canonical line breaks unless it is base64 or uuencoded; without one, the line breaks are made canonical |
| `Attachments.BlankReads` | parts.go:341-358 | an empty body and a lone CR stop the program, a line break is read as nothing |
| `Attachments.ReadsTwice` | parts.go:359-378 | of two Content-Transfer-Encoding fields the first decides how the body is read, except that both are dropped when one is quoted-printable and the body has no equals sign |
| `Attachments.ComesBack` | parts.go:340-390 | what was printed is read back exactly if: in base64, the data are not empty, nor a multiple of three bytes under several encodings with quoted-printable; as they are, the data are canonical and not one line break; in quoted-printable, the data are whole lines and not one line break |
| `Attachments.LineBreakAdded` | parts.go:340-390 | for example `a` comes back neither as it is nor in quoted-printable |
| `Attachments.AttachmentsSurvive` | parts.go:340-390 | attachments, encoded as their fields say, framed, split and read (parts.go:31-76, 145-215), come back in number, order and fields; all data come back if and only if each meets the condition of `ComesBack` |
| `Attachments.RawDataSplit` | parts.go:54-76 | data that are not encoded are printed as they are: if they hold a boundary line, splitting the printed attachments gives other parts or stops |
| `HeaderCase.WordCase` | strings.go:176-197 | the loop computes the letters' cases word by word |
| `HeaderCase.HeaderCase` | strings.go:176-210 | the loop and both corrections compute `HeaderCased` |
| `HeaderCase.CaseOnly` | strings.go:176-210 | only the case of letters changes |
| `HeaderCase.SameSpelling` | strings.go:176-210 | two names are spelled alike exactly when they agree up to ASCII case |
| `HeaderCase.Idempotent` | strings.go:176-210 | a second application changes nothing |
| `NameSpelling.Spelling` | strings.go:176-210 | every letter of a name: `MIME-` in front and `-ID` at the end are in capitals, other words start with a capital and go on without |
| `Headers.CaseDoesNotMatter` | fields.go:1288-1317 | keys make fields of the same name exactly when they agree up to case, the kinds of date apart |
| `NameSpelling.KeysMean` | fields.go:1288-1317 | exactly which key, in any case, gives each of the fourteen names; any other key gives itself, spelled like a field name |
| `Headers.AddedByName` | header.go:155-175 | after any sequence of additions to any header, the fields of a name that does not merge are those there were and those added, in order; of one that merges, the first one, with the addresses of all later ones added to its own |
| `Headers.AddedInOrder` | header.go:155-175 | all fields together stand in the order in which they were first added |
| `Headers.MergeOnAdd` | header.go:155-175 | after any sequence of additions each of From, To, Cc, Bcc and Reply-To occurs at most once and holds all addresses added under it, in order |
| `Headers.LegalMeans` | header.go:363-418 | the table of conditions means: each of fourteen names at most once in either mode, From and Date exactly once in a message header |
| `Headers.CachedVerdict` | header.go:148-175 | in any interleaving of additions and checks the answer is that of a fresh evaluation |
| `HeaderRepair.RepairRemoves` | header.go:590-765 | what is left is a subsequence with the same contents but for a note in MIME-Version, and no name vanishes except Sender and Content-Transfer-Encoding |
| `HeaderRepair.RepairSettles` | header.go:686-716 | Return-Path, Message-ID, References and Date have at most one field each, or only invalid ones |
| `HeaderRepair.RepairHarmless` | header.go:590-765 | every condition of the table that held before holds afterwards |
| `HeaderRepair.RepairCrashes` | header.go:726-734 | a crash exactly for an invalid header with a Content-Transfer-Encoding and no Content-Type |
| `HeaderRepair.DetailedMeans` | header.go:630-653 | one Content-Type is singled out exactly if all agree on type and subtype and it alone has parameters |
| `HeaderRepair.VerdictStays` | header.go:590-593 | repairing never changes what `Valid` answers |
| `HeaderRepair.NeverWronglyValid` | header.go:385-418 | in any interleaving of additions, checks and repairs, a header said to be valid is |
| `HeaderRepair.RemovalStale` | header.go:189-199 | after removing a name, a good verdict is wrong exactly where a message header loses From or Date, and a bad one exactly where only those fields were at fault |
| `HeaderRepair.RemovalAtStale` | header.go:177-187 | likewise for one field |
| `Mending.WhatIsLeft` | header.go:590-765 | what all stages together leave of the fields of each name: copies of the first go and different fields stay, and so on for each stage, with the note in MIME-Version |
| `Mending.CompositeMeans` | header.go:726-734 | Content-Transfer-Encoding is out of place with the types `multipart` and `message` |
| `Mending.Mended` | header.go:590-765 | repairing makes an invalid header legal exactly if it is mendable, name by name, by the fields before |
| `Mending.HonestAfterRepair` | header.go:590-593 | the verdict after repairing is wrong exactly if an invalid header was mendable |
| `Mending.LegalByName` | header.go:385-418 | a header is legal exactly if the fields of each name are |
| `HeaderRepair.CuredButStale` | header.go:590-765 | if too many valid fields of those four names are all that is wrong, repairing makes the fields legal and the answer stays "invalid" |
| `HeaderRepair.TwoDates` | header.go:590-593 | for example any message with one From and two valid dates |
| `MessageHeader.Header.FindField` | header.go:212-224 | the n-th field of a name, or none |
| `MessageHeader.Header.AddField` | header.go:159-175 | the new fields and verdict are the machine's `Added` |
| `MessageHeader.Header.RemoveAt` | header.go:177-179 | exactly that field goes; the verdict stays |
| `MessageHeader.Header.Remove` | header.go:181-187 | the field with that identity goes, if it is there |
| `MessageHeader.Header.RemoveTaken` | header.go:189-199 | a pass that removes while it goes leaves exactly the fields not taken |
| `MessageHeader.Header.CountNames` | header.go:398-401 | the map counts every name |
| `MessageHeader.Header.Verify` | header.go:385-418 | the loops give the verdict `Legal`, once |
| `MessageHeader.Header.Valid` | header.go:148-151 | the verdict is worked out or remembered |
| `MessageHeader.Header.DedupeBy` | header.go:605-622 | later fields written like the first one of the name go |
| `MessageHeader.Header.Dedupe` | header.go:603-624 | the loop over the conditions is `Deduped`, with occurrences counted once at the start |
| `MessageHeader.Header.FindDetailed` | header.go:631-653 | the loop over the Content-Types singles out `Detailed` |
| `MessageHeader.Header.KeepContentType` | header.go:630-664 | every other Content-Type than that one goes |
| `MessageHeader.Header.FindValid` | header.go:693-699 | the first valid field of a name, or none |
| `MessageHeader.Header.KeepOnce` | header.go:687-715 | the first valid field of the name stays; of the others all go, or the invalid ones |
| `MessageHeader.Header.KeepAllOnce` | header.go:686-716 | the same for all five names, in the order of the table of names |
| `MessageHeader.Header.KeepVersion` | header.go:720-724 | the second MIME-Version goes and the first one is noted |
| `MessageHeader.Header.DropEncoding` | header.go:729-734 | Content-Transfer-Encoding goes from a multipart or message; stops without a Content-Type |
| `MessageHeader.Header.DropSender` | header.go:740-764 | Sender goes unless it is one address |
| `MessageHeader.Header.Repair` | header.go:590-765 | all stages in place give the machine's `Repaired`, with its crash |
| `Addresses.Uniquify` | addresses.go:1302-1324 | the loop with its index map computes `Unique` |
| `Addresses.KeysMean` | addresses.go:1302-1324 | addresses have the same key if they agree up to case, and the same key for comparing lists if only the case of the domain differs |
| `Addresses.UniqueKeys` | addresses.go:1302-1324 | no key twice; the keys are those of the input in order of first occurrence |
| `Addresses.UniqueChooses` | addresses.go:1302-1324 | each entry is the first with a name among those of its key, or the first if none has one |
| `Addresses.UniqueIdempotent` | addresses.go:1302-1324 | a second application changes nothing |
| `Addresses.SameAddresses` | header.go:430-473 | true exactly if both lists exist, have the same length and the second's keys are among the first's |
| `Addresses.ComparisonIsEquality` | header.go:486-566 | for lists without duplicates that is equality of the sets of keys, by counting |
| `Addresses.OneSided` | header.go:430-473 | with duplicates it is not |
| `AddressList.WriteList` | fields.go:443-478 | the loop with its column counter computes `Written` |
| `AddressList.Layout` | fields.go:443-478 | all addresses in order, every line within 78 columns or one address only, and no line broken while the next address had room |
| `AddressList.StylesAre` | fields.go:450-459 | what stands between addresses, on a line and between lines, and the 78 columns |
| `AddressList.ReferencesUnfold` | fields.go:443-478 | unfolding a References field gives its ids with one blank between them |

## Left out

- Charset conversion and guessing: a parameter of encoded words, which may fail for a charset.
- The address grammar, `NewAddress` and how an address is written: heuristics over a right-to-left scan; addresses are values here.
- `RepairWithBody`, `parseBodypart` beyond decoding the body of a part that carries data, `Message.Parse`, text parts and nested multiparts of `appendAnyPart`: they rest on charset guessing and body sniffing.
- Dates, `deUue`, `encodePhrase`, `encodeText`, `encodeWord`, `needsQP`, the parser's `Text` and `Phrase`, JSON, error texts.
- RFC 2231 continuations: they are recorded but joining them has no effect in the code, and the recorded parts are not modelled.
- Case mapping and comments over UTF-8: letters are ASCII and characters are bytes, as they are for ASCII text.
- `Header.Simplify` apart from removing duplicates and comparing address lists: a list of independent removals.
- `removeParameter`, `MarshalJSON` and the getters: no other part of the model depends on them.
- Which error a header or the parser has: only that there is one, and for the parser which kind.
- Field objects: a field is a value with an identity, so headers that share a field object, or hold one twice, are not modelled; `Add` makes a new field each time.
- MessageHeader.Header.Repair: how a field is written and the text of the MIME-Version note are parameters.
- HeaderText.ReadHeader: parsing a value inside `Add` is not modelled, and can stop the program, for example on `Date: :`.
- Multipart.ParseMultipart: `Repair`, `RepairWithBody` and parsing the body, which the loop calls for each part and which can stop the program, are not modelled.
- Attachments.AttachmentsSurvive: what type a Content-Type value means is a parameter, and text, message and multipart parts are left out; so are the changes the reader makes to the header of a part once it is read, and `Repair` before.
- Multipart.FramingExactly: a boundary in the text before the first delimiter is excluded, a body may be empty, although reading it then stops the program (`Attachments.Reading`), and `Repair` and `RepairWithBody` are not modelled.
- Multipart.FramingInverse: likewise.
- HeaderText.HeaderInverse: what the scanner finds, not what `Add` makes of a value.
- HeaderText.CutHeader: the same, and only headers with legal fields are cut.
- MimeField.MIMEField.ParseParameters: the state of the parser afterwards is not stated beyond being well formed. A number after the star is one of any size: in the code one beyond the range of `int` leaves the star in the name, and one near its end stops the program when the parts before it are to be filled up (fields.go:956-959).
- MimeParameters.ParsingStays: about slices of the text; such a number is not modelled. Which texts with a backslash at the end stop the parser is not stated, because that depends on every token before it.
- Headers.MergeOnAdd: parsing a value into addresses is not modelled; a field is added with its addresses.
