/**
 * The text extractor of api/utils.py (`extract_text_from_file`).
 *
 * The uploaded file is a value carrying what each library would produce
 * from it: the bytes `read()` returns, the page texts of a PDF reader and
 * the paragraph texts of a .docx reader, each of which may instead raise.
 * The MIME guess from the name, the UTF-8 decoder (with undecodable bytes
 * dropped) and `str.isprintable` are abstract functions in `Platform`.
 */
module Extraction {
  import opened Wrappers
  import opened Text

  newtype byte = x: int | 0 <= x < 256

  /** What a library call produced: a value, or an exception with its message. */
  datatype Parsed<T> = Parsed(value: T) | Raised(message: string)

  datatype UploadedFile = UploadedFile(
    name: Option<string>,                 // the `name` attribute, if any
    contentType: Option<string>,          // the `content_type` attribute, if any
    contents: Parsed<seq<byte>>,          // `file_obj.read()`
    pdfPages: Parsed<seq<Option<string>>>, // `page.extract_text()` for each page of the PDF reader
    docxParagraphs: Parsed<seq<string>>)  // `para.text` for each paragraph of the .docx reader

  /** The foreign functions the extractor calls, as total functions. */
  datatype Platform = Platform(
    guessType: string -> Option<string>,   // mimetypes.guess_type(name)[0]
    decodeUtf8: seq<byte> -> string,       // bytes.decode('utf-8', errors='ignore')
    isPrintable: char -> bool)             // str.isprintable on one character

  const DefaultFileName := "unknown_file_type"
  const PdfMime := "application/pdf"
  const DocxMime := "application/vnd.openxmlformats-" + "officedocument.wordprocessingml.document"
  const MswordMime := "application/msword"
  const PlainTextMime := "text/plain"

  const NoContentMessage := "No text content could be " + "extracted from the document."
  /** The words that open both unsupported-type messages. */
  const UnsupportedWording := "Unsupported file type"
  const UnrecognisedMessage := UnsupportedWording + " or content not " + "recognized as plain text."
  const ErrorPrefix := ErrorStem + " "
  /** What is left of `ErrorPrefix` once a blank message has been stripped away. */
  const ErrorStem := ErrorWording + ":"
  const ErrorWording := "An error occurred during " + "text extraction"
  const DocFailurePrefix := DocFailureStem + " "
  const DocFailureStem := DocFailureWording + ":"
  const DocFailureWording := "Could not reliably extract text " + "from .doc file"

  /** The fallback judges at most this many leading characters ... */
  const SampleSize := 500
  /** ... and rejects the text once this many of them are non-printable. */
  const NonPrintableLimit := 50

  function UndecodableMessage(mime: Option<string>): string {
    UndecodableOpening + MimeOrUnknown(mime) + "). Could not decode as text."
  }

  const UndecodableOpening := UnsupportedWording + " ("

  /** Python truthiness of an optional string. */
  predicate Falsy(o: Option<string>) {
    o.None? || o.value == ""
  }

  /** `mime_type or 'unknown'` */
  function MimeOrUnknown(mime: Option<string>): string {
    if Falsy(mime) then "unknown" else mime.value
  }

  function FileName(f: UploadedFile): string {
    if f.name.Some? then f.name.value else DefaultFileName
  }

  /** The name-based guess, and `content_type` only when the guess gave nothing. */
  function ResolveMime(guess: Option<string>, contentType: Option<string>): (m: Option<string>)
    ensures !Falsy(guess) ==> m == guess
    ensures Falsy(guess) && contentType.Some? ==> m == contentType
    ensures Falsy(guess) && contentType.None? ==> m == guess
  {
    if Falsy(guess) && contentType.Some? then contentType else guess
  }

  function MimeOf(f: UploadedFile, lib: Platform): Option<string> {
    ResolveMime(lib.guessType(FileName(f)), f.contentType)
  }

  /** The branches of the extractor, in the order they are tried. */
  datatype Route = PdfRoute | DocxRoute | LegacyWordRoute | PlainTextRoute | FallbackRoute

  predicate NameEndsWith(fileName: string, suffix: string) {
    EndsWith(Lower(fileName), suffix)
  }

  function RouteOf(fileName: string, mime: Option<string>): Route {
    if mime == Some(PdfMime) || NameEndsWith(fileName, ".pdf") then PdfRoute
    else if mime == Some(DocxMime) || mime == Some(MswordMime)
         || NameEndsWith(fileName, ".docx") || NameEndsWith(fileName, ".doc") then
      if NameEndsWith(fileName, ".docx") then DocxRoute else LegacyWordRoute
    else if mime == Some(PlainTextMime) || NameEndsWith(fileName, ".txt") then PlainTextRoute
    else FallbackRoute
  }

  /** Each string followed by a newline, in order; the `text += x + "\n"` loops. */
  function JoinLines(xs: seq<string>): string {
    if xs == [] then "" else xs[0] + "\n" + JoinLines(xs[1..])
  }

  /** The texts of the pages that yielded some text, in page order. */
  function KeptPages(pages: seq<Option<string>>): (r: seq<string>)
    ensures forall i :: 0 <= i < |r| ==> r[i] != ""
  {
    if pages == [] then []
    else (if Falsy(pages[0]) then [] else [pages[0].value]) + KeptPages(pages[1..])
  }

  /** latin-1 decoding: each byte is the code point of its value. */
  function Latin1Decode(bs: seq<byte>): (s: string)
    ensures |s| == |bs|
    ensures forall i :: 0 <= i < |bs| ==> s[i] as int == bs[i] as int
  {
    seq(|bs|, i requires 0 <= i < |bs| => (bs[i] as int) as char)
  }

  /** latin-1 encoding; it fails on a code point above 255. */
  function Latin1Encode(s: string): Option<seq<byte>> {
    if forall i :: 0 <= i < |s| ==> s[i] as int < 256 then
      Some(seq(|s|, i requires 0 <= i < |s| && s[i] as int < 256 => s[i] as int as byte))
    else None
  }

  /** `char not in '\n\r\t' and not char.isprintable()` */
  predicate CountsAsNonPrintable(c: char, isPrintable: char -> bool) {
    !isPrintable(c) && c != '\n' && c != '\r' && c != '\t'
  }

  /** The number of characters of `s` the fallback counts against the text. */
  function NonPrintableCount(s: string, isPrintable: char -> bool): (n: nat)
    ensures n <= |s|
  {
    if s == [] then 0
    else (if CountsAsNonPrintable(s[0], isPrintable) then 1 else 0)
         + NonPrintableCount(s[1..], isPrintable)
  }

  /** `possible_text[:500]` */
  function Sample(s: string): string {
    if |s| <= SampleSize then s else s[..SampleSize]
  }

  predicate LooksLikeText(s: string, isPrintable: char -> bool) {
    NonPrintableCount(Sample(s), isPrintable) < NonPrintableLimit
  }

  /** Where the text produced by a completed branch came from. */
  datatype Source = FromDocument | DocReadFailed | Unrecognised | Undecodable

  /** The outcome of the `try` body up to the placeholder test. */
  datatype Attempt = Finished(text: string, source: Source) | Threw(message: string)

  function BranchOutcome(f: UploadedFile, lib: Platform): Attempt {
    var mime := MimeOf(f, lib);
    match RouteOf(FileName(f), mime)
    case PdfRoute =>
      (match f.pdfPages
       case Raised(m) => Threw(m)
       case Parsed(pages) => Finished(JoinLines(KeptPages(pages)), FromDocument))
    case DocxRoute =>
      (match f.docxParagraphs
       case Raised(m) => Threw(m)
       case Parsed(paras) => Finished(JoinLines(paras), FromDocument))
    case LegacyWordRoute =>
      (match f.contents
       case Raised(m) => Finished(DocFailurePrefix + m + "\n", DocReadFailed)
       case Parsed(bs) => Finished(Latin1Decode(bs), FromDocument))
    case PlainTextRoute =>
      (match f.contents
       case Raised(m) => Threw(m)
       case Parsed(bs) => Finished(lib.decodeUtf8(bs), FromDocument))
    case FallbackRoute =>
      (match f.contents
       case Raised(_) => Finished(UndecodableMessage(mime), Undecodable)
       case Parsed(bs) =>
         var t := lib.decodeUtf8(bs);
         if LooksLikeText(t, lib.isPrintable) then Finished(t, FromDocument)
         else Finished(UnrecognisedMessage, Unrecognised))
  }

  /** The placeholder substitution, the `except` clause and the final strip. */
  function Finish(a: Attempt): string {
    match a
    case Finished(t, _) => Strip(if Strip(t) == "" then NoContentMessage else t)
    case Threw(m) => Strip(ErrorPrefix + m)
  }

  /**
   * What `extract_text_from_file` returns for `f`. It is always a string with
   * no whitespace at either end, and never the empty string.
   */
  function Extracted(f: UploadedFile, lib: Platform): (r: string)
    ensures IsStripped(r) && r != ""
  {
    var a := BranchOutcome(f, lib);
    WordingsStripped();
    if a.Threw? then
      AppendAssoc(ErrorStem, " ", a.message);
      OpeningNotBlank(ErrorStem, " " + a.message);
      Finish(a)
    else
      FinishedText(a.text, a.source);
      Finish(a)
  }

  /** The result is a diagnostic string rather than text taken from the document. */
  predicate IsDiagnostic(f: UploadedFile, lib: Platform) {
    match BranchOutcome(f, lib)
    case Threw(_) => true
    case Finished(t, source) => source != FromDocument || IsBlank(t)
  }

  /**
   * What is not a diagnostic is the document's own text: the branch's text,
   * not blank, returned with only its surrounding whitespace removed.
   */
  lemma DocumentTextKept(f: UploadedFile, lib: Platform)
    requires !IsDiagnostic(f, lib)
    ensures var a := BranchOutcome(f, lib);
      a.Finished? && a.source == FromDocument && !IsBlank(a.text) && Extracted(f, lib) == Strip(a.text)
  {
    var a := BranchOutcome(f, lib);
    FinishedText(a.text, a.source);
  }

  /**
   * The PDF loop: each page that has text contributes that text and a
   * newline, in page order; pages without text are skipped.
   */
  method PdfText(pages: seq<Option<string>>) returns (text: string)
    ensures text == JoinLines(KeptPages(pages))
  {
    text := "";
    for i := 0 to |pages|
      invariant text == JoinLines(KeptPages(pages[..i]))
    {
      var pageText := pages[i];
      KeptPagesSnoc(pages[..i], pageText);
      assert pages[..i + 1] == pages[..i] + [pageText];
      if !Falsy(pageText) {
        JoinLinesSnoc(KeptPages(pages[..i]), pageText.value);
        text := text + pageText.value + "\n";
      } else {
        assert KeptPages(pages[..i + 1]) == KeptPages(pages[..i]) + [];
        assert KeptPages(pages[..i]) + [] == KeptPages(pages[..i]);
      }
    }
    assert pages[..|pages|] == pages;
  }

  /** The .docx loop: every paragraph, empty ones included, and a newline, in order. */
  method DocxText(paras: seq<string>) returns (text: string)
    ensures text == JoinLines(paras)
  {
    text := "";
    for i := 0 to |paras|
      invariant text == JoinLines(paras[..i])
    {
      JoinLinesSnoc(paras[..i], paras[i]);
      assert paras[..i + 1] == paras[..i] + [paras[i]];
      text := text + paras[i] + "\n";
    }
    assert paras[..|paras|] == paras;
  }

  /**
   * The extractor as the source runs it: pick a branch, accumulate `text`
   * page by page or paragraph by paragraph, substitute the placeholder,
   * turn an exception into the error string, and strip.
   */
  method ExtractTextFromFile(f: UploadedFile, lib: Platform) returns (text: string)
    ensures text == Extracted(f, lib)
  {
    text := "";
    var fileName := FileName(f);
    var mime := ResolveMime(lib.guessType(fileName), f.contentType);
    var raised: Option<string> := None;
    var route := RouteOf(fileName, mime);
    ghost var attempt: Attempt;
    if route == PdfRoute {
      match f.pdfPages
      case Raised(m) =>
        raised := Some(m);
        attempt := Threw(m);
      case Parsed(pages) =>
        text := PdfText(pages);
        attempt := Finished(text, FromDocument);
    } else if route == DocxRoute {
      match f.docxParagraphs
      case Raised(m) =>
        raised := Some(m);
        attempt := Threw(m);
      case Parsed(paras) =>
        text := DocxText(paras);
        attempt := Finished(text, FromDocument);
    } else if route == LegacyWordRoute {
      match f.contents
      case Raised(m) =>
        text := DocFailurePrefix + m + "\n";
        attempt := Finished(text, DocReadFailed);
      case Parsed(bs) =>
        text := Latin1Decode(bs);
        attempt := Finished(text, FromDocument);
    } else if route == PlainTextRoute {
      match f.contents
      case Raised(m) =>
        raised := Some(m);
        attempt := Threw(m);
      case Parsed(bs) =>
        text := lib.decodeUtf8(bs);
        attempt := Finished(text, FromDocument);
    } else {
      match f.contents
      case Raised(_) =>
        text := UndecodableMessage(mime);
        attempt := Finished(text, Undecodable);
      case Parsed(bs) =>
        var possibleText := lib.decodeUtf8(bs);
        if NonPrintableCount(Sample(possibleText), lib.isPrintable) < NonPrintableLimit {
          text := possibleText;
          attempt := Finished(text, FromDocument);
        } else {
          text := UnrecognisedMessage;
          attempt := Finished(text, Unrecognised);
        }
    }
    assert attempt == BranchOutcome(f, lib);
    assert raised.Some? <==> attempt.Threw?;
    assert raised.Some? ==> attempt.message == raised.value;
    assert raised.None? ==> attempt.text == text;
    if raised.None? && Strip(text) == "" {
      text := NoContentMessage;
    }
    if raised.Some? {
      text := ErrorPrefix + raised.value;
    }
    text := Strip(text);
  }

  lemma {:induction false} JoinLinesSnoc(xs: seq<string>, x: string)
    ensures JoinLines(xs + [x]) == JoinLines(xs) + x + "\n"
  {
    if xs == [] {
      assert [x][1..] == [];
    } else {
      assert (xs + [x])[1..] == xs[1..] + [x];
      JoinLinesSnoc(xs[1..], x);
    }
  }

  lemma {:induction false} KeptPagesSnoc(pages: seq<Option<string>>, p: Option<string>)
    ensures KeptPages(pages + [p]) == KeptPages(pages) + (if Falsy(p) then [] else [p.value])
  {
    if pages == [] {
      assert [p][1..] == [];
    } else {
      assert (pages + [p])[1..] == pages[1..] + [p];
      KeptPagesSnoc(pages[1..], p);
    }
  }

  // ---------------------------------------------------------------------
  // Properties of the extractor
  // ---------------------------------------------------------------------

  /**
   * Text a branch finished with is returned stripped, unless it is blank,
   * in which case the result is exactly the no-content placeholder.
   */
  lemma FinishedText(t: string, source: Source)
    ensures Finish(Finished(t, source)) == if IsBlank(t) then NoContentMessage else Strip(t)
  {
    WordingsStripped();
    StripStripped(Strip(t));
    StripStripped(NoContentMessage);
  }

  /**
   * An exception becomes the error string: it always opens with the
   * sentence up to its colon, and with the whole prefix (colon and space)
   * whenever the message is not blank.
   */
  lemma ErrorString(m: string)
    ensures StartsWith(Finish(Threw(m)), ErrorStem)
    ensures !IsBlank(m) ==> Finish(Threw(m)) == ErrorPrefix + TrimRight(m)
    ensures IsBlank(m) ==> Finish(Threw(m)) == ErrorStem
  {
    WordingsStripped();
    StripAfterWord(ErrorStem, m);
    if IsBlank(m) {
      StartsWithSelf(ErrorStem);
    } else {
      StartsWithFirst(ErrorStem, " " + TrimRight(m));
      AppendAssoc(ErrorStem, " ", TrimRight(m));
    }
  }

  /** The fixed wordings the diagnostics open with have no whitespace at either end. */
  lemma WordingsStripped()
    ensures ErrorStem != [] && IsStripped(ErrorStem)
    ensures DocFailureStem != [] && IsStripped(DocFailureStem)
    ensures UndecodableOpening != [] && IsStripped(UndecodableOpening)
    ensures UnrecognisedMessage != [] && IsStripped(UnrecognisedMessage)
    ensures NoContentMessage != [] && IsStripped(NoContentMessage)
  {
    assert ErrorStem[0] == 'A' && ErrorStem[|ErrorStem| - 1] == ':';
    assert DocFailureStem[0] == 'C' && DocFailureStem[|DocFailureStem| - 1] == ':';
    assert UndecodableOpening[0] == 'U' && UndecodableOpening[|UndecodableOpening| - 1] == '(';
    assert UnrecognisedMessage[0] == 'U' && UnrecognisedMessage[|UnrecognisedMessage| - 1] == '.';
    assert NoContentMessage[0] == 'N' && NoContentMessage[|NoContentMessage| - 1] == '.';
  }

  /**
   * A failed `.doc` read becomes its failure string: it always opens with
   * the sentence up to its colon.
   */
  lemma DocFailureString(m: string)
    ensures StartsWith(Finish(Finished(DocFailurePrefix + m + "\n", DocReadFailed)), DocFailureStem)
  {
    var tail := " " + (m + "\n");
    WordingsStripped();
    AppendAssoc(DocFailurePrefix, m, "\n");
    AppendAssoc(DocFailureStem, " ", m + "\n");
    OpeningNotBlank(DocFailureStem, tail);
    FinishedText(DocFailureStem + tail, DocReadFailed);
    StripKeepsOpening(DocFailureStem, tail);
  }

  /**
   * Each diagnostic source carries its own message: the `.doc` failure
   * string, the unrecognised-content message, or the undecodable message
   * naming the resolved MIME type.
   */
  lemma DiagnosticTexts(f: UploadedFile, lib: Platform)
    ensures var a := BranchOutcome(f, lib);
      && (a.Finished? && a.source == DocReadFailed ==>
            f.contents.Raised? && a.text == DocFailurePrefix + f.contents.message + "\n")
      && (a.Finished? && a.source == Unrecognised ==> a.text == UnrecognisedMessage)
      && (a.Finished? && a.source == Undecodable ==> a.text == UndecodableMessage(MimeOf(f, lib)))
  {
    match RouteOf(FileName(f), MimeOf(f, lib))
    case PdfRoute =>
    case DocxRoute =>
    case LegacyWordRoute =>
    case PlainTextRoute =>
    case FallbackRoute =>
  }

  /** A name ending in `.pdf` (in any letter case) takes the PDF branch whatever the MIME type. */
  lemma PdfSuffixWins(fileName: string, mime: Option<string>)
    requires NameEndsWith(fileName, ".pdf")
    ensures RouteOf(fileName, mime) == PdfRoute
  {
  }

  /**
   * The PDF branch: the text of every page that yielded some, each followed
   * by a newline, in page order; pages without text are skipped.
   */
  lemma PdfBranch(f: UploadedFile, lib: Platform)
    requires RouteOf(FileName(f), MimeOf(f, lib)) == PdfRoute && f.pdfPages.Parsed?
    ensures var t := JoinLines(KeptPages(f.pdfPages.value));
      Extracted(f, lib) == if IsBlank(t) then NoContentMessage else Strip(t)
  {
    assert BranchOutcome(f, lib) == Finished(JoinLines(KeptPages(f.pdfPages.value)), FromDocument);
    FinishedText(JoinLines(KeptPages(f.pdfPages.value)), FromDocument);
  }

  /** Two pages "A" and "B", with an empty and a missing page between them, give "A\nB". */
  lemma PdfTwoPages(f: UploadedFile, lib: Platform)
    requires RouteOf(FileName(f), MimeOf(f, lib)) == PdfRoute
    requires f.pdfPages == Parsed([Some("A"), None, Some(""), Some("B")])
    ensures Extracted(f, lib) == "A\nB"
  {
    TwoPagesText();
    StripNewline("A\nB");
    assert !IsBlank("A\nB\n") by { assert "A\nB\n"[0] == 'A'; }
    PdfBranch(f, lib);
  }

  lemma TwoPagesText()
    ensures JoinLines(KeptPages([Some("A"), None, Some(""), Some("B")])) == "A\nB" + "\n"
  {
    var pages := [Some("A"), None, Some(""), Some("B")];
    KeptPagesSnoc([Some("A"), None, Some("")], Some("B"));
    KeptPagesSnoc([Some("A"), None], Some(""));
    KeptPagesSnoc([Some("A")], None);
    KeptPagesSnoc([], Some("A"));
    assert [Some("A"), None, Some("")] + [Some("B")] == pages;
    assert KeptPages(pages) == ["A", "B"];
    var t := JoinLines(["A", "B"]);
    assert ["A", "B"][1..] == ["B"] && ["B"][1..] == [];
    assert JoinLines(["B"]) == "B\n";
    assert t == "A" + "\n" + "B\n";
  }


  /** A trailing newline after stripped text is what the final strip removes. */
  lemma StripNewline(u: string)
    requires u != [] && IsStripped(u)
    ensures Strip(u + "\n") == u
  {
    StripAfterPrefix(u, "\n");
    SkipSpacesBackUnique(u, |u|, 0, |u|);
    assert u[..|u|] == u;
  }

  /**
   * The .docx branch keeps every paragraph, empty ones included, each
   * followed by a newline, in document order.
   */
  lemma DocxBranch(f: UploadedFile, lib: Platform)
    requires NameEndsWith(FileName(f), ".docx") && !NameEndsWith(FileName(f), ".pdf")
    requires MimeOf(f, lib) != Some(PdfMime) && f.docxParagraphs.Parsed?
    ensures var t := JoinLines(f.docxParagraphs.value);
      Extracted(f, lib) == if IsBlank(t) then NoContentMessage else Strip(t)
  {
    assert RouteOf(FileName(f), MimeOf(f, lib)) == DocxRoute;
    assert BranchOutcome(f, lib) == Finished(JoinLines(f.docxParagraphs.value), FromDocument);
    FinishedText(JoinLines(f.docxParagraphs.value), FromDocument);
  }

  /** Paragraphs "a", "" and "b" give "a\n\nb": the empty paragraph keeps its line. */
  lemma DocxEmptyParagraph(f: UploadedFile, lib: Platform)
    requires NameEndsWith(FileName(f), ".docx") && !NameEndsWith(FileName(f), ".pdf")
    requires MimeOf(f, lib) != Some(PdfMime)
    requires f.docxParagraphs == Parsed(["a", "", "b"])
    ensures Extracted(f, lib) == "a\n\nb"
  {
    var t := JoinLines(["a", "", "b"]);
    assert ["a", "", "b"][1..] == ["", "b"] && ["", "b"][1..] == ["b"] && ["b"][1..] == [];
    assert JoinLines(["b"]) == "b\n";
    assert JoinLines(["", "b"]) == "" + "\n" + "b\n";
    assert t == "a" + "\n" + "\nb\n";
    assert t == "a\n\nb\n";
    assert t == "a\n\nb" + "\n";
    StripNewline("a\n\nb");
    DocxBranch(f, lib);
  }

  /**
   * A Word type on a name not ending in `.docx` (a `.doc` name, or an
   * msword or docx MIME type on any other name) is decoded as latin-1.
   */
  lemma LegacyWordIsLatin1(f: UploadedFile, lib: Platform)
    requires var mime := MimeOf(f, lib);
      mime == Some(MswordMime) || mime == Some(DocxMime) || NameEndsWith(FileName(f), ".doc")
    requires !NameEndsWith(FileName(f), ".docx") && !NameEndsWith(FileName(f), ".pdf")
    requires MimeOf(f, lib) != Some(PdfMime) && f.contents.Parsed?
    ensures var t := Latin1Decode(f.contents.value);
      Extracted(f, lib) == if IsBlank(t) then NoContentMessage else Strip(t)
  {
    assert RouteOf(FileName(f), MimeOf(f, lib)) == LegacyWordRoute;
    assert BranchOutcome(f, lib) == Finished(Latin1Decode(f.contents.value), FromDocument);
    FinishedText(Latin1Decode(f.contents.value), FromDocument);
  }

  /** latin-1 decoding loses nothing: encoding its result gives the bytes back. */
  lemma Latin1RoundTrip(bs: seq<byte>)
    ensures Latin1Encode(Latin1Decode(bs)) == Some(bs)
  {
    var s := Latin1Decode(bs);
    assert forall i :: 0 <= i < |s| ==> s[i] as int < 256;
    var e := Latin1Encode(s).value;
    assert |e| == |bs|;
    assert forall i :: 0 <= i < |bs| ==> e[i] == bs[i];
    assert e == bs;
  }

  /** The plain-text branch returns the decoded text untouched apart from the strip. */
  lemma PlainTextBranch(f: UploadedFile, lib: Platform)
    requires RouteOf(FileName(f), MimeOf(f, lib)) == PlainTextRoute && f.contents.Parsed?
    ensures var t := lib.decodeUtf8(f.contents.value);
      Extracted(f, lib) == if IsBlank(t) then NoContentMessage else Strip(t)
  {
    assert BranchOutcome(f, lib) == Finished(lib.decodeUtf8(f.contents.value), FromDocument);
    FinishedText(lib.decodeUtf8(f.contents.value), FromDocument);
  }

  /** A text file holding "hello\nworld" extracts to exactly "hello\nworld". */
  lemma PlainTextHelloWorld(f: UploadedFile, lib: Platform)
    requires RouteOf(FileName(f), MimeOf(f, lib)) == PlainTextRoute && f.contents.Parsed?
    requires lib.decodeUtf8(f.contents.value) == "hello\nworld"
    ensures Extracted(f, lib) == "hello\nworld"
  {
    var t := "hello\nworld";
    assert t[0] == 'h' && t[|t| - 1] == 'd';
    StripStripped(t);
    assert !IsBlank(t);
    PlainTextBranch(f, lib);
  }

  /** The count over two strings is the sum of their counts. */
  lemma {:induction false} NonPrintableCountAppend(s: string, t: string, isPrintable: char -> bool)
    ensures NonPrintableCount(s + t, isPrintable)
            == NonPrintableCount(s, isPrintable) + NonPrintableCount(t, isPrintable)
    decreases |s|
  {
    if s == [] {
      assert s + t == t;
    } else {
      assert (s + t)[0] == s[0];
      assert (s + t)[1..] == s[1..] + t;
      NonPrintableCountAppend(s[1..], t, isPrintable);
    }
  }

  /** Text made only of printable characters, newlines, carriage returns and tabs counts nothing. */
  lemma {:induction false} PrintableCountsNothing(s: string, isPrintable: char -> bool)
    requires forall i :: 0 <= i < |s| ==> !CountsAsNonPrintable(s[i], isPrintable)
    ensures NonPrintableCount(s, isPrintable) == 0
    decreases |s|
  {
    if s != [] {
      assert forall i :: 0 <= i < |s[1..]| ==> s[1..][i] == s[i + 1];
      PrintableCountsNothing(s[1..], isPrintable);
    }
  }

  /** Only the first 500 characters are looked at: what follows them never changes the verdict. */
  lemma TailBeyondSampleIgnored(s: string, t: string, isPrintable: char -> bool)
    requires |s| >= SampleSize
    ensures LooksLikeText(s + t, isPrintable) == LooksLikeText(s, isPrintable)
  {
    assert (s + t)[..SampleSize] == s[..SampleSize];
    assert s[..SampleSize] == if |s| == SampleSize then s else Sample(s);
    assert Sample(s + t) == Sample(s) by {
      if |s + t| == SampleSize { assert t == [] && s + t == s; }
    }
  }

  /** Text shorter than the limit can never hold enough non-printable characters to be refused. */
  lemma ShortTextLooksLikeText(s: string, isPrintable: char -> bool)
    requires |s| < NonPrintableLimit
    ensures LooksLikeText(s, isPrintable)
  {
  }

  /**
   * The fallback branch keeps the decoded text exactly when fewer than 50 of
   * its first 500 characters count as non-printable; otherwise the result is
   * exactly the "not recognized" message.
   */
  lemma FallbackBranch(f: UploadedFile, lib: Platform)
    requires RouteOf(FileName(f), MimeOf(f, lib)) == FallbackRoute && f.contents.Parsed?
    ensures var t := lib.decodeUtf8(f.contents.value);
      Extracted(f, lib) ==
        if !LooksLikeText(t, lib.isPrintable) then UnrecognisedMessage
        else if IsBlank(t) then NoContentMessage
        else Strip(t)
  {
    var t := lib.decodeUtf8(f.contents.value);
    if LooksLikeText(t, lib.isPrintable) {
      FinishedText(t, FromDocument);
      assert BranchOutcome(f, lib) == Finished(t, FromDocument);
    } else {
      UnrecognisedFinish();
      assert BranchOutcome(f, lib) == Finished(UnrecognisedMessage, Unrecognised);
    }
  }

  /** The undecodable-type message keeps its opening words through the final steps. */
  lemma UndecodableFinish(mime: Option<string>)
    ensures StartsWith(Finish(Finished(UndecodableMessage(mime), Undecodable)), UndecodableOpening)
  {
    var shown := MimeOrUnknown(mime);
    var rest := shown + "). Could not decode as text.";
    WordingsStripped();
    AppendAssoc(UndecodableOpening, shown, "). Could not decode as text.");
    OpeningNotBlank(UndecodableOpening, rest);
    StripKeepsOpening(UndecodableOpening, rest);
    FinishedText(UndecodableOpening + rest, Undecodable);
  }

  /** The unrecognised-content message comes out of the final steps unchanged. */
  lemma UnrecognisedFinish()
    ensures Finish(Finished(UnrecognisedMessage, Unrecognised)) == UnrecognisedMessage
  {
    WordingsStripped();
    StripStripped(UnrecognisedMessage);
    OpeningNotBlank(UnrecognisedMessage, "");
    FinishedText(UnrecognisedMessage, Unrecognised);
  }

  /**
   * An empty file read as bytes (the latin-1, plain-text and fallback
   * branches) extracts to the no-content placeholder, and so do a PDF
   * without pages and a .docx without paragraphs.
   */
  lemma EmptyFileGivesPlaceholder(f: UploadedFile, lib: Platform)
    requires lib.decodeUtf8([]) == ""
    requires var route := RouteOf(FileName(f), MimeOf(f, lib));
      (route in {LegacyWordRoute, PlainTextRoute, FallbackRoute} && f.contents == Parsed([]))
      || (route == PdfRoute && f.pdfPages == Parsed([]))
      || (route == DocxRoute && f.docxParagraphs == Parsed([]))
    ensures Extracted(f, lib) == NoContentMessage
  {
    assert Latin1Decode([]) == "";
    assert NonPrintableCount(Sample(""), lib.isPrintable) == 0;
    StripStripped(NoContentMessage);
  }
}
