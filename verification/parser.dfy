/** `parseResumeFile` of lib/resume/parser.ts: pick a decoder by file extension,
    reject text that is too short, and hand the rest to the extractor. The PDF
    and DOCX decoders are outside the model; they are parameters. */
module Parser {
  import opened Wrappers
  import opened Text
  import opened Extractor
  import opened FileNames

  type Bytes = seq<bv8>

  /** A document decoder: the text it recovers, or the message it fails with. */
  type Decoder = Bytes -> Result<string, string>

  datatype ParseError =
    | UnsupportedFileType
    | EmptyResume
    | DecoderFailed(message: string)

  /** The message of the error the parser throws. */
  function Message(e: ParseError): (r: string)
    ensures e == UnsupportedFileType ==> r == "Unsupported file type. Only .pdf and .docx allowed."
    ensures e == EmptyResume ==> r == "Resume is empty or could not be parsed."
    ensures e.DecoderFailed? ==> r == e.message
  {
    match e
    case UnsupportedFileType => "Unsupported file type. Only .pdf and .docx allowed."
    case EmptyResume => "Resume is empty or could not be parsed."
    case DecoderFailed(m) => m
  }

  /** Decoded text whose trimmed length, in UTF-16 code units, is below this is
      refused. */
  const MinTextLength: nat := 10

  /** The step after decoding: a decoder failure is passed on, text too short
      once trimmed is refused, and anything else is extracted as it came. The
      length is JavaScript's `length`, which counts UTF-16 code units. */
  function Accept(lexicon: seq<string>, decoded: Result<string, string>): (r: Result<ResumeRecord, ParseError>)
    ensures r.Success? <==> decoded.Success? && Utf16Length(Trim(decoded.value)) >= MinTextLength
    ensures r.Success? ==> r.value == ExtractStructuredData(lexicon, decoded.value)
    ensures decoded.Failure? ==> r == Failure(DecoderFailed(decoded.error))
    ensures decoded.Success? && Utf16Length(Trim(decoded.value)) < MinTextLength ==> r == Failure(EmptyResume)
  {
    match decoded
    case Failure(m) => Failure(DecoderFailed(m))
    case Success(text) =>
      if text == "" || Utf16Length(Trim(text)) < MinTextLength then Failure(EmptyResume)
      else Success(ExtractStructuredData(lexicon, text))
  }

  /** `parseResumeFile(file)`, for a file called `fileName` holding `contents`. */
  function ParseResumeFile(lexicon: seq<string>, fileName: string, contents: Bytes, pdf: Decoder, docx: Decoder)
    : (r: Result<ResumeRecord, ParseError>)
    ensures Extension(fileName) == "pdf" ==> r == Accept(lexicon, pdf(contents))
    ensures Extension(fileName) == "docx" ==> r == Accept(lexicon, docx(contents))
    ensures Extension(fileName) != "pdf" && Extension(fileName) != "docx" ==> r == Failure(UnsupportedFileType)
  {
    var ext := Extension(fileName);
    if ext == "pdf" then Accept(lexicon, pdf(contents))
    else if ext == "docx" then Accept(lexicon, docx(contents))
    else Failure(UnsupportedFileType)
  }

  /** A successful parse is the extraction of text some decoder returned for the
      contents, and that text is long enough. */
  lemma {:induction false} ParsedFromDecodedText(lexicon: seq<string>, fileName: string, contents: Bytes, pdf: Decoder, docx: Decoder)
    requires ParseResumeFile(lexicon, fileName, contents, pdf, docx).Success?
    ensures exists text :: && (pdf(contents) == Success(text) || docx(contents) == Success(text))
                           && Utf16Length(Trim(text)) >= MinTextLength
                           && ParseResumeFile(lexicon, fileName, contents, pdf, docx).value == ExtractStructuredData(lexicon, text)
  {
    var decoded := DecodedBy(lexicon, fileName, contents, pdf, docx);
    var text := decoded.value;
    assert pdf(contents) == Success(text) || docx(contents) == Success(text);
  }

  /** A parse that got past the extension check is `Accept` of one decoder's output. */
  lemma {:induction false} DecodedBy(lexicon: seq<string>, fileName: string, contents: Bytes, pdf: Decoder, docx: Decoder)
    returns (decoded: Result<string, string>)
    requires !ParseResumeFile(lexicon, fileName, contents, pdf, docx).Failure? ||
             ParseResumeFile(lexicon, fileName, contents, pdf, docx).error != UnsupportedFileType
    ensures decoded == pdf(contents) || decoded == docx(contents)
    ensures ParseResumeFile(lexicon, fileName, contents, pdf, docx) == Accept(lexicon, decoded)
  {
    decoded := if Extension(fileName) == "pdf" then pdf(contents) else docx(contents);
  }

  /** Which decoder runs depends on the extension alone: a PDF never reaches the
      DOCX decoder, a DOCX never reaches the PDF decoder, and any other file
      reaches neither. */
  lemma {:induction false} DecoderChoice(lexicon: seq<string>, fileName: string, contents: Bytes, pdf: Decoder, docx: Decoder, pdf': Decoder, docx': Decoder)
    ensures Extension(fileName) == "pdf" ==>
              ParseResumeFile(lexicon, fileName, contents, pdf, docx) == ParseResumeFile(lexicon, fileName, contents, pdf, docx')
    ensures Extension(fileName) == "docx" ==>
              ParseResumeFile(lexicon, fileName, contents, pdf, docx) == ParseResumeFile(lexicon, fileName, contents, pdf', docx)
    ensures Extension(fileName) != "pdf" && Extension(fileName) != "docx" ==>
              ParseResumeFile(lexicon, fileName, contents, pdf, docx) == ParseResumeFile(lexicon, fileName, contents, pdf', docx')
  {
  }

  /** A `.txt` file is refused before any decoder runs. */
  lemma {:induction false} TextFileRefused(lexicon: seq<string>, contents: Bytes, pdf: Decoder, docx: Decoder)
    ensures ParseResumeFile(lexicon, "resume.txt", contents, pdf, docx) == Failure(UnsupportedFileType)
  {
    TxtExtension();
  }

  lemma {:induction false} TxtExtension()
    ensures Extension("resume.txt") == "txt"
  {
    var ext := "txt";
    assert '.' !in ext;
    ExtensionOf("resume", ext);
    assert "resume" + "." + ext == "resume.txt";
    var low := Lower(ext);
    assert |low| == 3 && low[0] == 't' && low[1] == 'x' && low[2] == 't';
  }

  /** An upper-case `.PDF` goes to the PDF decoder. */
  lemma {:induction false} UpperCasePdfAccepted(lexicon: seq<string>, contents: Bytes, pdf: Decoder, docx: Decoder)
    ensures ParseResumeFile(lexicon, "CV.PDF", contents, pdf, docx) == Accept(lexicon, pdf(contents))
  {
    UpperPdfExtension();
  }

  lemma {:induction false} UpperPdfExtension()
    ensures Extension("CV.PDF") == "pdf"
  {
    var ext := "PDF";
    assert '.' !in ext;
    ExtensionOf("CV", ext);
    assert "CV" + "." + ext == "CV.PDF";
    var low := Lower(ext);
    assert |low| == 3 && low[0] == 'p' && low[1] == 'd' && low[2] == 'f';
  }

  /** Only the last dot counts. */
  lemma {:induction false} LastDotCounts(lexicon: seq<string>, contents: Bytes, pdf: Decoder, docx: Decoder)
    ensures ParseResumeFile(lexicon, "archive.pdf.docx", contents, pdf, docx) == Accept(lexicon, docx(contents))
  {
    ArchiveExtension();
  }

  lemma {:induction false} ArchiveExtension()
    ensures Extension("archive.pdf.docx") == "docx"
  {
    var ext := "docx";
    assert '.' !in ext;
    ExtensionOf("archive.pdf", ext);
    assert "archive.pdf" + "." + ext == "archive.pdf.docx";
    var low := Lower(ext);
    assert |low| == 4 && low[0] == 'd' && low[1] == 'o' && low[2] == 'c' && low[3] == 'x';
  }

  /** Five characters outside the Basic Multilingual Plane are ten UTF-16 code
      units, which is long enough: the text is extracted although it has only
      five characters. */
  lemma {:induction false} FiveEmojiAccepted(lexicon: seq<string>)
    ensures var text := "\U{1F600}\U{1F600}\U{1F600}\U{1F600}\U{1F600}";
            && |text| == 5
            && Accept(lexicon, Success(text)) == Success(ExtractStructuredData(lexicon, text))
  {
    var text := "\U{1F600}\U{1F600}\U{1F600}\U{1F600}\U{1F600}";
    TrimUntouched(text);
    Utf16LengthAstral(text);
  }
}
