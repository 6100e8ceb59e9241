/**
 * The records of `src/types/pdf.ts`, as the hook actually builds them, and
 * the outside world the hook reads from: the PDF text layer, the OCR
 * engine and the loaded file, each reduced to what it answers.
 */
module PdfTypes {

  datatype Option<T> = None | Some(value: T)

  /** A promise that resolved with a value, or rejected. */
  datatype Result<T> = Ok(value: T) | Err

  /** What Tesseract answers for one rendered page: its recognised text, or a rejection. */
  datatype OcrOutcome = Recognized(text: string) | RecognitionFailed

  /**
   * One page as pdf.js and Tesseract would answer for it: the `str` of each
   * text-layer item in item order (None when `getPage` or `getTextContent`
   * rejects), and what OCR of the page would give.
   */
  datatype PageSource = PageSource(textItems: Option<seq<string>>, ocr: OcrOutcome)

  /**
   * An uploaded file: its name, and its pages once `arrayBuffer` and
   * `getDocument` succeed (None when either rejects).  `numPages` is the
   * length of the page list.
   */
  datatype PdfFile = PdfFile(name: string, content: Option<seq<PageSource>>)

  /** `PageContent`: one processed page. */
  datatype PageContent = PageContent(pageNumber: int, text: string, lines: seq<string>)

  /** `PDFDocument` as stored by the hook: it carries no `id`. */
  datatype PdfDocument = PdfDocument(file: PdfFile, name: string, pages: seq<PageContent>, totalPages: int)

  /** `SearchResult` as the search builds it: no `documentId` or `documentName`. */
  datatype SearchResult = SearchResult(pageNumber: int, lineNumber: int, lineText: string, matchIndex: int)
}
