# Math Agent: text handling of the PDF report

The math agent is a one-page form. It sends a question to a generative-text
service and shows the reply. It can also export the question and the answer as
a PDF report. This project models the deterministic text handling around that
flow and proves properties of it:

- `clean_text`, the sanitiser run on both texts before they reach the PDF
  library (module `TextCleaning`, `clean_text.dfy`);
- the sequence of text blocks `generate_pdf` hands to the PDF object — title,
  spacers, question block, one block per answer line — built by a loop over
  the answer's lines (module `PdfReport`, `pdf_report.dfy`);
- the solver prompt and the empty-input guard on the Solve button (module
  `MathAgent`, `math_agent.dfy`);
- the Python `str` operations the program calls, `split` and `strip`, with two
  specification helpers: `Count`, in which the newline facts are stated, and
  `Join`, in which the split round trip is stated (module `PyStrings`,
  `py_strings.dfy`).

Strings are `seq<char>`, and a Dafny `char` is a Unicode scalar value, so
`ord(c)` is `c as int`.

**Order of the sanitiser.** The four `replace` calls (en dash to `-`, curly
quotes to straight quotes) come after the filter that keeps only the
characters below code point 256 (main.py:18-22). All four characters lie
above 255, so the filter has already removed them and the replacements never
change anything. The lemma `CleanTextIsLatin1Filter` proves that `clean_text`
is exactly the Latin-1 filter, and `CleanTextDeletesEnDash` shows that
`"2 – 2"` becomes `"2  2"`, not `"2 - 2"`.

**The PDF object** is the class `PdfReport.Document`. It records only what the
program asks of it: an open page, the current font, and the list of blocks
emitted so far. `GeneratePdf` makes the same
calls as `generate_pdf`, in the same order. It is proved to return exactly the
reference layout `Layout(question, answer)`, and the lemmas about `Layout`
state what the report contains.

**The generative-text service** is the class `MathAgent.Solver`. It answers
each prompt by a fixed reply function and logs every prompt it is sent. The
log is what lets `OnSolve`'s contract count the requests.

## Model

| member | source | states |
|---|---|---|
| `TextCleaning.KeepLatin1` | main.py:18 | the filter's output is no longer than its input, and every character of it has code point below 256 |
| `TextCleaning.Replace` | main.py:19-22 | a one-character `replace` keeps the length and changes exactly the positions that held the target |
| `TextCleaning.CleanText` | main.py:16-23 | cleaned text is no longer than the input and is entirely Latin-1, so it can be encoded in one byte per character |
| `TextCleaning.CleanTextIsLatin1Filter` | main.py:18-22 | the four replacements are no-ops after the filter: `clean_text` equals the bare code-point-below-256 filter |
| `TextCleaning.CleanTextMembership` | main.py:18 | a character appears in the output if and only if it appears in the input and is below 256 |
| `TextCleaning.CleanTextRemovesExactlyNonLatin1` | main.py:18 | each Latin-1 character keeps its number of occurrences, every other character is gone, and the output is a subsequence of the input (order kept) |
| `TextCleaning.KeepLatin1Subsequence` | main.py:18 | the filter's output is obtained from its input by deletions only |
| `TextCleaning.SplitKeepLatin1` | main.py:18 | filtering then splitting at a Latin-1 separator equals splitting then filtering each piece |
| `TextCleaning.SplitCleanText` | main.py:38-39 | the lines of the cleaned text are the cleaned lines of the text |
| `TextCleaning.CleanTextKeepsNewlines` | main.py:18 | the cleaned text has as many newlines as the original |
| `TextCleaning.CleanTextIntroducesNoSubstitutes` | main.py:19-22 | cleaning never adds a hyphen, apostrophe or double quote: each count equals the input's |
| `TextCleaning.CleanTextIdempotent` | main.py:16-23 | cleaning twice is the same as cleaning once |
| `TextCleaning.CleanTextConcat` | main.py:18 | cleaning distributes over concatenation |
| `TextCleaning.CleanTextOfLatin1` | main.py:18 | Latin-1 text passes through unchanged |
| `TextCleaning.CleanTextDeletes` | main.py:18 | a single character at or above 256 is deleted, not transliterated |
| `TextCleaning.CleanTextDeletesEnDash` | main.py:18-22 | `clean_text("2 – 2")` is `"2  2"`: the en dash is deleted, not turned into `-` |
| `TextCleaning.CleanTextDeletesEnDashAndEmoji` | main.py:18-22 | `clean_text("2 – 2 😀 = ?")` is `"2  2  = ?"` |
| `PyStrings.Split` | main.py:39 | `split("\n")` yields at least one piece, no piece contains the separator, and every piece's characters come from the input |
| `PyStrings.SplitLength` | main.py:39 | the number of pieces is the number of separators plus one (so `""` splits to one empty piece) |
| `PyStrings.JoinSplit` | main.py:39 | joining the pieces with the separator reproduces the string |
| `PyStrings.SplitJoin` | main.py:39 | splitting a join of separator-free pieces gives the pieces back |
| `PyStrings.Strip` | main.py:80 | `strip()` returns a contiguous slice that begins after the leading whitespace, has only whitespace cut off at either end, neither starts nor ends with whitespace, and is empty if and only if the input is all whitespace |
| `PdfReport.Document.constructor` | main.py:27 | a new document has no page, no font and no blocks |
| `PdfReport.Document.AddPage` | main.py:28 | opens a page and changes nothing else |
| `PdfReport.Document.SetFont` | main.py:30 | selects the font for the blocks that follow and emits nothing |
| `PdfReport.Document.AddCell` | main.py:31 | needs an open page and a font; appends exactly one cell in the current font |
| `PdfReport.Document.AddMultiCell` | main.py:34 | needs an open page and a font; appends exactly one wrapped block in the current font |
| `PdfReport.Document.AddLineBreak` | main.py:32 | appends a vertical space of the given height |
| `PdfReport.GeneratePdf` | main.py:26-41 | the loop over the answer's lines emits exactly the reference layout: header, then one plain block per line of the cleaned answer, in order |
| `PdfReport.LayoutShape` | main.py:30-40 | the report is the bold 16-point centred title, a 10-unit spacer, the bold 14-point block `"Question:\n" + clean_text(question)`, a 5-unit spacer, then only plain 12-point wrapped blocks |
| `PdfReport.LayoutAnswerCount` | main.py:38-40 | the number of answer blocks is the number of newlines in the cleaned answer, which equals that of the raw answer, plus one |
| `PdfReport.LayoutAnswerPerLine` | main.py:38-40 | answer block i holds line i of the raw answer, cleaned on its own: one block per newline-separated segment, in order |
| `PdfReport.LayoutAnswerRoundTrip` | main.py:38-40 | joining the answer blocks' texts with newlines gives back the cleaned answer |
| `PdfReport.LayoutAnswerLinesUnbroken` | main.py:39-40 | no answer block contains a newline |
| `TextCleaning.SplitOfLatin1` | main.py:38-39 | every line of a split of Latin-1 text is Latin-1 |
| `PdfReport.LayoutIsLatin1` | main.py:30-40 | every text the program hands to the PDF library is Latin-1 |
| `PdfReport.LayoutOfLatin1` | main.py:34-40 | for Latin-1 inputs, the question block is the label followed by the question unchanged, and the answer blocks are the answer's lines unchanged |
| `PdfReport.LayoutOfOneLineAnswer` | main.py:34-40 | a one-line Latin-1 answer such as `"x = -1 (double root)"` becomes exactly one plain block holding it unchanged |
| `MathAgent.Prompt` | main.py:52 | the prompt is the fixed instruction followed by the question verbatim, and the question can be read back from it |
| `MathAgent.PromptInjective` | main.py:52 | two prompts are equal if and only if their questions are |
| `MathAgent.HasQuestion` | main.py:80 | the guard `not input.strip()` fails exactly when the input has a character that is not whitespace |
| `MathAgent.Solver.constructor` | main.py:13 | a new service has the given reply function and has been sent nothing |
| `MathAgent.Solver.Ask` | main.py:51-53 | one request: the prompt is appended to the service's log and the reply to it is returned |
| `MathAgent.OnSolve` | main.py:79-90 | a whitespace-only input gives only the warning and sends the service nothing; otherwise the service is sent exactly one request, the prompt for the input, its reply is the answer, and the report is the layout of the raw input and that answer |

## Left out

- The Streamlit page is not modelled: page configuration, CSS, title, caption, text area, spinner, markdown rendering of the reply, download button, footer (main.py:57-99). It is UI plumbing driven by framework reruns. `OnSolve` keeps only what a press of Solve decides.
- The generative-text client is not modelled: `genai.configure`, `GenerativeModel`, `generate_content` (main.py:10, 13, 52-53). It is a network call. `Solver` stands in for it with a fixed reply function, so the service's failures are not represented: network errors, authentication errors and service errors. The source does not handle them either.
- Loading `.env` and reading the API key (main.py:9-10) are process I/O.
- `set_auto_page_break(auto=True, margin=15)` (main.py:29) is not modelled. It only affects where pages break, and page geometry is not modelled.
- The PDF library's internals are not modelled: page breaks, the bottom margin's effect, font metrics, line wrapping inside `multi_cell`, cell widths and heights, `pdf.output`, the latin-1 encode and the `BytesIO` buffer (main.py:27-29, 43-47). `Document` records the open page, the current font and the block order, not geometry or bytes.
- The model does not establish that encoding `pdf.output(dest='S')` as latin-1 (main.py:44) succeeds. That value is built by the PDF library, and whether it even has an `encode` method depends on the library version. `LayoutIsLatin1` proves only that every text the program hands to the library is Latin-1.
- `PyStrings.IsWhitespace` uses a fixed list of code points, the one Python's `str.isspace` is believed to use. It is not derived from the Unicode database.
- Python strings may hold lone surrogate code points (U+D800..U+DFFF); Dafny's `char` cannot. Such input is outside the model.
- `Replace` covers only one-character targets and replacements, which is all `clean_text` uses.
