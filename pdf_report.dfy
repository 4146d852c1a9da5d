/**
  The report `generate_pdf(question, answer)` builds. The PDF object is
  modelled by what the program asks of it: the font settings and the text
  blocks it is told to emit, in order. Page geometry, wrapping and the
  byte-level output are the PDF library's and are not modelled.
 */
module PdfReport {
  import opened PyStrings
  import opened TextCleaning

  datatype Option<T> = None | Some(value: T)

  datatype Align = Left | Center

  /** A font selection: family, bold or regular, point size. */
  datatype Font = Font(family: string, bold: bool, size: nat)

  /** One request made to the PDF object that puts something on the page. */
  datatype Block =
    | Cell(font: Font, text: string, align: Align)   // a one-line cell that ends the line
    | MultiCell(font: Font, text: string)            // a block wrapped over as many lines as needed
    | LineBreak(height: nat)                         // vertical space

  const Title: string := "Math Agent - Solution Report"
  const QuestionLabel: string := "Question:\n"
  const TitleFont: Font := Font("Arial", true, 16)
  const QuestionFont: Font := Font("Arial", true, 14)
  const BodyFont: Font := Font("Arial", false, 12)
  const TitleSpacing: nat := 10
  const QuestionSpacing: nat := 5

  function BlockText(b: Block): string
  {
    match b
    case Cell(_, text, _) => text
    case MultiCell(_, text) => text
    case LineBreak(_) => []
  }

  /** The PDF document being built, seen as the log of blocks emitted into it. */
  class Document {
    var pageOpen: bool
    var font: Option<Font>
    var blocks: seq<Block>

    constructor ()
      ensures !pageOpen && font == None && blocks == []
    {
      pageOpen := false;
      font, blocks := None, [];
    }

    method AddPage()
      modifies this
      ensures pageOpen
      ensures font == old(font) && blocks == old(blocks)
    {
      pageOpen := true;
    }

    method SetFont(f: Font)
      modifies this
      ensures font == Some(f)
      ensures pageOpen == old(pageOpen) && blocks == old(blocks)
    {
      font := Some(f);
    }

    /** Emitting text needs an open page and a selected font; it is set in the current font. */
    method AddCell(text: string, align: Align)
      requires pageOpen && font.Some?
      modifies this
      ensures blocks == old(blocks) + [Cell(old(font).value, text, align)]
      ensures pageOpen && font == old(font)
    {
      blocks := blocks + [Cell(font.value, text, align)];
    }

    method AddMultiCell(text: string)
      requires pageOpen && font.Some?
      modifies this
      ensures blocks == old(blocks) + [MultiCell(old(font).value, text)]
      ensures pageOpen && font == old(font)
    {
      blocks := blocks + [MultiCell(font.value, text)];
    }

    method AddLineBreak(height: nat)
      requires pageOpen
      modifies this
      ensures blocks == old(blocks) + [LineBreak(height)]
      ensures pageOpen && font == old(font)
    {
      blocks := blocks + [LineBreak(height)];
    }
  }

  // ---------------------------------------------------------------------------
  // The layout, as a reference definition
  // ---------------------------------------------------------------------------

  /** The four blocks before the answer: title, spacer, question, spacer. */
  function Header(question: string): seq<Block>
  {
    [ Cell(TitleFont, Title, Center),
      LineBreak(TitleSpacing),
      MultiCell(QuestionFont, QuestionLabel + CleanText(question)),
      LineBreak(QuestionSpacing) ]
  }

  /** One plain block per line. */
  function AnswerBlocks(lines: seq<string>): seq<Block>
  {
    seq(|lines|, i requires 0 <= i < |lines| => MultiCell(BodyFont, lines[i]))
  }

  function Layout(question: string, answer: string): seq<Block>
  {
    Header(question) + AnswerBlocks(Split(CleanText(answer), '\n'))
  }

  /** The texts of a run of blocks. */
  function Texts(bs: seq<Block>): seq<string>
  {
    seq(|bs|, i requires 0 <= i < |bs| => BlockText(bs[i]))
  }

  // ---------------------------------------------------------------------------
  // generate_pdf
  // ---------------------------------------------------------------------------

  /** Builds the report for a question and its answer; returns the blocks emitted. */
  method GeneratePdf(question: string, answer: string) returns (blocks: seq<Block>)
    ensures blocks == Layout(question, answer)
  {
    var pdf := new Document();
    pdf.AddPage();
    pdf.SetFont(TitleFont);
    pdf.AddCell(Title, Center);
    pdf.AddLineBreak(TitleSpacing);
    pdf.SetFont(QuestionFont);
    pdf.AddMultiCell(QuestionLabel + CleanText(question));
    pdf.AddLineBreak(QuestionSpacing);
    pdf.SetFont(BodyFont);

    var cleaned := CleanText(answer);
    var lines := Split(cleaned, '\n');
    for i := 0 to |lines|
      invariant pdf.pageOpen && pdf.font == Some(BodyFont)
      invariant pdf.blocks == Header(question) + AnswerBlocks(lines[..i])
    {
      pdf.AddMultiCell(lines[i]);
      assert AnswerBlocks(lines[..i + 1]) == AnswerBlocks(lines[..i]) + [MultiCell(BodyFont, lines[i])];
    }
    assert lines[..|lines|] == lines;
    blocks := pdf.blocks;
  }

  // ---------------------------------------------------------------------------
  // Properties of the layout
  // ---------------------------------------------------------------------------

  /**
    The report opens with the centred bold title and the bold question block
    (label, then the cleaned question), each followed by its spacer; every
    later block is a plain answer block.
   */
  lemma LayoutShape(question: string, answer: string)
    ensures var r := Layout(question, answer);
      && |r| >= 5
      && r[0] == Cell(Font("Arial", true, 16), "Math Agent - Solution Report", Center)
      && r[1] == LineBreak(10)
      && r[2] == MultiCell(Font("Arial", true, 14), "Question:\n" + CleanText(question))
      && r[3] == LineBreak(5)
      && forall i :: 4 <= i < |r| ==> r[i].MultiCell? && r[i].font == Font("Arial", false, 12)
  {
  }

  /** There is one answer block per newline of the cleaned answer, plus one. */
  lemma LayoutAnswerCount(question: string, answer: string)
    ensures |Layout(question, answer)| == 4 + Count(CleanText(answer), '\n') + 1
    ensures |Layout(question, answer)| == 4 + Count(answer, '\n') + 1
  {
    SplitLength(CleanText(answer), '\n');
    CleanTextKeepsNewlines(answer);
  }

  /** Joining the answer blocks' texts with newlines gives back the cleaned answer. */
  lemma LayoutAnswerRoundTrip(question: string, answer: string)
    ensures Join(Texts(Layout(question, answer)[4..]), '\n') == CleanText(answer)
  {
    var lines := Split(CleanText(answer), '\n');
    assert Texts(Layout(question, answer)[4..]) == lines;
    JoinSplit(CleanText(answer), '\n');
  }

  /**
    Block by block, the answer blocks are the lines of the raw answer, in
    order, each line cleaned on its own.
   */
  lemma LayoutAnswerPerLine(question: string, answer: string)
    ensures var lines := Split(answer, '\n');
      Texts(Layout(question, answer)[4..]) == seq(|lines|, i requires 0 <= i < |lines| => CleanText(lines[i]))
  {
    assert Texts(Layout(question, answer)[4..]) == Split(CleanText(answer), '\n');
    SplitCleanText(answer);
  }

  /** No answer block contains a newline: line breaks are block boundaries. */
  lemma LayoutAnswerLinesUnbroken(question: string, answer: string)
    ensures forall i :: 4 <= i < |Layout(question, answer)| ==>
      '\n' !in BlockText(Layout(question, answer)[i])
  {
  }

  lemma HeaderIsLatin1(question: string)
    ensures forall i :: 0 <= i < |Header(question)| ==> AllLatin1(BlockText(Header(question)[i]))
  {
    assert AllLatin1(Title);
    assert AllLatin1(QuestionLabel);
    AllLatin1Concat(QuestionLabel, CleanText(question));
  }

  lemma AnswerBlocksAreLatin1(lines: seq<string>)
    requires forall i :: 0 <= i < |lines| ==> AllLatin1(lines[i])
    ensures forall i :: 0 <= i < |AnswerBlocks(lines)| ==> AllLatin1(BlockText(AnswerBlocks(lines)[i]))
  {
  }

  /** Every text the program hands to the PDF library is Latin-1. */
  lemma LayoutIsLatin1(question: string, answer: string)
    ensures forall b :: b in Layout(question, answer) ==> AllLatin1(BlockText(b))
  {
    var h := Header(question);
    var lines := Split(CleanText(answer), '\n');
    var a := AnswerBlocks(lines);
    HeaderIsLatin1(question);
    SplitOfLatin1(CleanText(answer), '\n');
    AnswerBlocksAreLatin1(lines);
    forall b | b in h + a ensures AllLatin1(BlockText(b)) {
      if b in h {
        var i :| 0 <= i < |h| && h[i] == b;
      } else {
        assert b in a;
        var i :| 0 <= i < |a| && a[i] == b;
      }
    }
  }

  /**
    Latin-1 input reaches the report unchanged: the question block reads
    "Question:\n" followed by the question, and the answer blocks are the
    answer's lines.
   */
  lemma LayoutOfLatin1(question: string, answer: string)
    requires AllLatin1(question) && AllLatin1(answer)
    ensures BlockText(Layout(question, answer)[2]) == QuestionLabel + question
    ensures Texts(Layout(question, answer)[4..]) == Split(answer, '\n')
  {
    CleanTextOfLatin1(question);
    CleanTextOfLatin1(answer);
    assert Texts(Layout(question, answer)[4..]) == Split(CleanText(answer), '\n');
  }

  /**
    A Latin-1 answer of one line, such as "x = -1 (double root)" for the
    question "Solve x^2 + 2x + 1 = 0", becomes exactly one answer block
    holding the answer unchanged.
   */
  lemma LayoutOfOneLineAnswer(question: string, answer: string)
    requires AllLatin1(question) && AllLatin1(answer) && '\n' !in answer
    ensures BlockText(Layout(question, answer)[2]) == QuestionLabel + question
    ensures Layout(question, answer)[4..] == [MultiCell(BodyFont, answer)]
  {
    CleanTextOfLatin1(question);
    CleanTextOfLatin1(answer);
    SplitUnseparated(answer, '\n');
  }
}
