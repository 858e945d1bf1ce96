/** The word-level result of the docTR OCR model, as `get_confidence_values` and
    `get_sheet_type` walk it: pages of blocks of lines of words, each word with the
    model's confidence. The model call itself is outside this model; its result is an
    input. */
module Ocr {
  import opened Text

  datatype Word = Word(value: string, confidence: real)
  datatype Line = Line(words: seq<Word>)
  datatype Block = Block(lines: seq<Line>)
  datatype Page = Page(blocks: seq<Block>)
  datatype Document = Document(pages: seq<Page>)

  /** The lines of some blocks, block after block. */
  function BlockLines(blocks: seq<Block>): seq<Line>
  {
    if |blocks| == 0 then []
    else BlockLines(blocks[..|blocks| - 1]) + blocks[|blocks| - 1].lines
  }

  /** The lines of some pages, page after page: the order of the source's nested loops. */
  function PageLines(pages: seq<Page>): seq<Line>
  {
    if |pages| == 0 then []
    else PageLines(pages[..|pages| - 1]) + BlockLines(pages[|pages| - 1].blocks)
  }

  /** The words of some lines, line after line. */
  function LineWords(lines: seq<Line>): seq<Word>
  {
    if |lines| == 0 then []
    else LineWords(lines[..|lines| - 1]) + lines[|lines| - 1].words
  }

  lemma {:induction false} LineWordsAppend(xs: seq<Line>, ys: seq<Line>)
    ensures LineWords(xs + ys) == LineWords(xs) + LineWords(ys)
    decreases |ys|
  {
    if |ys| > 0 {
      assert (xs + ys)[..|xs + ys| - 1] == xs + ys[..|ys| - 1];
      LineWordsAppend(xs, ys[..|ys| - 1]);
    } else {
      assert xs + ys == xs;
    }
  }

  /** The words of the document in page, block, line, word order. */
  function DocWords(doc: Document): seq<Word>
  {
    LineWords(PageLines(doc.pages))
  }

  /** `" ".join(word.value for word in line.words)`. */
  function LineText(line: Line): string
  {
    Join(seq(|line.words|, i requires 0 <= i < |line.words| => line.words[i].value), " ")
  }

  /** The texts of some lines, in order. */
  function LineTexts(lines: seq<Line>): (ts: seq<string>)
    ensures |ts| == |lines|
  {
    if |lines| == 0 then []
    else LineTexts(lines[..|lines| - 1]) + [LineText(lines[|lines| - 1])]
  }

  /** The i-th text is the text of the i-th line. */
  lemma {:induction false} LineTextsAt(lines: seq<Line>)
    ensures forall i :: 0 <= i < |lines| ==> LineTexts(lines)[i] == LineText(lines[i])
  {
    if |lines| > 0 {
      var prefix := lines[..|lines| - 1];
      LineTextsAt(prefix);
      assert forall i :: 0 <= i < |prefix| ==> lines[i] == prefix[i];
    }
  }

  /** A word is in the flattened document exactly when some line of it holds it. */
  lemma {:induction false} LineWordsMembership(lines: seq<Line>, w: Word)
    ensures w in LineWords(lines) <==> exists i :: 0 <= i < |lines| && w in lines[i].words
  {
    if |lines| > 0 {
      var prefix := lines[..|lines| - 1];
      LineWordsMembership(prefix, w);
      if w in LineWords(lines) && w !in lines[|lines| - 1].words {
        var i :| 0 <= i < |prefix| && w in prefix[i].words;
        assert lines[i] == prefix[i];
      }
      if exists i :: 0 <= i < |lines| && w in lines[i].words {
        var i :| 0 <= i < |lines| && w in lines[i].words;
        if i < |prefix| {
          assert prefix[i] == lines[i];
        }
      }
    }
  }
}
