/** The question assembler shared by parse_docx and parse_txt: a pass over
    the document's lines that collects question text, option texts and the
    answer letters, and emits one question per qualifying answer line. */
module Parser {
  import opened Text
  import opened Options

  datatype Option<T> = None | Some(value: T)

  /** A parsed question: its 1-based id in parse order, its text, the raw
      option texts in source order and the sorted answer letters. */
  datatype Question = Question(id: int, text: string, options: seq<string>, correct: seq<char>)

  /** A question before it is numbered. */
  datatype Draft = Draft(text: string, options: seq<string>, correct: seq<char>)

  /** A line as the parse loop sees it: blank, an answer line (with the
      answer letters it names), an option line (its raw option text) or a
      line of question text (trimmed). */
  datatype Line = BlankLine | AnswerLine(correct: seq<char>) | OptionLine(raw: string) | TextLine(text: string)

  /** The answer-line test on the lower-cased, trimmed line. */
  predicate IsAnswerLine(textLower: string)
  {
    StartsWith(textLower, "correct answer") || StartsWith(textLower, "answer")
  }

  /** What a line is to the parser, tests in the loop's order: blank once
      stripped; an answer line, with the letters it names; an option line
      (OptionShape), whose text is what follows the letter and separator,
      stripped; otherwise a line of question text. */
  function Classify(line: string): Line
  {
    var text := Strip(line);
    if text == "" then BlankLine
    else
      var textLower := Lower(text);
      if IsAnswerLine(textLower) then AnswerLine(CorrectLetters(CleanAnswerLine(textLower)))
      else if OptionShape(text) then OptionLine(Strip(text[2..]))
      else TextLine(text)
  }

  /** Every line of a document, classified, in order. */
  function ClassifyAll(lines: seq<string>): (r: seq<Line>)
    ensures |r| == |lines|
    ensures forall k :: 0 <= k < |lines| ==> r[k] == Classify(lines[k])
    decreases |lines|
  {
    if lines == [] then [] else ClassifyAll(lines[..|lines| - 1]) + [Classify(lines[|lines| - 1])]
  }

  /** Classifying one more line appends its classification. */
  lemma {:induction false} ClassifyAllSnoc(lines: seq<string>, i: nat)
    requires i < |lines|
    ensures ClassifyAll(lines[..i + 1]) == ClassifyAll(lines[..i]) + [Classify(lines[i])]
  {
    assert lines[..i + 1][..i] == lines[..i];
  }

  /** What classification guarantees: option texts and question-text lines
      are trimmed and non-empty, answer letters sorted, distinct and A-F. */
  predicate WellClassified(l: Line)
  {
    && (l.AnswerLine? ==> StrictlyIncreasing(l.correct) && forall k :: 0 <= k < |l.correct| ==> 'A' <= l.correct[k] <= 'F')
    && (l.OptionLine? ==> l.raw != "" && IsTrimmed(l.raw))
    && (l.TextLine? ==> l.text != "" && IsTrimmed(l.text))
  }

  /** Classification only ever yields well-classified lines. */
  lemma {:induction false} ClassifyWellClassified(line: string)
    ensures WellClassified(Classify(line))
  {
    var text := Strip(line);
    if text == "" {
    } else if IsAnswerLine(Lower(text)) {
      AnswerLettersWellClassified(CleanAnswerLine(Lower(text)));
    } else if OptionShape(text) {
      StripEmptyIff(text[2..]);
      assert IsTrimmed(Strip(text[2..]));
    }
  }

  lemma {:induction false} AnswerLettersWellClassified(clean: string)
    ensures WellClassified(AnswerLine(CorrectLetters(clean)))
  {
    var r := CorrectLetters(clean);
    CorrectLettersSpec(clean);
    forall k | 0 <= k < |r| ensures 'A' <= r[k] <= 'F' {
      assert r[k] in r;
    }
  }

  /** All lines of a classified document are well classified. */
  lemma {:induction false} ClassifyAllWellClassified(lines: seq<string>)
    ensures AllWellClassified(ClassifyAll(lines))
    decreases |lines|
  {
    if lines != [] {
      var init := lines[..|lines| - 1];
      ClassifyAllWellClassified(init);
      ClassifyWellClassified(lines[|lines| - 1]);
      var r := ClassifyAll(lines);
      forall k | 0 <= k < |r| ensures WellClassified(r[k]) {
        if k < |init| { assert r[k] == ClassifyAll(init)[k]; }
      }
    }
  }

  /** clean_line: the lower-cased answer line without "correct answer",
      "answer" and ":", in that order, then stripped. */
  function CleanAnswerLine(textLower: string): string
  {
    Strip(RemoveAll(RemoveAll(RemoveAll(textLower, "correct answer"), "answer"), ":"))
  }

  /** Some character of `clean` matches [a-fA-F] and upper-cases to `c`. */
  predicate Mentions(clean: string, c: char)
  {
    exists k :: 0 <= k < |clean| && IsOptionLetter(clean[k]) && UpperChar(clean[k]) == c
  }

  /** The candidates, in their order, that `clean` mentions. */
  function FoundLetters(candidates: seq<char>, clean: string): seq<char>
  {
    if candidates == [] then []
    else
      var rest := FoundLetters(candidates[1..], clean);
      if Mentions(clean, candidates[0]) then [candidates[0]] + rest else rest
  }

  /** Of candidates in ascending order, FoundLetters keeps exactly those
      the line mentions, still in ascending order. */
  lemma {:induction false} FoundLettersSpec(candidates: seq<char>, clean: string)
    requires StrictlyIncreasing(candidates)
    ensures StrictlyIncreasing(FoundLetters(candidates, clean))
    ensures forall c :: c in FoundLetters(candidates, clean) <==> c in candidates && Mentions(clean, c)
  {
    if candidates != [] {
      var rest := FoundLetters(candidates[1..], clean);
      FoundLettersSpec(candidates[1..], clean);
      assert forall x :: x in rest ==> candidates[0] < x by {
        forall x | x in rest ensures candidates[0] < x {
          var m :| 0 <= m < |candidates[1..]| && candidates[1..][m] == x;
          assert candidates[m + 1] == x;
        }
      }
      if Mentions(clean, candidates[0]) {
        var r := [candidates[0]] + rest;
        assert StrictlyIncreasing(r) by {
          forall i, j | 0 <= i < j < |r| ensures r[i] < r[j] {
            if i == 0 { assert r[j] in rest; } else { assert r[i] == rest[i - 1] && r[j] == rest[j - 1]; }
          }
        }
        forall c ensures c in r <==> c in candidates && Mentions(clean, c) {
          assert c in candidates <==> c == candidates[0] || c in candidates[1..] by {
            assert candidates == [candidates[0]] + candidates[1..];
          }
        }
      } else {
        forall c ensures c in rest <==> c in candidates && Mentions(clean, c) {
          assert c in candidates <==> c == candidates[0] || c in candidates[1..] by {
            assert candidates == [candidates[0]] + candidates[1..];
          }
        }
      }
    }
  }

  /** correct_list = sorted(set(x.upper() for x in re.findall('[a-fA-F]',
      clean_line))). */
  function CorrectLetters(clean: string): seq<char>
  {
    FoundLetters(ValidOptions, clean)
  }

  /** The correct letters are every letter A-F that the cleaned line
      mentions, in either case, once each and in ascending order; there may
      be none. */
  lemma {:induction false} CorrectLettersSpec(clean: string)
    ensures StrictlyIncreasing(CorrectLetters(clean))
    ensures forall c :: c in CorrectLetters(clean) <==> 'A' <= c <= 'F' && Mentions(clean, c)
  {
    ValidOptionsFacts();
    FoundLettersSpec(ValidOptions, clean);
  }

  /** No line of the sequence is an answer line. */
  predicate NoAnswer(ls: seq<Line>)
  {
    forall k :: 0 <= k < |ls| ==> !ls[k].AnswerLine?
  }

  /** The lines are none, or end with an answer line, which closes the
      last block. */
  predicate Closed(ls: seq<Line>)
  {
    ls == [] || ls[|ls| - 1].AnswerLine?
  }

  /** Position of the first answer line, if there is one. */
  function FirstAnswer(ls: seq<Line>): (r: Option<nat>)
    ensures r.Some? ==> r.value < |ls| && ls[r.value].AnswerLine? && NoAnswer(ls[..r.value])
    ensures r.None? ==> NoAnswer(ls)
  {
    if ls == [] then None
    else if ls[0].AnswerLine? then Some(0)
    else match FirstAnswer(ls[1..])
      case None => None
      case Some(i) =>
        assert ls[..i + 1] == [ls[0]] + ls[1..][..i];
        Some(i + 1)
  }

  /** The lines between two answer lines, and the letters the closing
      answer line names. */
  datatype Block = Block(body: seq<Line>, correct: seq<char>)

  /** A document cut at its answer lines: each answer line closes the block
      of lines before it; lines after the last answer line form none. */
  function Blocks(ls: seq<Line>): seq<Block>
    decreases |ls|
  {
    match FirstAnswer(ls)
    case None => []
    case Some(i) => [Block(ls[..i], ls[i].correct)] + Blocks(ls[i + 1..])
  }

  /** The question text of a block: its question-text lines before its
      first option line. Text after an option line is not part of it. */
  function TextLines(body: seq<Line>): seq<string>
  {
    if body == [] then []
    else match body[0]
      case OptionLine(_) => []
      case TextLine(text) => [text] + TextLines(body[1..])
      case _ => TextLines(body[1..])
  }

  /** The raw texts of all option lines of a block, in order. */
  function OptionTexts(body: seq<Line>): seq<string>
  {
    if body == [] then []
    else (if body[0].OptionLine? then [body[0].raw] else []) + OptionTexts(body[1..])
  }

  /** What a block contributes: one question when it has question text and
      two or more options, nothing otherwise. The question text is the text
      lines joined by newlines (the parser's final strip leaves it as it
      is, see JoinOfTrimmedLines). */
  function Emit(b: Block): seq<Draft>
  {
    var textLines := TextLines(b.body);
    var options := OptionTexts(b.body);
    if |textLines| > 0 && |options| >= 2 then
      [Draft(Join(textLines, "\n"), options, b.correct)]
    else []
  }

  /** The questions of a run of blocks, in order. */
  function Drafts(bs: seq<Block>): seq<Draft>
  {
    if bs == [] then [] else Emit(bs[0]) + Drafts(bs[1..])
  }

  /** Ids counting up from `firstId`, one per question: q_id starts at 1
      and grows by one with every question appended. */
  function Numbered(ds: seq<Draft>, firstId: int): (qs: seq<Question>)
    ensures |qs| == |ds|
  {
    seq(|ds|, k requires 0 <= k < |ds| => Question(firstId + k, ds[k].text, ds[k].options, ds[k].correct))
  }

  /** Reference reading of a classified document: its blocks, each made
      into a question or nothing, numbered from 1. */
  function BlockParse(ls: seq<Line>): seq<Question>
  {
    Numbered(Drafts(Blocks(ls)), 1)
  }

  /** A line that is not an answer line and passes is_valid_option_format
      is the option line whose text get_raw_option_text gives. */
  lemma {:induction false} OptionLineClassified(line: string)
    requires var text := Strip(line);
      text != "" && !IsAnswerLine(Lower(text)) && IsValidOptionFormat(text)
    ensures Classify(line) == OptionLine(GetRawOptionText(Strip(line)))
  {
    var text := Strip(line);
    OptionFormatIff(text);
    RawTextOfOptionLine(text);
  }

  /** The tests the parse loop applies to one line, in its order: blank
      lines are skipped, then answer lines (whose letters are extracted
      here), option lines (is_valid_option_format, get_raw_option_text)
      and question text. The result is what Classify says the line is. */
  method ClassifyLine(line: string) returns (l: Line)
    ensures l == Classify(line) && WellClassified(l)
  {
    ClassifyWellClassified(line);
    var text := Strip(line);
    if text == "" {
      return BlankLine;
    }
    var textLower := Lower(text);
    if StartsWith(textLower, "correct answer") || StartsWith(textLower, "answer") {
      var cleanLine := Strip(RemoveAll(RemoveAll(RemoveAll(textLower, "correct answer"), "answer"), ":"));
      var correctList := CorrectLetters(cleanLine);
      l := AnswerLine(correctList);
    } else if IsValidOptionFormat(text) {
      OptionLineClassified(line);
      l := OptionLine(GetRawOptionText(text));
    } else {
      OptionFormatIff(text);
      l := TextLine(text);
    }
  }

  /** The parse loop of parse_txt / parse_docx over the document's lines
      (UTF-8 decoding and line splitting, or the paragraph list, stay
      outside). It reads the document exactly as BlockParse does. */
  method Parse(lines: seq<string>) returns (questions: seq<Question>)
    ensures questions == BlockParse(ClassifyAll(lines))
  {
    questions := [];
    var currentQuestionLines: seq<string> := [];
    var rawOptions: seq<string> := [];
    var qId := 1;
    ghost var done: seq<Line> := [];
    ghost var body: seq<Line> := [];
    ghost var blocks: seq<Block> := [];
    for i := 0 to |lines|
      invariant done + body == ClassifyAll(lines[..i])
      invariant ClosedInv(done, blocks, questions, qId)
      invariant OpenInv(body, currentQuestionLines, rawOptions)
    {
      var l := ClassifyLine(lines[i]);
      ReadOneMore(lines, i, done, body);
      match l {
        case AnswerLine(correctList) =>
          if |currentQuestionLines| > 0 && |rawOptions| >= 2 {
            StepCloseEmit(done, blocks, questions, qId, body, currentQuestionLines, rawOptions, l);
            questions := questions + [Question(qId, Strip(Join(currentQuestionLines, "\n")), rawOptions, correctList)];
            qId := qId + 1;
          } else {
            StepCloseSkip(done, blocks, questions, qId, body, currentQuestionLines, rawOptions, l);
          }
          currentQuestionLines := [];
          rawOptions := [];
          blocks := blocks + [Block(body, correctList)];
          done, body := done + (body + [l]), [];
        case OptionLine(rawText) =>
          StepOpen(body, currentQuestionLines, rawOptions, l);
          rawOptions := rawOptions + [rawText];
          body := body + [l];
        case TextLine(text) =>
          StepOpen(body, currentQuestionLines, rawOptions, l);
          if |rawOptions| == 0 {
            currentQuestionLines := currentQuestionLines + [text];
          }
          body := body + [l];
        case BlankLine =>
          StepOpen(body, currentQuestionLines, rawOptions, l);
          body := body + [l];
      }
    }
    assert lines[..|lines|] == lines;
    ParseInvAtEnd(done, blocks, questions, qId, body, currentQuestionLines, rawOptions);
  }

  /** What the parse loop keeps about the lines up to the last answer line
      read: they are cut into `blocks`, whose questions are `questions`,
      and the next id follows the last question. */
  ghost predicate ClosedInv(done: seq<Line>, blocks: seq<Block>, questions: seq<Question>, qId: int)
  {
    && Closed(done)
    && blocks == Blocks(done)
    && questions == Numbered(Drafts(blocks), 1)
    && qId == 1 + |questions|
  }

  /** What the parse loop keeps about the lines after the last answer line:
      the pending question text and options are theirs, and the text lines
      are trimmed and non-empty. */
  ghost predicate OpenInv(body: seq<Line>, textLines: seq<string>, options: seq<string>)
  {
    && NoAnswer(body)
    && textLines == TextLines(body)
    && options == OptionTexts(body)
    && (forall k :: 0 <= k < |textLines| ==> textLines[k] != "" && IsTrimmed(textLines[k]))
  }

  /** A line other than an answer line extends the open block: a question
      text line is kept while the block has no option yet, an option line's
      text is appended to the options, a blank line changes nothing. */
  lemma {:induction false} StepOpen(body: seq<Line>, textLines: seq<string>, options: seq<string>, l: Line)
    requires OpenInv(body, textLines, options)
    requires !l.AnswerLine? && WellClassified(l)
    ensures OpenInv(body + [l],
      if options == [] && l.TextLine? then textLines + [l.text] else textLines,
      if l.OptionLine? then options + [l.raw] else options)
  {
    TextLinesSnoc(body, l);
    OptionTextsSnoc(body, l);
    assert NoAnswer(body + [l]) by {
      forall k | 0 <= k < |body| + 1 ensures !(body + [l])[k].AnswerLine? {
        if k < |body| { assert (body + [l])[k] == body[k]; }
      }
    }
    var textLines' := if options == [] && l.TextLine? then textLines + [l.text] else textLines;
    forall k | 0 <= k < |textLines'| ensures textLines'[k] != "" && IsTrimmed(textLines'[k]) {
      if k < |textLines| { assert textLines'[k] == textLines[k]; }
    }
  }

  /** An answer line closes the open block: the block joins the closed
      lines and, when it has question text and two or more options, adds
      its question with the next id. The text is stored stripped, which
      leaves the joined text lines as they are. */
  lemma {:induction false} StepCloseEmit(done: seq<Line>, blocks: seq<Block>, questions: seq<Question>, qId: int,
                      body: seq<Line>, textLines: seq<string>, options: seq<string>, l: Line)
    requires ClosedInv(done, blocks, questions, qId) && OpenInv(body, textLines, options)
    requires l.AnswerLine? && |textLines| > 0 && |options| >= 2
    ensures ClosedInv(done + (body + [l]), blocks + [Block(body, l.correct)],
      questions + [Question(qId, Strip(Join(textLines, "\n")), options, l.correct)], qId + 1)
    ensures OpenInv([], [], [])
  {
    JoinOfTrimmedLines(textLines, "\n");
    var b := Block(body, l.correct);
    var d := Draft(Join(textLines, "\n"), options, l.correct);
    assert Emit(b) == [d];
    CloseBlock(done, body, l);
    DraftsSnoc(blocks, b);
    NumberedSnoc(Drafts(blocks), d, 1);
  }

  /** An answer line that closes a block without question text or with
      fewer than two options adds no question and uses no id. */
  lemma {:induction false} StepCloseSkip(done: seq<Line>, blocks: seq<Block>, questions: seq<Question>, qId: int,
                      body: seq<Line>, textLines: seq<string>, options: seq<string>, l: Line)
    requires ClosedInv(done, blocks, questions, qId) && OpenInv(body, textLines, options)
    requires l.AnswerLine? && !(|textLines| > 0 && |options| >= 2)
    ensures ClosedInv(done + (body + [l]), blocks + [Block(body, l.correct)], questions, qId)
    ensures OpenInv([], [], [])
  {
    var b := Block(body, l.correct);
    assert Emit(b) == [];
    CloseBlock(done, body, l);
    DraftsSnoc(blocks, b);
    AppendNil(Drafts(blocks));
  }

  /** Reading line i extends the classified lines by its classification,
      whichever of the closed and the open part it joins. */
  lemma {:induction false} ReadOneMore(lines: seq<string>, i: nat, done: seq<Line>, body: seq<Line>)
    requires i < |lines| && done + body == ClassifyAll(lines[..i])
    ensures done + (body + [Classify(lines[i])]) == ClassifyAll(lines[..i + 1])
    ensures (done + (body + [Classify(lines[i])])) + [] == ClassifyAll(lines[..i + 1])
  {
    ClassifyAllSnoc(lines, i);
    AppendAssoc(done, body, [Classify(lines[i])]);
    AppendNil(done + (body + [Classify(lines[i])]));
  }

  /** When the lines run out, the open block is dropped: the questions are
      those of the whole document. */
  lemma {:induction false} ParseInvAtEnd(done: seq<Line>, blocks: seq<Block>, questions: seq<Question>, qId: int,
                      body: seq<Line>, textLines: seq<string>, options: seq<string>)
    requires ClosedInv(done, blocks, questions, qId) && OpenInv(body, textLines, options)
    ensures questions == BlockParse(done + body)
  {
    BlocksAppend(done, body);
    NoAnswerNoBlocks(body);
    assert blocks + [] == blocks;
  }

  /** Closing a block with an answer line adds exactly that block. */
  lemma {:induction false} CloseBlock(done: seq<Line>, body: seq<Line>, answer: Line)
    requires Closed(done) && NoAnswer(body) && answer.AnswerLine?
    ensures Closed(done + (body + [answer]))
    ensures Blocks(done + (body + [answer])) == Blocks(done) + [Block(body, answer.correct)]
  {
    var closing := body + [answer];
    BlocksAppend(done, closing);
    FirstAnswerOfBlock(body, answer);
    assert closing[..|body|] == body;
    assert closing[|body| + 1..] == [];
  }

  /** An answer line after lines without one is the first. */
  lemma {:induction false} FirstAnswerOfBlock(body: seq<Line>, answer: Line)
    requires NoAnswer(body) && answer.AnswerLine?
    ensures FirstAnswer(body + [answer]) == Some(|body|)
  {
    if body != [] {
      assert (body + [answer])[1..] == body[1..] + [answer];
      FirstAnswerOfBlock(body[1..], answer);
    }
  }

  /** Adding a line to a block adds to its question text only while the
      block has no option yet, and only a question-text line. */
  lemma {:induction false} TextLinesSnoc(body: seq<Line>, l: Line)
    ensures TextLines(body + [l]) ==
      if OptionTexts(body) == [] && l.TextLine? then TextLines(body) + [l.text] else TextLines(body)
  {
    if body == [] {
      assert body + [l] == [l] && [l][1..] == [];
    } else {
      var whole := body + [l];
      assert whole[0] == body[0];
      assert whole[1..] == body[1..] + [l];
      match body[0]
      case OptionLine(_) =>
        assert OptionTexts(body) != [];
      case TextLine(text) =>
        TextLinesSnoc(body[1..], l);
        assert OptionTexts(body) == OptionTexts(body[1..]);
        assert TextLines(whole) == [text] + TextLines(body[1..] + [l]);
        if OptionTexts(body) == [] && l.TextLine? {
          AppendAssoc([text], TextLines(body[1..]), [l.text]);
        }
      case _ =>
        TextLinesSnoc(body[1..], l);
        assert OptionTexts(body) == OptionTexts(body[1..]);
    }
  }

  /** Adding an option line to a block appends its raw text to the block's
      options; any other line leaves them as they are. */
  lemma {:induction false} OptionTextsSnoc(body: seq<Line>, l: Line)
    ensures OptionTexts(body + [l]) == OptionTexts(body) + (if l.OptionLine? then [l.raw] else [])
  {
    var added: seq<string> := if l.OptionLine? then [l.raw] else [];
    if body == [] {
      assert [l][1..] == [];
      assert OptionTexts([l]) == added + OptionTexts([]);
      assert body + [l] == [l];
      AppendNil(added);
    } else {
      var head: seq<string> := if body[0].OptionLine? then [body[0].raw] else [];
      assert (body + [l])[0] == body[0];
      assert (body + [l])[1..] == body[1..] + [l];
      OptionTextsSnoc(body[1..], l);
      assert OptionTexts(body + [l]) == head + (OptionTexts(body[1..]) + added);
      AppendAssoc(head, OptionTexts(body[1..]), added);
    }
  }

  /** Every answer line resets the pending text and options: what follows a
      closed prefix is cut into blocks on its own. */
  lemma {:induction false} BlocksAppend(done: seq<Line>, rest: seq<Line>)
    requires Closed(done)
    ensures Blocks(done + rest) == Blocks(done) + Blocks(rest)
    decreases |done|
  {
    if done == [] {
      assert done + rest == rest;
    } else {
      ClosedHasAnswer(done);
      var i := FirstAnswer(done).value;
      var whole := done + rest;
      var tail := done[i + 1..];
      FirstAnswerExtends(done, rest);
      assert whole[..i] == done[..i];
      assert whole[i] == done[i];
      assert whole[i + 1..] == tail + rest;
      assert Closed(tail) by {
        if tail != [] {
          assert tail[|tail| - 1] == done[|done| - 1];
        }
      }
      BlocksAppend(tail, rest);
      AppendAssoc([Block(done[..i], done[i].correct)], Blocks(tail), Blocks(rest));
    }
  }

  /** Concatenation is associative (stated once, so that proofs need not
      rediscover it element by element). */
  lemma {:induction false} AppendAssoc<T>(a: seq<T>, b: seq<T>, c: seq<T>)
    ensures a + (b + c) == (a + b) + c
  {
  }

  /** Appending nothing changes nothing. */
  lemma {:induction false} AppendNil<T>(a: seq<T>)
    ensures a + [] == a
  {
  }

  /** A closed, non-empty sequence has an answer line. */
  lemma {:induction false} ClosedHasAnswer(done: seq<Line>)
    requires done != [] && Closed(done)
    ensures FirstAnswer(done).Some?
  {
    assert done[|done| - 1].AnswerLine?;
  }

  /** The first answer line of a prefix stays the first when lines are
      appended. */
  lemma {:induction false} FirstAnswerExtends(done: seq<Line>, rest: seq<Line>)
    requires FirstAnswer(done).Some?
    ensures FirstAnswer(done + rest) == FirstAnswer(done)
  {
    if !done[0].AnswerLine? {
      assert (done + rest)[1..] == done[1..] + rest;
      FirstAnswerExtends(done[1..], rest);
    }
  }

  /** Lines without any answer line form no block. */
  lemma {:induction false} NoAnswerNoBlocks(ls: seq<Line>)
    requires NoAnswer(ls)
    ensures Blocks(ls) == []
  {
  }

  /** A trailing run of lines that no answer line closes is dropped. */
  lemma {:induction false} TrailingBlockDropped(ls: seq<Line>, tail: seq<Line>)
    requires NoAnswer(tail)
    ensures Blocks(ls + tail) == Blocks(ls)
    ensures BlockParse(ls + tail) == BlockParse(ls)
    decreases |ls|
  {
    var whole := ls + tail;
    match FirstAnswer(ls)
    case None =>
      assert NoAnswer(whole) by {
        forall k | 0 <= k < |whole| ensures !whole[k].AnswerLine? {
          if k < |ls| { assert whole[k] == ls[k]; } else { assert whole[k] == tail[k - |ls|]; }
        }
      }
      NoAnswerNoBlocks(whole);
    case Some(i) =>
      FirstAnswerExtends(ls, tail);
      assert whole[..i] == ls[..i];
      assert whole[i] == ls[i];
      assert whole[i + 1..] == ls[i + 1..] + tail;
      TrailingBlockDropped(ls[i + 1..], tail);
  }

  /** The questions of concatenated runs of blocks are those of the first
      run followed by those of the second. */
  lemma {:induction false} DraftsAppend(bs: seq<Block>, cs: seq<Block>)
    ensures Drafts(bs + cs) == Drafts(bs) + Drafts(cs)
  {
    if bs == [] {
      assert bs + cs == cs;
    } else {
      assert (bs + cs)[0] == bs[0];
      assert (bs + cs)[1..] == bs[1..] + cs;
      DraftsAppend(bs[1..], cs);
      AppendAssoc(Emit(bs[0]), Drafts(bs[1..]), Drafts(cs));
    }
  }

  /** One more block adds what Emit makes of it. */
  lemma {:induction false} DraftsSnoc(bs: seq<Block>, b: Block)
    ensures Drafts(bs + [b]) == Drafts(bs) + Emit(b)
  {
    DraftsAppend(bs, [b]);
    assert [b][0] == b && [b][1..] == [];
    assert Drafts([b]) == Emit(b) + Drafts([]);
    AppendNil(Emit(b));
  }

  /** Numbering one more question gives it the id after the last. */
  lemma {:induction false} NumberedSnoc(ds: seq<Draft>, d: Draft, firstId: int)
    ensures Numbered(ds + [d], firstId) == Numbered(ds, firstId) + [Question(firstId + |ds|, d.text, d.options, d.correct)]
  {
    var lhs := Numbered(ds + [d], firstId);
    var rhs := Numbered(ds, firstId) + [Question(firstId + |ds|, d.text, d.options, d.correct)];
    forall k | 0 <= k < |lhs| ensures lhs[k] == rhs[k] {
      if k < |ds| { assert (ds + [d])[k] == ds[k]; }
    }
  }

  /** Numbering two runs of questions from `firstId` numbers the second run
      on from where the first stops. */
  lemma {:induction false} NumberedAppend(ds: seq<Draft>, es: seq<Draft>, firstId: int)
    ensures Numbered(ds + es, firstId) == Numbered(ds, firstId) + Numbered(es, firstId + |ds|)
  {
    var lhs := Numbered(ds + es, firstId);
    var rhs := Numbered(ds, firstId) + Numbered(es, firstId + |ds|);
    forall k | 0 <= k < |lhs| ensures lhs[k] == rhs[k] {
      if k < |ds| { assert (ds + es)[k] == ds[k]; } else { assert (ds + es)[k] == es[k - |ds|]; }
    }
  }

  /** Parsing a document whose first part ends at an answer line gives the
      questions of that part, then those of the rest with ids continuing
      after the last id of the first part (q_id is never reset). */
  lemma {:induction false} ParseAppend(done: seq<Line>, rest: seq<Line>)
    requires Closed(done)
    ensures BlockParse(done + rest) ==
      BlockParse(done) + Numbered(Drafts(Blocks(rest)), |BlockParse(done)| + 1)
  {
    BlocksAppend(done, rest);
    DraftsAppend(Blocks(done), Blocks(rest));
    NumberedAppend(Drafts(Blocks(done)), Drafts(Blocks(rest)), 1);
  }

  /** Once a block has an option, later lines add nothing to its question
      text. */
  lemma {:induction false} TextFrozenAfterOption(body: seq<Line>, more: seq<Line>)
    requires OptionTexts(body) != []
    ensures TextLines(body + more) == TextLines(body)
  {
    assert (body + more)[1..] == body[1..] + more;
    if !body[0].OptionLine? {
      TextFrozenAfterOption(body[1..], more);
    }
  }

  /** What every parsed question satisfies. */
  predicate WellFormedQuestion(q: Question)
  {
    && q.text != "" && IsTrimmed(q.text)
    && |q.options| >= 2
    && (forall k :: 0 <= k < |q.options| ==> q.options[k] != "" && IsTrimmed(q.options[k]))
    && StrictlyIncreasing(q.correct)
    && (forall k :: 0 <= k < |q.correct| ==> 'A' <= q.correct[k] <= 'F')
  }

  /** All lines of the sequence are well classified. */
  predicate AllWellClassified(ls: seq<Line>)
  {
    forall k :: 0 <= k < |ls| ==> WellClassified(ls[k])
  }

  /** A block of well-classified lines closed by a well-classified answer. */
  predicate WellFormedBlock(b: Block)
  {
    AllWellClassified(b.body) && WellClassified(AnswerLine(b.correct))
  }

  /** Question-text lines of well-classified lines are trimmed and
      non-empty. */
  lemma {:induction false} TextLinesTrimmed(body: seq<Line>)
    requires AllWellClassified(body)
    ensures forall k :: 0 <= k < |TextLines(body)| ==> TextLines(body)[k] != "" && IsTrimmed(TextLines(body)[k])
  {
    if body != [] {
      assert WellClassified(body[0]);
      TextLinesTrimmed(body[1..]);
    }
  }

  /** Option texts of well-classified lines are trimmed and non-empty. */
  lemma {:induction false} OptionTextsTrimmed(body: seq<Line>)
    requires AllWellClassified(body)
    ensures forall k :: 0 <= k < |OptionTexts(body)| ==> OptionTexts(body)[k] != "" && IsTrimmed(OptionTexts(body)[k])
  {
    if body != [] {
      assert WellClassified(body[0]);
      OptionTextsTrimmed(body[1..]);
    }
  }

  /** What every question drafted from a block satisfies. */
  predicate WellFormedDraft(d: Draft)
  {
    WellFormedQuestion(Question(0, d.text, d.options, d.correct))
  }

  /** An emitted question has non-empty trimmed text, equal to its text
      lines joined by newlines, at least two non-empty trimmed options and
      its answer letters sorted, distinct and within A-F. */
  lemma {:induction false} EmitWellFormed(b: Block)
    requires WellFormedBlock(b)
    ensures forall d :: d in Emit(b) ==>
      WellFormedDraft(d) && d.text == Join(TextLines(b.body), "\n") && d.options == OptionTexts(b.body)
  {
    var textLines := TextLines(b.body);
    var options := OptionTexts(b.body);
    if |textLines| > 0 && |options| >= 2 {
      var d := Draft(Join(textLines, "\n"), options, b.correct);
      assert Emit(b) == [d];
      TextLinesTrimmed(b.body);
      OptionTextsTrimmed(b.body);
      JoinOfTrimmedLines(textLines, "\n");
      assert WellClassified(AnswerLine(b.correct));
      assert WellFormedDraft(d);
    } else {
      assert Emit(b) == [];
    }
  }

  /** Blocks cut from well-classified lines are well formed. */
  lemma {:induction false} BlocksWellFormed(ls: seq<Line>)
    requires AllWellClassified(ls)
    ensures forall k :: 0 <= k < |Blocks(ls)| ==> WellFormedBlock(Blocks(ls)[k])
    decreases |ls|
  {
    match FirstAnswer(ls)
    case None =>
    case Some(i) =>
      assert AllWellClassified(ls[..i]);
      assert WellClassified(ls[i]);
      assert AllWellClassified(ls[i + 1..]);
      BlocksWellFormed(ls[i + 1..]);
  }

  /** Every question drafted from well-formed blocks is well formed. */
  lemma {:induction false} DraftsWellFormed(bs: seq<Block>)
    requires forall k :: 0 <= k < |bs| ==> WellFormedBlock(bs[k])
    ensures forall k :: 0 <= k < |Drafts(bs)| ==> WellFormedDraft(Drafts(bs)[k])
  {
    if bs != [] {
      var here := Emit(bs[0]);
      EmitWellFormed(bs[0]);
      DraftsWellFormed(bs[1..]);
      var all := Drafts(bs);
      forall k | 0 <= k < |all| ensures WellFormedDraft(all[k]) {
        if k < |here| { assert all[k] in here; } else { assert all[k] == Drafts(bs[1..])[k - |here|]; }
      }
    }
  }

  /** Every question the parser produces is well formed, and the k-th has
      id k + 1. */
  lemma {:induction false} ParsedQuestionsWellFormed(lines: seq<string>)
    ensures forall k :: 0 <= k < |BlockParse(ClassifyAll(lines))| ==>
      WellFormedQuestion(BlockParse(ClassifyAll(lines))[k]) && BlockParse(ClassifyAll(lines))[k].id == k + 1
  {
    var ls := ClassifyAll(lines);
    ClassifyAllWellClassified(lines);
    BlocksWellFormed(ls);
    DraftsWellFormed(Blocks(ls));
  }
}
