# Exam Simulator quiz core, modelled in Dafny

The Exam Simulator is a one-file Streamlit quiz (`quiz_app1.py`). It reads a
question file (DOCX paragraphs or TXT lines) and turns it into numbered
questions. Each question has text, raw option texts and sorted answer
letters. The app then quizzes the user in one of two modes:

- **Exam mode**: options in document order, and scoring on submit.
- **Study mode**: options shuffled once per question and cached.

At the end, the results screen grades every saved answer. It lists the
wrongly answered and followed-up question ids and can start a review
session with just those questions.

This project models that core:

- `text.dfy` (`Text`): the Python string primitives the parser relies on.
  These are `str.strip` with Python's exact whitespace set, ASCII
  `lower`/`upper`, `startswith`, `replace(p, "")` and `join`.
- `options.dfy` (`Options`): `is_valid_option_format`,
  `get_raw_option_text` and `add_option_prefixes`.
- `parser.dfy` (`Parser`): the parse loop shared by `parse_docx` and
  `parse_txt`.
  - It is an imperative method, `Parse`, proved equal to a reference
    definition on values, `BlockParse`.
  - `BlockParse` cuts the classified lines at answer lines, keeps the blocks
    with question text and at least two options, and numbers them from 1.
  - What every parsed question satisfies is then proved about that
    reference.
- `scoring.dfy` (`Scoring`) covers:
  - the results screen's grading and the set of wrongly answered ids;
  - the submit-time check;
  - `sorted(...)` of letters and of ids;
  - the HH:MM:SS split of a duration.
- `presentation.dfy` (`Presentation`): the (raw text, original letter)
  pairs of `get_shuffled_options`, and the display map that keys options by
  the string shown.
- `session.dfy` (`Session`): `st.session_state` as a class `Session.Session`.
  Its methods are the handlers that change it:
  - the shuffle cache;
  - `toggle_follow_up`;
  - Submit;
  - `reset_exam_progress`;
  - `go_to_main_screen`;
  - `start_review_mode`.

  The class invariant `Valid()` says three things. The follow-up list has no
  repeats. Every graded answer can be read. Every cached option list is a
  reordering of the first six options it was built from, each with its
  original letter. The invariant does not tie those options to the
  question of the same id in the question list: the caller passes them.

Behaviour of the code that the contracts state:

- `CorrectLettersSpec` states how answer letters are found. A letter A–F
  counts when it occurs, in either case, anywhere in the cleaned answer
  line. So the letters of words count too: "Answer: B and D" yields A, B and
  D, because "and" contains an "a" and a "d".
- A line that opens with "(" is never an option line. The parenthesised
  branch of `is_valid_option_format` cannot fire, because the first test
  already requires an option letter at position 0
  (`ParenthesisedLineIsNotOption`).
- In exam mode the display map is keyed by the raw option text. Two options
  with the same text collapse into one key, and that key holds the entry of
  the later option (`BuildDisplayMap`). In study mode every option gets its
  own key (`StudyDisplaysDistinct`).
- Toggling the follow-up flag twice restores the set of followed-up ids. It
  restores the list itself when the id was not listed or was listed last;
  otherwise the id moves to the end (`ToggleTwice`).

Where the specification and the code disagree, the model follows the code:

- A question's correct-letter list may be empty: "Answer: ?" gives `[]`.
- "(A) text" is question text, not an option.

## Model

| member | source | states |
|---|---|---|
| Text.Strip | quiz_app1.py:72 | `str.strip()`: the result is no longer than the line and neither starts nor ends with whitespace (StripIsSlice and StripIdempotent give the rest) |
| Text.RemoveAll | quiz_app1.py:80 | `str.replace(p, "")`: the body deletes the non-overlapping occurrences found left to right; the contract states only that no character is added |
| Text.RemoveAllAbsent | quiz_app1.py:80 | `str.replace(p, "")` of a string in which `p` occurs nowhere returns it unchanged |
| Text.StripIsSlice | quiz_app1.py:72 | `strip()` returns a contiguous piece of the line and removes only whitespace around it |
| Text.StripIdempotent | quiz_app1.py:72 | stripping an already stripped line changes nothing |
| Text.StripEmptyIff | quiz_app1.py:72-73 | a line is skipped as empty exactly when it is all whitespace |
| Text.JoinOfTrimmedLines | quiz_app1.py:86 | joining trimmed non-empty lines with "\n" gives a trimmed non-empty text, so the final `.strip()` changes nothing |
| Options.ValidOptionsFacts | quiz_app1.py:21 | VALID_OPTIONS is ascending and holds exactly the letters A–F |
| Options.OptionLetterIff | quiz_app1.py:28 | `text[0].upper() in VALID_OPTIONS` holds exactly for a–f and A–F |
| Options.IsValidOptionFormat | quiz_app1.py:26-44 | `is_valid_option_format` branch for branch, the dead "(A)" test included; what it accepts is characterised by OptionFormatIff and ParenthesisedLineIsNotOption |
| Options.OptionFormatIff | quiz_app1.py:26-44 | a line is an option line iff it has an option letter, then one of ":", "." or ")", then some non-whitespace |
| Options.ParenthesisedLineIsNotOption | quiz_app1.py:34-42 | a line opening with "(" is never accepted, so the "(A)" branch is dead |
| Options.GetRawOptionText | quiz_app1.py:46-49 | the raw option text has no surrounding whitespace |
| Options.RawTextOfOptionLine | quiz_app1.py:96-99 | the stored raw text of an option line is everything after its letter and separator, stripped, and never empty |
| Options.PrefixRoundTrip | quiz_app1.py:46-57 | removing a prefix "X: " that was just added gives back the trimmed option text |
| Options.AddOptionPrefixes | quiz_app1.py:51-60 | the first six texts get "A: ".."F: " in order and later texts are kept; each prefixed text maps back to its raw text |
| Parser.Classify | quiz_app1.py:72-103 | the tests applied to one line, in the order of the loop: empty, answer line, option line, question text; ClassifyLine is proved to compute it and ClassifyWellClassified states its output shape |
| Parser.ClassifyAll | quiz_app1.py:71-72 | one classification per line of the document, the k-th being that of the k-th line |
| Parser.CleanAnswerLine | quiz_app1.py:80 | the lower-cased answer line with "correct answer", "answer" and ":" removed in that order, then stripped; CorrectLettersSpec states which of its letters count |
| Parser.CorrectLetters | quiz_app1.py:81-82 | the distinct upper-cased letters found, sorted, computed as a filter of "ABCDEF"; its meaning is stated by CorrectLettersSpec |
| Parser.ClassifyLine | quiz_app1.py:72-103 | the loop's tests, in the loop's order, give the line's classification; option and text lines are trimmed and non-empty, and answer letters are sorted, distinct and A–F |
| Parser.OptionLineClassified | quiz_app1.py:96-99 | a non-answer line accepted as an option is stored as `get_raw_option_text` of it |
| Parser.FoundLettersSpec | quiz_app1.py:81-82 | of ascending candidates, exactly those the line mentions are kept, still ascending |
| Parser.CorrectLettersSpec | quiz_app1.py:80-82 | the correct letters are every A–F the cleaned line mentions in either case, once each, ascending, possibly none |
| Parser.Parse | quiz_app1.py:71-105 | the imperative loop (shared with parse_txt at 116-150) computes exactly the block-wise reference parse of the classified lines |
| Parser.BlockParse | quiz_app1.py:71-105 | the reference reading of a classified document that Parse is proved equal to: the blocks cut at answer lines, each made into a question or nothing, numbered from 1 |
| Parser.ParsedQuestionsWellFormed | quiz_app1.py:79-90 | every parsed question has non-empty trimmed text, at least two non-empty trimmed options and sorted distinct A–F answer letters, and the k-th has id k + 1 |
| Parser.TrailingBlockDropped | quiz_app1.py:71-105 | lines after the last answer line add no question |
| Parser.NoAnswerNoBlocks | quiz_app1.py:78-93 | a document without an answer line yields no question |
| Parser.TextFrozenAfterOption | quiz_app1.py:101-103 | once an option has been read, later lines add no question text |
| Parser.BlocksAppend | quiz_app1.py:91-93 | an answer line resets the pending text and options: cutting into blocks a document whose first part ends at an answer line cuts each part on its own |
| Parser.ParseAppend | quiz_app1.py:78-93 | parsing a document whose first part ends at an answer line gives the questions of that part, then those of the rest with ids continuing from the first part's last id, since `q_id` is never reset |
| Scoring.SortChars | quiz_app1.py:448 | `sorted` of letters is ascending and a permutation of its input |
| Scoring.SortedUnique | quiz_app1.py:448 | two ascending lists with the same elements are equal, so `sorted` has one possible result |
| Scoring.ResultIsCorrect | quiz_app1.py:441-456 | the results screen's test on a saved answer, sorted letters against the correct list; ResultIsCorrectIff states its meaning |
| Scoring.ResultIsCorrectIff | quiz_app1.py:441-456 | an answer is graded correct iff its letters, as a multiset, are exactly the correct letters |
| Scoring.NoPartialCredit | quiz_app1.py:454-458 | one missing or one extra letter makes the answer wrong |
| Scoring.SubmitIsCorrect | quiz_app1.py:750-757 | the submit-time test, whole sorted list for several correct letters and first letter otherwise; ScoringSitesAgree ties it to ResultIsCorrect |
| Scoring.ScoringSitesAgree | quiz_app1.py:750-757 | the submit-time check and the results-screen check agree on every answer whose shape fits the question |
| Scoring.IncorrectIds | quiz_app1.py:435-458 | the set holds exactly the ids of questions whose saved answer is graded (not missing, not "Time Out", not the no-selection sentinel) and wrong |
| Scoring.SortedIds | quiz_app1.py:491 | `sorted(list(s))` lists each id of the set once, ascending |
| Scoring.ReviewIds | quiz_app1.py:491 | the sorted union of the wrongly answered ids and the followed-up ids; its meaning is stated by ReviewIdsSpec |
| Scoring.ReviewIdsSpec | quiz_app1.py:491 | an id is up for review iff it was answered wrongly or is followed up; the list ascends without repeats |
| Scoring.Hms | quiz_app1.py:413-414 | the two `divmod` calls give hours, minutes and seconds that add back to the duration, with minutes and seconds below 60 |
| Presentation.ExamOrder | quiz_app1.py:277-281 | the tuples the loop builds, the i-th raw option paired with the i-th letter of VALID_OPTIONS up to six; ExamOrderSpec states its contents |
| Presentation.ExamOrderSpec | quiz_app1.py:275-281 | the exam order pairs the first min(n, 6) options with A, B, … in order, so no two share a letter |
| Presentation.BuildOptionTuples | quiz_app1.py:277-281 | the tuple-building loop yields the exam order |
| Presentation.ShuffleKeepsOptions | quiz_app1.py:284-291 | a shuffle keeps every lettered option with its original letter and still no two share a letter |
| Presentation.Dedup | quiz_app1.py:555 | the keys of a dict filled in list order, each at its first occurrence; DedupSpec and DedupOfDistinct state its meaning |
| Presentation.DedupSpec | quiz_app1.py:555 | the display keys hold every shown string once and nothing else |
| Presentation.StudyDisplaysDistinct | quiz_app1.py:539-549 | on the study screen the shown strings are distinct, so every option is listed |
| Presentation.BuildDisplayMap | quiz_app1.py:529-555 | the keys are the shown strings in first-occurrence order; each key's entry is that of the last option showing it (its new prefix, original letter and whether that letter is correct) |
| Session.RemoveFirstAt | quiz_app1.py:306 | `list.remove` of a present id cuts out exactly its first occurrence |
| Session.Toggle | quiz_app1.py:299-308 | the new follow-up list: the id removed when listed, appended otherwise; ToggleSpec and ToggleTwice state its meaning |
| Session.ToggleSpec | quiz_app1.py:299-308 | toggling keeps the list free of repeats, flips whether the id is listed and leaves other ids alone |
| Session.ToggleTwice | quiz_app1.py:299-308 | toggling twice restores the followed-up set, and the list itself when the id was not listed or was listed last |
| Session.Shuffle | quiz_app1.py:290 | `random.shuffle` with its random draws as a parameter; ShuffleIsPermutation and EveryOrderIsAShuffle state its meaning |
| Session.ShuffleIsPermutation | quiz_app1.py:290 | the shuffle, given its random draws, is a permutation |
| Session.EveryOrderIsAShuffle | quiz_app1.py:290 | every permutation comes from some draws, so the draws parameter leaves the shuffle arbitrary |
| Session.GradeSubmission | quiz_app1.py:749-757 | the instant check: sorted ticked letters equal the correct list, or a radio choice's letter is the first correct letter; against an ascending correct list without repeats it is right exactly when the answer names each correct letter once and nothing else |
| Session.Session.constructor | quiz_app1.py:255-266 | the initial session state, and it is valid |
| Session.Session.GetShuffledOptions | quiz_app1.py:270-294 | exam mode gives the document order and leaves the cache alone; study mode gives the cached list if present, else caches and returns a permutation of the document order; the invariant is kept |
| Session.Session.ToggleFollowUp | quiz_app1.py:299-308 | the current question's id is flagged or unflagged; nothing else changes and the list stays free of repeats |
| Session.Session.Submit | quiz_app1.py:737-764 | time-out saves "Time Out"; otherwise an input is saved and scores a point iff right; no input changes nothing; only answers and score change |
| Session.Session.SaveSubmission | quiz_app1.py:745-761 | the input branch of Submit: the selection is saved for the question and the score rises by one exactly when the instant check passes; nothing else changes |
| Session.Session.ResetExamProgress | quiz_app1.py:363-371 | index, score, answers, finished flag, follow-ups and shuffle cache reset; questions, name and mode kept |
| Session.Session.GoToMainScreen | quiz_app1.py:310-323 | every field back to its initial value |
| Session.Session.StartReviewMode | quiz_app1.py:373-393 | no ids: no change; otherwise the questions of the listed ids, in list order and taken from the old list, in a fresh study session named "Review: …" |
| Session.IdToQuestion | quiz_app1.py:380 | the map from id to question built over the question list, a later question of an id replacing an earlier one; IdToQuestionSpec and IdToQuestionFinds state its meaning |
| Session.Reviewed | quiz_app1.py:383 | the questions of the listed ids that the map knows, in list order; ReviewedQuestions states its meaning |
| Session.IdToQuestionSpec | quiz_app1.py:380 | the id map's keys are the questions' ids, each mapped to a question of the list with that id |
| Session.IdToQuestionFinds | quiz_app1.py:380 | with distinct ids, every question is found under its id |
| Session.KnownIdsSpec | quiz_app1.py:383 | the kept ids are the listed ids the map knows; ascending ids stay ascending |
| Session.ReviewedQuestions | quiz_app1.py:380-383 | the reviewed list has the known listed ids in list order, each question taken from the old list |
| Session.ReviewSessionContents | quiz_app1.py:491-498 | the review session holds exactly the questions whose ids were answered wrongly or followed up, once each, ascending by id |

## Left out

- Streamlit rendering, CSS, HTML, toasts, balloons, the countdown script and
  `explore_question`: these are UI, clipboard and browser effects.
- Reading DOCX files (python-docx) and decoding TXT files. `Parse` takes the
  paragraph or line texts as a `seq<string>`. `str.splitlines` is not
  modelled either.
- Clocks. `time.time()` and the timer are left out. Durations enter `Hms` as
  a number of seconds, and the expired timer enters `Submit` as a `timedOut`
  flag.
- Randomness. `random.shuffle` of the options takes its draws as a
  parameter, and `EveryOrderIsAShuffle` shows that every order can arise.
  The shuffle is modelled on values, not in place.
- The question-order shuffle of exam mode and the setup screen's start
  (lines 906-941) are not modelled.
- Navigation is not modelled: Next, Previous, Finish, End,
  `toggle_show_answer`, `go_next_study` and `go_prev_study`.
- The percentage and the zero-padded HH:MM:SS formatting are not modelled.
- Case mapping is ASCII only. Python's Unicode mapping changes no outcome
  here: only U+0130 and U+212A lower to ASCII letters ("i" and "k"), which
  occur in no pattern. No non-ASCII character upper-cases to a single A–F.
- Session.Session.Submit: requires a non-empty correct list whenever an
  input is scored. quiz_app1.py reads `correct[0]` there, which raises
  IndexError for an empty list. This is slightly stronger than the app
  needs for an empty radio choice, which never indexes.
- Session.Session.Submit: a selection is given as an answer value. The
  mapping of the radio or checkbox widget to prefixed strings is not
  modelled.
- Scoring.SortedIds: is a ghost function. It picks its least element with
  `:|`, so `ReviewIds` is a specification, not executable code.
