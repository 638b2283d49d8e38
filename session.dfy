/** The quiz's session state, kept across screen refreshes, and the
    handlers that change it: the option shuffle cache, the follow-up list,
    submitting an answer, restarting, leaving for the main screen and
    starting a review session. */
module Session {
  import Options
  import opened Parser
  import opened Scoring
  import opened Presentation

  /** quiz_mode: not chosen yet, "Exam Mode" or "Study Mode". */
  datatype Mode = NoMode | ExamMode | StudyMode

  /** No id is listed twice. */
  predicate NoDup(xs: seq<int>)
  {
    forall i, j :: 0 <= i < j < |xs| ==> xs[i] != xs[j]
  }

  /** list.remove(x): the first occurrence of x is dropped. */
  function RemoveFirst(xs: seq<int>, x: int): seq<int>
  {
    if xs == [] then []
    else if xs[0] == x then xs[1..]
    else [xs[0]] + RemoveFirst(xs[1..], x)
  }

  /** list.remove(x) of a present x cuts out exactly its first
      occurrence and keeps the rest in order. */
  lemma {:induction false} RemoveFirstAt(xs: seq<int>, x: int) returns (k: int)
    requires x in xs
    ensures 0 <= k < |xs| && xs[k] == x && x !in xs[..k]
    ensures RemoveFirst(xs, x) == xs[..k] + xs[k + 1..]
  {
    if xs[0] == x {
      k := 0;
    } else {
      var k' := RemoveFirstAt(xs[1..], x);
      k := k' + 1;
      assert xs[..k] == [xs[0]] + xs[1..][..k'];
      assert xs[k + 1..] == xs[1..][k' + 1..];
    }
  }

  /** What toggle_follow_up does to the list: a listed id is removed,
      any other id is appended. */
  function Toggle(xs: seq<int>, x: int): seq<int>
  {
    if x in xs then RemoveFirst(xs, x) else xs + [x]
  }

  /** Cutting one position out of a list without repeats leaves a list
      without repeats holding every other id. */
  lemma {:induction false} CutSpec(xs: seq<int>, k: int)
    requires NoDup(xs) && 0 <= k < |xs|
    ensures NoDup(xs[..k] + xs[k + 1..])
    ensures forall y :: y in xs[..k] + xs[k + 1..] <==> y in xs && y != xs[k]
  {
    var r := xs[..k] + xs[k + 1..];
    assert forall i :: 0 <= i < |r| ==> r[i] == xs[if i < k then i else i + 1];
    forall y | y in xs && y != xs[k] ensures y in r {
      var i :| 0 <= i < |xs| && xs[i] == y;
      if i < k { assert r[i] == y; } else { assert r[i - 1] == y; }
    }
  }

  /** Appending a new id to a list without repeats keeps it without
      repeats. */
  lemma {:induction false} AppendNew(xs: seq<int>, x: int)
    requires NoDup(xs) && x !in xs
    ensures NoDup(xs + [x])
  {
    var r := xs + [x];
    forall i, j | 0 <= i < j < |r| ensures r[i] != r[j] {
      if j == |xs| { assert r[i] in xs; } else { assert r[i] == xs[i] && r[j] == xs[j]; }
    }
  }

  /** Removing an id just appended to a list that lacked it gives the
      list back. */
  lemma {:induction false} RemoveAppended(xs: seq<int>, x: int)
    requires x !in xs
    ensures RemoveFirst(xs + [x], x) == xs
  {
    if xs == [] {
      assert [] + [x] == [x];
    } else {
      assert (xs + [x])[0] == xs[0];
      assert (xs + [x])[1..] == xs[1..] + [x];
      RemoveAppended(xs[1..], x);
      assert xs == [xs[0]] + xs[1..];
    }
  }

  /** Toggling keeps the list free of repeats, flips whether the id is
      listed and leaves every other id as it was. */
  lemma {:induction false} ToggleSpec(xs: seq<int>, x: int)
    requires NoDup(xs)
    ensures NoDup(Toggle(xs, x))
    ensures x in Toggle(xs, x) <==> x !in xs
    ensures forall y :: y != x ==> (y in Toggle(xs, x) <==> y in xs)
  {
    if x in xs {
      var k := RemoveFirstAt(xs, x);
      CutSpec(xs, k);
    } else {
      AppendNew(xs, x);
    }
  }

  /** Toggling twice gives back the same set of followed-up ids, and the
      same list when the id was not listed before or was listed last. */
  lemma {:induction false} ToggleTwice(xs: seq<int>, x: int)
    requires NoDup(xs)
    ensures forall y :: y in Toggle(Toggle(xs, x), x) <==> y in xs
    ensures x !in xs ==> Toggle(Toggle(xs, x), x) == xs
    ensures |xs| > 0 && xs[|xs| - 1] == x ==> Toggle(Toggle(xs, x), x) == xs
  {
    ToggleSpec(xs, x);
    ToggleSpec(Toggle(xs, x), x);
    if x !in xs {
      RemoveAppended(xs, x);
    } else if xs[|xs| - 1] == x {
      var init := xs[..|xs| - 1];
      assert xs == init + [x];
      assert x !in init by {
        forall i | 0 <= i < |init| ensures init[i] != x { assert init[i] == xs[i]; }
      }
      RemoveAppended(init, x);
    }
  }

  /** random.shuffle, with its random draws as a parameter: the draw at
      each step picks (modulo the count left) which remaining option comes
      next. */
  function Shuffle(xs: seq<OptionSlot>, draws: seq<nat>): seq<OptionSlot>
    decreases |xs|
  {
    if xs == [] then []
    else
      var k := if draws == [] then 0 else draws[0] % |xs|;
      [xs[k]] + Shuffle(xs[..k] + xs[k + 1..], if draws == [] then [] else draws[1..])
  }

  /** A shuffle reorders the options and loses or adds none. */
  lemma {:induction false} ShuffleIsPermutation(xs: seq<OptionSlot>, draws: seq<nat>)
    ensures multiset(Shuffle(xs, draws)) == multiset(xs)
    decreases |xs|
  {
    if xs != [] {
      var k := if draws == [] then 0 else draws[0] % |xs|;
      var rest := xs[..k] + xs[k + 1..];
      var more := if draws == [] then [] else draws[1..];
      assert Shuffle(xs, draws) == [xs[k]] + Shuffle(rest, more);
      ShuffleIsPermutation(rest, more);
      CutMultiset(xs, k);
    }
  }

  /** One position cut out of a list takes one copy of its element out of
      the list's multiset. */
  lemma {:induction false} CutMultiset(xs: seq<OptionSlot>, k: int)
    requires 0 <= k < |xs|
    ensures multiset(xs) == multiset(xs[..k] + xs[k + 1..]) + multiset{xs[k]}
  {
    assert xs == xs[..k] + [xs[k]] + xs[k + 1..];
  }

  /** Every order of the options is the outcome of some draws, so fixing
      the draws as a parameter leaves the shuffle arbitrary. */
  lemma {:induction false} EveryOrderIsAShuffle(xs: seq<OptionSlot>, ys: seq<OptionSlot>) returns (draws: seq<nat>)
    requires multiset(ys) == multiset(xs)
    ensures Shuffle(xs, draws) == ys
    decreases |xs|
  {
    assert |ys| == |multiset(ys)| == |xs|;
    if xs == [] {
      draws := [];
    } else {
      assert ys[0] in multiset(xs);
      var k :| 0 <= k < |xs| && xs[k] == ys[0];
      CutMatches(xs, ys, k);
      var more := EveryOrderIsAShuffle(xs[..k] + xs[k + 1..], ys[1..]);
      ShuffleStep(xs, k, more);
      draws := [k] + more;
      assert ys == [ys[0]] + ys[1..];
    }
  }

  /** A first draw below the count picks that position. */
  lemma {:induction false} ShuffleStep(xs: seq<OptionSlot>, k: nat, more: seq<nat>)
    requires k < |xs|
    ensures Shuffle(xs, [k] + more) == [xs[k]] + Shuffle(xs[..k] + xs[k + 1..], more)
  {
    var draws := [k] + more;
    assert draws[0] % |xs| == k && draws[1..] == more;
  }

  /** Taking the first element of one list off, and a position holding
      the same element off a reordering of it, leaves reorderings. */
  lemma {:induction false} CutMatches(xs: seq<OptionSlot>, ys: seq<OptionSlot>, k: int)
    requires multiset(ys) == multiset(xs) && 0 <= k < |xs| && |ys| > 0 && xs[k] == ys[0]
    ensures multiset(ys[1..]) == multiset(xs[..k] + xs[k + 1..])
  {
    CutMultiset(xs, k);
    assert ys == [ys[0]] + ys[1..];
    assert multiset(ys[1..]) == multiset(ys) - multiset{ys[0]};
  }

  /** Saving an answer that is readable, or a sentinel, keeps every
      graded answer readable. */
  lemma {:induction false} SaveKeepsGradable(answers: map<int, Answer>, index: int, a: Answer)
    requires GradableAnswers(answers)
    requires IsGraded(Some(a)) ==> AnswerReadable(a)
    ensures GradableAnswers(answers[index := a])
  {
  }

  /** The entry `user_answers[idx]` holds a real answer, which freezes the
      question. */
  predicate Answered(answers: map<int, Answer>, index: int)
  {
    index in answers && answers[index] != Single(NoSelection)
  }

  /** has_input: a checkbox answer needs a tick, a radio answer a choice. */
  predicate HasInput(selection: Option<Answer>)
  {
    selection.Some? && (selection.value.Multi? ==> |selection.value.choices| > 0)
  }

  /** The instant check made on submit: the sorted ticked letters must
      be the correct letters, a radio choice's letter the first correct
      letter. */
  method GradeSubmission(userSelectionToSave: Answer, correctAnswersList: seq<char>) returns (isCorrectSubmission: bool)
    requires AnswerReadable(userSelectionToSave) && SelectionFits(userSelectionToSave, correctAnswersList)
    requires |correctAnswersList| >= 1
    ensures isCorrectSubmission == SubmitIsCorrect(userSelectionToSave, correctAnswersList)
    ensures Options.StrictlyIncreasing(correctAnswersList) ==>
      (isCorrectSubmission <==> SameLetters(userSelectionToSave, correctAnswersList))
  {
    ScoringSitesAgree(userSelectionToSave, correctAnswersList);
    if Options.StrictlyIncreasing(correctAnswersList) {
      ResultIsCorrectIff(userSelectionToSave, correctAnswersList);
    }
    isCorrectSubmission := false;
    match userSelectionToSave {
      case Multi(xs) =>
        var userChars := SortChars(Letters(userSelectionToSave));
        if userChars == correctAnswersList {
          isCorrectSubmission := true;
        }
      case Single(s) =>
        if s != "" && ChoiceLetter(s) == correctAnswersList[0] {
          isCorrectSubmission := true;
        }
    }
  }

  /** Every cached option list reorders the first six options, with their
      letters, of the raw options it was made from. */
  ghost predicate CacheFaithful(cache: map<int, seq<OptionSlot>>, madeFrom: map<int, seq<string>>)
  {
    && madeFrom.Keys == cache.Keys
    && forall id :: id in cache ==> multiset(cache[id]) == multiset(ExamOrder(madeFrom[id]))
  }

  /** st.session_state, the fields the quiz works with. */
  class Session {
    var quizData: seq<Question>
    var currentIndex: int
    var score: int
    var userAnswers: map<int, Answer>
    var quizFinished: bool
    var examName: string
    var quizMode: Mode
    var followUpQuestions: seq<int>
    var showAnswerStudy: bool
    var shuffledOptionsMap: map<int, seq<OptionSlot>>
    /** For each cached question, the raw options its shuffle was made
        from. */
    ghost var shuffledFrom: map<int, seq<string>>

    /** The follow-up list has no repeats, every graded answer can be
        read, and every cached option list is a reordering of the first
        six options it was built from, with their letters. */
    ghost predicate Valid()
      reads this
    {
      NoDup(followUpQuestions) && GradableAnswers(userAnswers) && CacheFaithful(shuffledOptionsMap, shuffledFrom)
    }

    /** The initial state of a new browser session. */
    constructor ()
      ensures Valid()
      ensures quizData == [] && currentIndex == 0 && score == 0 && userAnswers == map[]
      ensures !quizFinished && examName == "" && quizMode == NoMode
      ensures followUpQuestions == [] && !showAnswerStudy && shuffledOptionsMap == map[]
    {
      quizData := [];
      currentIndex := 0;
      score := 0;
      userAnswers := map[];
      quizFinished := false;
      examName := "";
      quizMode := NoMode;
      followUpQuestions := [];
      showAnswerStudy := false;
      shuffledOptionsMap := map[];
      shuffledFrom := map[];
    }

    /** get_shuffled_options: the exam screen gets the options in document
        order; the study screen gets a shuffle made on the question's first
        visit and cached under its id, so later visits see the same order
        whatever options they pass. `draws` stands for random.shuffle's
        randomness. */
    method GetShuffledOptions(qId: int, rawOptions: seq<string>, isExamMode: bool, draws: seq<nat>)
      returns (tuples: seq<OptionSlot>)
      requires Valid()
      modifies this`shuffledOptionsMap, this`shuffledFrom
      ensures Valid()
      ensures isExamMode ==> tuples == ExamOrder(rawOptions) && shuffledOptionsMap == old(shuffledOptionsMap)
      ensures !isExamMode && qId in old(shuffledOptionsMap) ==>
        tuples == old(shuffledOptionsMap)[qId] && shuffledOptionsMap == old(shuffledOptionsMap)
      ensures !isExamMode && qId !in old(shuffledOptionsMap) ==>
        multiset(tuples) == multiset(ExamOrder(rawOptions)) && shuffledOptionsMap == old(shuffledOptionsMap)[qId := tuples]
      ensures !isExamMode ==> qId in shuffledFrom && multiset(tuples) == multiset(ExamOrder(shuffledFrom[qId]))
    {
      if isExamMode {
        tuples := BuildOptionTuples(rawOptions);
        return;
      }
      if qId !in shuffledOptionsMap {
        var optionTuples := BuildOptionTuples(rawOptions);
        ShuffleIsPermutation(optionTuples, draws);
        shuffledOptionsMap := shuffledOptionsMap[qId := Shuffle(optionTuples, draws)];
        shuffledFrom := shuffledFrom[qId := rawOptions];
      }
      tuples := shuffledOptionsMap[qId];
    }

    /** toggle_follow_up: flags the current question for follow-up, or
        unflags it; the index does not move. */
    method ToggleFollowUp()
      requires Valid() && 0 <= currentIndex < |quizData|
      modifies this`followUpQuestions
      ensures Valid()
      ensures followUpQuestions == Toggle(old(followUpQuestions), quizData[currentIndex].id)
      ensures quizData[currentIndex].id in followUpQuestions <==> quizData[currentIndex].id !in old(followUpQuestions)
      ensures forall y :: y != quizData[currentIndex].id ==> (y in followUpQuestions <==> y in old(followUpQuestions))
    {
      var idx := currentIndex;
      var qData := quizData[idx];
      var qId := qData.id;
      ToggleSpec(followUpQuestions, qId);
      if qId in followUpQuestions {
        followUpQuestions := RemoveFirst(followUpQuestions, qId);
      } else {
        followUpQuestions := followUpQuestions + [qId];
      }
    }

    /** The Submit button of the exam screen, reachable while the question
        is not answered. A run-out timer saves "Time Out" whatever is
        selected; otherwise a selection is saved and scores a point when
        it is right, and no selection changes nothing. */
    method Submit(selection: Option<Answer>, timedOut: bool)
      requires Valid() && 0 <= currentIndex < |quizData|
      requires !Answered(userAnswers, currentIndex)
      requires selection.Some? ==>
        AnswerReadable(selection.value) && SelectionFits(selection.value, quizData[currentIndex].correct)
      requires !timedOut && HasInput(selection) ==> |quizData[currentIndex].correct| >= 1
      modifies this`userAnswers, this`score
      ensures Valid()
      ensures timedOut ==> userAnswers == old(userAnswers)[currentIndex := Single(TimeOut)] && score == old(score)
      ensures !timedOut && HasInput(selection) ==>
        && userAnswers == old(userAnswers)[currentIndex := selection.value]
        && score == old(score) + (if SubmitIsCorrect(selection.value, quizData[currentIndex].correct) then 1 else 0)
      ensures !timedOut && !HasInput(selection) ==> userAnswers == old(userAnswers) && score == old(score)
      ensures timedOut ==> Answered(userAnswers, currentIndex)
    {
      var idx := currentIndex;
      var correctAnswersList := quizData[idx].correct;
      if timedOut {
        SaveKeepsGradable(userAnswers, idx, Single(TimeOut));
        userAnswers := userAnswers[idx := Single(TimeOut)];
        return;
      }
      var hasInput := match selection
        case None => false
        case Some(Multi(xs)) => |xs| > 0
        case Some(Single(_)) => true;
      if hasInput {
        SaveSubmission(idx, selection.value, correctAnswersList);
      }
    }

    /** The input branch of Submit: the selection is saved for the
        question and scores a point when the instant check passes. */
    method SaveSubmission(idx: int, userSelectionToSave: Answer, correctAnswersList: seq<char>)
      requires Valid()
      requires AnswerReadable(userSelectionToSave) && SelectionFits(userSelectionToSave, correctAnswersList)
      requires |correctAnswersList| >= 1
      modifies this`userAnswers, this`score
      ensures Valid()
      ensures userAnswers == old(userAnswers)[idx := userSelectionToSave]
      ensures score == old(score) + (if SubmitIsCorrect(userSelectionToSave, correctAnswersList) then 1 else 0)
    {
      SaveKeepsGradable(userAnswers, idx, userSelectionToSave);
      userAnswers := userAnswers[idx := userSelectionToSave];
      var isCorrectSubmission := GradeSubmission(userSelectionToSave, correctAnswersList);
      if isCorrectSubmission {
        score := score + 1;
      }
    }

    /** reset_exam_progress: the same questions from the start, with no
        answers, score, follow-ups or cached shuffles. The questions, the
        exam name and the mode are kept. */
    method ResetExamProgress()
      modifies this`currentIndex, this`score, this`userAnswers, this`quizFinished,
        this`followUpQuestions, this`shuffledOptionsMap, this`shuffledFrom
      ensures Valid()
      ensures currentIndex == 0 && score == 0 && userAnswers == map[] && !quizFinished
      ensures followUpQuestions == [] && shuffledOptionsMap == map[]
    {
      currentIndex := 0;
      score := 0;
      userAnswers := map[];
      quizFinished := false;
      followUpQuestions := [];
      shuffledOptionsMap := map[];
      shuffledFrom := map[];
    }

    /** go_to_main_screen: every field back to its initial value; the
        empty question list sends the user back to the upload screen. */
    method GoToMainScreen()
      modifies this
      ensures Valid()
      ensures quizData == [] && currentIndex == 0 && score == 0 && userAnswers == map[]
      ensures !quizFinished && examName == "" && quizMode == NoMode
      ensures followUpQuestions == [] && !showAnswerStudy && shuffledOptionsMap == map[]
    {
      quizData := [];
      currentIndex := 0;
      score := 0;
      userAnswers := map[];
      quizFinished := false;
      examName := "";
      quizMode := NoMode;
      followUpQuestions := [];
      showAnswerStudy := false;
      shuffledOptionsMap := map[];
      shuffledFrom := map[];
    }

    /** start_review_mode: with no ids nothing changes (the app only
        warns); otherwise the questions become those with the given ids, in
        the order of the ids, and a fresh study session with answers shown
        begins. The follow-up list and the score are kept. */
    method StartReviewMode(questionIdsToReview: seq<int>)
      requires Valid()
      modifies this`quizData, this`examName, this`quizMode, this`currentIndex, this`quizFinished,
        this`userAnswers, this`showAnswerStudy, this`shuffledOptionsMap, this`shuffledFrom
      ensures Valid()
      ensures questionIdsToReview == [] ==>
        && quizData == old(quizData) && examName == old(examName) && quizMode == old(quizMode)
        && currentIndex == old(currentIndex) && quizFinished == old(quizFinished)
        && userAnswers == old(userAnswers) && showAnswerStudy == old(showAnswerStudy)
        && shuffledOptionsMap == old(shuffledOptionsMap)
      ensures questionIdsToReview != [] ==>
        && quizData == Reviewed(IdToQuestion(old(quizData)), questionIdsToReview)
        && examName == "Review: " + old(examName) && quizMode == StudyMode
        && currentIndex == 0 && !quizFinished && userAnswers == map[] && showAnswerStudy
        && shuffledOptionsMap == map[]
      ensures questionIdsToReview != [] ==>
        && QuestionIds(quizData) == KnownIds(questionIdsToReview, QuestionIds(old(quizData)))
        && forall k :: 0 <= k < |quizData| ==> quizData[k] in old(quizData)
    {
      if questionIdsToReview == [] {
        return;
      }
      var idToQuestionMap := IdToQuestion(quizData);
      ReviewedQuestions(quizData, questionIdsToReview);
      quizData := Reviewed(idToQuestionMap, questionIdsToReview);
      examName := "Review: " + examName;
      quizMode := StudyMode;
      currentIndex := 0;
      quizFinished := false;
      userAnswers := map[];
      showAnswerStudy := true;
      shuffledOptionsMap := map[];
      shuffledFrom := map[];
    }
  }

  /** The ids of a question list, in order. */
  function QuestionIds(qs: seq<Question>): (ids: seq<int>)
    ensures |ids| == |qs|
  {
    seq(|qs|, k requires 0 <= k < |qs| => qs[k].id)
  }

  /** `{q['id']: q for q in quiz_data}`: a later question with an id
      already seen replaces the earlier one. */
  function IdToQuestion(qs: seq<Question>): map<int, Question>
    decreases |qs|
  {
    if qs == [] then map[]
    else IdToQuestion(qs[..|qs| - 1])[qs[|qs| - 1].id := qs[|qs| - 1]]
  }

  /** The map's keys are the ids of the list, and each id is mapped to a
      question of the list that has it. */
  lemma {:induction false} IdToQuestionSpec(qs: seq<Question>)
    ensures forall id :: id in IdToQuestion(qs) <==> id in QuestionIds(qs)
    ensures forall id :: id in IdToQuestion(qs) ==> IdToQuestion(qs)[id].id == id && IdToQuestion(qs)[id] in qs
    decreases |qs|
  {
    if qs != [] {
      var front := qs[..|qs| - 1];
      IdToQuestionSpec(front);
      assert qs == front + [qs[|qs| - 1]];
      assert QuestionIds(qs) == QuestionIds(front) + [qs[|qs| - 1].id];
    }
  }

  /** With no repeated id, the map finds each question under its id. */
  lemma {:induction false} IdToQuestionFinds(qs: seq<Question>, k: int)
    requires NoDup(QuestionIds(qs)) && 0 <= k < |qs|
    ensures qs[k].id in IdToQuestion(qs) && IdToQuestion(qs)[qs[k].id] == qs[k]
    decreases |qs|
  {
    var front := qs[..|qs| - 1];
    IdToQuestionSpec(front);
    if k < |qs| - 1 {
      assert QuestionIds(front) == QuestionIds(qs)[..|qs| - 1];
      assert NoDup(QuestionIds(front)) by {
        forall i, j | 0 <= i < j < |front| ensures QuestionIds(front)[i] != QuestionIds(front)[j] {
          assert QuestionIds(front)[i] == QuestionIds(qs)[i] && QuestionIds(front)[j] == QuestionIds(qs)[j];
        }
      }
      IdToQuestionFinds(front, k);
      assert QuestionIds(qs)[k] != QuestionIds(qs)[|qs| - 1];
    }
  }

  /** `[m[id] for id in ids if id in m]`. */
  function Reviewed(m: map<int, Question>, ids: seq<int>): seq<Question>
  {
    if ids == [] then []
    else (if ids[0] in m then [m[ids[0]]] else []) + Reviewed(m, ids[1..])
  }

  /** The ids of `ids` found in `known`, in order. */
  function KnownIds(ids: seq<int>, known: seq<int>): seq<int>
  {
    if ids == [] then []
    else (if ids[0] in known then [ids[0]] else []) + KnownIds(ids[1..], known)
  }

  /** The known ids are those of `ids` that are known; ascending ids stay
      ascending. */
  lemma {:induction false} KnownIdsSpec(ids: seq<int>, known: seq<int>)
    ensures forall x :: x in KnownIds(ids, known) <==> x in ids && x in known
    ensures (forall i, j :: 0 <= i < j < |ids| ==> ids[i] < ids[j]) ==>
      forall i, j :: 0 <= i < j < |KnownIds(ids, known)| ==> KnownIds(ids, known)[i] < KnownIds(ids, known)[j]
  {
    if ids != [] {
      KnownIdsSpec(ids[1..], known);
      var r := KnownIds(ids, known);
      var rest := KnownIds(ids[1..], known);
      var head := if ids[0] in known then [ids[0]] else [];
      assert r == head + rest;
      forall x ensures x in r <==> x in ids && x in known {
        assert x in ids <==> x == ids[0] || x in ids[1..];
      }
      if forall i, j :: 0 <= i < j < |ids| ==> ids[i] < ids[j] {
        assert forall i, j :: 0 <= i < j < |ids[1..]| ==> ids[1..][i] < ids[1..][j] by {
          forall i, j | 0 <= i < j < |ids[1..]| ensures ids[1..][i] < ids[1..][j] {
            assert ids[1..][i] == ids[i + 1] && ids[1..][j] == ids[j + 1];
          }
        }
        forall i, j | 0 <= i < j < |r| ensures r[i] < r[j] {
          if head != [] && i == 0 {
            assert r[j] == rest[j - 1] && rest[j - 1] in ids[1..];
            var j' :| 0 <= j' < |ids[1..]| && ids[1..][j'] == rest[j - 1];
            assert ids[1..][j'] == ids[j' + 1];
          } else {
            assert r[i] == rest[i - |head|] && r[j] == rest[j - |head|];
          }
        }
      }
    }
  }

  /** The reviewed list holds the questions of the listed ids, in the
      order of the list. */
  lemma {:induction false} ReviewedSpec(m: map<int, Question>, ids: seq<int>, known: seq<int>)
    requires forall id :: id in m <==> id in known
    requires forall id :: id in m ==> m[id].id == id
    ensures QuestionIds(Reviewed(m, ids)) == KnownIds(ids, known)
    ensures forall k :: 0 <= k < |Reviewed(m, ids)| ==> Reviewed(m, ids)[k] in m.Values
  {
    if ids != [] {
      ReviewedSpec(m, ids[1..], known);
      var head := if ids[0] in m then [m[ids[0]]] else [];
      var r := Reviewed(m, ids);
      var rest := Reviewed(m, ids[1..]);
      assert r == head + rest;
      assert QuestionIds(r) == QuestionIds(head) + QuestionIds(rest);
      forall k | 0 <= k < |r| ensures r[k] in m.Values {
        if k < |head| { assert r[k] == m[ids[0]]; } else { assert r[k] == rest[k - |head|]; }
      }
    }
  }

  /** The review session built from a question list: the questions of
      the given ids that the list has, in the order of the ids, each taken
      from the list. */
  lemma {:induction false} ReviewedQuestions(qs: seq<Question>, ids: seq<int>)
    ensures QuestionIds(Reviewed(IdToQuestion(qs), ids)) == KnownIds(ids, QuestionIds(qs))
    ensures forall k :: 0 <= k < |Reviewed(IdToQuestion(qs), ids)| ==> Reviewed(IdToQuestion(qs), ids)[k] in qs
  {
    var m := IdToQuestion(qs);
    IdToQuestionSpec(qs);
    ReviewedSpec(m, ids, QuestionIds(qs));
    forall k | 0 <= k < |Reviewed(m, ids)| ensures Reviewed(m, ids)[k] in qs {
      var q := Reviewed(m, ids)[k];
      var id :| id in m && m[id] == q;
    }
  }

  /** The review button's session: started with the sorted union of the
      wrongly answered and followed-up ids, it holds exactly the questions
      with those ids, once each, in ascending id order. */
  lemma {:induction false} ReviewSessionContents(qs: seq<Question>, incorrectQIds: set<int>, followUpQuestions: seq<int>)
    ensures var r := QuestionIds(Reviewed(IdToQuestion(qs), ReviewIds(incorrectQIds, followUpQuestions)));
      && (forall id :: id in r <==> id in QuestionIds(qs) && (id in incorrectQIds || id in followUpQuestions))
      && (forall i, j :: 0 <= i < j < |r| ==> r[i] < r[j])
  {
    var ids := ReviewIds(incorrectQIds, followUpQuestions);
    ReviewIdsSpec(incorrectQIds, followUpQuestions);
    ReviewedQuestions(qs, ids);
    KnownIdsSpec(ids, QuestionIds(qs));
  }
}
