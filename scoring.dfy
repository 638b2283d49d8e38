/** Grading of saved answers: the results screen's comparison of sorted
    answer letters with a question's correct letters, the exam screen's
    instant check on submit, the set of wrongly answered ids, the sorted
    review-id list and the HH:MM:SS split of a duration in seconds. */
module Scoring {
  import opened Text
  import opened Options
  import opened Parser

  /** A saved answer: one prefixed option string (a radio choice, or one
      of the sentinels below) or the list of ticked prefixed strings. */
  datatype Answer = Single(choice: string) | Multi(choices: seq<string>)

  /** Saved when the question timer has run out. */
  const TimeOut: string := "Time Out"

  /** The other sentinel the results screen skips. */
  const NoSelection: string := "STUDY_REVIEW_NO_SELECTION"

  /** An entry the results screen grades: present and not a sentinel. A
      list never equals a sentinel string. */
  predicate IsGraded(a: Option<Answer>)
  {
    a.Some? && a.value != Single(TimeOut) && a.value != Single(NoSelection)
  }

  /** `x.strip()[0]` exists. */
  predicate Readable(x: string)
  {
    Strip(x) != ""
  }

  /** What grading reads without failing: every ticked string, and a
      non-empty chosen string, has a character other than whitespace; the
      empty string is read as no choice at all. */
  predicate AnswerReadable(a: Answer)
  {
    match a
    case Single(s) => s == "" || Readable(s)
    case Multi(xs) => forall k :: 0 <= k < |xs| ==> Readable(xs[k])
  }

  /** `x.strip()[0].upper()`: the letter a prefixed option string starts
      with. */
  function ChoiceLetter(x: string): char
    requires Readable(x)
  {
    UpperChar(Strip(x)[0])
  }

  /** The letters of a saved answer, in the order they were saved. */
  function Letters(a: Answer): seq<char>
    requires AnswerReadable(a)
  {
    match a
    case Single(s) => if s == "" then [] else [ChoiceLetter(s)]
    case Multi(xs) => seq(|xs|, k requires 0 <= k < |xs| => ChoiceLetter(xs[k]))
  }

  /** Ascending order with repeats allowed, as `sorted` yields. */
  predicate Sorted(s: seq<char>)
  {
    forall i, j :: 0 <= i < j < |s| ==> s[i] <= s[j]
  }

  /** Putting a letter no greater than any of a sorted list in front
      keeps it sorted. */
  lemma {:induction false} ConsSorted(x: char, s: seq<char>)
    requires Sorted(s) && forall k :: 0 <= k < |s| ==> x <= s[k]
    ensures Sorted([x] + s)
  {
    var r := [x] + s;
    forall i, j | 0 <= i < j < |r| ensures r[i] <= r[j] {
      assert r[j] == s[j - 1];
      if i > 0 { assert r[i] == s[i - 1]; }
    }
  }

  /** A bound below every letter of `s` and below `c` is below every letter
      of a list holding those of `s` and `c`. */
  lemma {:induction false} BoundAfterInsert(x: char, c: char, s: seq<char>, t: seq<char>)
    requires forall k :: 0 <= k < |s| ==> x <= s[k]
    requires x <= c && multiset(t) == multiset(s) + multiset{c}
    ensures forall k :: 0 <= k < |t| ==> x <= t[k]
  {
    forall k | 0 <= k < |t| ensures x <= t[k] {
      assert t[k] in multiset(t);
      if t[k] != c {
        assert t[k] in multiset(s);
        var m :| 0 <= m < |s| && s[m] == t[k];
      }
    }
  }

  /** Insertion of one letter into a sorted list. */
  function Insert(c: char, s: seq<char>): (r: seq<char>)
    requires Sorted(s)
    ensures Sorted(r) && multiset(r) == multiset(s) + multiset{c}
  {
    if s == [] || c <= s[0] then
      ConsSorted(c, s);
      [c] + s
    else
      var tail := s[1..];
      var rest := Insert(c, tail);
      assert s == [s[0]] + tail;
      BoundAfterInsert(s[0], c, tail, rest);
      ConsSorted(s[0], rest);
      [s[0]] + rest
  }

  /** Python's `sorted` on characters (code-point order): the same letters
      in ascending order. */
  function SortChars(s: seq<char>): (r: seq<char>)
    ensures Sorted(r) && multiset(r) == multiset(s)
  {
    if s == [] then []
    else
      assert s == [s[0]] + s[1..];
      Insert(s[0], SortChars(s[1..]))
  }

  /** Two sorted lists with the same letters are the same list: sorting
      forgets only the order the letters were saved in. */
  lemma {:induction false} SortedUnique(a: seq<char>, b: seq<char>)
    requires Sorted(a) && Sorted(b) && multiset(a) == multiset(b)
    ensures a == b
    decreases |a|
  {
    assert |b| == |a| by {
      assert |multiset(a)| == |a| && |multiset(b)| == |b|;
    }
    if a != [] {
      assert b[0] <= a[0] by {
        assert a[0] in multiset(b);
        var m :| 0 <= m < |b| && b[m] == a[0];
      }
      assert a[0] <= b[0] by {
        assert b[0] in multiset(a);
        var n :| 0 <= n < |a| && a[n] == b[0];
      }
      var a', b' := a[1..], b[1..];
      assert multiset(a) == multiset{a[0]} + multiset(a') by {
        assert a == [a[0]] + a';
      }
      assert multiset(b) == multiset{b[0]} + multiset(b') by {
        assert b == [b[0]] + b';
      }
      assert multiset(a') == multiset(a) - multiset{a[0]};
      assert multiset(b') == multiset(b) - multiset{b[0]};
      SortedTail(a);
      SortedTail(b);
      SortedUnique(a', b');
      assert a == [a[0]] + a' && b == [b[0]] + b';
    }
  }

  /** Dropping the first letter of a sorted list leaves it sorted. */
  lemma {:induction false} SortedTail(s: seq<char>)
    requires Sorted(s) && s != []
    ensures Sorted(s[1..])
  {
    forall i, j | 0 <= i < j < |s| - 1 ensures s[1..][i] <= s[1..][j] {
      assert s[1..][i] == s[i + 1] && s[1..][j] == s[j + 1];
    }
  }

  /** The results screen's verdict on an answered question: the sorted
      letters of the saved choice(s) equal the correct list. */
  predicate ResultIsCorrect(a: Answer, correct: seq<char>)
    requires AnswerReadable(a)
  {
    var userChars := match a
      case Multi(_) => SortChars(Letters(a))
      case Single(_) => Letters(a);
    userChars == correct
  }

  /** The answer names every correct letter, as often as the correct list
      does, and nothing else. */
  predicate SameLetters(a: Answer, correct: seq<char>)
    requires AnswerReadable(a)
  {
    multiset(Letters(a)) == multiset(correct)
  }

  /** All or nothing: against a correct list in ascending order without
      repeats (every parsed question's), an answer is right exactly when
      it names each correct letter once and nothing else. */
  lemma {:induction false} ResultIsCorrectIff(a: Answer, correct: seq<char>)
    requires AnswerReadable(a) && StrictlyIncreasing(correct)
    ensures ResultIsCorrect(a, correct) <==> multiset(Letters(a)) == multiset(correct)
  {
    var letters := Letters(a);
    assert Sorted(correct);
    if a.Multi? {
      if multiset(letters) == multiset(correct) {
        SortedUnique(SortChars(letters), correct);
      }
    } else if multiset(letters) == multiset(correct) {
      assert |letters| == |correct| by {
        assert |multiset(letters)| == |letters| && |multiset(correct)| == |correct|;
      }
      if letters != [] {
        assert correct[0] in multiset(letters);
      }
    }
  }

  /** No partial credit: leaving out a correct letter, or adding one that
      is not correct, makes the answer wrong. */
  lemma {:induction false} NoPartialCredit(a: Answer, correct: seq<char>, c: char)
    requires AnswerReadable(a) && StrictlyIncreasing(correct)
    requires (c in correct && c !in Letters(a)) || (c in Letters(a) && c !in correct)
    ensures !ResultIsCorrect(a, correct)
  {
    ResultIsCorrectIff(a, correct);
    assert multiset(Letters(a))[c] != multiset(correct)[c];
  }

  /** The shape of a selection on the exam screen: a list of ticked
      strings for a multiple-choice question (more than one correct
      letter), one chosen string otherwise. */
  predicate SelectionFits(a: Answer, correct: seq<char>)
  {
    a.Multi? <==> |correct| > 1
  }

  /** The instant check on submit: sorted letters against the whole
      correct list for multiple choice; otherwise a non-empty choice whose
      letter is the first correct letter (the list must not be empty). */
  predicate SubmitIsCorrect(a: Answer, correct: seq<char>)
    requires AnswerReadable(a) && SelectionFits(a, correct) && |correct| >= 1
  {
    if |correct| > 1 then
      SortChars(Letters(a)) == correct
    else
      a.choice != "" && ChoiceLetter(a.choice) == correct[0]
  }

  /** The submit check and the results screen agree on every selection of
      the right shape for a question with at least one correct letter. */
  lemma {:induction false} ScoringSitesAgree(a: Answer, correct: seq<char>)
    requires AnswerReadable(a) && SelectionFits(a, correct) && |correct| >= 1
    ensures SubmitIsCorrect(a, correct) == ResultIsCorrect(a, correct)
  {
    if !a.Multi? && a.choice != "" {
      assert Letters(a) == [ChoiceLetter(a.choice)];
      assert |correct| == 1;
      if ChoiceLetter(a.choice) == correct[0] {
        assert correct == [correct[0]];
      }
    }
  }

  /** Every saved answer the results screen grades can be read; the
      sentinels are never read. */
  predicate GradableAnswers(answers: map<int, Answer>)
  {
    forall k :: k in answers && IsGraded(Some(answers[k])) ==> AnswerReadable(answers[k])
  }

  /** The entry of a question's position in the saved answers, as
      `user_answers.get(index)` gives it. */
  function AnswerAt(answers: map<int, Answer>, index: int): Option<Answer>
  {
    if index in answers then Some(answers[index]) else None
  }

  /** The question at `index` was graded and found wrong. */
  predicate AnsweredWrongly(quizData: seq<Question>, answers: map<int, Answer>, index: int)
    requires GradableAnswers(answers)
    requires 0 <= index < |quizData|
  {
    IsGraded(AnswerAt(answers, index)) && !ResultIsCorrect(answers[index], quizData[index].correct)
  }

  /** The results screen's loop over the questions: the ids of those whose
      saved answer is graded and wrong. Unanswered questions and the two
      sentinels never land in the set. */
  method IncorrectIds(quizData: seq<Question>, answers: map<int, Answer>) returns (incorrectQIds: set<int>)
    requires GradableAnswers(answers)
    ensures forall id :: id in incorrectQIds <==>
      exists k :: 0 <= k < |quizData| && quizData[k].id == id && AnsweredWrongly(quizData, answers, k)
  {
    incorrectQIds := {};
    for index := 0 to |quizData|
      invariant forall id :: id in incorrectQIds <==>
        exists k :: 0 <= k < index && quizData[k].id == id && AnsweredWrongly(quizData, answers, k)
    {
      var qId := quizData[index].id;
      var userChoice := AnswerAt(answers, index);
      if IsGraded(userChoice) {
        var isCorrect := false;
        var correctAnswersList := quizData[index].correct;
        var userChars: seq<char>;
        match userChoice.value {
          case Multi(xs) =>
            userChars := SortChars(Letters(userChoice.value));
          case Single(s) =>
            if s != "" {
              userChars := [ChoiceLetter(s)];
            } else {
              userChars := [];
            }
        }
        if userChars == correctAnswersList {
          isCorrect := true;
        }
        assert isCorrect == ResultIsCorrect(userChoice.value, correctAnswersList);
        if !isCorrect {
          incorrectQIds := incorrectQIds + {qId};
        }
      }
    }
  }

  /** A set other than the empty one has a member. */
  lemma {:induction false} NonEmptyHasMember(s: set<int>)
    requires s != {}
    ensures exists x :: x in s
  {
    if forall x :: x !in s {
      assert false;
    }
  }

  /** The least element of a non-empty finite set of ids. */
  ghost function MinOf(s: set<int>): (m: int)
    requires s != {}
    ensures m in s
    ensures forall x :: x in s ==> m <= x
    decreases |s|
  {
    NonEmptyHasMember(s);
    var x :| x in s;
    var rest := s - {x};
    if rest == {} then
      assert s == {x};
      x
    else
      var y := MinOf(rest);
      assert forall z :: z in s ==> z == x || z in rest;
      if x <= y then x else y
  }

  /** `sorted(list(s))` for a set of ids: its elements once each, in
      ascending order. */
  ghost function SortedIds(s: set<int>): (r: seq<int>)
    ensures forall x :: x in r <==> x in s
    ensures forall i, j :: 0 <= i < j < |r| ==> r[i] < r[j]
    decreases |s|
  {
    if s == {} then []
    else
      var m := MinOf(s);
      var rest := SortedIds(s - {m});
      PrependMin(s, m, rest);
      [m] + rest
  }

  /** The least id in front of the ascending listing of the others is an
      ascending listing of them all. */
  lemma {:induction false} PrependMin(s: set<int>, m: int, rest: seq<int>)
    requires m in s && forall x :: x in s ==> m <= x
    requires forall x :: x in rest <==> x in s - {m}
    requires forall i, j :: 0 <= i < j < |rest| ==> rest[i] < rest[j]
    ensures forall x :: x in [m] + rest <==> x in s
    ensures forall i, j :: 0 <= i < j < |[m] + rest| ==> ([m] + rest)[i] < ([m] + rest)[j]
  {
    var r := [m] + rest;
    forall x ensures x in r <==> x in s {
      assert x in r <==> x == m || x in rest;
    }
    forall i, j | 0 <= i < j < |r| ensures r[i] < r[j] {
      assert r[j] == rest[j - 1];
      if i == 0 { assert rest[j - 1] in rest; } else { assert r[i] == rest[i - 1]; }
    }
  }

  /** The review list: wrongly answered and followed-up ids together, once
      each, in ascending order. */
  ghost function ReviewIds(incorrectQIds: set<int>, followUpQuestions: seq<int>): seq<int>
  {
    SortedIds(incorrectQIds + set id | id in followUpQuestions)
  }

  /** An id is up for review exactly when it was answered wrongly or is
      followed up; the list has no repeats and ascends. */
  lemma {:induction false} ReviewIdsSpec(incorrectQIds: set<int>, followUpQuestions: seq<int>)
    ensures forall id :: id in ReviewIds(incorrectQIds, followUpQuestions) <==>
      id in incorrectQIds || id in followUpQuestions
    ensures var r := ReviewIds(incorrectQIds, followUpQuestions);
      forall i, j :: 0 <= i < j < |r| ==> r[i] < r[j]
  {
  }

  /** `mm, ss = divmod(t, 60); hh, mm = divmod(mm, 60)`: hours, minutes and
      seconds of a duration, minutes and seconds below 60 (divmod rounds
      down, as Dafny's division by a positive number does). */
  function Hms(totalSeconds: int): (r: (int, int, int))
    ensures r.0 * 3600 + r.1 * 60 + r.2 == totalSeconds
    ensures 0 <= r.1 < 60 && 0 <= r.2 < 60
  {
    var mm, ss := totalSeconds / 60, totalSeconds % 60;
    var hh, mm' := mm / 60, mm % 60;
    (hh, mm', ss)
  }
}
