/** How a question's options reach the screen: the (raw text, original
    letter) pairs for the first six options, and the display map that keys
    each option by the string shown (the raw text on the exam screen, the
    text with a fresh "A: ".."F: " prefix on the study screen). */
module Presentation {
  import opened Text
  import opened Options

  /** One option as get_shuffled_options hands it out: its raw text and
      the letter it had in the document. */
  datatype OptionSlot = OptionSlot(rawText: string, originalChar: char)

  /** The number of options that get a letter: at most six. */
  function Lettered(n: nat): nat
  {
    if n < |ValidOptions| then n else |ValidOptions|
  }

  /** The options in document order, the i-th paired with the i-th letter;
      options after the sixth are dropped. */
  function ExamOrder(rawOptions: seq<string>): seq<OptionSlot>
  {
    seq(Lettered(|rawOptions|), i requires 0 <= i < Lettered(|rawOptions|) =>
      OptionSlot(rawOptions[i], ValidOptions[i]))
  }

  /** The original letters of ExamOrder ascend from "A", so no two options
      share one; there are min(n, 6) of them, each keeping its own text. */
  lemma {:induction false} ExamOrderSpec(rawOptions: seq<string>)
    ensures |ExamOrder(rawOptions)| <= |ValidOptions| && |ExamOrder(rawOptions)| <= |rawOptions|
    ensures |rawOptions| <= |ValidOptions| ==> |ExamOrder(rawOptions)| == |rawOptions|
    ensures forall i, j :: 0 <= i < j < |ExamOrder(rawOptions)| ==>
      ExamOrder(rawOptions)[i].originalChar < ExamOrder(rawOptions)[j].originalChar
    ensures forall i :: 0 <= i < |ExamOrder(rawOptions)| ==>
      ExamOrder(rawOptions)[i].rawText == rawOptions[i] && 'A' <= ExamOrder(rawOptions)[i].originalChar <= 'F'
  {
    ValidOptionsFacts();
    var r := ExamOrder(rawOptions);
    forall i | 0 <= i < |r| ensures 'A' <= r[i].originalChar <= 'F' {
      assert r[i].originalChar in ValidOptions;
    }
  }

  /** A shuffle of the options keeps every one of them, each with its own
      letter, and still no two share a letter. */
  lemma {:induction false} ShuffleKeepsOptions(rawOptions: seq<string>, shuffled: seq<OptionSlot>)
    requires multiset(shuffled) == multiset(ExamOrder(rawOptions))
    ensures |shuffled| == |ExamOrder(rawOptions)|
    ensures forall i :: 0 <= i < |ExamOrder(rawOptions)| ==>
      OptionSlot(rawOptions[i], ValidOptions[i]) in shuffled
    ensures forall i, j :: 0 <= i < j < |shuffled| ==> shuffled[i].originalChar != shuffled[j].originalChar
  {
    var order := ExamOrder(rawOptions);
    ExamOrderSpec(rawOptions);
    assert |shuffled| == |order| by {
      assert |multiset(shuffled)| == |shuffled| && |multiset(order)| == |order|;
    }
    forall i | 0 <= i < |order| ensures OptionSlot(rawOptions[i], ValidOptions[i]) in shuffled {
      assert order[i] in multiset(shuffled);
    }
    forall i, j | 0 <= i < j < |shuffled| ensures shuffled[i].originalChar != shuffled[j].originalChar {
      SlotsWithDistinctLetters(order, shuffled, i, j);
    }
  }

  /** Two positions of a permutation of a list whose letters are distinct
      hold different letters. */
  lemma {:induction false} SlotsWithDistinctLetters(order: seq<OptionSlot>, shuffled: seq<OptionSlot>, i: int, j: int)
    requires forall a, b :: 0 <= a < b < |order| ==> order[a].originalChar < order[b].originalChar
    requires multiset(shuffled) == multiset(order)
    requires 0 <= i < j < |shuffled|
    ensures shuffled[i].originalChar != shuffled[j].originalChar
  {
    assert shuffled[i] in multiset(order);
    var a :| 0 <= a < |order| && order[a] == shuffled[i];
    assert shuffled[j] in multiset(order);
    var b :| 0 <= b < |order| && order[b] == shuffled[j];
    if a == b {
      var two := multiset{shuffled[i], shuffled[j]};
      assert multiset(shuffled)[shuffled[i]] >= 2 by {
        assert shuffled == shuffled[..i] + [shuffled[i]] + shuffled[i + 1..j] + [shuffled[j]] + shuffled[j + 1..];
      }
      LetterOccursOnce(order, a);
    }
  }

  /** In a list with distinct letters each slot occurs once. */
  lemma {:induction false} LetterOccursOnce(order: seq<OptionSlot>, a: int)
    requires forall x, y :: 0 <= x < y < |order| ==> order[x].originalChar < order[y].originalChar
    requires 0 <= a < |order|
    ensures multiset(order)[order[a]] == 1
  {
    assert order == order[..a] + [order[a]] + order[a + 1..];
    assert order[a] !in order[..a] by {
      forall x | 0 <= x < a ensures order[..a][x] != order[a] {
        assert order[..a][x] == order[x];
      }
    }
    assert order[a] !in order[a + 1..] by {
      var after := order[a + 1..];
      forall x | 0 <= x < |after| ensures after[x] != order[a] {
        assert after[x] == order[a + 1 + x];
      }
    }
  }

  /** The loop that pairs the raw options with letters, the first six
      only, in order. */
  method BuildOptionTuples(rawOptions: seq<string>) returns (optionTuples: seq<OptionSlot>)
    ensures optionTuples == ExamOrder(rawOptions)
  {
    optionTuples := [];
    for i := 0 to |rawOptions|
      invariant optionTuples == ExamOrder(rawOptions[..i])
    {
      if i < |ValidOptions| {
        optionTuples := optionTuples + [OptionSlot(rawOptions[i], ValidOptions[i])];
      }
      assert rawOptions[..i + 1][..i] == rawOptions[..i];
    }
    assert rawOptions[..|rawOptions|] == rawOptions;
  }

  /** What the display map holds for an option: the string saved when it
      is chosen, its original letter and whether that letter is correct. */
  datatype DisplayEntry = DisplayEntry(prefixedString: string, originalChar: char, isCorrect: bool)

  /** The string shown for the option at position i. */
  function DisplayOf(slot: OptionSlot, i: nat, isExamMode: bool): string
    requires i < |ValidOptions|
  {
    if isExamMode then slot.rawText else WithPrefix(ValidOptions[i], slot.rawText)
  }

  /** The map entry made for the option at position i: the new prefix
      follows the current order, the verdict the original letter. */
  function EntryOf(slot: OptionSlot, i: nat, correct: seq<char>): DisplayEntry
    requires i < |ValidOptions|
  {
    DisplayEntry(WithPrefix(ValidOptions[i], slot.rawText), slot.originalChar, slot.originalChar in correct)
  }

  /** The strings shown for the options, position by position. */
  function Displays(slots: seq<OptionSlot>, isExamMode: bool): (ds: seq<string>)
    requires |slots| <= |ValidOptions|
    ensures |ds| == |slots|
  {
    seq(|slots|, i requires 0 <= i < |slots| => DisplayOf(slots[i], i, isExamMode))
  }

  /** No string occurs twice. */
  predicate Distinct(xs: seq<string>)
  {
    forall i, j :: 0 <= i < j < |xs| ==> xs[i] != xs[j]
  }

  /** The keys of a dict filled in this order: each string once, where it
      first occurs (assigning an existing key keeps its place). */
  function Dedup(xs: seq<string>): seq<string>
    decreases |xs|
  {
    if xs == [] then []
    else
      var init := Dedup(xs[..|xs| - 1]);
      if xs[|xs| - 1] in init then init else init + [xs[|xs| - 1]]
  }

  /** The keys hold every string once, and nothing else. */
  lemma {:induction false} DedupSpec(xs: seq<string>)
    ensures Distinct(Dedup(xs))
    ensures forall x :: x in Dedup(xs) <==> x in xs
    decreases |xs|
  {
    if xs != [] {
      var front := xs[..|xs| - 1];
      var last := xs[|xs| - 1];
      DedupSpec(front);
      assert xs == front + [last];
      var init := Dedup(front);
      if last !in init {
        var r := init + [last];
        forall i, j | 0 <= i < j < |r| ensures r[i] != r[j] {
          if j == |init| { assert r[i] in init; } else { assert r[i] == init[i] && r[j] == init[j]; }
        }
      }
    }
  }

  /** Strings without repeats are their own keys. */
  lemma {:induction false} DedupOfDistinct(xs: seq<string>)
    requires Distinct(xs)
    ensures Dedup(xs) == xs
    decreases |xs|
  {
    if xs != [] {
      var front := xs[..|xs| - 1];
      assert Distinct(front) by {
        forall i, j | 0 <= i < j < |front| ensures front[i] != front[j] {
          assert front[i] == xs[i] && front[j] == xs[j];
        }
      }
      DedupOfDistinct(front);
      assert xs[|xs| - 1] !in front by {
        forall i | 0 <= i < |front| ensures front[i] != xs[|xs| - 1] {
          assert front[i] == xs[i];
        }
      }
      assert xs == front + [xs[|xs| - 1]];
    }
  }

  /** On the study screen every option has its own prefix, so no two
      shown strings coincide and every option is listed. */
  lemma {:induction false} StudyDisplaysDistinct(slots: seq<OptionSlot>)
    requires |slots| <= |ValidOptions|
    ensures Distinct(Displays(slots, false))
    ensures Dedup(Displays(slots, false)) == Displays(slots, false)
  {
    var ds := Displays(slots, false);
    ValidOptionsFacts();
    forall i, j | 0 <= i < j < |ds| ensures ds[i] != ds[j] {
      assert ds[i][0] == ValidOptions[i] && ds[j][0] == ValidOptions[j];
    }
    DedupOfDistinct(ds);
  }

  /** Position i is the last one showing the string d: its entry is the
      one left in the map. */
  predicate LastShowing(ds: seq<string>, i: int, d: string)
  {
    0 <= i < |ds| && ds[i] == d && forall j :: i < j < |ds| ==> ds[j] != d
  }

  /** The loop that fills the display map. Its keys, in the dict's order,
      are the shown strings once each; its entry for a string is that of
      the last option showing it. Options whose shown strings coincide (the
      same raw text on the exam screen) collapse into one key. */
  method BuildDisplayMap(slots: seq<OptionSlot>, correct: seq<char>, isExamMode: bool)
    returns (displayKeys: seq<string>, prefixedOptionsMap: map<string, DisplayEntry>)
    requires |slots| <= |ValidOptions|
    ensures displayKeys == Dedup(Displays(slots, isExamMode))
    ensures forall d :: d in prefixedOptionsMap <==> d in Displays(slots, isExamMode)
    ensures forall i :: 0 <= i < |slots| && LastShowing(Displays(slots, isExamMode), i, Displays(slots, isExamMode)[i]) ==>
      prefixedOptionsMap[Displays(slots, isExamMode)[i]] == EntryOf(slots[i], i, correct)
  {
    ghost var ds := Displays(slots, isExamMode);
    displayKeys := [];
    prefixedOptionsMap := map[];
    for i := 0 to |slots|
      invariant displayKeys == Dedup(ds[..i])
      invariant forall d :: d in prefixedOptionsMap <==> d in ds[..i]
      invariant forall k :: 0 <= k < i && LastShowing(ds[..i], k, ds[k]) ==>
        prefixedOptionsMap[ds[k]] == EntryOf(slots[k], k, correct)
    {
      var prefix := ValidOptions[i];
      var slot := slots[i];
      var isCorrect := slot.originalChar in correct;
      var prefixedString := WithPrefix(prefix, slot.rawText);
      var displayString := if isExamMode then slot.rawText else prefixedString;
      assert displayString == ds[i];
      DedupSnoc(ds, i);
      DedupSpec(ds[..i]);
      if displayString !in prefixedOptionsMap {
        displayKeys := displayKeys + [displayString];
      }
      var entry := DisplayEntry(prefixedString, slot.originalChar, isCorrect);
      assert entry == EntryOf(slots[i], i, correct);
      MapStep(ds, slots, correct, i, prefixedOptionsMap, prefixedOptionsMap[displayString := entry]);
      prefixedOptionsMap := prefixedOptionsMap[displayString := entry];
    }
    assert ds[..|slots|] == ds;
  }

  /** One more assignment keeps the loop's account of the map: its keys
      are the strings shown so far, and each holds the entry of the last
      position showing it. */
  lemma {:induction false} MapStep(ds: seq<string>, slots: seq<OptionSlot>, correct: seq<char>, i: int,
                                   m: map<string, DisplayEntry>, next: map<string, DisplayEntry>)
    requires 0 <= i < |ds| && |ds| == |slots| <= |ValidOptions|
    requires forall d :: d in m <==> d in ds[..i]
    requires forall k :: 0 <= k < i && LastShowing(ds[..i], k, ds[k]) ==> m[ds[k]] == EntryOf(slots[k], k, correct)
    requires next == m[ds[i] := EntryOf(slots[i], i, correct)]
    ensures forall d :: d in next <==> d in ds[..i + 1]
    ensures forall k :: 0 <= k < i + 1 && LastShowing(ds[..i + 1], k, ds[k]) ==> next[ds[k]] == EntryOf(slots[k], k, correct)
  {
    LastShowingSnoc(ds, i);
    forall k | 0 <= k < i + 1 && LastShowing(ds[..i + 1], k, ds[k])
      ensures next[ds[k]] == EntryOf(slots[k], k, correct)
    {
      if k < i {
        assert ds[k] != ds[i] && LastShowing(ds[..i], k, ds[k]);
      }
    }
  }

  /** Dedup of one more string, seen through a prefix of `ds`. */
  lemma {:induction false} DedupSnoc(ds: seq<string>, i: int)
    requires 0 <= i < |ds|
    ensures Dedup(ds[..i + 1]) == if ds[i] in Dedup(ds[..i]) then Dedup(ds[..i]) else Dedup(ds[..i]) + [ds[i]]
  {
    assert ds[..i + 1][..i] == ds[..i];
  }

  /** The last showing of a string among the first i + 1 positions is
      position i when it shows that string, and otherwise the same as among
      the first i. */
  lemma {:induction false} LastShowingSnoc(ds: seq<string>, i: int)
    requires 0 <= i < |ds|
    ensures LastShowing(ds[..i + 1], i, ds[i])
    ensures forall k :: 0 <= k < i && ds[k] != ds[i] ==>
      (LastShowing(ds[..i + 1], k, ds[k]) <==> LastShowing(ds[..i], k, ds[k]))
    ensures forall k :: 0 <= k < i && ds[k] == ds[i] ==> !LastShowing(ds[..i + 1], k, ds[k])
    ensures ds[..i + 1] == ds[..i] + [ds[i]]
  {
    assert ds[..i + 1] == ds[..i] + [ds[i]];
  }
}
