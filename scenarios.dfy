/** Concrete runs of the diarization step and the recording length. */
module InterviewScenarios {
  import opened Wrappers
  import opened PyStrings
  import opened Interview

  /** A string with no full stop before its last character has no ". " in it. */
  lemma NoSentenceSepBeforeEnd(s: string)
    requires forall i :: 0 <= i < |s| - 1 ==> s[i] != '.'
    ensures !Contains(s, SentenceSep)
  {
    forall k ensures !OccursAt(s, SentenceSep, k) {
      if 0 <= k && k + 2 <= |s| {
        assert s[k..k + 2][0] == s[k];
      }
    }
  }

  /** Gluing two strings without ". " makes none, unless the first ends in a full stop. */
  lemma NoSentenceSepInConcat(x: string, y: string)
    requires !Contains(x, SentenceSep) && !Contains(y, SentenceSep)
    requires x != [] ==> x[|x| - 1] != '.'
    ensures !Contains(x + y, SentenceSep)
  {
    var s := x + y;
    forall k ensures !OccursAt(s, SentenceSep, k) {
      if 0 <= k && k + 2 <= |s| {
        if k + 2 <= |x| {
          assert s[k..k + 2] == x[k..k + 2];
          assert !OccursAt(x, SentenceSep, k);
        } else if k >= |x| {
          assert s[k..k + 2] == y[k - |x|..k - |x| + 2];
          assert !OccursAt(y, SentenceSep, k - |x|);
        } else {
          assert s[k..k + 2][0] == x[|x| - 1];
        }
      }
    }
  }

  /** "Q. A. B": the question is "Q", and the candidate line is "A B", not "A. B". */
  lemma ThreeFragments()
    ensures Segment(SimulatedDiarization, "Q. A. B") == Segmentation("Q", Some("A B"))
  {
    SentenceSepUnbordered();
    NotContainsShort("Q", SentenceSep);
    NotContainsShort("A", SentenceSep);
    assert "Q. A. B" == "Q" + SentenceSep + ("A" + SentenceSep + "B");
    SplitAfterFragment("A", SentenceSep, "B");
    SplitAfterFragment("Q", SentenceSep, "A" + SentenceSep + "B");
    var parts := Split("Q. A. B", SentenceSep);
    assert parts == ["Q", "A", "B"];
    assert parts[1..] == ["A", "B"];
    assert Join(["A", "B"], " ") == "A" + " " + Join(["B"], " ");
    assert Join(parts[1..], " ") == "A B";
  }

  /**
   * The interviewer asks one short question and the candidate answers with
   * one sentence, whose final full stop is kept.
   */
  lemma QuestionThenAnswer()
    ensures Segment(SimulatedDiarization,
                    "Tell me about yourself" + ". "
                    + ("I am a software engineer" + " with five years" + " of experience."))
         == Segmentation("Tell me about yourself",
                         Some("I am a software engineer" + " with five years" + " of experience."))
  {
    var q := "Tell me about yourself";
    var a1, a2, a3 := "I am a software engineer", " with five years", " of experience.";
    var a := a1 + a2 + a3;
    SentenceSepUnbordered();
    NoSentenceSepBeforeEnd(q);
    NoSentenceSepBeforeEnd(a1);
    NoSentenceSepBeforeEnd(a2);
    NoSentenceSepBeforeEnd(a3);
    NoSentenceSepInConcat(a1, a2);
    NoSentenceSepInConcat(a1 + a2, a3);
    SplitAfterFragment(q, SentenceSep, a);
    SplitWithoutSeparator(a, SentenceSep);
  }

  /** The default five-second recording asks for 220500 samples. */
  lemma DefaultRecording()
    ensures SampleCount(5) == 220500
  {
  }
}
