/**
 * The text processing of the interview assistant script, lifted out of its
 * Streamlit body: the recording length, the simulated diarization of the
 * transcript, the prompt sent to the chat model, the teleprompter lines and
 * the exported question-and-answer text. The transcript and the model's
 * answer are arbitrary strings supplied by the caller.
 */
module Interview {
  import opened Wrappers
  import opened PyStrings

  // ---------------------------------------------------------------------------
  // Recording length
  // ---------------------------------------------------------------------------

  /** Samples per second of the capture. */
  const SampleRate: nat := 44100

  /** The duration slider offers whole seconds from 2 to 15, defaulting to 5. */
  type Duration = d: int | 2 <= d <= 15 witness 5

  /**
   * `int(duration * SAMPLE_RATE)`: the number of samples requested from the
   * capture device, which holds exactly `d` whole seconds of audio.
   */
  function SampleCount(d: Duration): (n: nat)
    ensures n % SampleRate == 0 && n / SampleRate == d
    ensures 2 * SampleRate <= n <= 15 * SampleRate
  {
    d * SampleRate
  }

  // ---------------------------------------------------------------------------
  // Modes and tones
  // ---------------------------------------------------------------------------

  /** The two entries of the mode radio button. */
  datatype Mode = Simple | SimulatedDiarization

  /** The four entries of the tone select box, in the order offered. */
  datatype Tone = Professional | Conversational | Leadership | Concise

  const AllTones: seq<Tone> := [Professional, Conversational, Leadership, Concise]

  /** The tone as the select box shows it. */
  function ToneLabel(t: Tone): string {
    match t
    case Professional => "Professional"
    case Conversational => "Conversational"
    case Leadership => "Leadership"
    case Concise => "Concise"
  }

  /** `tone.lower()`, the word the prompt asks for. */
  function ToneWord(t: Tone): string {
    AsciiLower(ToneLabel(t))
  }

  /** The lowercased labels, spelled out. */
  lemma ToneWords()
    ensures ToneWord(Professional) == "professional"
    ensures ToneWord(Conversational) == "conversational"
    ensures ToneWord(Leadership) == "leadership"
    ensures ToneWord(Concise) == "concise"
  {
  }

  // ---------------------------------------------------------------------------
  // Simulated diarization
  // ---------------------------------------------------------------------------

  /** The separator the transcript and the answer are cut at. */
  const SentenceSep := ". "

  /**
   * What the diarization step produces: the question sent on to the prompt,
   * and the candidate line shown under it, if there is one.
   */
  datatype Segmentation = Segmentation(question: string, candidate: Option<string>)

  /**
   * The segmentation block. In simple mode the transcript is the question.
   * Otherwise the transcript is split on ". ", the first fragment is the
   * interviewer's question (the `else full_text` fallback is kept, though
   * never taken), and when there are further fragments they are joined with
   * a single space into the candidate line.
   */
  function Segment(mode: Mode, fullText: string): (seg: Segmentation)
    ensures mode == Simple ==> seg == Segmentation(fullText, None)
    ensures mode == SimulatedDiarization ==> seg.question == Split(fullText, SentenceSep)[0]
  {
    match mode
    case Simple => Segmentation(fullText, None)
    case SimulatedDiarization =>
      var sentences := Split(fullText, SentenceSep);
      var question := if |sentences| > 0 then sentences[0] else fullText;
      var candidate := if |sentences| > 1 then Some(Join(sentences[1..], " ")) else None;
      Segmentation(question, candidate)
  }

  /** ". " cannot overlap itself. */
  lemma SentenceSepUnbordered()
    ensures Unbordered(SentenceSep)
  {
    forall k | 0 < k < |SentenceSep| ensures SentenceSep[..k] != SentenceSep[|SentenceSep| - k..] {
      assert SentenceSep[..k][0] == '.';
    }
  }

  /**
   * In diarization mode the question is the transcript up to its first ". ",
   * or the whole transcript when it has none; it never contains ". ".
   */
  lemma DiarizedQuestion(fullText: string)
    ensures var q := Segment(SimulatedDiarization, fullText).question;
      StartsWith(fullText, q) && !Contains(q, SentenceSep)
      && (Contains(fullText, SentenceSep) ==> StartsWith(fullText, q + SentenceSep))
      && (!Contains(fullText, SentenceSep) ==> q == fullText)
  {
    var parts := Split(fullText, SentenceSep);
    SplitFragmentsFree(fullText, SentenceSep);
    SplitSingleExactly(fullText, SentenceSep);
    if |parts| > 1 {
      SplitJoin(fullText, SentenceSep);
      assert fullText == parts[0] + SentenceSep + Join(parts[1..], SentenceSep);
    }
  }

  /**
   * A candidate line is produced exactly when the transcript contains ". ".
   * It is then the rest of the transcript after the question and its ". ",
   * with every further ". " replaced by a single space: "Q. A. B" gives "A B".
   */
  lemma DiarizedCandidate(fullText: string)
    ensures var seg := Segment(SimulatedDiarization, fullText);
      var parts := Split(fullText, SentenceSep);
      (seg.candidate.Some? <==> Contains(fullText, SentenceSep))
      && (seg.candidate.Some? <==> |parts| > 1)
      && (seg.candidate.Some? ==>
            StartsWith(fullText, seg.question + SentenceSep)
            && seg.candidate.value == Join(parts[1..], " ")
            && seg.candidate.value
               == Replace(fullText[|seg.question| + |SentenceSep|..], SentenceSep, " "))
  {
    var parts := Split(fullText, SentenceSep);
    SplitSingleExactly(fullText, SentenceSep);
    if |parts| > 1 {
      DiarizedQuestion(fullText);
      var rest := fullText[|parts[0]| + |SentenceSep|..];
      SplitFragmentsFree(fullText, SentenceSep);
      SplitJoin(fullText, SentenceSep);
      assert fullText == parts[0] + SentenceSep + Join(parts[1..], SentenceSep);
      assert rest == Join(parts[1..], SentenceSep);
      SentenceSepUnbordered();
      SplitUnique(parts[1..], SentenceSep);
      SplitJoinReplace(rest, SentenceSep, " ");
    }
  }

  // ---------------------------------------------------------------------------
  // Prompt
  // ---------------------------------------------------------------------------

  const PromptOpen := "The interviewer asked: '"
  const PromptMid := "'. Give a clear, strong, "
  const PromptClose := " answer the interviewee can repeat confidently."

  /** What follows the question in the prompt for `tone`. */
  function PromptTail(tone: Tone): string {
    PromptMid + ToneWord(tone) + PromptClose
  }

  /**
   * The user message sent to the chat model: the opening words, the
   * question verbatim (no escaping), then the tail asking for a `tone` answer.
   */
  function ComposePrompt(question: string, tone: Tone): string {
    PromptOpen + question + PromptTail(tone)
  }

  /**
   * Reads a prompt back: the fixed opening, then the question, then the tail
   * of the first tone in `tones` whose tail the prompt ends with.
   */
  function MatchPromptTail(prompt: string, tones: seq<Tone>): Option<(string, Tone)>
    decreases |tones|
  {
    if tones == [] then None
    else
      var tail := PromptTail(tones[0]);
      if |PromptOpen| + |tail| <= |prompt| && EndsWith(prompt, tail)
      then Some((prompt[|PromptOpen|..|prompt| - |tail|], tones[0]))
      else MatchPromptTail(prompt, tones[1..])
  }

  /** The inverse of ComposePrompt, against which its injectivity is stated. */
  function ParsePrompt(prompt: string): Option<(string, Tone)> {
    if StartsWith(prompt, PromptOpen) then MatchPromptTail(prompt, AllTones) else None
  }

  /** Of two suffixes of one string, the shorter is a suffix of the longer. */
  lemma EndsWithBoth(p: string, a: string, b: string)
    requires EndsWith(p, a) && EndsWith(p, b) && |a| <= |b|
    ensures EndsWith(b, a)
  {
    assert b[|b| - |a|..] == p[|p| - |a|..];
  }

  /** No tone word ends with another one. */
  lemma ToneWordsSuffixFree(t1: Tone, t2: Tone)
    requires t1 != t2
    ensures !EndsWith(ToneWord(t1), ToneWord(t2))
  {
    ToneWords();
    var w1, w2 := ToneWord(t1), ToneWord(t2);
    assert |w2| <= |w1| ==> w1[|w1| - |w2|] != w2[0];
    DifferentAtCut(w1, w2);
  }

  /** `w1` does not end with `w2` when they differ where `w2` would have to begin. */
  lemma DifferentAtCut(w1: string, w2: string)
    requires |w2| > 0
    requires |w2| <= |w1| ==> w1[|w1| - |w2|] != w2[0]
    ensures !EndsWith(w1, w2)
  {
    if |w2| <= |w1| {
      assert w1[|w1| - |w2|..][0] == w1[|w1| - |w2|];
    }
  }

  /** A prompt ends with the tail of at most one tone. */
  lemma PromptTailsExclusive(p: string, t1: Tone, t2: Tone)
    requires t1 != t2 && EndsWith(p, PromptTail(t1))
    ensures !EndsWith(p, PromptTail(t2))
  {
    ToneWordsSuffixFree(t1, t2);
    ToneWordsSuffixFree(t2, t1);
    WordTailsExclusive(p, PromptMid, ToneWord(t1), ToneWord(t2), PromptClose);
  }

  /**
   * A string that ends with `mid + w1 + close` does not end with
   * `mid + w2 + close` when neither word ends with the other.
   */
  lemma WordTailsExclusive(p: string, mid: string, w1: string, w2: string, close: string)
    requires !EndsWith(w1, w2) && !EndsWith(w2, w1)
    requires EndsWith(p, mid + w1 + close)
    ensures !EndsWith(p, mid + w2 + close)
  {
    var a, b := mid + w1 + close, mid + w2 + close;
    TailCancel(mid, w1, w2, close);
    TailCancel(mid, w2, w1, close);
    if EndsWith(p, b) {
      if |a| <= |b| {
        EndsWithBoth(p, a, b);
      } else {
        EndsWithBoth(p, b, a);
      }
    }
  }

  /** The common head and tail cancel out of a suffix relation. */
  lemma TailCancel(mid: string, w1: string, w2: string, close: string)
    ensures EndsWith(mid + w2 + close, mid + w1 + close) ==> EndsWith(w2, w1)
  {
    var a, b := mid + w1 + close, mid + w2 + close;
    if EndsWith(b, a) {
      assert b[|b| - |close| - |w1|..|b| - |close|] == a[|mid|..|mid| + |w1|] == w1;
    }
  }

  /** Scanning a tone list that holds `tone` finds it, and the question before it. */
  lemma {:induction false} MatchPromptTailFinds(question: string, tone: Tone, tones: seq<Tone>)
    requires tone in tones
    ensures MatchPromptTail(PromptOpen + question + PromptTail(tone), tones) == Some((question, tone))
    decreases |tones|
  {
    var p := PromptOpen + question + PromptTail(tone);
    assert EndsWith(p, PromptTail(tone));
    if tones[0] == tone {
      assert p[|PromptOpen|..|p| - |PromptTail(tone)|] == question;
    } else {
      PromptTailsExclusive(p, tone, tones[0]);
      MatchPromptTailFinds(question, tone, tones[1..]);
    }
  }

  /**
   * The prompt gives back the question verbatim and the tone: ComposePrompt is
   * injective, so distinct (question, tone) pairs yield distinct prompts.
   */
  lemma PromptRoundTrip(question: string, tone: Tone)
    ensures ParsePrompt(ComposePrompt(question, tone)) == Some((question, tone))
  {
    StartsWithConcat3(PromptOpen, question, PromptTail(tone));
    MatchPromptTailFinds(question, tone, AllTones);
  }

  /** Every prompt that reads back was composed from what it reads back to. */
  lemma {:induction false} MatchPromptTailSound(prompt: string, tones: seq<Tone>)
    requires StartsWith(prompt, PromptOpen) && MatchPromptTail(prompt, tones).Some?
    ensures var (q, t) := MatchPromptTail(prompt, tones).value; ComposePrompt(q, t) == prompt
    decreases |tones|
  {
    var tail := PromptTail(tones[0]);
    if |PromptOpen| + |tail| <= |prompt| && EndsWith(prompt, tail) {
      Reassemble(prompt, PromptOpen, tail);
    } else {
      MatchPromptTailSound(prompt, tones[1..]);
    }
  }

  /** ParsePrompt accepts exactly the composed prompts. */
  lemma ParsePromptSound(prompt: string)
    requires ParsePrompt(prompt).Some?
    ensures ComposePrompt(ParsePrompt(prompt).value.0, ParsePrompt(prompt).value.1) == prompt
  {
    MatchPromptTailSound(prompt, AllTones);
  }

  // ---------------------------------------------------------------------------
  // Teleprompter
  // ---------------------------------------------------------------------------

  /** `[line.strip() for line in answer.split(". ")]`, the lines shown one by one. */
  function TeleprompterLines(answer: string): seq<string> {
    var fragments := Split(answer, SentenceSep);
    seq(|fragments|, i requires 0 <= i < |fragments| => Strip(fragments[i]))
  }

  /**
   * The lines correspond one to one, in order, to the fragments of
   * `answer.split(". ")`: there is one more line than there are ". " in the
   * answer, each line is its fragment with the surrounding whitespace removed,
   * and no line contains ". " or starts or ends with whitespace.
   */
  lemma TeleprompterLinesSpec(answer: string)
    ensures |TeleprompterLines(answer)| == |Split(answer, SentenceSep)| == Count(answer, SentenceSep) + 1
    ensures forall i :: 0 <= i < |TeleprompterLines(answer)| ==>
      TeleprompterLines(answer)[i] == Strip(Split(answer, SentenceSep)[i])
    ensures forall i :: 0 <= i < |TeleprompterLines(answer)| ==>
      IsStripped(TeleprompterLines(answer)[i]) && !Contains(TeleprompterLines(answer)[i], SentenceSep)
  {
    var lines := TeleprompterLines(answer);
    var fragments := Split(answer, SentenceSep);
    SplitCount(answer, SentenceSep);
    SplitFragmentsFree(answer, SentenceSep);
    assert |lines| == |fragments|;
    forall i | 0 <= i < |lines|
      ensures lines[i] == Strip(fragments[i])
      ensures IsStripped(lines[i]) && !Contains(lines[i], SentenceSep)
    {
      assert lines[i] == Strip(fragments[i]);
      StripKeepsAbsent(fragments[i], SentenceSep);
    }
  }

  /** An answer without ". " is shown as one stripped line. */
  lemma TeleprompterSingleLine(answer: string)
    requires !Contains(answer, SentenceSep)
    ensures TeleprompterLines(answer) == [Strip(answer)]
  {
    SplitWithoutSeparator(answer, SentenceSep);
    var lines := TeleprompterLines(answer);
    assert |lines| == 1 && lines[0] == Strip(answer);
  }

  // ---------------------------------------------------------------------------
  // Export
  // ---------------------------------------------------------------------------

  const ExportHead := "Interview Question:\n"
  const AnswerMarker := "\n\nAI-Generated Answer ("

  /** The tone in the parentheses of the answer header, and the line break after it. */
  function ToneHeader(t: Tone): string {
    ToneLabel(t) + "):\n"
  }

  /** The exported text: the question, then the answer under a header naming the tone. */
  function ExportText(question: string, tone: Tone, answer: string): string {
    ExportHead + question + AnswerMarker + ToneHeader(tone) + answer + "\n"
  }

  /** The first tone in `tones` whose header starts `rest`, and the answer after it. */
  function MatchToneHeader(rest: string, tones: seq<Tone>): Option<(Tone, string)>
    decreases |tones|
  {
    if tones == [] then None
    else if StartsWith(rest, ToneHeader(tones[0])) then Some((tones[0], rest[|ToneHeader(tones[0])|..]))
    else MatchToneHeader(rest, tones[1..])
  }

  /**
   * Reads an exported text back: the question runs up to the first answer
   * header, the tone is in its parentheses, the answer is what remains
   * before the final line break.
   */
  function ParseExport(text: string): Option<(string, Tone, string)> {
    if |text| <= |ExportHead| || !StartsWith(text, ExportHead) || text[|text| - 1] != '\n' then None
    else ParseExportBody(text[|ExportHead|..|text| - 1])
  }

  /** Reads back what lies between the opening line and the final line break. */
  function ParseExportBody(body: string): Option<(string, Tone, string)> {
    var question := Split(body, AnswerMarker)[0];
    if !StartsWith(body[|question|..], AnswerMarker) then None
    else
      match MatchToneHeader(body[|question| + |AnswerMarker|..], AllTones)
      case None => None
      case Some((tone, answer)) => Some((question, tone, answer))
  }

  /** The answer header cannot overlap itself. */
  lemma AnswerMarkerUnbordered()
    ensures Unbordered(AnswerMarker)
  {
    assert forall i :: 0 <= i < |AnswerMarker| - 1 ==> AnswerMarker[i] != '(';
    forall k | 0 < k < |AnswerMarker| ensures AnswerMarker[..k] != AnswerMarker[|AnswerMarker| - k..] {
      assert AnswerMarker[|AnswerMarker| - k..][k - 1] == '(';
      assert AnswerMarker[..k][k - 1] == AnswerMarker[k - 1];
    }
  }

  /** No tone header is a prefix of another. */
  lemma ToneHeadersPrefixFree(t1: Tone, t2: Tone)
    requires t1 != t2
    ensures !StartsWith(ToneHeader(t1), ToneHeader(t2))
  {
    var h1, h2 := ToneHeader(t1), ToneHeader(t2);
    if |h2| <= |h1| {
      if t1 == Conversational && t2 == Concise {
        assert h1[..|h2|][3] != h2[3];
      } else {
        assert h1[..|h2|][0] != h2[0];
      }
    }
  }

  /** Scanning a tone list that holds `tone` finds its header and the answer after it. */
  lemma {:induction false} MatchToneHeaderFinds(tone: Tone, answer: string, tones: seq<Tone>)
    requires tone in tones
    ensures MatchToneHeader(ToneHeader(tone) + answer, tones) == Some((tone, answer))
    decreases |tones|
  {
    var rest := ToneHeader(tone) + answer;
    StartsWithConcat(ToneHeader(tone), answer);
    if tones[0] != tone {
      ToneHeadersPrefixFree(tone, tones[0]);
      ToneHeadersPrefixFree(tones[0], tone);
      StartsWithBoth(rest, ToneHeader(tone), ToneHeader(tones[0]));
      MatchToneHeaderFinds(tone, answer, tones[1..]);
    }
  }

  /**
   * Reading the export back recovers the question, the tone and the answer,
   * provided the question does not itself contain the answer header.
   */
  lemma ExportRoundTrip(question: string, tone: Tone, answer: string)
    requires !Contains(question, AnswerMarker)
    ensures ParseExport(ExportText(question, tone, answer)) == Some((question, tone, answer))
  {
    var text := ExportText(question, tone, answer);
    var body := question + AnswerMarker + ToneHeader(tone) + answer;
    RegroupExport(ExportHead, question, AnswerMarker, ToneHeader(tone), answer, "\n");
    SliceConcat(ExportHead, body, "\n");
    StartsWithConcat(ExportHead, body + "\n");
    ExportBodyRoundTrip(question, tone, answer);
  }

  /** ExportRoundTrip restated as an implication, so that RunScript can use it without assuming the proviso. */
  lemma ExportReadsBack(question: string, tone: Tone, answer: string)
    ensures !Contains(question, AnswerMarker) ==>
      ParseExport(ExportText(question, tone, answer)) == Some((question, tone, answer))
  {
    if !Contains(question, AnswerMarker) {
      ExportRoundTrip(question, tone, answer);
    }
  }

  /** Solver aid for ExportRoundTrip: the export text regrouped around its body. */
  lemma RegroupExport(h: string, q: string, m: string, th: string, a: string, nl: string)
    ensures h + q + m + th + a + nl == h + (q + m + th + a) + nl
  {
  }

  /** The body of an export reads back to its three fields. */
  lemma ExportBodyRoundTrip(question: string, tone: Tone, answer: string)
    requires !Contains(question, AnswerMarker)
    ensures ParseExportBody(question + AnswerMarker + ToneHeader(tone) + answer) == Some((question, tone, answer))
  {
    var tail := ToneHeader(tone) + answer;
    var body := question + AnswerMarker + tail;
    ConcatAssoc(question + AnswerMarker, ToneHeader(tone), answer);
    ConcatAssoc(question, AnswerMarker, tail);
    AnswerMarkerUnbordered();
    SplitAfterFragment(question, AnswerMarker, tail);
    DropConcat(question, AnswerMarker + tail);
    MatchToneHeaderFinds(tone, answer, AllTones);
    ParseExportBodyAt(body, question, tail, tone, answer);
  }

  /** A body whose first fragment is followed by the answer header reads back through the tone header after it. */
  lemma ParseExportBodyAt(body: string, question: string, tail: string, tone: Tone, answer: string)
    requires |question| <= |body| && Split(body, AnswerMarker)[0] == question
    requires body[|question|..] == AnswerMarker + tail
    requires MatchToneHeader(tail, AllTones) == Some((tone, answer))
    ensures ParseExportBody(body) == Some((question, tone, answer))
  {
    StartsWithConcat(AnswerMarker, tail);
    DropConcat(AnswerMarker, tail);
    assert body[|question| + |AnswerMarker|..] == body[|question|..][|AnswerMarker|..];
  }

  /**
   * Without that proviso the layout is ambiguous: a question that holds an
   * answer header followed by a tone header (`inner`, any tone) exports to
   * the same text as a shorter question with a longer answer, exported under
   * `inner`.
   */
  lemma ExportAmbiguous(question: string, tone: Tone, inner: Tone, x: string, answer: string)
    ensures var longer := question + AnswerMarker + ToneHeader(inner) + x;
      longer != question
      && ExportText(longer, tone, answer) == ExportText(question, inner, x + AnswerMarker + ToneHeader(tone) + answer)
  {
    RegroupAmbiguous(ExportHead, question, AnswerMarker, ToneHeader(inner), x, ToneHeader(tone), answer, "\n");
  }

  /** Solver aid for ExportAmbiguous: the same concatenation, regrouped. */
  lemma RegroupAmbiguous(h: string, q: string, m: string, th2: string, x: string, th: string, a: string, nl: string)
    ensures h + (q + m + th2 + x) + m + th + a + nl == h + q + m + th2 + (x + m + th + a) + nl
  {
  }

  // ---------------------------------------------------------------------------
  // One run of the script
  // ---------------------------------------------------------------------------

  /** The texts one run produces from a transcript and the model's answer. */
  datatype Run = Run(segmentation: Segmentation, prompt: string, lines: seq<string>, exported: string)

  /**
   * The script body from the transcript on: the question chosen by the
   * segmentation is the one interpolated into the prompt and written to the
   * export, and the answer is both shown as teleprompter lines and exported.
   */
  function RunScript(mode: Mode, tone: Tone, fullText: string, answer: string): (run: Run)
    ensures ParsePrompt(run.prompt) == Some((run.segmentation.question, tone))
    ensures mode == Simple ==> run.segmentation.question == fullText
    ensures |run.lines| == Count(answer, SentenceSep) + 1
    ensures !Contains(run.segmentation.question, AnswerMarker) ==>
      ParseExport(run.exported) == Some((run.segmentation.question, tone, answer))
  {
    var seg := Segment(mode, fullText);
    var prompt := ComposePrompt(seg.question, tone);
    PromptRoundTrip(seg.question, tone);
    TeleprompterLinesSpec(answer);
    ExportReadsBack(seg.question, tone, answer);
    Run(seg, prompt, TeleprompterLines(answer), ExportText(seg.question, tone, answer))
  }
}
