# Interview assistant: the text-processing core

The interview assistant is a Streamlit script. It records a few seconds of
audio, transcribes it, can split the transcript into a simulated
interviewer/candidate exchange, asks a chat model for a suggested answer,
replays that answer line by line as a teleprompter and can export the
question and answer as a text file. Apart from calls into the microphone,
the speech-to-text model and the chat API, everything the script computes
is string processing written inline in its body. This project lifts that
processing into total Dafny functions and proves what it does.

- `wrappers.dfy`, module `Wrappers`: the `Option` type.
- `py_strings.dfy`, module `PyStrings`: the Python string built-ins the
  script relies on, with CPython's meaning. These are `str.split(sep)`,
  `sep.join(parts)`, `str.count`, `str.replace`, `str.strip()` (Python 3's
  whitespace set) and `str.lower()` for ASCII text. Their properties are
  proved here: the split/join round trip, one more fragment than separators,
  no fragment holding the separator, uniqueness of the split, and the exact
  slice that `strip` keeps.
- `interview.dfy`, module `Interview`: the script's own logic. It covers the
  sample count, the two modes, the four tones, the segmentation block, the
  prompt template, the teleprompter lines and the export layout. It also
  models one run from transcript to export (`RunScript`), taking the export
  branch as if its button were pressed in the same run. The prompt and the
  export each get a reader (`ParsePrompt`, `ParseExport`). These readers are
  not in the script; they state what the layouts make recoverable.
- `scenarios.dfy`, module `InterviewScenarios`: concrete runs of the
  segmentation and the recording length.

The transcript (`full_text`) and the model's answer (`answer`) are inputs:
they can be any strings. Every operation is a pure function, so the prompt
is a deterministic function of the question and the tone by construction.

Two behaviours of the code that are easy to misread:

- The candidate line joins the remaining fragments with a single space
  (`' '.join(sentences[1:])`). So "Q. A. B" gives the candidate "A B", not
  "A. B". The model follows the code: `DiarizedCandidate` proves that the
  candidate is the rest of the transcript with every ". " replaced by " ".
- `ParseExport`, which cuts the exported text at the first answer header
  ("\n\nAI-Generated Answer ("), recovers the question, tone and answer
  exactly when the question does not contain that header. `ExportRoundTrip`
  proves recovery under that condition. `ExportAmbiguous` shows that a
  question holding the header followed by a tone header (of any tone) cannot
  be recovered by any reader: two different exports produce the same text.

## Model

| member | source | states |
|---|---|---|
| `PyStrings.Split` | interview_assistant_enhanced.py:44 | `split` always returns at least one fragment, and the first fragment is a prefix of the input |
| `PyStrings.SplitJoin` | interview_assistant_enhanced.py:44 | joining the fragments with the separator gives back the original string exactly |
| `PyStrings.SplitFragmentsFree` | interview_assistant_enhanced.py:44 | no fragment contains the separator |
| `PyStrings.SplitCount` | interview_assistant_enhanced.py:44 | the number of fragments is the number of non-overlapping separator occurrences (`str.count`) plus one |
| `PyStrings.SplitSingleExactly` | interview_assistant_enhanced.py:44-48 | there are two or more fragments iff the separator occurs; otherwise the split is `[s]` |
| `PyStrings.SplitWithoutSeparator` | interview_assistant_enhanced.py:44-45 | a string without the separator splits into itself alone |
| `PyStrings.SplitAfterFragment` | interview_assistant_enhanced.py:44 | a separator-free head, then a non-self-overlapping separator, then a tail, splits into the head followed by the split of the tail |
| `PyStrings.SplitUnique` | interview_assistant_enhanced.py:44 | for a separator that cannot overlap itself (such as ". "), any list of separator-free parts that joins to `s` is exactly `s.split(sep)` |
| `PyStrings.SplitJoinReplace` | interview_assistant_enhanced.py:49 | joining the fragments with another string equals `s.replace(sep, other)` |
| `PyStrings.LStrip` | interview_assistant_enhanced.py:69 | the result is a suffix of the input; everything dropped is whitespace; the result does not start with whitespace |
| `PyStrings.RStrip` | interview_assistant_enhanced.py:69 | the result is a prefix of the input; everything dropped is whitespace; the result does not end with whitespace |
| `PyStrings.Strip` | interview_assistant_enhanced.py:69 | the result is a slice of the input with only whitespace around it, and neither end of it is whitespace |
| `PyStrings.StripUnique` | interview_assistant_enhanced.py:69 | any slice with only whitespace around it and no whitespace at its ends is what `strip()` returns |
| `PyStrings.StripIdempotent` | interview_assistant_enhanced.py:69 | stripping twice equals stripping once |
| `PyStrings.StripKeepsAbsent` | interview_assistant_enhanced.py:67-69 | stripping a string that does not contain a substring cannot make it appear |
| `PyStrings.LowerChar` | interview_assistant_enhanced.py:51 | A-Z move to a-z (code point + 32); every other character is unchanged; no upper-case ASCII letter remains |
| `PyStrings.AsciiLower` | interview_assistant_enhanced.py:51 | the length is kept, each character is lowered in place, and no upper-case ASCII letter remains |
| `Interview.SampleCount` | interview_assistant_enhanced.py:19-24 | the requested sample count is a whole number of seconds at 44100 Hz, equal to the slider's duration, between 2 and 15 seconds' worth |
| `Interview.ToneWords` | interview_assistant_enhanced.py:51 | `tone.lower()` for the four tone labels gives "professional", "conversational", "leadership" and "concise" |
| `Interview.ToneWordsSuffixFree` | interview_assistant_enhanced.py:17 | no lowercased tone word ends with another |
| `Interview.ToneHeadersPrefixFree` | interview_assistant_enhanced.py:77 | no "tone):" header line is a prefix of another |
| `Interview.Segment` | interview_assistant_enhanced.py:41-49 | simple mode passes the transcript through unchanged with no candidate line; in diarization mode the question is the first fragment of the split, so the `else full_text` fallback is never taken |
| `Interview.DiarizedQuestion` | interview_assistant_enhanced.py:44-47 | the question is a prefix of the transcript and holds no ". "; it is followed by ". " when the transcript has one, and it is the whole transcript otherwise |
| `Interview.DiarizedCandidate` | interview_assistant_enhanced.py:48-49 | a candidate line exists iff the transcript contains ". " (iff there are two or more fragments); it is the later fragments joined with " " in order, which equals the rest of the transcript after the question's ". " with every further ". " replaced by " " |
| `Interview.PromptTailsExclusive` | interview_assistant_enhanced.py:51 | a prompt can end in the tail of only one tone |
| `Interview.PromptRoundTrip` | interview_assistant_enhanced.py:51 | the prompt gives back the question verbatim and the tone, so distinct (question, tone) pairs give distinct prompts |
| `Interview.ParsePromptSound` | interview_assistant_enhanced.py:51 | every prompt the reader accepts is exactly the template filled with what it reads back |
| `Interview.TeleprompterLinesSpec` | interview_assistant_enhanced.py:67-69 | there is one line per fragment of `answer.split(". ")`, in order, i.e. the count of ". " plus one; each line is its fragment after `strip()`, has no whitespace at either end, and holds no ". " |
| `Interview.TeleprompterSingleLine` | interview_assistant_enhanced.py:67-69 | an answer without ". " is shown as a single stripped line |
| `Interview.ExportRoundTrip` | interview_assistant_enhanced.py:74-79 | the export text holds the question, then the tone inside the parentheses of the answer header, then the answer; reading it back recovers all three verbatim when the question does not contain the answer header |
| `Interview.ExportBodyRoundTrip` | interview_assistant_enhanced.py:75-78 | the part between the first line and the final line break reads back to question, tone and answer when the question does not contain the answer header |
| `Interview.ExportAmbiguous` | interview_assistant_enhanced.py:74-79 | a question that holds the answer header followed by a tone header (of any tone) exports to the same text as a shorter question with a longer answer |
| `Interview.RunScript` | interview_assistant_enhanced.py:41-79 | in one run, the question chosen by the segmentation is the one in the prompt, together with the chosen tone; simple mode asks the transcript itself; the teleprompter shows one more line than the answer has ". "; the exported text reads back to that question, the tone and the answer when the question does not contain the answer header |
| `InterviewScenarios.ThreeFragments` | interview_assistant_enhanced.py:44-49 | "Q. A. B" in diarization mode gives the question "Q" and the candidate "A B" |
| `InterviewScenarios.QuestionThenAnswer` | interview_assistant_enhanced.py:44-49 | "Tell me about yourself. I am a software engineer with five years of experience." gives the question "Tell me about yourself" and the candidate line with its final full stop kept |
| `InterviewScenarios.DefaultRecording` | interview_assistant_enhanced.py:20-24 | the default five-second recording requests 220500 samples |

## Left out

- The Streamlit page: widgets, titles, markdown, the HTML answer box, the buttons and the rerun behaviour (lines 13-17, 20, 22-23, 26, 32, 36-39, 46-47, 61-62, 65-66, 86). These are user interface. The mode radio and the tone select box become the datatypes `Mode` and `Tone`; the radio's label strings are not modelled.
- The display prefixes: "> " before each teleprompter line (line 69), and the "Interviewer" and "Candidate (you)" labels before the question and the candidate line (lines 47 and 49). These are display only; the question, the candidate text and the lines themselves are modelled.
- Audio capture with `sd.rec` and `sd.wait()`, the int16 samples, and the WAV file written with scipy into a temporary file (lines 24-30): these are device and file I/O in foreign libraries. Only the requested sample count is modelled.
- Loading Whisper and transcribing (lines 33-35): a foreign machine-learning call. `full_text` is an arbitrary input string.
- The chat-completion request with model "gpt-4", the fixed system message, and the indexing of the response (lines 52-59): a remote call. `answer` is an arbitrary input string.
- The API key lookup in `st.secrets` (line 11): configuration I/O.
- `time.sleep(scroll_speed)` and the floating-point scroll speed (lines 66, 70): timing only.
- Writing and re-reading `interview_qa_output.txt`, and the download button (lines 80-83): file I/O. Only the text built at lines 74-79 is modelled.
- PyStrings.Split: requires a non-empty separator. Python raises ValueError for an empty one, and the script only splits on the literal ". ". `Count` and `Replace` carry the same requirement; the script never calls them, they only state properties of the split.
- PyStrings.AsciiLower: lowers ASCII letters only, not the whole Unicode case mapping of Python's `str.lower()`. It is applied only to the four tone labels, which are ASCII.
- Interview.ExportRoundTrip: recovers the fields only for a question that does not contain the answer header. `ParseExport` cuts at the first header, so this is exactly what it recovers; `ExportAmbiguous` shows that a question holding the header followed by a tone header (of any tone) cannot be recovered by any reader.
- Interview.ExportBodyRoundTrip: the same condition, for the body between the first line and the final line break.
- Interview.RunScript: the export at lines 74-79 runs only after a second button press (line 73), which under Streamlit's rerun model happens in a later run of the script than the recording (line 22). `RunScript` assumes the export branch is taken in the same run.
