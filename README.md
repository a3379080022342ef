# Telemarketing conversation audit: the scorer and the dialog builder

This project models the two pieces of logic in `app.py` of the telemarketing
conversation audit app, and proves properties of them in Dafny.

- **The audit scorer** (`evaluate_audit`). It takes the free text that the
  language-model backend returns for the eight audit criteria.
  - It cuts the text at every `{`.
  - It classifies each piece by the literal markers `"Result": "Pass"`,
    `"Result": "Fail"` and `"Result": "Not Applicable"`, in that priority
    order.
  - It counts the pieces and keeps every Fail piece with its surrounding
    whitespace removed.
  - It returns the tuple (verdict, pass percentage, criteria counted,
    criteria passed, failed summary).
  - Any exception becomes the sentinel
    `("Error", 0, 0, 0, "Unexpected Error: <message>")`.
- **The dialog builder** (the loop in `process_json`). It turns the uploaded,
  already parsed transcripts into one string. Each segment of each
  transcript becomes a line `speaker : text` ended by a newline.

## Files

- `pystr.dfy` (module `PyStr`) holds the Python string operations the scorer
  uses:
  - `sub in s` (`Contains`);
  - `s.split(d)` for one character (`Split`), with empty pieces kept and
    `"".split(d) == [""]`;
  - `s.strip()` (`Strip`), using Python's whitespace set for `str`;
  - `sep.join(xs)` (`Join`).

  It also holds their laws: split and join are inverse, the number of pieces,
  strip's ends, and that stripping keeps occurrences.
- `audit.dfy` (module `Audit`) holds the scorer.
  - `EvaluateAudit` is the method as the program runs it: a loop over the
    pieces that updates four counters.
  - It is proved equal to the specification function `Evaluate`, which is
    `Conclude(Tally(Split(s, '{')))`.
  - `Tally` is the counters after the loop. `Conclude` is the
    percentage/verdict tail.
  - The lemmas state the scorer's promises in terms of the pieces carrying
    each marker (`PassBlocks`, `FailBlocks`, `NotApplicableBlocks`).
- `records.dfy` (module `Records`) describes responses made of well-formed
  records `{"Result": "<label>"}`, one per criterion. It proves that the
  scorer recovers the exact counts from such a response, and scores it
  accordingly. It also proves concrete scenarios: all pass, 5/2/1, the 50%
  boundary, and no pass.
- `dialog.dfy` (module `Dialog`) holds the dialog builder.
  - `BuildDialog` keeps the source's two nested loops, and is proved equal
    to the specification function `Dialog`.
  - `DialogLines` shows that splitting the dialog at newlines gives back
    exactly one line per segment, when no speaker or text holds a newline.

## Edge cases the code has

- **Every counted piece is Not Applicable.** The `total_criteria > 0` guard
  at `app.py:167` is evidently meant to avoid a division by zero, but it
  tests the total, not the denominator `total_criteria - NA_Criteria`. When
  every counted piece is Not Applicable, the division raises
  `ZeroDivisionError`, which is caught.
  The result is the sentinel `("Error", 0, 0, 0, "Unexpected Error: division by zero")`.
  `Conclude` models this, and `ScoreAllNotApplicable`, `EvaluateErrorIff` and
  `RenderScoreAllNotApplicable` state it.
- **Empty pieces.** Every piece is searched for the markers, empty ones
  included. An empty piece never holds a marker, so this changes no count.
- **Fail pieces are stored stripped** (`block.strip()`), not verbatim.

## Model

| member | source | states |
|---|---|---|
| PyStr.Contains | app.py:156 | Python's `sub in s`: some index holds an occurrence; `MissingCharNotContained` states that text lacking one of the pattern's characters does not contain it |
| PyStr.Split | app.py:152 | Python's `s.split("{")`; it always yields at least one piece, and `SplitPieces`, `SplitNoSeparator`, `SplitJoin` and `SplitAppend` state its contract |
| PyStr.Join | app.py:171 | Python's `"\n".join(xs)`; `JoinSplit`, `JoinEmpty` and `ContainsJoined` state its contract |
| PyStr.IsSpace | app.py:160 | the characters `str.strip()` removes: the code points Python's `str.isspace()` accepts |
| PyStr.Strip | app.py:160 | Python's `s.strip()`; `StripEnds`, `StripSurround`, `StripKeepsOccurrence` and `StripOccurrenceInSource` state its contract |
| PyStr.SplitPieces | app.py:152 | `s.split("{")` yields one piece more than `s` has `{` characters, and no piece contains `{` |
| PyStr.SplitNoSeparator | app.py:152 | a text without the separator splits into the one-element list holding that text, so empty input gives `[""]` |
| PyStr.SplitJoin | app.py:152 | joining the pieces back with the separator gives the original text: cutting loses nothing and reorders nothing |
| PyStr.JoinSplit | app.py:152 | for pieces free of the separator, splitting their join gives the same pieces back (the other direction of the round trip) |
| PyStr.SplitAppend | app.py:152 | the pieces of `a + "{" + b` are the pieces of `a` followed by the pieces of `b` |
| PyStr.SplitPieceInSource | app.py:152-156 | text found in a piece occurs in the response text, so no marker is created by cutting |
| PyStr.FirstPiecePrefix | app.py:152 | text before the first separator is the start of the first piece |
| PyStr.OccurrenceInPiece | app.py:152-156 | an occurrence of a non-empty text that holds no separator lies wholly inside one piece, so cutting at `{` never breaks a marker apart |
| PyStr.StripEnds | app.py:160 | `strip()` gives the empty string exactly when the text is all whitespace; otherwise the result neither starts nor ends with whitespace |
| PyStr.StripSurround | app.py:160 | the input is some whitespace, then the stripped string, then some whitespace: `strip()` removes only surrounding whitespace and keeps the middle intact |
| PyStr.StripKeepsOccurrence | app.py:159-160 | a non-empty text that neither starts nor ends with whitespace and occurs in a piece still occurs after `strip()`, so a stored Fail piece keeps its Fail marker |
| PyStr.StripOccurrenceInSource | app.py:159-160 | whatever occurs in the stripped piece occurred in the piece, so stripping cannot introduce a marker |
| PyStr.JoinEmpty | app.py:171 | with a non-empty separator, `"\n".join(xs)` is empty exactly when `xs` is empty or is a single empty string |
| PyStr.ContainsJoined | app.py:171 | text occurring in one entry occurs in the joined string |
| Audit.Count | app.py:156-164 | one loop step: the first marker found, in the order Pass, Fail, Not Applicable, decides which counters grow, and an unmarked piece changes none; `TallyStep` and `TallyByMarkers` state it over the whole loop |
| Audit.Conclude | app.py:167-173 | the percentage/verdict tail over the final counters, including the caught division by zero; `ConcludeMarked`, `PercentageFacts` and `ScoreAllNotApplicable` state its contract |
| Audit.Evaluate | app.py:139-175 | the scorer's result for every input; `EvaluateAudit` computes it, and the `Score...` lemmas and `EvaluateErrorIff` state its contract |
| Audit.Tally | app.py:146-164 | the counters after the loop: the total is passed + failed + not applicable, and is at most the number of pieces |
| Audit.EvaluateAudit | app.py:139-175 | the loop over the split pieces, with its four counters and the percentage/verdict tail, computes `Evaluate`; a non-string response gives the AttributeError sentinel |
| Audit.TallyByMarkers | app.py:155-164 | passed = the number of pieces with the Pass marker; failed = the pieces with the Fail marker but not the Pass marker, stripped and in order; NA = the pieces with only the Not Applicable marker; the total is the number of pieces minus those with no marker |
| Audit.TotalAtMostBraces | app.py:152-164 | the criteria counted are at most the number of `{` in the response plus one |
| Audit.PercentageFacts | app.py:167-168 | the percentage `passed / (passed + failed) * 100` lies in [0, 100]; it is at least 50 exactly when passed >= failed; no failures give 100, no passes give 0, a tie gives exactly 50 |
| Audit.ConcludeMarked | app.py:167-173 | with some Pass or Fail counted, the tail never errs; it returns the percentage above, Pass exactly when passed >= failed, the counts unchanged, and the failed entries joined by newlines |
| Audit.ScoreNoCriteria | app.py:167-168 | when no piece carries any marker, the result is Fail, 0%, 0 counted, 0 passed, and an empty summary |
| Audit.ScoreUnmarkedText | app.py:152-168 | a response that contains none of the three markers, the empty response included, scores Fail, 0%, 0, 0, "" |
| Audit.MarkerCounted | app.py:152-175 | a response in which one of the three markers occurs counts at least one criterion, or gives the all-Not-Applicable Error sentinel |
| Audit.MarkedTextCounts | app.py:152-175 | some criterion is counted, or the all-Not-Applicable Error occurs, exactly when one of the three markers occurs somewhere in the response (both directions) |
| Audit.ScoreWhitespaceText | app.py:152-168 | a whitespace-only response scores Fail, 0%, 0, 0, "" |
| Audit.ScoreAllNotApplicable | app.py:167-175 | when pieces carry only the Not Applicable marker, the division by zero is caught and the result is exactly the sentinel with message "division by zero" |
| Audit.ScoreMarked | app.py:152-173 | with p Pass and f Fail pieces (p + f > 0) and n Not Applicable pieces: the percentage is p/(p+f)*100 in [0, 100], the verdict is Pass iff p >= f, total = p + f + n, passed = p, and the summary is the stripped Fail pieces joined by newlines |
| Audit.EvaluateErrorIff | app.py:145-175 | the verdict is "Error" exactly when the response is not a string, or when no piece is Pass or Fail but some piece is Not Applicable |
| Audit.FailedEntriesMarked | app.py:156-160 | every entry of the failed summary still carries the Fail marker and never the Pass marker, so a piece holding both markers is counted as Pass |
| Audit.FailedSummaryEmptyIff | app.py:156-171 | outside the error case, the failed summary is empty exactly when no piece was classified Fail |
| Records.RecordBodyMarkers | app.py:156-164 | the text after `{` in a record `{"Result": "<label>"}` is classified by its own label and no other, and `strip()` leaves it unchanged |
| Records.SplitRender | app.py:152 | splitting a sequence of records at `{` gives an empty leading piece, then each record's body in order |
| Records.FilterRecords | app.py:155-164 | among those pieces, the Pass pieces are exactly the Pass record bodies, the Fail pieces exactly the Fail bodies, and the Not Applicable pieces exactly the Not Applicable bodies |
| Records.RenderBlocks | app.py:152-164 | for a response of records, the number of pieces of each category equals the number of criteria with that result, and the stored Fail pieces are the Fail records' bodies |
| Records.RenderScoreMarked | app.py:152-168 | for records with p Pass and f Fail (p + f > 0), the percentage is p/(p+f)*100 and the verdict is Pass exactly when p >= f |
| Records.RenderCountsMarked | app.py:152-173 | for the same records, the criteria counted are all of them, the passed count is p, and the summary is the f Fail bodies joined by newlines |
| Records.RenderScoreAllNotApplicable | app.py:152-175 | records that are all Not Applicable (at least one) give the division-by-zero Error sentinel |
| Records.AllPassRecords | app.py:152-173 | n >= 1 Pass records score exactly ("Pass", 100, n, n, "") |
| Records.FivePassTwoFailOneNotApplicable | app.py:152-168 | 5 Pass, 2 Fail and 1 Not Applicable record score Pass at 500/7 % (about 71.43), with 8 counted and 5 passed |
| Records.BoundaryIsPass | app.py:167-168 | as many Pass as Fail records scores exactly 50% and the verdict Pass: the boundary is inclusive |
| Records.NoPassIsZero | app.py:167-168 | Fail records and no Pass record score 0% and Fail, with 0 passed |
| Dialog.Dialog | app.py:74-77 | the dialog text: every segment's line in order, each ended by a newline; `BuildDialog` computes it and `DialogLines` states its contract |
| Dialog.BuildDialog | app.py:74-77 | the two nested loops appending `speaker + " : " + text + "\n"` compute `Dialog`: every line, in transcript order then segment order, each followed by a newline |
| Dialog.SplitTerminated | app.py:77 | newline-free lines, each followed by a newline and then a newline-free rest, split at newlines back into those lines then the rest |
| Dialog.DialogLines | app.py:74-77 | when no speaker or text holds a newline, the dialog splits at newlines into exactly the segment lines followed by one empty piece, and it holds exactly one newline per segment |

## Left out

- `is_server_running`, `start_server`, `stop_server` and the `atexit` registration (app.py:20-58) are left out. They are TCP probes, a subprocess, a wall-clock poll and a SIGTERM, none of them logic over data.
- `run_audit`, `stop_audit` and `run_audit_with_progress` (app.py:82-137) are left out: asynchronous HTTP calls to the backend, and a simulated progress bar with sleeps.
- The Streamlit page, buttons, prompt text and result display (app.py:15, 61-64, 78-79, 177-248) are left out as presentation.
- `json.load` (app.py:73) is left out.
  - The dialog builder starts from already parsed transcripts.
  - Speakers and texts are modelled as strings. A JSON number or null formatted by the f-string is not modelled.
  - A missing `transcripts` or `segments` key (a `KeyError`) is not modelled.
- `CS.py` is not part of this model. It is a one-off script with a hard-coded file path and an HTTP call, and its dialog loop is the same as `app.py:74-77`.
- Audit.Conclude: the percentage is an exact real number. Python's floating-point rounding of `passed / denominator * 100` is not modelled, so the 50% comparison is exact here.
- Audit.EvaluateAudit: a non-string response is modelled only as a value without a `split` method.
  - The exception message used is Python's AttributeError text, `'<type>' object has no attribute 'split'`.
  - Other exception kinds are not modelled, because the other steps cannot raise for a string input.
- Dialog.DialogLines requires that speakers have no newline as well as texts. A newline in either adds a line, so the count of newline-ended lines equals the number of segments only under that condition.
- Strings are sequences of Dafny `char`, which are Unicode scalar values. A Python `str` can also hold lone surrogates (U+D800 to U+DFFF, for example from the JSON escape `"\ud800"`). `split`, `strip` and `in` treat those like any other non-whitespace character, so the model omits them.
