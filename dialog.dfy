/**
 * Linearising an uploaded conversation: every segment of every transcript
 * becomes one line `speaker : text`, in order, each ended by a newline.
 * The transcripts arrive already parsed from JSON.
 */
module Dialog {
  import opened PyStr

  /** One entry of a transcript's `segments` list. */
  datatype Segment = Segment(speaker: string, text: string)

  /** The line a segment contributes, without its newline. */
  function Line(segment: Segment): string
  {
    segment.speaker + " : " + segment.text
  }

  function SegmentLines(segments: seq<Segment>): seq<string>
  {
    seq(|segments|, k requires 0 <= k < |segments| => Line(segments[k]))
  }

  /** The lines of all segments, transcript by transcript, in order. */
  function Lines(transcripts: seq<seq<Segment>>): seq<string>
  {
    if transcripts == [] then []
    else Lines(transcripts[..|transcripts| - 1]) + SegmentLines(transcripts[|transcripts| - 1])
  }

  /** Each line followed by a newline, one after another. */
  function Terminated(lines: seq<string>): string
  {
    if lines == [] then ""
    else Terminated(lines[..|lines| - 1]) + lines[|lines| - 1] + "\n"
  }

  /** The dialog text built from the transcripts. */
  function Dialog(transcripts: seq<seq<Segment>>): string
  {
    Terminated(Lines(transcripts))
  }

  function SegmentCount(transcripts: seq<seq<Segment>>): nat
  {
    if transcripts == [] then 0
    else SegmentCount(transcripts[..|transcripts| - 1]) + |transcripts[|transcripts| - 1]|
  }

  /** No speaker and no text contains a line break. */
  predicate SingleLineSegments(transcripts: seq<seq<Segment>>)
  {
    forall i, j :: 0 <= i < |transcripts| && 0 <= j < |transcripts[i]| ==>
      '\n' !in transcripts[i][j].speaker && '\n' !in transcripts[i][j].text
  }

  /** The dialog as the program builds it: appending one line per segment in two nested loops. */
  method BuildDialog(transcripts: seq<seq<Segment>>) returns (dialog: string)
    ensures dialog == Dialog(transcripts)
  {
    dialog := "";
    var i := 0;
    while i < |transcripts|
      invariant 0 <= i <= |transcripts|
      invariant dialog == Terminated(Lines(transcripts[..i]))
    {
      var segments := transcripts[i];
      ghost var done := Lines(transcripts[..i]);
      var j := 0;
      assert done + SegmentLines(segments[..j]) == done;
      while j < |segments|
        invariant 0 <= j <= |segments|
        invariant dialog == Terminated(done + SegmentLines(segments[..j]))
      {
        var segment := segments[j];
        NextSegment(done, segments, j);
        dialog := dialog + segment.speaker + " : " + segment.text + "\n";
        j := j + 1;
      }
      NextTranscript(transcripts, i);
      assert segments[..j] == segments;
      i := i + 1;
    }
    assert transcripts[..i] == transcripts;
  }

  lemma NextTranscript(transcripts: seq<seq<Segment>>, i: nat)
    requires i < |transcripts|
    ensures Lines(transcripts[..i + 1]) == Lines(transcripts[..i]) + SegmentLines(transcripts[i])
  {
    assert transcripts[..i + 1][..i] == transcripts[..i];
  }

  /** Appending the line of segment `j` extends the text built so far by that line and a newline. */
  lemma NextSegment(done: seq<string>, segments: seq<Segment>, j: nat)
    requires j < |segments|
    ensures Terminated(done + SegmentLines(segments[..j + 1]))
         == Terminated(done + SegmentLines(segments[..j])) + segments[j].speaker + " : " + segments[j].text + "\n"
  {
    var before := done + SegmentLines(segments[..j]);
    assert done + SegmentLines(segments[..j + 1]) == before + [Line(segments[j])] by {
      assert SegmentLines(segments[..j + 1]) == SegmentLines(segments[..j]) + [Line(segments[j])];
    }
    TerminatedAppend(before, Line(segments[j]));
    var t := Terminated(before);
    assert t + Line(segments[j]) + "\n" == t + segments[j].speaker + " : " + segments[j].text + "\n";
  }

  lemma TerminatedAppend(lines: seq<string>, line: string)
    ensures Terminated(lines + [line]) == Terminated(lines) + line + "\n"
  {
    assert (lines + [line])[..|lines|] == lines;
  }

  /** Every line of single-line segments is free of line breaks. */
  lemma {:induction false} LinesAreSingle(transcripts: seq<seq<Segment>>)
    requires SingleLineSegments(transcripts)
    ensures forall k :: 0 <= k < |Lines(transcripts)| ==> '\n' !in Lines(transcripts)[k]
    ensures |Lines(transcripts)| == SegmentCount(transcripts)
  {
    if transcripts != [] {
      var init := transcripts[..|transcripts| - 1];
      var segments := transcripts[|transcripts| - 1];
      assert SingleLineSegments(init) by {
        forall i, j | 0 <= i < |init| && 0 <= j < |init[i]|
          ensures '\n' !in init[i][j].speaker && '\n' !in init[i][j].text
        {
          assert init[i] == transcripts[i];
        }
      }
      LinesAreSingle(init);
      forall k | 0 <= k < |segments| ensures '\n' !in Line(segments[k]) {
        assert segments == transcripts[|transcripts| - 1];
      }
    }
  }

  /** Splitting terminated lines, followed by a last partial line, at newlines gives the lines back. */
  lemma {:induction false} SplitTerminated(lines: seq<string>, rest: string)
    requires forall k :: 0 <= k < |lines| ==> '\n' !in lines[k]
    requires '\n' !in rest
    ensures Split(Terminated(lines) + rest, '\n') == lines + [rest]
    decreases |lines|
  {
    if lines == [] {
      assert Terminated(lines) + rest == rest;
      SplitNoSeparator(rest, '\n');
    } else {
      var init := lines[..|lines| - 1];
      var last := lines[|lines| - 1];
      var front := Terminated(init) + last;
      assert Terminated(lines) + rest == front + ['\n'] + rest by {
        assert Terminated(lines) == front + "\n";
      }
      assert Split(front + ['\n'] + rest, '\n') == Split(front, '\n') + Split(rest, '\n') by {
        SplitAppend(front, rest, '\n');
      }
      assert Split(front, '\n') == init + [last] by {
        SplitTerminated(init, last);
      }
      SplitNoSeparator(rest, '\n');
      assert lines == init + [last];
    }
  }

  /**
   * When no speaker or text holds a line break, the dialog's lines are
   * exactly the segments' `speaker : text` lines in order, each ended by a
   * newline, so it has as many newlines as there are segments.
   */
  lemma DialogLines(transcripts: seq<seq<Segment>>)
    requires SingleLineSegments(transcripts)
    ensures Split(Dialog(transcripts), '\n') == Lines(transcripts) + [""]
    ensures multiset(Dialog(transcripts))['\n'] == SegmentCount(transcripts)
  {
    LinesAreSingle(transcripts);
    SplitTerminated(Lines(transcripts), "");
    assert Terminated(Lines(transcripts)) + "" == Dialog(transcripts);
    SplitPieces(Dialog(transcripts), '\n');
  }
}
