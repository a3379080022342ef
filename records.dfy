/**
 * Responses made of well-formed records `{"Result": "<label>"}`, one per
 * criterion: the scorer recovers exactly how many criteria passed, failed
 * and were not applicable, and scores them accordingly.
 */
module Records {
  import opened PyStr
  import opened Audit

  /** A criterion's result as the backend is asked to write it. */
  datatype Criterion = Met | NotMet | Inapplicable

  function Label(c: Criterion): string
  {
    match c
    case Met => "Pass"
    case NotMet => "Fail"
    case Inapplicable => "Not Applicable"
  }

  /** What follows the `{` of one record. */
  function RecordBody(c: Criterion): string
  {
    "\"Result\": \"" + Label(c) + "\"}"
  }

  function Bodies(cs: seq<Criterion>): seq<string>
  {
    seq(|cs|, k requires 0 <= k < |cs| => RecordBody(cs[k]))
  }

  /** `n` records of the same result, one after another. */
  function Copies(n: nat, c: Criterion): seq<string>
  {
    seq(n, _ => RecordBody(c))
  }

  /** Each body preceded by `{`, one after another. */
  function Braced(bodies: seq<string>): string
  {
    if bodies == [] then "" else "{" + bodies[0] + Braced(bodies[1..])
  }

  /** The response text for a sequence of criteria, one record after another. */
  function Render(cs: seq<Criterion>): string
  {
    Braced(Bodies(cs))
  }

  /** `n` criteria with the same result. */
  function Uniform(n: nat, c: Criterion): seq<Criterion>
  {
    seq(n, _ => c)
  }

  function CountOf(cs: seq<Criterion>, c: Criterion): nat
  {
    if cs == [] then 0
    else CountOf(cs[..|cs| - 1], c) + (if cs[|cs| - 1] == c then 1 else 0)
  }

  lemma {:induction false} CountsPartition(cs: seq<Criterion>)
    ensures CountOf(cs, Met) + CountOf(cs, NotMet) + CountOf(cs, Inapplicable) == |cs|
  {
    if cs != [] {
      CountsPartition(cs[..|cs| - 1]);
    }
  }

  lemma BodyHasNoBrace(c: Criterion)
    ensures BlockDelimiter !in RecordBody(c)
  {
  }

  lemma PassBody()
    ensures IsPassBlock(RecordBody(Met))
  {
    assert OccursAt(RecordBody(Met), PassMarker, 0);
  }

  /** Only a Pass record mentions the Pass marker: the other two have no `P` at all. */
  lemma NoPassMarker(c: Criterion)
    requires c != Met
    ensures !Contains(RecordBody(c), PassMarker)
  {
    assert PassMarker[11] == 'P';
    assert 'P' !in RecordBody(c);
    MissingCharNotContained(RecordBody(c), PassMarker, 11);
  }

  /** A Not Applicable record has no `F`, so no Fail marker. */
  lemma NoFailMarker()
    ensures !Contains(RecordBody(Inapplicable), FailMarker)
  {
    assert FailMarker[11] == 'F';
    assert 'F' !in RecordBody(Inapplicable);
    MissingCharNotContained(RecordBody(Inapplicable), FailMarker, 11);
  }

  lemma FailBody()
    ensures IsFailBlock(RecordBody(NotMet))
  {
    NoPassMarker(NotMet);
    assert OccursAt(RecordBody(NotMet), FailMarker, 0);
  }

  lemma NotApplicableBody()
    ensures IsNotApplicableBlock(RecordBody(Inapplicable))
  {
    NoPassMarker(Inapplicable);
    NoFailMarker();
    assert OccursAt(RecordBody(Inapplicable), NotApplicableMarker, 0);
  }

  lemma BodyIsStripped(c: Criterion)
    ensures Strip(RecordBody(c)) == RecordBody(c)
  {
    var body := RecordBody(c);
    assert LeadingSpaces(body) == 0;
    assert TrailingSpaces(body) == 0;
  }

  /** Each record body carries its own marker and no marker of higher priority, and has no surrounding whitespace. */
  lemma RecordBodyMarkers(c: Criterion)
    ensures IsPassBlock(RecordBody(c)) <==> c == Met
    ensures IsFailBlock(RecordBody(c)) <==> c == NotMet
    ensures IsNotApplicableBlock(RecordBody(c)) <==> c == Inapplicable
    ensures Strip(RecordBody(c)) == RecordBody(c)
  {
    match c {
      case Met => PassBody();
      case NotMet => FailBody();
      case Inapplicable => NotApplicableBody();
    }
    BodyIsStripped(c);
  }

  /** Splitting braced bodies at `{` gives back the bodies, after the text before the first brace. */
  lemma {:induction false} SplitBraced(p: string, bodies: seq<string>)
    requires BlockDelimiter !in p
    requires forall k :: 0 <= k < |bodies| ==> BlockDelimiter !in bodies[k]
    ensures Split(p + Braced(bodies), BlockDelimiter) == [p] + bodies
    decreases |bodies|
  {
    SplitNoSeparator(p, BlockDelimiter);
    if bodies == [] {
      assert p + Braced(bodies) == p;
    } else {
      var rest := Braced(bodies[1..]);
      assert Split(p + Braced(bodies), BlockDelimiter) == [p] + Split(bodies[0] + rest, BlockDelimiter) by {
        assert p + Braced(bodies) == p + [BlockDelimiter] + (bodies[0] + rest);
        SplitAppend(p, bodies[0] + rest, BlockDelimiter);
      }
      SplitBraced(bodies[0], bodies[1..]);
      assert bodies == [bodies[0]] + bodies[1..];
    }
  }

  /** Splitting a rendered response at `{` gives back the record bodies, after an empty first block. */
  lemma SplitRender(cs: seq<Criterion>)
    ensures Split(Render(cs), BlockDelimiter) == [""] + Bodies(cs)
  {
    forall k | 0 <= k < |cs| ensures BlockDelimiter !in Bodies(cs)[k] {
      BodyHasNoBrace(cs[k]);
    }
    SplitBraced("", Bodies(cs));
    assert "" + Render(cs) == Render(cs);
  }

  lemma BodiesAppend(cs: seq<Criterion>)
    requires cs != []
    ensures Bodies(cs) == Bodies(cs[..|cs| - 1]) + [RecordBody(cs[|cs| - 1])]
  {
  }

  /** Every Fail record is already stripped. */
  lemma StripCopies(n: nat)
    ensures StripAll(Copies(n, NotMet)) == Copies(n, NotMet)
  {
    BodyIsStripped(NotMet);
  }

  /**
   * A test that rejects the empty first block and accepts exactly the
   * records of one result keeps those records and nothing else.
   */
  lemma {:induction false} FilterBodies(cs: seq<Criterion>, c: Criterion, keep: string -> bool)
    requires !keep("")
    requires forall x: Criterion :: keep(RecordBody(x)) <==> x == c
    ensures Filter([""] + Bodies(cs), keep) == Copies(CountOf(cs, c), c)
  {
    if cs == [] {
      assert [""] + Bodies(cs) == [] + [""];
      FilterAppend([], "", keep);
    } else {
      var init := cs[..|cs| - 1];
      var last := cs[|cs| - 1];
      var prev := [""] + Bodies(init);
      var body := RecordBody(last);
      assert [""] + Bodies(cs) == prev + [body] by {
        BodiesAppend(cs);
      }
      FilterBodies(init, c, keep);
      FilterAppend(prev, body, keep);
      var n := CountOf(init, c);
      if last == c {
        assert Copies(n + 1, c) == Copies(n, c) + [RecordBody(c)];
      }
    }
  }

  /** The blocks of a rendered response, sorted by marker, are the records by result. */
  lemma FilterRecords(cs: seq<Criterion>)
    ensures Filter([""] + Bodies(cs), IsPassBlock) == Copies(CountOf(cs, Met), Met)
    ensures Filter([""] + Bodies(cs), IsFailBlock) == Copies(CountOf(cs, NotMet), NotMet)
    ensures Filter([""] + Bodies(cs), IsNotApplicableBlock) == Copies(CountOf(cs, Inapplicable), Inapplicable)
  {
    forall x: Criterion
      ensures IsPassBlock(RecordBody(x)) <==> x == Met
      ensures IsFailBlock(RecordBody(x)) <==> x == NotMet
      ensures IsNotApplicableBlock(RecordBody(x)) <==> x == Inapplicable
    {
      RecordBodyMarkers(x);
    }
    assert !Contains("", PassMarker) && !Contains("", FailMarker) && !Contains("", NotApplicableMarker);
    FilterBodies(cs, Met, IsPassBlock);
    FilterBodies(cs, NotMet, IsFailBlock);
    FilterBodies(cs, Inapplicable, IsNotApplicableBlock);
  }

  /** The blocks of a rendered response by category, counted. */
  lemma RenderBlocks(cs: seq<Criterion>)
    ensures |PassBlocks(Render(cs))| == CountOf(cs, Met)
    ensures |FailBlocks(Render(cs))| == CountOf(cs, NotMet)
    ensures |NotApplicableBlocks(Render(cs))| == CountOf(cs, Inapplicable)
    ensures StripAll(FailBlocks(Render(cs))) == Copies(CountOf(cs, NotMet), NotMet)
  {
    SplitRender(cs);
    FilterRecords(cs);
    StripCopies(CountOf(cs, NotMet));
  }

  /**
   * Scoring a rendered response with some Pass or Fail record: the
   * percentage is Pass over Pass-plus-Fail records, and the verdict is Pass
   * exactly when Pass records are at least as many as Fail records.
   */
  lemma RenderScoreMarked(cs: seq<Criterion>)
    requires CountOf(cs, Met) + CountOf(cs, NotMet) > 0
    ensures var r, p, f := Evaluate(Text(Render(cs))), CountOf(cs, Met), CountOf(cs, NotMet);
      && r.overall == (if p >= f then Pass else Fail)
      && r.percentage == Percentage(p, f)
  {
    RenderBlocks(cs);
    ScoreMarked(Render(cs));
  }

  /**
   * In the same case the total is the number of records, the passed count
   * the number of Pass records, and the summary one Fail record per line.
   */
  lemma RenderCountsMarked(cs: seq<Criterion>)
    requires CountOf(cs, Met) + CountOf(cs, NotMet) > 0
    ensures var r := Evaluate(Text(Render(cs)));
      && r.total == |cs|
      && r.passed == CountOf(cs, Met)
      && r.failedSummary == Join(Copies(CountOf(cs, NotMet), NotMet), "\n")
  {
    RenderBlocks(cs);
    CountsPartition(cs);
    ScoreMarked(Render(cs));
  }

  /** Records that are all Not Applicable: the error sentinel. */
  lemma RenderScoreAllNotApplicable(cs: seq<Criterion>)
    requires CountOf(cs, Met) + CountOf(cs, NotMet) == 0 < CountOf(cs, Inapplicable)
    ensures Evaluate(Text(Render(cs))) == ErrorSummary(DivisionByZero)
  {
    RenderBlocks(cs);
    ScoreAllNotApplicable(Render(cs));
  }

  lemma {:induction false} CountOfRepeat(n: nat, x: Criterion, c: Criterion)
    ensures CountOf(Uniform(n, x), c) == if x == c then n else 0
  {
    if n > 0 {
      assert Uniform(n, x)[..n - 1] == Uniform(n - 1, x);
      CountOfRepeat(n - 1, x, c);
    }
  }

  /** N well-formed Pass records, N at least one: 100% and Pass. */
  lemma AllPassRecords(n: nat)
    requires n >= 1
    ensures Evaluate(Text(Render(Uniform(n, Met)))) == AuditSummary(Pass, 100.0, n, n, "")
  {
    var cs := Uniform(n, Met);
    CountOfRepeat(n, Met, Met);
    CountOfRepeat(n, Met, NotMet);
    RenderScoreMarked(cs);
    RenderCountsMarked(cs);
    PercentageFacts(n, 0);
    assert Copies(0, NotMet) == [];
  }

  /** Five Pass, two Fail and one Not Applicable record, in any order: 5/7 of 100 and Pass. */
  lemma FivePassTwoFailOneNotApplicable(cs: seq<Criterion>)
    requires CountOf(cs, Met) == 5 && CountOf(cs, NotMet) == 2 && CountOf(cs, Inapplicable) == 1
    ensures Evaluate(Text(Render(cs))).overall == Pass
    ensures Evaluate(Text(Render(cs))).percentage == 500.0 / 7.0
    ensures Evaluate(Text(Render(cs))).total == 8
    ensures Evaluate(Text(Render(cs))).passed == 5
  {
    RenderScoreMarked(cs);
    RenderCountsMarked(cs);
    CountsPartition(cs);
    assert Percentage(5, 2) == 500.0 / 7.0;
  }

  /** As many Pass as Fail records, say one each beside two Not Applicable: exactly 50%, which is a Pass. */
  lemma BoundaryIsPass(cs: seq<Criterion>)
    requires CountOf(cs, Met) == CountOf(cs, NotMet) > 0
    ensures Evaluate(Text(Render(cs))).overall == Pass
    ensures Evaluate(Text(Render(cs))).percentage == 50.0
  {
    RenderScoreMarked(cs);
    PercentageFacts(CountOf(cs, Met), CountOf(cs, NotMet));
  }

  /** Fail records but no Pass record, say one Fail beside two Not Applicable: 0% and Fail. */
  lemma NoPassIsZero(cs: seq<Criterion>)
    requires CountOf(cs, Met) == 0 < CountOf(cs, NotMet)
    ensures Evaluate(Text(Render(cs))).overall == Fail
    ensures Evaluate(Text(Render(cs))).percentage == 0.0
    ensures Evaluate(Text(Render(cs))).passed == 0
  {
    RenderScoreMarked(cs);
    RenderCountsMarked(cs);
    PercentageFacts(0, CountOf(cs, NotMet));
  }
}
