/**
 * The audit scorer: the free text returned by the generation backend is cut
 * at every `{` into blocks, each block is classified by the `"Result"` marker
 * it contains, and the counts become a pass percentage and a verdict.
 */
module Audit {
  import opened PyStr

  const PassMarker: string := "\"Result\": \"Pass\""
  const FailMarker: string := "\"Result\": \"Fail\""
  const NotApplicableMarker: string := "\"Result\": \"Not Applicable\""

  /** The character the response text is cut at. */
  const BlockDelimiter: char := '{'

  /** Python's message for `ZeroDivisionError` on `int / int`. */
  const DivisionByZero: string := "division by zero"

  /**
   * What the scorer is handed: normally a string, but the backend's JSON
   * `response` field may hold any JSON value (a list, a number, null, ...),
   * which Python's `split` then rejects; `typeName` is that value's Python
   * type name (`list`, `int`, `NoneType`, ...), never `str`, since a
   * string response is `Text`.
   */
  datatype AuditInput = Text(s: string) | NonText(typeName: string)

  datatype Verdict = Pass | Fail | Error

  /** The tuple (overall_result, pass_percentage, total_criteria, passed_criteria, failed_summary). */
  datatype AuditSummary = AuditSummary(
    overall: Verdict,
    percentage: real,
    total: int,
    passed: int,
    failedSummary: string)

  /** The loop's counters; `failed` holds the stripped Fail blocks in order. */
  datatype Counters = Counters(passed: nat, failed: seq<string>, total: nat, notApplicable: nat)

  /** The sentinel every caught exception is turned into. */
  function ErrorSummary(message: string): AuditSummary
  {
    AuditSummary(Error, 0.0, 0, 0, "Unexpected Error: " + message)
  }

  /** Python's `AttributeError` message for calling `split` on a non-string. */
  function NoSplitMessage(typeName: string): string
  {
    "'" + typeName + "' object has no attribute 'split'"
  }

  // Classification of one block, by marker, Pass taking priority over Fail
  // and Fail over Not Applicable.

  predicate IsPassBlock(block: string)
  {
    Contains(block, PassMarker)
  }

  predicate IsFailBlock(block: string)
  {
    !Contains(block, PassMarker) && Contains(block, FailMarker)
  }

  predicate IsNotApplicableBlock(block: string)
  {
    !Contains(block, PassMarker) && !Contains(block, FailMarker) && Contains(block, NotApplicableMarker)
  }

  predicate IsUnmarkedBlock(block: string)
  {
    !Contains(block, PassMarker) && !Contains(block, FailMarker) && !Contains(block, NotApplicableMarker)
  }

  /** The blocks that `keep` accepts, in their original order. */
  function Filter(blocks: seq<string>, keep: string -> bool): seq<string>
  {
    if blocks == [] then []
    else
      var last := blocks[|blocks| - 1];
      Filter(blocks[..|blocks| - 1], keep) + (if keep(last) then [last] else [])
  }

  /** Filtering one more block adds that block at the end, when it passes the test. */
  lemma FilterAppend(blocks: seq<string>, x: string, keep: string -> bool)
    ensures Filter(blocks + [x], keep) == Filter(blocks, keep) + (if keep(x) then [x] else [])
  {
    assert (blocks + [x])[..|blocks|] == blocks;
  }

  /** A test that no block passes keeps nothing. */
  lemma {:induction false} FilterNone(blocks: seq<string>, keep: string -> bool)
    requires forall k :: 0 <= k < |blocks| ==> !keep(blocks[k])
    ensures Filter(blocks, keep) == []
  {
    if blocks != [] {
      FilterNone(blocks[..|blocks| - 1], keep);
    }
  }

  function StripAll(xs: seq<string>): seq<string>
  {
    seq(|xs|, k requires 0 <= k < |xs| => Strip(xs[k]))
  }

  /**
   * The counters after the loop has seen `blocks`, one block at a time.
   * Every counted block is counted exactly once, so the total is the sum of
   * the three categories and never exceeds the number of blocks.
   */
  function Tally(blocks: seq<string>): (c: Counters)
    ensures c.total == c.passed + |c.failed| + c.notApplicable
    ensures c.total <= |blocks|
  {
    if blocks == [] then Counters(0, [], 0, 0)
    else Count(Tally(blocks[..|blocks| - 1]), blocks[|blocks| - 1])
  }

  /** What one block does to the counters: the first marker found, in the order Pass, Fail, Not Applicable, decides. */
  function Count(c: Counters, block: string): Counters
  {
    if Contains(block, PassMarker) then
      c.(passed := c.passed + 1, total := c.total + 1)
    else if Contains(block, FailMarker) then
      c.(failed := c.failed + [Strip(block)], total := c.total + 1)
    else if Contains(block, NotApplicableMarker) then
      c.(total := c.total + 1, notApplicable := c.notApplicable + 1)
    else c
  }

  lemma TallyStep(blocks: seq<string>, i: nat)
    requires i < |blocks|
    ensures Tally(blocks[..i + 1]) == Count(Tally(blocks[..i]), blocks[i])
  {
    assert blocks[..i + 1][..i] == blocks[..i];
  }

  /**
   * The percentage and verdict computed from the final counters. When some
   * block was counted but all counted blocks are Not Applicable, the guard
   * `total > 0` lets the division by zero happen and the exception handler
   * returns the error sentinel.
   */
  function Conclude(c: Counters): AuditSummary
  {
    if c.total > 0 && c.total - c.notApplicable == 0 then ErrorSummary(DivisionByZero)
    else
      var percentage: real :=
        if c.total > 0 then (c.passed as real / (c.total - c.notApplicable) as real) * 100.0 else 0.0;
      AuditSummary(if percentage >= 50.0 then Pass else Fail,
                   percentage, c.total, c.passed, Join(c.failed, "\n"))
  }

  /** The scorer's result for every input. */
  function Evaluate(auditResult: AuditInput): AuditSummary
  {
    match auditResult
    case NonText(typeName) => ErrorSummary(NoSplitMessage(typeName))
    case Text(s) => Conclude(Tally(Split(s, BlockDelimiter)))
  }

  /** The scorer as the program runs it: one pass over the blocks, updating counters. */
  method EvaluateAudit(auditResult: AuditInput) returns (r: AuditSummary)
    ensures r == Evaluate(auditResult)
  {
    if auditResult.NonText? {
      return ErrorSummary(NoSplitMessage(auditResult.typeName));
    }
    var passed: nat, failed: seq<string>, total: nat, notApplicable: nat := 0, [], 0, 0;
    var blocks := Split(auditResult.s, BlockDelimiter);
    var i := 0;
    while i < |blocks|
      invariant 0 <= i <= |blocks|
      invariant Tally(blocks[..i]) == Counters(passed, failed, total, notApplicable)
    {
      var block := blocks[i];
      TallyStep(blocks, i);
      if Contains(block, PassMarker) {
        passed := passed + 1;
        total := total + 1;
      } else if Contains(block, FailMarker) {
        failed := failed + [Strip(block)];
        total := total + 1;
      } else if Contains(block, NotApplicableMarker) {
        total := total + 1;
        notApplicable := notApplicable + 1;
      }
      i := i + 1;
    }
    assert blocks[..i] == blocks;
    r := Conclude(Counters(passed, failed, total, notApplicable));
  }

  // The blocks of a response text, by category.

  function PassBlocks(s: string): seq<string>
  {
    Filter(Split(s, BlockDelimiter), IsPassBlock)
  }

  function FailBlocks(s: string): seq<string>
  {
    Filter(Split(s, BlockDelimiter), IsFailBlock)
  }

  function NotApplicableBlocks(s: string): seq<string>
  {
    Filter(Split(s, BlockDelimiter), IsNotApplicableBlock)
  }

  /**
   * The counters count blocks by marker: passed counts the blocks with the
   * Pass marker, failed lists the stripped blocks with the Fail marker but
   * not the Pass marker, and a block with none of the three markers changes
   * no counter.
   */
  lemma {:induction false} TallyByMarkers(blocks: seq<string>)
    ensures Tally(blocks).passed == |Filter(blocks, IsPassBlock)|
    ensures Tally(blocks).failed == StripAll(Filter(blocks, IsFailBlock))
    ensures Tally(blocks).notApplicable == |Filter(blocks, IsNotApplicableBlock)|
    ensures Tally(blocks).total == |blocks| - |Filter(blocks, IsUnmarkedBlock)|
  {
    if blocks != [] {
      var init := blocks[..|blocks| - 1];
      var last := blocks[|blocks| - 1];
      TallyByMarkers(init);
      FilterShrinks(init, IsUnmarkedBlock);
      var fails := Filter(init, IsFailBlock);
      if IsPassBlock(last) {
        assert Tally(blocks) == Tally(init).(passed := Tally(init).passed + 1, total := Tally(init).total + 1);
      } else if IsFailBlock(last) {
        assert StripAll(fails + [last]) == StripAll(fails) + [Strip(last)];
      } else if IsNotApplicableBlock(last) {
      } else {
        assert IsUnmarkedBlock(last);
      }
    }
  }

  lemma {:induction false} FilterShrinks(blocks: seq<string>, keep: string -> bool)
    ensures |Filter(blocks, keep)| <= |blocks|
  {
    if blocks != [] {
      FilterShrinks(blocks[..|blocks| - 1], keep);
    }
  }

  /** A test that rejects some block keeps fewer blocks than there are. */
  lemma {:induction false} FilterDrops(blocks: seq<string>, keep: string -> bool, k: nat)
    requires k < |blocks| && !keep(blocks[k])
    ensures |Filter(blocks, keep)| < |blocks|
  {
    var init := blocks[..|blocks| - 1];
    if k == |blocks| - 1 {
      FilterShrinks(init, keep);
    } else {
      assert init[k] == blocks[k];
      FilterDrops(init, keep, k);
    }
  }

  /** Passed among passed-or-failed, as a percentage, computed exactly. */
  function Percentage(passed: nat, failed: nat): real
    requires passed + failed > 0
  {
    (passed as real / (passed + failed) as real) * 100.0
  }

  /** Multiplying by a positive number keeps the sign. */
  lemma SignOfProduct(a: real, d: real)
    requires d > 0.0
    ensures a >= 0.0 <==> a * d >= 0.0
    ensures a == 0.0 <==> a * d == 0.0
  {
  }

  /** The percentage of passed among passed-or-failed, and its 50% threshold. */
  lemma PercentageFacts(p: nat, f: nat)
    requires p + f > 0
    ensures 0.0 <= Percentage(p, f) <= 100.0
    ensures Percentage(p, f) >= 50.0 <==> p >= f
    ensures f == 0 ==> Percentage(p, f) == 100.0
    ensures p == 0 ==> Percentage(p, f) == 0.0
    ensures p == f ==> Percentage(p, f) == 50.0
  {
    var d := (p + f) as real;
    var x := p as real / d;
    assert x * d == p as real;
    SignOfProduct(x, d);
    SignOfProduct(1.0 - x, d);
    assert (1.0 - x) * d == f as real;
    SignOfProduct(x - 0.5, d);
    assert (x - 0.5) * d == (p as real - f as real) / 2.0;
  }

  /**
   * The tail of the scorer over counters that add up: when something passed
   * or failed, the percentage is passed over passed-plus-failed and the
   * verdict is Pass exactly when passed is at least failed.
   */
  lemma ConcludeMarked(c: Counters)
    requires c.total == c.passed + |c.failed| + c.notApplicable
    requires c.passed + |c.failed| > 0
    ensures var r := Conclude(c);
      && r.percentage == Percentage(c.passed, |c.failed|)
      && 0.0 <= r.percentage <= 100.0
      && (r.overall == Pass <==> c.passed >= |c.failed|)
      && r.overall != Error
      && r.total == c.total
      && r.passed == c.passed
      && r.failedSummary == Join(c.failed, "\n")
  {
    PercentageFacts(c.passed, |c.failed|);
  }

  /** No block carries a marker (for instance, empty input): 0% and Fail. */
  lemma ScoreNoCriteria(s: string)
    requires |PassBlocks(s)| + |FailBlocks(s)| + |NotApplicableBlocks(s)| == 0
    ensures Evaluate(Text(s)) == AuditSummary(Fail, 0.0, 0, 0, "")
  {
    TallyByMarkers(Split(s, BlockDelimiter));
  }

  /**
   * Text in which no marker occurs anywhere: every block is part of the
   * text, so no block is counted, and the result is 0% and Fail.
   */
  lemma ScoreUnmarkedText(s: string)
    requires !Contains(s, PassMarker) && !Contains(s, FailMarker) && !Contains(s, NotApplicableMarker)
    ensures Evaluate(Text(s)) == AuditSummary(Fail, 0.0, 0, 0, "")
  {
    var blocks := Split(s, BlockDelimiter);
    forall k | 0 <= k < |blocks| ensures IsUnmarkedBlock(blocks[k]) {
      if Contains(blocks[k], PassMarker) {
        SplitPieceInSource(s, BlockDelimiter, k, PassMarker);
      }
      if Contains(blocks[k], FailMarker) {
        SplitPieceInSource(s, BlockDelimiter, k, FailMarker);
      }
      if Contains(blocks[k], NotApplicableMarker) {
        SplitPieceInSource(s, BlockDelimiter, k, NotApplicableMarker);
      }
    }
    FilterNone(blocks, IsPassBlock);
    FilterNone(blocks, IsFailBlock);
    FilterNone(blocks, IsNotApplicableBlock);
    ScoreNoCriteria(s);
  }

  /** Empty or whitespace-only text has no quote character, so no marker: 0% and Fail. */
  lemma ScoreWhitespaceText(s: string)
    requires AllSpace(s)
    ensures Evaluate(Text(s)) == AuditSummary(Fail, 0.0, 0, 0, "")
  {
    assert !IsSpace('"');
    assert '"' !in s;
    assert PassMarker[0] == '"' && FailMarker[0] == '"' && NotApplicableMarker[0] == '"';
    MissingCharNotContained(s, PassMarker, 0);
    MissingCharNotContained(s, FailMarker, 0);
    MissingCharNotContained(s, NotApplicableMarker, 0);
    ScoreUnmarkedText(s);
  }

  /**
   * Some block is marked but every marked block is Not Applicable: the
   * division by zero is caught and the error sentinel comes back, not 0%.
   */
  lemma ScoreAllNotApplicable(s: string)
    requires |PassBlocks(s)| + |FailBlocks(s)| == 0 < |NotApplicableBlocks(s)|
    ensures Evaluate(Text(s)) == ErrorSummary(DivisionByZero)
  {
    TallyByMarkers(Split(s, BlockDelimiter));
  }

  /**
   * Some block is marked Pass or Fail: the percentage is passed over
   * passed-plus-failed, between 0 and 100, the verdict is Pass exactly when
   * at least as many blocks pass as fail (the 50% boundary is inclusive),
   * Not Applicable blocks count in the total only, and the failed summary
   * is the stripped Fail blocks joined by newlines.
   */
  lemma ScoreMarked(s: string)
    requires |PassBlocks(s)| + |FailBlocks(s)| > 0
    ensures var r := Evaluate(Text(s));
      var p, f, n := |PassBlocks(s)|, |FailBlocks(s)|, |NotApplicableBlocks(s)|;
      && r.percentage == Percentage(p, f)
      && 0.0 <= r.percentage <= 100.0
      && (r.overall == Pass <==> p >= f)
      && r.overall != Error
      && r.total == p + f + n
      && r.passed == p
      && r.failedSummary == Join(StripAll(FailBlocks(s)), "\n")
  {
    var blocks := Split(s, BlockDelimiter);
    var c := Tally(blocks);
    assert Evaluate(Text(s)) == Conclude(c);
    TallyByMarkers(blocks);
    assert c.passed == |PassBlocks(s)| && |c.failed| == |FailBlocks(s)|;
    assert c.total == |PassBlocks(s)| + |FailBlocks(s)| + |NotApplicableBlocks(s)|;
    ConcludeMarked(c);
  }

  /**
   * The result is the error sentinel exactly when the input is not a string
   * or every marked block is Not Applicable.
   */
  lemma EvaluateErrorIff(auditResult: AuditInput)
    ensures Evaluate(auditResult).overall == Error <==>
      auditResult.NonText? ||
      |PassBlocks(auditResult.s)| + |FailBlocks(auditResult.s)| == 0 < |NotApplicableBlocks(auditResult.s)|
  {
    if auditResult.Text? {
      var s := auditResult.s;
      if |PassBlocks(s)| + |FailBlocks(s)| > 0 {
        ScoreMarked(s);
      } else if |NotApplicableBlocks(s)| > 0 {
        ScoreAllNotApplicable(s);
      } else {
        ScoreNoCriteria(s);
      }
    }
  }

  /**
   * Each entry of the failed summary is a Fail block, stripped, that still
   * carries the Fail marker and never the Pass marker.
   */
  lemma FailedEntriesMarked(s: string)
    ensures forall k :: 0 <= k < |FailBlocks(s)| ==>
      Contains(StripAll(FailBlocks(s))[k], FailMarker) && !Contains(StripAll(FailBlocks(s))[k], PassMarker)
  {
    var fails := FailBlocks(s);
    FilterKeeps(Split(s, BlockDelimiter), IsFailBlock);
    forall k | 0 <= k < |fails|
      ensures Contains(StripAll(fails)[k], FailMarker) && !Contains(StripAll(fails)[k], PassMarker)
    {
      assert IsFailBlock(fails[k]);
      StripKeepsOccurrence(fails[k], FailMarker);
      if Contains(Strip(fails[k]), PassMarker) {
        StripOccurrenceInSource(fails[k], PassMarker);
      }
    }
  }

  /**
   * Outside the error case the failed summary is empty exactly when no block
   * was classified Fail.
   */
  lemma FailedSummaryEmptyIff(s: string)
    requires Evaluate(Text(s)).overall != Error
    ensures Evaluate(Text(s)).failedSummary == "" <==> |FailBlocks(s)| == 0
  {
    var fails := FailBlocks(s);
    var entries := StripAll(fails);
    assert |fails| > 0 ==> entries != [] && entries[0] != [] by {
      if |fails| > 0 {
        FailedEntriesMarked(s);
        assert Contains(entries[0], FailMarker);
      }
    }
    JoinEmpty(entries, "\n");
    EvaluateErrorIff(Text(s));
    if |PassBlocks(s)| + |fails| > 0 {
      ScoreMarked(s);
    } else {
      ScoreNoCriteria(s);
    }
  }

  lemma {:induction false} FilterKeeps(blocks: seq<string>, keep: string -> bool)
    ensures forall k :: 0 <= k < |Filter(blocks, keep)| ==> keep(Filter(blocks, keep)[k])
  {
    if blocks != [] {
      FilterKeeps(blocks[..|blocks| - 1], keep);
    }
  }

  /**
   * Some criterion is counted (or the all-Not-Applicable error occurs)
   * exactly when one of the three markers occurs in the response: no marker
   * holds a brace, so cutting at braces never breaks an occurrence apart.
   */
  lemma MarkedTextCounts(s: string)
    ensures Evaluate(Text(s)).total >= 1 || Evaluate(Text(s)).overall == Error <==>
      Contains(s, PassMarker) || Contains(s, FailMarker) || Contains(s, NotApplicableMarker)
  {
    if Contains(s, PassMarker) {
      MarkerCounted(s, PassMarker);
    } else if Contains(s, FailMarker) {
      MarkerCounted(s, FailMarker);
    } else if Contains(s, NotApplicableMarker) {
      MarkerCounted(s, NotApplicableMarker);
    } else {
      ScoreUnmarkedText(s);
    }
  }

  /** A response in which one of the markers occurs counts some criterion, or hits the all-Not-Applicable error. */
  lemma MarkerCounted(s: string, m: string)
    requires m == PassMarker || m == FailMarker || m == NotApplicableMarker
    requires Contains(s, m)
    ensures Evaluate(Text(s)).total >= 1 || Evaluate(Text(s)).overall == Error
  {
    var blocks := Split(s, BlockDelimiter);
    assert BlockDelimiter !in m by {
      MarkersHaveNoBrace();
    }
    var i :| 0 <= i <= |s| - |m| && OccursAt(s, m, i);
    OccurrenceInPiece(s, BlockDelimiter, m, i);
    var k :| 0 <= k < |blocks| && Contains(blocks[k], m);
    MarkedBlockCounted(blocks, k);
    assert Evaluate(Text(s)) == Conclude(Tally(blocks));
  }

  lemma MarkersHaveNoBrace()
    ensures BlockDelimiter !in PassMarker
    ensures BlockDelimiter !in FailMarker
    ensures BlockDelimiter !in NotApplicableMarker
  {
  }

  /** A block carrying a marker is counted. */
  lemma MarkedBlockCounted(blocks: seq<string>, k: nat)
    requires k < |blocks| && !IsUnmarkedBlock(blocks[k])
    ensures Tally(blocks).total >= 1
  {
    FilterDrops(blocks, IsUnmarkedBlock, k);
    TallyByMarkers(blocks);
  }

  /** The response is cut into one piece more than it has braces, and each piece is counted at most once. */
  lemma TotalAtMostBraces(s: string)
    ensures Evaluate(Text(s)).total <= multiset(s)[BlockDelimiter] + 1
  {
    SplitPieces(s, BlockDelimiter);
  }
}
