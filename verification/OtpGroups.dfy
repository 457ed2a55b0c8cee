/** Which runs the scan for the one grouped code form, three digits, a hyphen and three digits, misses:
    told from the text alone. */
module OtpGroups {
  import opened Prelude
  import opened OtpScan

  const HYPHEN: CodeUnit := 45

  lemma WhatsappIsValid()
    ensures ValidShape(WHATSAPP)
  {
    assert [3, 3][1..] == [3] && [3][1..] == [];
    assert Sum([3]) == 3 && Sum([3, 3]) == 6;
  }

  predicate PairAt(body: Text, i: nat) {
    DigitsAt(body, i, 3) && i + 3 < |body| && body[i + 3] == HYPHEN && DigitsAt(body, i + 4, 3)
  }

  /** The pattern at one position, written out. */
  lemma MatchHere(body: Text, i: nat)
    ensures ValidShape(WHATSAPP)
    ensures MatchEnd(body, i, WHATSAPP) ==
              if DigitsAt(body, i, 6) then Some(i + 6) else if PairAt(body, i) then Some(i + 7) else None
  {
    WhatsappIsValid();
    assert [3, 3][1..] == [3];
    assert GroupsEnd(body, i + 4, [3], 45) == if DigitsAt(body, i + 4, 3) then Some(i + 7) else None;
  }

  // ---------------------------------------------------------------------------
  // Where the scan lands
  // ---------------------------------------------------------------------------

  /** The first position at or after `target` that a scan from `from` looks at. */
  function Lands(body: Text, from: nat, target: nat): (p: nat)
    requires ValidShape(WHATSAPP)
    ensures from <= target ==> target <= p
    decreases target - from
  {
    if from >= target then from
    else
      match MatchEnd(body, from, WHATSAPP)
      case None => Lands(body, from + 1, target)
      case Some(end) => Lands(body, end, target)
  }

  lemma {:induction false} LandsInTwoHops(body: Text, from: nat, middle: nat, target: nat)
    requires ValidShape(WHATSAPP) && from <= middle <= target
    ensures Lands(body, from, target) == Lands(body, Lands(body, from, middle), target)
    decreases middle - from
  {
    if from == middle {
    } else {
      match MatchEnd(body, from, WHATSAPP)
      case None => LandsInTwoHops(body, from + 1, middle, target);
      case Some(end) => if end <= middle { LandsInTwoHops(body, end, middle, target); }
    }
  }

  /** The scan steps over a position exactly when one of its matches straddles it. */
  lemma {:induction false} SteppedOverExactlyWhenStraddled(body: Text, from: nat, i: nat)
    requires ValidShape(WHATSAPP) && from <= i <= |body|
    ensures Straddled(Scan(body, from, WHATSAPP), i) <==> Lands(body, from, i) != i
    decreases i - from
  {
    var spans := Scan(body, from, WHATSAPP);
    if from == i {
    } else {
      match MatchEnd(body, from, WHATSAPP)
      case None => SteppedOverExactlyWhenStraddled(body, from + 1, i);
      case Some(end) =>
        var rest := Scan(body, end, WHATSAPP);
        assert spans == [Span(from, end)] + rest;
        assert Straddled(spans, i) <==> Straddles(Span(from, end), i) || Straddled(rest, i) by {
          if Straddled(rest, i) {
            var span :| span in rest && Straddles(span, i);
            assert span in spans;
          }
          if Straddles(Span(from, end), i) { assert spans[0] in spans; }
        }
        if end <= i { SteppedOverExactlyWhenStraddled(body, end, i); }
    }
  }

  /** A position after something that is no digit is stepped over only by a pair around a hyphen. */
  lemma {:induction false} OnlyPairsStepOver(body: Text, from: nat, i: nat)
    requires ValidShape(WHATSAPP) && from <= i <= |body| && i > 0 && !AsciiDigit(body[i - 1])
    requires i < 4 || !PairAt(body, i - 4)
    ensures Lands(body, from, i) == i
    decreases i - from
  {
    if from == i {
    } else {
      MatchHere(body, from);
      match MatchEnd(body, from, WHATSAPP)
      case None => OnlyPairsStepOver(body, from + 1, i);
      case Some(end) =>
        assert from + 3 == i - 1 ==> !PairAt(body, from);
        assert end <= i;
        OnlyPairsStepOver(body, end, i);
    }
  }

  // ---------------------------------------------------------------------------
  // Blocks of digits
  // ---------------------------------------------------------------------------

  /** Where the unbroken digits that end just before a position begin. */
  function BlockStart(body: Text, end: nat): (b: nat)
    requires end <= |body|
    ensures b <= end && DigitsAt(body, b, end - b) && (b > 0 ==> !AsciiDigit(body[b - 1]))
  {
    if end == 0 || !AsciiDigit(body[end - 1]) then end else BlockStart(body, end - 1)
  }

  /** How many digits of a block are left over after taking six at a time. */
  function LeftOver(n: nat): (r: nat)
    ensures r < 6 && (n < 6 ==> r == n)
  {
    n % 6
  }

  lemma SixLess(n: nat)
    requires n >= 6
    ensures LeftOver(n) == LeftOver(n - 6)
  {
  }

  /** Inside a block the scan takes six digits at a time; with three, four or five left it takes the last
      three together with the three behind the hyphen. */
  lemma {:induction false} ScanOfBlock(body: Text, p: nat, end: nat)
    requires ValidShape(WHATSAPP) && p <= end && DigitsAt(body, p, end - p)
    requires end < |body| && body[end] == HYPHEN && DigitsAt(body, end + 1, 3)
    ensures Lands(body, p, end + 1) == if LeftOver(end - p) >= 3 then end + 4 else end + 1
    decreases end - p
  {
    MatchHere(body, p);
    assert !AsciiDigit(body[end]);
    if end - p >= 6 {
      ScanOfBlock(body, p + 6, end);
      SixLess(end - p);
    } else if end - p == 3 {
      assert !DigitsAt(body, p, 6) && PairAt(body, p);
    } else if end == p {
      assert !DigitsAt(body, p, 6) && !PairAt(body, p);
    } else {
      assert !DigitsAt(body, p, 6) by { assert p <= end < p + 6; }
      assert !PairAt(body, p);
      ScanOfBlock(body, p + 1, end);
    }
  }

  /** The three digits at a position are taken together with the three before the hyphen in front of it.
      They are when the block before that hyphen, less the three digits it may have lost to a hyphen in
      front of itself, leaves three, four or five over six. */
  predicate TakenByPair(body: Text, i: nat)
    requires i <= |body|
  {
    && i >= 4 && PairAt(body, i - 4)
    && var b := BlockStart(body, i - 1);
    LeftOver(if TakenByPair(body, b) then i - 4 - b else i - 1 - b) >= 3
  }

  lemma {:induction false} LandsAt(body: Text, i: nat)
    requires ValidShape(WHATSAPP) && i <= |body| && (i > 0 ==> !AsciiDigit(body[i - 1]))
    ensures Lands(body, 0, i) == if TakenByPair(body, i) then i + 3 else i
  {
    if i == 0 {
    } else if i < 4 || !PairAt(body, i - 4) {
      OnlyPairsStepOver(body, 0, i);
    } else {
      var end := i - 1;
      var b := BlockStart(body, end);
      assert b < i by { assert AsciiDigit(body[end - 1]); }
      LandsAt(body, b);
      var p := if TakenByPair(body, b) then b + 3 else b;
      assert !AsciiDigit(body[end]);
      assert p <= end;
      LandsInTwoHops(body, 0, b, i);
      ScanOfBlock(body, p, end);
    }
  }

  /** A standing run of six is missed if and only if its first three digits are taken by a pair. */
  lemma RunMissedExactlyWhenTakenByAPair(body: Text, decimal: CodeUnit -> bool, c: Candidate)
    requires LawfulDigits(decimal) && StandingRun(body, c.index, 6, decimal) && c.value == body[c.index..c.index + 6]
    ensures ValidShape(WHATSAPP)
    ensures c in IntactCandidates(body, WHATSAPP, decimal) <==> !TakenByPair(body, c.index)
  {
    WhatsappIsValid();
    StandingRunReportedExactlyWhenNotStraddled(body, WHATSAPP, decimal, c);
    SteppedOverExactlyWhenStraddled(body, 0, c.index);
    LandsAt(body, c.index);
  }

  lemma TakenAfterAFirstBlock(body: Text, i: nat)
    requires 0 < i <= |body| && DigitsAt(body, i, 3)
    requires var b := BlockStart(body, i - 1); b > 0 ==> body[b - 1] != HYPHEN
    ensures TakenByPair(body, i) <==> body[i - 1] == HYPHEN && LeftOver(i - 1 - BlockStart(body, i - 1)) >= 3
  {
    var b := BlockStart(body, i - 1);
    assert !TakenByPair(body, b);
    if body[i - 1] == HYPHEN && LeftOver(i - 1 - b) >= 3 {
      assert i - 4 >= b;
      assert PairAt(body, i - 4);
    }
  }

  /** When no hyphen stands before the digits in front of the run, it is missed if and only if a hyphen
      joins it to them and three, four or five of them are left over after taking six at a time. */
  lemma RunMissedAfterAFirstBlock(body: Text, decimal: CodeUnit -> bool, c: Candidate)
    requires LawfulDigits(decimal) && StandingRun(body, c.index, 6, decimal) && c.value == body[c.index..c.index + 6]
    requires c.index > 0
    requires var b := BlockStart(body, c.index - 1); b > 0 ==> body[b - 1] != HYPHEN
    ensures ValidShape(WHATSAPP)
    ensures c in IntactCandidates(body, WHATSAPP, decimal)
            <==> !(body[c.index - 1] == HYPHEN && LeftOver(c.index - 1 - BlockStart(body, c.index - 1)) >= 3)
  {
    RunMissedExactlyWhenTakenByAPair(body, decimal, c);
    TakenAfterAFirstBlock(body, c.index);
  }

  /** No match fits into fewer than six code units. */
  lemma {:induction false} ScanOfShortTail(body: Text, from: nat)
    requires ValidShape(WHATSAPP) && |body| < from + 6
    ensures Scan(body, from, WHATSAPP) == []
    decreases |body| - from
  {
    if from >= |body| {
    } else {
      MatchHere(body, from);
      ScanOfShortTail(body, from + 1);
    }
  }

  lemma OnlySpanRefused(body: Text, span: Span, shape: Shape, decimal: CodeUnit -> bool)
    requires span.start <= span.end <= |body| && !Intact(body, span, decimal)
    ensures Candidates(body, [span], shape, decimal) == []
  {
    assert [span][..0] == [];
  }

  const JOINED: Text := [49, 50, 51, 45, 52, 53, 54, 55, 56, 57]

  lemma ScanOfJoined()
    ensures ValidShape(WHATSAPP) && Scan(JOINED, 0, WHATSAPP) == [Span(0, 7)]
  {
    MatchHere(JOINED, 0);
    assert !DigitsAt(JOINED, 0, 6) by { assert !AsciiDigit(JOINED[3]); }
    assert PairAt(JOINED, 0);
    ScanOfShortTail(JOINED, 7);
  }

  lemma JoinedHoldsARun(decimal: CodeUnit -> bool)
    requires !decimal(HYPHEN)
    ensures StandingRun(JOINED, 4, 6, decimal)
  {
  }

  lemma PairIsRefused(body: Text, decimal: CodeUnit -> bool)
    requires ValidShape(WHATSAPP) && LawfulDigits(decimal)
    requires Scan(body, 0, WHATSAPP) == [Span(0, 7)] && |body| > 7 && AsciiDigit(body[7])
    ensures IntactCandidates(body, WHATSAPP, decimal) == []
  {
    assert decimal(body[7]);
    OnlySpanRefused(body, Span(0, 7), WHATSAPP, decimal);
  }

  /** `123-456789`: the grouped match takes the start of an intact run and is then refused itself, so
      nothing is reported. */
  lemma GroupedScanMissesAStandingRun(decimal: CodeUnit -> bool)
    requires LawfulDigits(decimal) && !decimal(HYPHEN)
    ensures StandingRun(JOINED, 4, 6, decimal)
    ensures ValidShape(WHATSAPP) && IntactCandidates(JOINED, WHATSAPP, decimal) == []
  {
    JoinedHoldsARun(decimal);
    ScanOfJoined();
    PairIsRefused(JOINED, decimal);
  }

  /** A scan reports a match wherever it lands on one. */
  lemma {:induction false} LandsOnMatch(body: Text, from: nat, i: nat)
    requires ValidShape(WHATSAPP) && from <= i && Lands(body, from, i) == i && MatchEnd(body, i, WHATSAPP).Some?
    ensures Span(i, MatchEnd(body, i, WHATSAPP).value) in Scan(body, from, WHATSAPP)
    decreases i - from
  {
    if from == i {
      assert Scan(body, i, WHATSAPP)[0] == Span(i, MatchEnd(body, i, WHATSAPP).value);
    } else {
      match MatchEnd(body, from, WHATSAPP)
      case None => LandsOnMatch(body, from + 1, i);
      case Some(end) =>
        LandsOnMatch(body, end, i);
        assert Scan(body, from, WHATSAPP) == [Span(from, end)] + Scan(body, end, WHATSAPP);
    }
  }

  /** Two groups of three that nothing continues on either side are always reported, joined. */
  lemma LonePairIsReported(body: Text, decimal: CodeUnit -> bool, i: nat)
    requires LawfulDigits(decimal) && PairAt(body, i) && !decimal(HYPHEN) && ValidShape(WHATSAPP)
    requires Alone(body, i, i + 7, WHATSAPP, decimal)
    ensures Candidate(body[i..i + 3] + body[i + 4..i + 7], i) in IntactCandidates(body, WHATSAPP, decimal)
  {
    MatchHere(body, i);
    assert !DigitsAt(body, i, 6) by { assert !AsciiDigit(body[i + 3]); }
    if i > 0 {
      OnlyPairsStepOver(body, 0, i);
    }
    LandsOnMatch(body, 0, i);
    PairWithoutHyphen(body, i);
    var spans, c := Scan(body, 0, WHATSAPP), CandidateOf(body, Span(i, i + 7), WHATSAPP);
    var k :| 0 <= k < |spans| && spans[k] == Span(i, i + 7);
    assert YieldsAlone(body, spans, k, WHATSAPP, decimal, c);
    ReportedExactlyWhenAlone(body, WHATSAPP, decimal, c);
  }

  lemma PairWithoutHyphen(body: Text, i: nat)
    requires PairAt(body, i)
    ensures Without(body[i..i + 7], HYPHEN) == body[i..i + 3] + body[i + 4..i + 7]
  {
    SliceAround(body, i, i + 3, i + 7);
    DigitsSlice(body, i, 3);
    DigitsSlice(body, i + 4, 3);
    WithoutSeparator(body[i..i + 3], body[i + 4..i + 7], HYPHEN);
    WithoutDigits(body[i + 4..i + 7], HYPHEN);
  }
}
