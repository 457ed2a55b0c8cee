/** Finding a service's one-time code in an SMS body. Text is a sequence of UTF-16 code units, as the
    program indexes it; Unicode character classes are predicates on code units. */
module OtpScan {
  import opened Prelude

  type CodeUnit = u: nat | u < 0x10000

  type Text = seq<CodeUnit>

  predicate AsciiDigit(u: CodeUnit) { 48 <= u <= 57 }

  lemma AsciiDigitsAre(u: CodeUnit)
    ensures AsciiDigit(u) <==> exists d :: 0 <= d < 10 && u == "0123456789"[d] as int
  {
    if AsciiDigit(u) { assert "0123456789"[u - 48] as int == u; }
  }

  /** A decimal-digit class is lawful when it contains the ASCII digits. */
  ghost predicate LawfulDigits(decimal: CodeUnit -> bool) { forall u: CodeUnit :: AsciiDigit(u) ==> decimal(u) }

  /** Digits split into groups by a separator, e.g. three and three by a hyphen. */
  datatype Grouping = Grouping(sizes: seq<nat>, separator: CodeUnit)

  datatype Shape = Shape(digitLength: nat, grouping: Option<Grouping>)

  function Sum(sizes: seq<nat>): nat { if sizes == [] then 0 else sizes[0] + Sum(sizes[1..]) }

  predicate ValidGrouping(g: Grouping) {
    !AsciiDigit(g.separator) && |g.sizes| >= 2 && forall size <- g.sizes :: size > 0
  }

  /** A shape's groups hold as many digits as its contiguous form. */
  predicate ValidShape(shape: Shape) {
    shape.digitLength > 0
    && (shape.grouping.Some? ==> ValidGrouping(shape.grouping.value) && Sum(shape.grouping.value.sizes) == shape.digitLength)
  }

  // ---------------------------------------------------------------------------
  // The pattern at one position
  // ---------------------------------------------------------------------------

  predicate DigitsAt(body: Text, i: nat, n: nat) {
    i + n <= |body| && forall k :: i <= k < i + n ==> AsciiDigit(body[k])
  }

  /** Where the groups that start at `i` end, if they are there. */
  function GroupsEnd(body: Text, i: nat, sizes: seq<nat>, separator: CodeUnit): (end: Option<nat>)
    requires sizes != []
    ensures end.Some? ==> i + sizes[0] <= end.value <= |body|
    decreases |sizes|
  {
    if !DigitsAt(body, i, sizes[0]) then None
    else if |sizes| == 1 then Some(i + sizes[0])
    else if i + sizes[0] < |body| && body[i + sizes[0]] == separator
    then GroupsEnd(body, i + sizes[0] + 1, sizes[1..], separator)
    else None
  }

  /** The contiguous form is tried first. */
  function MatchEnd(body: Text, i: nat, shape: Shape): (end: Option<nat>)
    requires ValidShape(shape)
    ensures end.Some? ==> i < end.value <= |body|
  {
    if DigitsAt(body, i, shape.digitLength) then Some(i + shape.digitLength)
    else if shape.grouping.None? then None
    else GroupsEnd(body, i, shape.grouping.value.sizes, shape.grouping.value.separator)
  }

  // ---------------------------------------------------------------------------
  // The leftmost, non-overlapping scan
  // ---------------------------------------------------------------------------

  datatype Span = Span(start: nat, end: nat)

  function Scan(body: Text, from: nat, shape: Shape): (spans: seq<Span>)
    requires ValidShape(shape)
    ensures forall k :: 0 <= k < |spans| ==> from <= spans[k].start < spans[k].end <= |body|
    ensures forall j, k :: 0 <= j < k < |spans| ==> spans[j].end <= spans[k].start
    ensures forall k :: 0 <= k < |spans| ==> MatchEnd(body, spans[k].start, shape) == Some(spans[k].end)
    decreases |body| - from
  {
    if from >= |body| then []
    else
      match MatchEnd(body, from, shape)
      case None => Scan(body, from + 1, shape)
      case Some(end) =>
        var rest := Scan(body, end, shape);
        [Span(from, end)] + rest
  }

  /** No decimal digit borders the span. */
  predicate Intact(body: Text, span: Span, decimal: CodeUnit -> bool)
    requires span.start <= span.end <= |body|
  {
    && (span.start > 0 ==> !decimal(body[span.start - 1]))
    && (span.end < |body| ==> !decimal(body[span.end]))
  }

  predicate Includes(body: Text, span: Span, u: CodeUnit)
    requires span.start <= span.end <= |body|
  {
    u in body[span.start..span.end]
  }

  /** The separator chain goes on with more digits on either side. */
  predicate Chained(body: Text, span: Span, separator: CodeUnit, decimal: CodeUnit -> bool)
    requires span.start <= span.end <= |body|
  {
    || (span.start >= 2 && body[span.start - 1] == separator && decimal(body[span.start - 2]))
    || (span.end + 1 < |body| && body[span.end] == separator && decimal(body[span.end + 1]))
  }

  predicate Standalone(body: Text, span: Span, shape: Shape, decimal: CodeUnit -> bool)
    requires span.start <= span.end <= |body|
  {
    && Intact(body, span, decimal)
    && (shape.grouping.Some? && Includes(body, span, shape.grouping.value.separator) ==>
          !Chained(body, span, shape.grouping.value.separator, decimal))
  }

  function Without(s: Text, u: CodeUnit): (r: Text)
    ensures u !in r
  {
    if s == [] then [] else (if s[0] == u then [] else [s[0]]) + Without(s[1..], u)
  }

  datatype Candidate = Candidate(value: Text, index: nat)

  function CandidateOf(body: Text, span: Span, shape: Shape): Candidate
    requires span.start <= span.end <= |body|
  {
    var raw := body[span.start..span.end];
    Candidate(if shape.grouping.None? then raw else Without(raw, shape.grouping.value.separator), span.start)
  }

  function Candidates(body: Text, spans: seq<Span>, shape: Shape, decimal: CodeUnit -> bool): seq<Candidate>
    requires forall k :: 0 <= k < |spans| ==> spans[k].start <= spans[k].end <= |body|
  {
    if spans == [] then []
    else
      var last := spans[|spans| - 1];
      Candidates(body, spans[..|spans| - 1], shape, decimal)
      + if Standalone(body, last, shape, decimal) then [CandidateOf(body, last, shape)] else []
  }

  function IntactCandidates(body: Text, shape: Shape, decimal: CodeUnit -> bool): seq<Candidate>
    requires ValidShape(shape)
  {
    Candidates(body, Scan(body, 0, shape), shape, decimal)
  }

  lemma CandidatesOneMore(body: Text, spans: seq<Span>, i: nat, shape: Shape, decimal: CodeUnit -> bool)
    requires forall k :: 0 <= k < |spans| ==> spans[k].start <= spans[k].end <= |body|
    requires i < |spans|
    ensures Candidates(body, spans[..i + 1], shape, decimal) ==
              Candidates(body, spans[..i], shape, decimal)
              + if Standalone(body, spans[i], shape, decimal) then [CandidateOf(body, spans[i], shape)] else []
  {
    assert spans[..i + 1][..i] == spans[..i];
  }

  /** The loop over the matches, collecting the ones that stand alone. */
  method IntactCodeCandidates(body: Text, shape: Shape, decimal: CodeUnit -> bool) returns (candidates: seq<Candidate>)
    requires ValidShape(shape)
    ensures candidates == IntactCandidates(body, shape, decimal)
  {
    var spans := Scan(body, 0, shape);
    candidates := [];
    for i := 0 to |spans|
      invariant candidates == Candidates(body, spans[..i], shape, decimal)
    {
      CandidatesOneMore(body, spans, i, shape, decimal);
      var span := spans[i];
      if !Intact(body, span, decimal) { continue; }
      if shape.grouping.Some? && Includes(body, span, shape.grouping.value.separator) {
        if Chained(body, span, shape.grouping.value.separator, decimal) { continue; }
      }
      candidates := candidates + [CandidateOf(body, span, shape)];
    }
    assert spans[..|spans|] == spans;
  }

  // ---------------------------------------------------------------------------
  // What the scan finds
  // ---------------------------------------------------------------------------

  predicate Yields(body: Text, spans: seq<Span>, k: nat, shape: Shape, decimal: CodeUnit -> bool, c: Candidate) {
    && k < |spans| && spans[k].start <= spans[k].end <= |body|
    && Standalone(body, spans[k], shape, decimal) && c == CandidateOf(body, spans[k], shape)
  }

  ghost predicate Reported(body: Text, spans: seq<Span>, shape: Shape, decimal: CodeUnit -> bool, c: Candidate) {
    exists k: nat :: Yields(body, spans, k, shape, decimal, c)
  }

  predicate Ascending(body: Text, spans: seq<Span>) {
    && (forall k :: 0 <= k < |spans| ==> spans[k].start < spans[k].end <= |body|)
    && (forall j, k :: 0 <= j < k < |spans| ==> spans[j].end <= spans[k].start)
  }

  lemma ReportedByOneMore(body: Text, spans: seq<Span>, shape: Shape, decimal: CodeUnit -> bool, c: Candidate)
    requires spans != []
    ensures Reported(body, spans, shape, decimal, c)
            <==> Reported(body, spans[..|spans| - 1], shape, decimal, c) || Yields(body, spans, |spans| - 1, shape, decimal, c)
  {
    var first := spans[..|spans| - 1];
    if Reported(body, first, shape, decimal, c) {
      var k: nat :| Yields(body, first, k, shape, decimal, c);
      assert Yields(body, spans, k, shape, decimal, c);
    }
    if Reported(body, spans, shape, decimal, c) {
      var k: nat :| Yields(body, spans, k, shape, decimal, c);
      assert k < |spans| - 1 ==> Yields(body, first, k, shape, decimal, c);
    }
  }

  /** Exactly the matches that stand alone become candidates. */
  lemma {:induction false} CandidatesAreStandalone(body: Text, spans: seq<Span>, shape: Shape, decimal: CodeUnit -> bool, c: Candidate)
    requires Ascending(body, spans)
    ensures c in Candidates(body, spans, shape, decimal) <==> Reported(body, spans, shape, decimal, c)
  {
    if spans == [] {
    } else {
      CandidatesAreStandalone(body, spans[..|spans| - 1], shape, decimal, c);
      ReportedByOneMore(body, spans, shape, decimal, c);
    }
  }

  predicate InOrder(candidates: seq<Candidate>) {
    forall i, j :: 0 <= i < j < |candidates| ==> candidates[i].index < candidates[j].index
  }

  lemma CandidatesComeBefore(body: Text, spans: seq<Span>, shape: Shape, decimal: CodeUnit -> bool, bound: nat, c: Candidate)
    requires Ascending(body, spans) && forall span <- spans :: span.end <= bound
    requires c in Candidates(body, spans, shape, decimal)
    ensures c.index < bound
  {
    CandidatesAreStandalone(body, spans, shape, decimal, c);
    var k: nat :| Yields(body, spans, k, shape, decimal, c);
    assert spans[k] in spans;
  }

  lemma AppendInOrder(candidates: seq<Candidate>, last: Candidate)
    requires InOrder(candidates) && forall c <- candidates :: c.index < last.index
    ensures InOrder(candidates + [last])
  {
  }

  lemma {:induction false} CandidatesInOrder(body: Text, spans: seq<Span>, shape: Shape, decimal: CodeUnit -> bool)
    requires Ascending(body, spans)
    ensures InOrder(Candidates(body, spans, shape, decimal))
  {
    if spans == [] {
    } else {
      var first, last := spans[..|spans| - 1], spans[|spans| - 1];
      CandidatesInOrder(body, first, shape, decimal);
      forall c <- Candidates(body, first, shape, decimal) ensures c.index < last.start {
        CandidatesComeBefore(body, first, shape, decimal, last.start, c);
      }
      AppendInOrder(Candidates(body, first, shape, decimal), CandidateOf(body, last, shape));
    }
  }

  /** A run of exactly the right length that no decimal digit borders. */
  predicate StandingRun(body: Text, i: nat, n: nat, decimal: CodeUnit -> bool) {
    DigitsAt(body, i, n) && Intact(body, Span(i, i + n), decimal)
  }

  predicate Straddles(span: Span, i: nat) { span.start < i < span.end }

  /** The scan reports a run unless one of its matches straddles the run's start. */
  lemma {:induction false} ScanReachesRun(body: Text, from: nat, shape: Shape, i: nat)
    requires ValidShape(shape) && from <= i && DigitsAt(body, i, shape.digitLength)
    requires forall span <- Scan(body, from, shape) :: !Straddles(span, i)
    ensures Span(i, i + shape.digitLength) in Scan(body, from, shape)
    decreases |body| - from
  {
    var end := MatchEnd(body, from, shape);
    if from < i {
      if end.None? {
        ScanReachesRun(body, from + 1, shape, i);
      } else {
        assert Span(from, end.value) in Scan(body, from, shape);
        assert Scan(body, from, shape) == [Span(from, end.value)] + Scan(body, end.value, shape);
        ScanReachesRun(body, end.value, shape, i);
      }
    }
  }

  predicate AllDigits(s: Text) { forall u <- s :: AsciiDigit(u) }

  lemma {:induction false} WithoutDigits(s: Text, u: CodeUnit)
    requires AllDigits(s) && !AsciiDigit(u)
    ensures Without(s, u) == s
  {
    if s == [] {
    } else {
      WithoutDigits(s[1..], u);
    }
  }

  /** A run is a match of its own, and yields itself when it stands. */
  lemma RunYieldsItself(body: Text, spans: seq<Span>, k: nat, shape: Shape, decimal: CodeUnit -> bool, c: Candidate)
    requires ValidShape(shape) && StandingRun(body, c.index, shape.digitLength, decimal)
    requires k < |spans| && spans[k] == Span(c.index, c.index + shape.digitLength)
    requires c.value == body[c.index..c.index + shape.digitLength]
    ensures Yields(body, spans, k, shape, decimal, c)
  {
    assert AllDigits(c.value);
    if shape.grouping.Some? { WithoutDigits(c.value, shape.grouping.value.separator); }
  }

  lemma StandingRunIsScanned(body: Text, shape: Shape, decimal: CodeUnit -> bool, i: nat)
    requires ValidShape(shape) && shape.grouping.None? && LawfulDigits(decimal)
    requires StandingRun(body, i, shape.digitLength, decimal)
    ensures Span(i, i + shape.digitLength) in Scan(body, 0, shape)
  {
    forall span <- Scan(body, 0, shape) ensures !Straddles(span, i) {
      assert MatchEnd(body, span.start, shape) == Some(span.end);
    }
    ScanReachesRun(body, 0, shape, i);
  }

  /** Contiguous shapes: the candidates are exactly the digit runs of the right length that are not
      bordered by a decimal digit, in order of position. */
  lemma ContiguousScanFindsExactlyStandingRuns(body: Text, shape: Shape, decimal: CodeUnit -> bool, c: Candidate)
    requires ValidShape(shape) && shape.grouping.None? && LawfulDigits(decimal)
    ensures InOrder(IntactCandidates(body, shape, decimal))
    ensures c in IntactCandidates(body, shape, decimal)
            <==> StandingRun(body, c.index, shape.digitLength, decimal) && c.value == body[c.index..c.index + shape.digitLength]
  {
    var spans := Scan(body, 0, shape);
    CandidatesInOrder(body, spans, shape, decimal);
    CandidatesAreStandalone(body, spans, shape, decimal, c);
    if Reported(body, spans, shape, decimal, c) {
      var k: nat :| Yields(body, spans, k, shape, decimal, c);
      YieldIsARun(body, spans, k, shape, decimal, c);
    }
    if StandingRun(body, c.index, shape.digitLength, decimal) && c.value == body[c.index..c.index + shape.digitLength] {
      StandingRunIsScanned(body, shape, decimal, c.index);
      var k :| 0 <= k < |spans| && spans[k] == Span(c.index, c.index + shape.digitLength);
      RunYieldsItself(body, spans, k, shape, decimal, c);
    }
  }

  lemma YieldIsARun(body: Text, spans: seq<Span>, k: nat, shape: Shape, decimal: CodeUnit -> bool, c: Candidate)
    requires ValidShape(shape) && shape.grouping.None? && Yields(body, spans, k, shape, decimal, c)
    requires MatchEnd(body, spans[k].start, shape) == Some(spans[k].end)
    ensures StandingRun(body, c.index, shape.digitLength, decimal) && c.value == body[c.index..c.index + shape.digitLength]
  {
  }

  // ---------------------------------------------------------------------------
  // Grouped shapes
  // ---------------------------------------------------------------------------

  lemma {:induction false} WithoutConcat(s: Text, t: Text, u: CodeUnit)
    ensures Without(s + t, u) == Without(s, u) + Without(t, u)
  {
    if s == [] {
      assert s + t == t;
    } else {
      WithoutConcat(s[1..], t, u);
      assert (s + t)[1..] == s[1..] + t;
      var head: Text := if s[0] == u then [] else [s[0]];
      assert Without(s + t, u) == head + Without(s[1..] + t, u);
      assert head + (Without(s[1..], u) + Without(t, u)) == (head + Without(s[1..], u)) + Without(t, u);
    }
  }

  lemma WithoutSeparator(group: Text, rest: Text, separator: CodeUnit)
    requires AllDigits(group) && !AsciiDigit(separator)
    ensures Without(group + ([separator] + rest), separator) == group + Without(rest, separator)
  {
    WithoutConcat(group, [separator] + rest, separator);
    WithoutDigits(group, separator);
    assert ([separator] + rest)[1..] == rest;
  }

  lemma DigitsSlice(body: Text, i: nat, n: nat)
    requires DigitsAt(body, i, n)
    ensures AllDigits(body[i..i + n])
  {
  }

  lemma AllDigitsAppend(s: Text, t: Text)
    requires AllDigits(s) && AllDigits(t)
    ensures AllDigits(s + t)
  {
  }

  lemma SliceAround(body: Text, i: nat, m: nat, end: nat)
    requires i <= m < end <= |body|
    ensures body[i..end] == body[i..m] + ([body[m]] + body[m + 1..end])
  {
  }

  /** One group more in front normalises to its digits more. */
  lemma GroupInFront(body: Text, i: nat, m: nat, end: nat, separator: CodeUnit)
    requires i <= m < end <= |body| && DigitsAt(body, i, m - i) && body[m] == separator && !AsciiDigit(separator)
    requires AllDigits(Without(body[m + 1..end], separator))
    ensures var value := Without(body[i..end], separator);
            AllDigits(value) && |value| == m - i + |Without(body[m + 1..end], separator)|
  {
    DigitsSlice(body, i, m - i);
    SliceAround(body, i, m, end);
    WithoutSeparator(body[i..m], body[m + 1..end], separator);
    AllDigitsAppend(body[i..m], Without(body[m + 1..end], separator));
  }

  /** Groups normalise to as many digits as their sizes add up to. */
  lemma {:induction false} GroupsNormalise(body: Text, i: nat, sizes: seq<nat>, separator: CodeUnit)
    requires sizes != [] && !AsciiDigit(separator) && GroupsEnd(body, i, sizes, separator).Some?
    ensures var value := Without(body[i..GroupsEnd(body, i, sizes, separator).value], separator);
            |value| == Sum(sizes) && AllDigits(value)
    decreases |sizes|
  {
    if |sizes| == 1 {
      DigitsSlice(body, i, sizes[0]);
      WithoutDigits(body[i..i + sizes[0]], separator);
      assert Sum(sizes[1..]) == 0;
    } else {
      GroupsNormalise(body, i + sizes[0] + 1, sizes[1..], separator);
      GroupInFront(body, i, i + sizes[0], GroupsEnd(body, i, sizes, separator).value, separator);
    }
  }

  lemma MatchNormalises(body: Text, span: Span, shape: Shape)
    requires ValidShape(shape) && span.start <= span.end <= |body| && MatchEnd(body, span.start, shape) == Some(span.end)
    ensures var value := CandidateOf(body, span, shape).value; |value| == shape.digitLength && AllDigits(value)
  {
    if DigitsAt(body, span.start, shape.digitLength) {
      if shape.grouping.Some? { WithoutDigits(body[span.start..span.end], shape.grouping.value.separator); }
    } else {
      GroupsNormalise(body, span.start, shape.grouping.value.sizes, shape.grouping.value.separator);
    }
  }

  /** Every candidate, contiguous or grouped, is a match of the pattern that stands alone, and normalises
      to exactly the service's number of ASCII digits. The matches of a scan never overlap. */
  lemma EveryCandidateIsSound(body: Text, shape: Shape, decimal: CodeUnit -> bool, c: Candidate)
    requires ValidShape(shape) && c in IntactCandidates(body, shape, decimal)
    ensures Ascending(body, Scan(body, 0, shape))
    ensures exists span <- Scan(body, 0, shape) :: span.start == c.index && Standalone(body, span, shape, decimal)
    ensures |c.value| == shape.digitLength && AllDigits(c.value)
  {
    var spans := Scan(body, 0, shape);
    CandidatesAreStandalone(body, spans, shape, decimal, c);
    var k: nat :| Yields(body, spans, k, shape, decimal, c);
    assert spans[k] in spans;
    MatchNormalises(body, spans[k], shape);
  }

  /** What stands around a match that stands alone: no decimal digit at either end and, when groups make
      it longer than its digits, no separator with another digit behind it either. */
  predicate Alone(body: Text, start: nat, end: nat, shape: Shape, decimal: CodeUnit -> bool)
    requires start <= end <= |body|
  {
    && (start >= 1 ==> !decimal(body[start - 1]))
    && (end < |body| ==> !decimal(body[end]))
    && (shape.grouping.Some? && end - start > shape.digitLength ==>
          var separator := shape.grouping.value.separator;
          && !(start >= 2 && body[start - 1] == separator && decimal(body[start - 2]))
          && !(end + 1 < |body| && body[end] == separator && decimal(body[end + 1])))
  }

  lemma {:induction false} WithoutKeepsTheRest(s: Text, u: CodeUnit)
    ensures |Without(s, u)| <= |s|
    ensures |Without(s, u)| == |s| <==> u !in s
  {
    if s == [] {
    } else {
      WithoutKeepsTheRest(s[1..], u);
      assert s == [s[0]] + s[1..];
    }
  }

  lemma StandaloneIsAlone(body: Text, span: Span, shape: Shape, decimal: CodeUnit -> bool)
    requires ValidShape(shape) && span.start <= span.end <= |body| && MatchEnd(body, span.start, shape) == Some(span.end)
    ensures Standalone(body, span, shape, decimal) <==> Alone(body, span.start, span.end, shape, decimal)
  {
    MatchNormalises(body, span, shape);
    if shape.grouping.Some? { WithoutKeepsTheRest(body[span.start..span.end], shape.grouping.value.separator); }
  }

  predicate YieldsAlone(body: Text, spans: seq<Span>, k: nat, shape: Shape, decimal: CodeUnit -> bool, c: Candidate) {
    && k < |spans| && spans[k].start <= spans[k].end <= |body|
    && Alone(body, spans[k].start, spans[k].end, shape, decimal) && c == CandidateOf(body, spans[k], shape)
  }

  lemma YieldIsAlone(body: Text, shape: Shape, decimal: CodeUnit -> bool, k: nat, c: Candidate)
    requires ValidShape(shape)
    ensures Yields(body, Scan(body, 0, shape), k, shape, decimal, c) <==> YieldsAlone(body, Scan(body, 0, shape), k, shape, decimal, c)
  {
    var spans := Scan(body, 0, shape);
    if k < |spans| { StandaloneIsAlone(body, spans[k], shape, decimal); }
  }

  /** Exactly the matches of the scan that stand alone are reported. */
  lemma ReportedExactlyWhenAlone(body: Text, shape: Shape, decimal: CodeUnit -> bool, c: Candidate)
    requires ValidShape(shape)
    ensures c in IntactCandidates(body, shape, decimal) <==>
              exists k: nat :: YieldsAlone(body, Scan(body, 0, shape), k, shape, decimal, c)
  {
    CandidatesAreStandalone(body, Scan(body, 0, shape), shape, decimal, c);
    forall k: nat ensures Yields(body, Scan(body, 0, shape), k, shape, decimal, c) <==> YieldsAlone(body, Scan(body, 0, shape), k, shape, decimal, c) {
      YieldIsAlone(body, shape, decimal, k, c);
    }
  }

  predicate Straddled(spans: seq<Span>, i: nat) { exists span <- spans :: Straddles(span, i) }

  /** With groups, a standing run is reported exactly when no match of the scan straddles its start. */
  lemma StandingRunReportedExactlyWhenNotStraddled(body: Text, shape: Shape, decimal: CodeUnit -> bool, c: Candidate)
    requires ValidShape(shape) && StandingRun(body, c.index, shape.digitLength, decimal)
    requires c.value == body[c.index..c.index + shape.digitLength]
    ensures c in IntactCandidates(body, shape, decimal) <==> !Straddled(Scan(body, 0, shape), c.index)
  {
    var spans := Scan(body, 0, shape);
    CandidatesAreStandalone(body, spans, shape, decimal, c);
    if !Straddled(spans, c.index) {
      ScanReachesRun(body, 0, shape, c.index);
      var k :| 0 <= k < |spans| && spans[k] == Span(c.index, c.index + shape.digitLength);
      RunYieldsItself(body, spans, k, shape, decimal, c);
    }
    if Reported(body, spans, shape, decimal, c) {
      var k: nat :| Yields(body, spans, k, shape, decimal, c);
      NothingStraddlesASpan(body, spans, k);
    }
  }

  lemma NothingStraddlesASpan(body: Text, spans: seq<Span>, k: nat)
    requires Ascending(body, spans) && k < |spans|
    ensures !Straddled(spans, spans[k].start)
  {
    forall span <- spans ensures !Straddles(span, spans[k].start) {
      var j :| 0 <= j < |spans| && spans[j] == span;
      assert j < k ==> spans[j].end <= spans[k].start;
      assert k < j ==> spans[k].end <= spans[j].start;
    }
  }

  lemma {:induction false} GroupsAreDigitsAndSeparators(body: Text, i: nat, sizes: seq<nat>, separator: CodeUnit, k: nat)
    requires sizes != [] && GroupsEnd(body, i, sizes, separator).Some? && i <= k < GroupsEnd(body, i, sizes, separator).value
    ensures AsciiDigit(body[k]) || body[k] == separator
    decreases |sizes|
  {
    if |sizes| > 1 && k > i + sizes[0] { GroupsAreDigitsAndSeparators(body, i + sizes[0] + 1, sizes[1..], separator, k); }
  }

  /** A standing run is missed only right after a separator: without one in front it is always reported. */
  lemma RunNotAfterASeparatorIsReported(body: Text, shape: Shape, decimal: CodeUnit -> bool, c: Candidate)
    requires ValidShape(shape) && LawfulDigits(decimal) && StandingRun(body, c.index, shape.digitLength, decimal)
    requires c.value == body[c.index..c.index + shape.digitLength]
    requires c.index > 0 && shape.grouping.Some? ==> body[c.index - 1] != shape.grouping.value.separator
    ensures c in IntactCandidates(body, shape, decimal)
  {
    forall span <- Scan(body, 0, shape) ensures !Straddles(span, c.index) {
      assert MatchEnd(body, span.start, shape) == Some(span.end);
      if Straddles(span, c.index) && !DigitsAt(body, span.start, shape.digitLength) {
        GroupsAreDigitsAndSeparators(body, span.start, shape.grouping.value.sizes, shape.grouping.value.separator, c.index - 1);
      }
    }
    StandingRunReportedExactlyWhenNotStraddled(body, shape, decimal, c);
  }

  const WHATSAPP := Shape(6, Some(Grouping([3, 3], 45)))
}
