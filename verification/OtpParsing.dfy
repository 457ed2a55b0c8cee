/** Whether an SMS carries one service's code: sender, keyword, candidate and decoy rules. Lower-casing
    a text and the Unicode character classes are parameters; keywords and markers are given lower-cased. */
module OtpParsing {
  import opened Prelude
  import opened OtpScan

  function Units(s: string): Text {
    seq(|s|, i requires 0 <= i < |s| => if s[i] as int < 0x10000 then s[i] as int else 0xFFFD)
  }

  /** What the rules know about characters. */
  datatype Classes = Classes(decimal: CodeUnit -> bool, word: CodeUnit -> bool, space: CodeUnit -> bool, lower: Text -> Text)

  // ---------------------------------------------------------------------------
  // Keywords
  // ---------------------------------------------------------------------------

  predicate OccursAt(body: Text, keyword: Text, i: nat) {
    i + |keyword| <= |body| && body[i..i + |keyword|] == keyword
  }

  predicate WholeWordAt(body: Text, keyword: Text, i: nat, word: CodeUnit -> bool) {
    && OccursAt(body, keyword, i)
    && (i > 0 ==> !word(body[i - 1]))
    && (i + |keyword| < |body| ==> !word(body[i + |keyword|]))
  }

  ghost predicate HasWholeWord(body: Text, keyword: Text, word: CodeUnit -> bool) {
    keyword != [] && exists i: nat :: WholeWordAt(body, keyword, i, word)
  }

  /** The first occurrence at or after `from`. */
  method IndexOf(body: Text, keyword: Text, from: nat) returns (index: Option<nat>)
    ensures match index
            case None => forall i: nat :: i >= from ==> !OccursAt(body, keyword, i)
            case Some(k) => k >= from && OccursAt(body, keyword, k) && forall i: nat :: from <= i < k ==> !OccursAt(body, keyword, i)
  {
    var k := from;
    while k + |keyword| <= |body|
      invariant k >= from
      invariant forall i: nat :: from <= i < k ==> !OccursAt(body, keyword, i)
    {
      if body[k..k + |keyword|] == keyword {
        return Some(k);
      }
      k := k + 1;
    }
    return None;
  }

  /** Goes from occurrence to occurrence, overlapping ones included, until one is a whole word. */
  method FindWholeWord(body: Text, keyword: Text, word: CodeUnit -> bool) returns (found: bool)
    ensures found <==> HasWholeWord(body, keyword, word)
  {
    if keyword == [] {
      return false;
    }
    var fromIndex := 0;
    while fromIndex + |keyword| <= |body|
      invariant forall i: nat :: i < fromIndex ==> !WholeWordAt(body, keyword, i, word)
    {
      var index := IndexOf(body, keyword, fromIndex);
      if index.None? {
        return false;
      }
      var afterIndex := index.value + |keyword|;
      if (index.value == 0 || !word(body[index.value - 1])) && (afterIndex == |body| || !word(body[afterIndex])) {
        assert WholeWordAt(body, keyword, index.value, word);
        return true;
      }
      fromIndex := index.value + 1;
    }
    return false;
  }

  predicate EndsWord(before: Text, word: CodeUnit -> bool) { before != [] ==> !word(before[|before| - 1]) }

  predicate StartsWord(after: Text, word: CodeUnit -> bool) { after != [] ==> !word(after[0]) }

  ghost predicate Within(body: Text, before: Text, part: Text, after: Text) { body == before + part + after }

  lemma OccursExactlyWithin(body: Text, part: Text, i: nat)
    ensures OccursAt(body, part, i) <==> i + |part| <= |body| && Within(body, body[..i], part, body[i + |part|..])
    ensures forall before: Text, after: Text :: Within(body, before, part, after) && |before| == i ==>
              OccursAt(body, part, i) && before == body[..i] && after == body[i + |part|..]
  {
    if OccursAt(body, part, i) { assert body == body[..i] + part + body[i + |part|..]; }
    forall before: Text, after: Text | Within(body, before, part, after) && |before| == i
      ensures OccursAt(body, part, i) && before == body[..i] && after == body[i + |part|..]
    {
      assert body[i..i + |part|] == part;
    }
  }

  /** A keyword is found as a whole word exactly when the text can be cut into what comes before it, the
      keyword and what comes after, and no word character touches it from either side. */
  lemma WholeWordExactlyWhen(body: Text, keyword: Text, word: CodeUnit -> bool)
    ensures HasWholeWord(body, keyword, word) <==>
              keyword != [] && exists before: Text, after: Text ::
                Within(body, before, keyword, after) && EndsWord(before, word) && StartsWord(after, word)
  {
    if keyword != [] {
      if HasWholeWord(body, keyword, word) {
        var i: nat :| WholeWordAt(body, keyword, i, word);
        OccursExactlyWithin(body, keyword, i);
        assert EndsWord(body[..i], word) && StartsWord(body[i + |keyword|..], word);
      }
      forall before: Text, after: Text | Within(body, before, keyword, after) && EndsWord(before, word) && StartsWord(after, word)
        ensures WholeWordAt(body, keyword, |before|, word)
      {
        OccursExactlyWithin(body, keyword, |before|);
      }
    }
  }

  ghost predicate HasSomeKeyword(body: Text, keywords: seq<Text>, word: CodeUnit -> bool) {
    exists keyword <- keywords :: HasWholeWord(body, keyword, word)
  }

  /** True exactly when some non-empty keyword occurs as a whole word. */
  method HasKeyword(body: Text, keywords: seq<Text>, word: CodeUnit -> bool) returns (found: bool)
    ensures found <==> HasSomeKeyword(body, keywords, word)
  {
    for i := 0 to |keywords|
      invariant forall j :: 0 <= j < i ==> !HasWholeWord(body, keywords[j], word)
    {
      var whole := FindWholeWord(body, keywords[i], word);
      if whole {
        return true;
      }
    }
    return false;
  }

  // ---------------------------------------------------------------------------
  // Senders
  // ---------------------------------------------------------------------------

  datatype Spec = Spec(keywords: seq<Text>, brandMarkers: set<Text>, shape: Shape)

  function Registry(): map<string, Spec> {
    map["wa" := Spec([Units("whatsapp")], {Units("whatsapp")}, WHATSAPP),
        "tg" := Spec([Units("telegram")], {Units("telegram")}, Shape(5, None)),
        "ig" := Spec([Units("instagram")], {Units("instagram")}, Shape(6, None)),
        "go" := Spec([Units("google")], {Units("google")}, Shape(6, None))]
  }

  function OwnMarkers(registry: map<string, Spec>, service: string): set<Text> {
    if service in registry then registry[service].brandMarkers else {}
  }

  /** Everyone else's brands. */
  function ForeignMarkers(registry: map<string, Spec>, thirdParty: set<Text>, service: string): set<Text> {
    ((set code, marker | code in registry && code != service && marker in registry[code].brandMarkers :: marker) + thirdParty)
    - OwnMarkers(registry, service)
  }

  /** A brand is foreign to a service exactly when it is not its own and belongs to another service or
      to a third party, whatever the registry. */
  lemma ForeignExactlyWhenSomeoneElses(registry: map<string, Spec>, thirdParty: set<Text>, service: string, marker: Text)
    ensures marker in ForeignMarkers(registry, thirdParty, service)
            <==> marker !in OwnMarkers(registry, service)
                 && (marker in thirdParty || exists code <- registry :: code != service && marker in registry[code].brandMarkers)
  {
  }

  ghost predicate Mentions(sender: Text, marker: Text) { marker != [] && exists i: nat :: OccursAt(sender, marker, i) }

  /** A marker is mentioned exactly when it is somewhere in the sender's name; the empty one never is. */
  lemma MentionedExactlyWhen(sender: Text, marker: Text)
    ensures Mentions(sender, marker) <==> marker != [] && exists before: Text, after: Text :: Within(sender, before, marker, after)
  {
    if Mentions(sender, marker) {
      var i: nat :| OccursAt(sender, marker, i);
      OccursExactlyWithin(sender, marker, i);
    }
    forall before: Text, after: Text | Within(sender, before, marker, after) ensures OccursAt(sender, marker, |before|) {
      OccursExactlyWithin(sender, marker, |before|);
    }
  }

  ghost predicate IsForeignSender(sender: Text, markers: set<Text>) { exists marker <- markers :: Mentions(sender, marker) }

  // ---------------------------------------------------------------------------
  // Decoys
  // ---------------------------------------------------------------------------

  const LABEL_WINDOW := 24

  function LowerAscii(s: Text): Text {
    seq(|s|, i requires 0 <= i < |s| => if 65 <= s[i] <= 90 then s[i] + 32 else s[i])
  }

  /** Case-insensitive; no other letter folds to one of these. */
  predicate IsLabel(s: Text) {
    LowerAscii(s) in {Units("date"), Units("tanggal"), Units("phone"), Units("tel"), Units("nomor"), Units("telepon")}
  }

  predicate AllSpace(s: Text, space: CodeUnit -> bool) { forall u <- s :: space(u) }

  /** `label`, spaces, at most one of `:`, `#` and `-`, spaces, and then the end of the prefix; the
      label starts a word. */
  predicate LabelEndsAt(prefix: Text, classes: Classes, start: nat, labelEnd: nat, mark: nat) {
    && start <= labelEnd <= mark <= |prefix|
    && IsLabel(prefix[start..labelEnd])
    && (start > 0 ==> !classes.word(prefix[start - 1]))
    && AllSpace(prefix[labelEnd..mark], classes.space)
    && AllSpace(prefix[if mark < |prefix| && prefix[mark] in {58, 35, 45} then mark + 1 else mark..], classes.space)
  }

  predicate HasDecoyLabel(prefix: Text, classes: Classes) {
    exists start, labelEnd, mark |
      0 <= start <= labelEnd <= mark <= |prefix| :: LabelEndsAt(prefix, classes, start, labelEnd, mark)
  }

  /** Capital letters fold to small ones; everything else stays. */
  lemma CapitalsFold(u: CodeUnit)
    ensures LowerAscii([u]) == [if 'A' as int <= u <= 'Z' as int then u + ('a' as int - 'A' as int) else u]
  {
  }

  /** A label in front of the candidate, cut into its parts: the label starts a word and is followed by
      nothing but white space and at most one mark. */
  ghost predicate LabelParts(prefix: Text, classes: Classes, before: Text, name: Text, gap: Text, mark: Text, rest: Text) {
    && prefix == before + name + gap + mark + rest
    && IsLabel(name) && EndsWord(before, classes.word)
    && AllSpace(gap, classes.space) && AllSpace(rest, classes.space)
    && (mark == [] || mark == Units(":") || mark == Units("#") || mark == Units("-"))
  }

  lemma Marks()
    ensures Units(":") == [58] && Units("#") == [35] && Units("-") == [45]
  {
  }

  lemma DecoyHasParts(prefix: Text, classes: Classes, start: nat, labelEnd: nat, mark: nat)
    requires LabelEndsAt(prefix, classes, start, labelEnd, mark)
    ensures exists before: Text, name: Text, gap: Text, sign: Text, rest: Text :: LabelParts(prefix, classes, before, name, gap, sign, rest)
  {
    Marks();
    var next := if mark < |prefix| && prefix[mark] in {58, 35, 45} then mark + 1 else mark;
    assert prefix == prefix[..start] + prefix[start..labelEnd] + prefix[labelEnd..mark] + prefix[mark..next] + prefix[next..];
    assert next == mark + 1 ==> prefix[mark..next] == [prefix[mark]];
    assert LabelParts(prefix, classes, prefix[..start], prefix[start..labelEnd], prefix[labelEnd..mark], prefix[mark..next], prefix[next..]);
  }

  lemma PartsMakeADecoy(prefix: Text, classes: Classes, before: Text, name: Text, gap: Text, sign: Text, rest: Text)
    requires LabelParts(prefix, classes, before, name, gap, sign, rest)
    ensures HasDecoyLabel(prefix, classes)
  {
    Marks();
    var start, labelEnd := |before|, |before| + |name|;
    var mark := if sign == [] then |prefix| else labelEnd + |gap|;
    assert prefix[start..labelEnd] == name;
    if sign == [] {
      assert prefix[labelEnd..] == gap + rest && prefix[|prefix|..] == [];
    } else {
      assert prefix[labelEnd..mark] == gap && prefix[mark] == sign[0] && prefix[mark + 1..] == rest;
    }
    assert LabelEndsAt(prefix, classes, start, labelEnd, mark);
  }

  /** The text before a candidate labels it a decoy exactly when it can be cut that way. */
  lemma DecoyExactlyWhen(prefix: Text, classes: Classes)
    ensures HasDecoyLabel(prefix, classes) <==>
              exists before: Text, name: Text, gap: Text, mark: Text, rest: Text :: LabelParts(prefix, classes, before, name, gap, mark, rest)
  {
    if HasDecoyLabel(prefix, classes) {
      var start, labelEnd, mark :| 0 <= start <= labelEnd <= mark <= |prefix| && LabelEndsAt(prefix, classes, start, labelEnd, mark);
      DecoyHasParts(prefix, classes, start, labelEnd, mark);
    }
    forall before: Text, name: Text, gap: Text, mark: Text, rest: Text | LabelParts(prefix, classes, before, name, gap, mark, rest)
      ensures HasDecoyLabel(prefix, classes)
    {
      PartsMakeADecoy(prefix, classes, before, name, gap, mark, rest);
    }
  }

  /** Only the 24 code units before a candidate are looked at. */
  lemma PrefixIsTheLast24(body: Text, index: nat)
    requires index <= |body|
    ensures |PrefixOf(body, index)| == if index < 24 then index else 24
    ensures body[..index] == body[..index - |PrefixOf(body, index)|] + PrefixOf(body, index)
  {
  }

  function PrefixOf(body: Text, index: nat): Text
    requires index <= |body|
  {
    body[if index < LABEL_WINDOW then 0 else index - LABEL_WINDOW..index]
  }

  // ---------------------------------------------------------------------------
  // Parsing
  // ---------------------------------------------------------------------------

  datatype RejectReason = UnsupportedService | ForeignSender | MissingKeyword | NoCandidate | AmbiguousCandidates | DecoyCandidate

  datatype ParseResult = Matched(otp: Text) | Rejected(reason: RejectReason)

  /** What a caller may override; an absent sender is never foreign. */
  datatype Rule = Rule(keywords: Option<seq<Text>>, sender: Option<Text>, foreignMarkers: Option<set<Text>>)

  lemma CandidateInBody(body: Text, shape: Shape, decimal: CodeUnit -> bool, c: Candidate)
    requires ValidShape(shape) && c in IntactCandidates(body, shape, decimal)
    ensures c.index <= |body|
  {
    EveryCandidateIsSound(body, shape, decimal, c);
  }

  ghost function ParseServiceOtp(registry: map<string, Spec>, thirdParty: set<Text>, service: string, body: Text, rule: Rule, classes: Classes)
    : ParseResult
    requires forall code <- registry :: ValidShape(registry[code].shape)
  {
    if service !in registry then Rejected(UnsupportedService)
    else
      var spec := registry[service];
      if rule.sender.Some?
         && IsForeignSender(classes.lower(rule.sender.value), rule.foreignMarkers.GetOr(ForeignMarkers(registry, thirdParty, service)))
      then Rejected(ForeignSender)
      else if !HasSomeKeyword(classes.lower(body), rule.keywords.GetOr(spec.keywords), classes.word) then Rejected(MissingKeyword)
      else
        var candidates := IntactCandidates(body, spec.shape, classes.decimal);
        if |candidates| == 0 then Rejected(NoCandidate)
        else if |candidates| > 1 then Rejected(AmbiguousCandidates)
        else
          CandidateInBody(body, spec.shape, classes.decimal, candidates[0]);
          if HasDecoyLabel(PrefixOf(body, candidates[0].index), classes) then Rejected(DecoyCandidate)
          else Matched(candidates[0].value)
  }

  /** A delivered code always has exactly the service's number of ASCII digits. */
  lemma MatchedCodeHasTheRightLength(registry: map<string, Spec>, thirdParty: set<Text>, service: string, body: Text, rule: Rule, classes: Classes)
    requires forall code <- registry :: ValidShape(registry[code].shape)
    requires ParseServiceOtp(registry, thirdParty, service, body, rule, classes).Matched?
    ensures service in registry
    ensures var otp := ParseServiceOtp(registry, thirdParty, service, body, rule, classes).otp;
            |otp| == registry[service].shape.digitLength && AllDigits(otp)
  {
    var candidates := IntactCandidates(body, registry[service].shape, classes.decimal);
    EveryCandidateIsSound(body, registry[service].shape, classes.decimal, candidates[0]);
  }

  predicate OnlyRun(body: Text, n: nat, decimal: CodeUnit -> bool, i: nat) {
    StandingRun(body, i, n, decimal) && forall j: nat | j <= |body| :: StandingRun(body, j, n, decimal) ==> j == i
  }

  function IndexAt(r: seq<Candidate>, k: nat): nat { if k < |r| then r[k].index else 0 }

  lemma AtMostOneAt(r: seq<Candidate>, i: nat)
    requires InOrder(r) && forall k :: 0 <= k < |r| ==> r[k].index == i
    ensures |r| <= 1
  {
    var first, second := IndexAt(r, 0), IndexAt(r, 1);
  }

  lemma SingleCandidateIsTheOnlyRun(body: Text, shape: Shape, decimal: CodeUnit -> bool)
    requires ValidShape(shape) && shape.grouping.None? && LawfulDigits(decimal)
    requires |IntactCandidates(body, shape, decimal)| == 1
    ensures OnlyRun(body, shape.digitLength, decimal, IntactCandidates(body, shape, decimal)[0].index)
  {
    var r := IntactCandidates(body, shape, decimal);
    ContiguousScanFindsExactlyStandingRuns(body, shape, decimal, r[0]);
    forall j: nat | j <= |body| && StandingRun(body, j, shape.digitLength, decimal) ensures j == r[0].index {
      ContiguousScanFindsExactlyStandingRuns(body, shape, decimal, Candidate(body[j..j + shape.digitLength], j));
    }
  }

  lemma OnlyRunIsTheSingleCandidate(body: Text, shape: Shape, decimal: CodeUnit -> bool, i: nat)
    requires ValidShape(shape) && shape.grouping.None? && LawfulDigits(decimal)
    requires OnlyRun(body, shape.digitLength, decimal, i)
    ensures |IntactCandidates(body, shape, decimal)| == 1
  {
    var r := IntactCandidates(body, shape, decimal);
    ContiguousScanFindsExactlyStandingRuns(body, shape, decimal, Candidate(body[i..i + shape.digitLength], i));
    forall k | 0 <= k < |r| ensures r[k].index == i {
      ContiguousScanFindsExactlyStandingRuns(body, shape, decimal, r[k]);
    }
    AtMostOneAt(r, i);
  }

  lemma OneCandidateIsTheOnlyRun(body: Text, shape: Shape, decimal: CodeUnit -> bool)
    requires ValidShape(shape) && shape.grouping.None? && LawfulDigits(decimal)
    ensures |IntactCandidates(body, shape, decimal)| == 1 <==> exists i: nat :: OnlyRun(body, shape.digitLength, decimal, i)
    ensures |IntactCandidates(body, shape, decimal)| == 1 ==>
              OnlyRun(body, shape.digitLength, decimal, IntactCandidates(body, shape, decimal)[0].index)
  {
    if |IntactCandidates(body, shape, decimal)| == 1 { SingleCandidateIsTheOnlyRun(body, shape, decimal); }
    if exists i: nat :: OnlyRun(body, shape.digitLength, decimal, i) {
      var i: nat :| OnlyRun(body, shape.digitLength, decimal, i);
      OnlyRunIsTheSingleCandidate(body, shape, decimal, i);
    }
  }

  /** For a service without grouped codes a code is delivered exactly when sender and keyword pass and
      the body holds a single standing run of its length, not labelled a decoy; it is that very run. */
  lemma ContiguousServiceDeliversItsOnlyRun(
    registry: map<string, Spec>, thirdParty: set<Text>, service: string, body: Text, rule: Rule, classes: Classes, otp: Text)
    requires forall code <- registry :: ValidShape(registry[code].shape)
    requires service in registry && registry[service].shape.grouping.None? && LawfulDigits(classes.decimal)
    ensures var spec := registry[service]; var n := spec.shape.digitLength;
            ParseServiceOtp(registry, thirdParty, service, body, rule, classes) == Matched(otp)
            <==> && !(rule.sender.Some? && IsForeignSender(classes.lower(rule.sender.value), rule.foreignMarkers.GetOr(ForeignMarkers(registry, thirdParty, service))))
                 && HasSomeKeyword(classes.lower(body), rule.keywords.GetOr(spec.keywords), classes.word)
                 && exists i: nat :: OnlyRun(body, n, classes.decimal, i) && otp == body[i..i + n]
                                     && !HasDecoyLabel(PrefixOf(body, i), classes)
  {
    var shape := registry[service].shape;
    var r := IntactCandidates(body, shape, classes.decimal);
    OneCandidateIsTheOnlyRun(body, shape, classes.decimal);
    if |r| == 1 {
      ContiguousScanFindsExactlyStandingRuns(body, shape, classes.decimal, r[0]);
      forall i: nat | OnlyRun(body, shape.digitLength, classes.decimal, i) ensures i == r[0].index { }
    }
  }

  /** The four services: six digits for all but Telegram's five, three and three by a hyphen for WhatsApp
      alone. Their shapes are valid, so all of the above applies to them. */
  lemma RegistryShapesAreValid()
    ensures forall code <- Registry() :: ValidShape(Registry()[code].shape)
    ensures Registry().Keys == {"wa", "tg", "ig", "go"}
    ensures Registry()["wa"].shape.digitLength == Registry()["ig"].shape.digitLength == Registry()["go"].shape.digitLength == 6
    ensures Registry()["tg"].shape.digitLength == 5
    ensures forall code <- Registry() :: Registry()[code].shape.grouping.Some? <==> code == "wa"
    ensures Registry()["wa"].shape.grouping == Some(Grouping([3, 3], 45))
  {
    assert [3, 3][1..] == [3] && [3][1..] == [];
    assert Sum([3]) == 3 && Sum([3, 3]) == 6;
  }

  method NamesAnotherService(sender: Text, markers: set<Text>) returns (foreign: bool)
    ensures foreign <==> IsForeignSender(sender, markers)
  {
    var left := markers;
    while left != {}
      invariant left <= markers
      invariant forall marker <- markers | marker !in left :: !Mentions(sender, marker)
    {
      var marker :| marker in left;
      var index := IndexOf(sender, marker, 0);
      if marker != [] && index.Some? {
        assert Mentions(sender, marker);
        return true;
      }
      left := left - {marker};
    }
    return false;
  }

  /** The rules run in order, each by its own search. */
  method Parse(registry: map<string, Spec>, thirdParty: set<Text>, service: string, body: Text, rule: Rule, classes: Classes)
    returns (result: ParseResult)
    requires forall code <- registry :: ValidShape(registry[code].shape)
    ensures result == ParseServiceOtp(registry, thirdParty, service, body, rule, classes)
  {
    if service !in registry {
      return Rejected(UnsupportedService);
    }
    var spec := registry[service];
    if rule.sender.Some? {
      var foreign := NamesAnotherService(classes.lower(rule.sender.value),
                                         rule.foreignMarkers.GetOr(ForeignMarkers(registry, thirdParty, service)));
      if foreign {
        return Rejected(ForeignSender);
      }
    }
    var found := HasKeyword(classes.lower(body), rule.keywords.GetOr(spec.keywords), classes.word);
    if !found {
      return Rejected(MissingKeyword);
    }
    var candidates := IntactCodeCandidates(body, spec.shape, classes.decimal);
    if |candidates| == 0 {
      return Rejected(NoCandidate);
    }
    if |candidates| > 1 {
      return Rejected(AmbiguousCandidates);
    }
    CandidateInBody(body, spec.shape, classes.decimal, candidates[0]);
    if HasDecoyLabel(PrefixOf(body, candidates[0].index), classes) {
      return Rejected(DecoyCandidate);
    }
    return Matched(candidates[0].value);
  }
}
