/** Textual IP addresses: dotted quads, and the IPv6 forms of section 2.2 of RFC 4291. */
module IpText {
  import opened Prelude
  import JobKeys

  // ---------------------------------------------------------------------------
  // Splitting and joining
  // ---------------------------------------------------------------------------

  function Split(s: string, separator: char): (parts: seq<string>)
    ensures parts != [] && forall p <- parts :: separator !in p
  {
    if s == "" then [""]
    else
      var rest := Split(s[1..], separator);
      if s[0] == separator then [""] + rest else [[s[0]] + rest[0]] + rest[1..]
  }

  function Join(parts: seq<string>, separator: char): string {
    if parts == [] then ""
    else if |parts| == 1 then parts[0]
    else parts[0] + [separator] + Join(parts[1..], separator)
  }

  lemma {:induction false} JoinSplit(s: string, separator: char)
    ensures Join(Split(s, separator), separator) == s
  {
    if s == "" {
    } else {
      JoinSplit(s[1..], separator);
      var rest := Split(s[1..], separator);
      if s[0] == separator {
        assert ([""] + rest)[1..] == rest;
        assert s == [s[0]] + s[1..];
      } else {
        var parts := [[s[0]] + rest[0]] + rest[1..];
        assert parts[1..] == rest[1..];
        assert s == [s[0]] + s[1..];
      }
    }
  }

  lemma {:induction false} SplitPrefix(part: string, rest: string, separator: char)
    requires separator !in part
    ensures Split(part + [separator] + rest, separator) == [part] + Split(rest, separator)
    ensures Split(part, separator) == [part]
  {
    var whole := part + [separator] + rest;
    if part == "" {
      assert whole[1..] == rest;
    } else {
      SplitPrefix(part[1..], rest, separator);
      assert whole[1..] == part[1..] + [separator] + rest;
      assert [part[0]] + part[1..] == part;
      var tail := Split(rest, separator);
      assert ([part[1..]] + tail)[1..] == tail;
    }
  }

  lemma {:induction false} SplitJoin(parts: seq<string>, separator: char)
    requires parts != [] && forall p <- parts :: separator !in p
    ensures Split(Join(parts, separator), separator) == parts
  {
    if |parts| == 1 {
      SplitPrefix(parts[0], "", separator);
    } else {
      SplitJoin(parts[1..], separator);
      SplitPrefix(parts[0], Join(parts[1..], separator), separator);
      assert parts == [parts[0]] + parts[1..];
    }
  }

  // ---------------------------------------------------------------------------
  // Positional values
  // ---------------------------------------------------------------------------

  function PowN(base: nat, n: nat): (p: nat)
    ensures base > 0 ==> p > 0
  {
    if n == 0 then 1 else base * PowN(base, n - 1)
  }

  /** Most significant digit first. */
  function ValueOf(digits: seq<nat>, base: nat): nat {
    if digits == [] then 0 else ValueOf(digits[..|digits| - 1], base) * base + digits[|digits| - 1]
  }

  predicate AllBelow(digits: seq<nat>, base: nat) { forall i :: 0 <= i < |digits| ==> digits[i] < base }

  lemma {:induction false} ValueBelow(digits: seq<nat>, base: nat)
    requires AllBelow(digits, base)
    ensures ValueOf(digits, base) < PowN(base, |digits|)
  {
    if digits == [] {
    } else {
      var n := |digits| - 1;
      ValueBelow(digits[..n], base);
      StepBelow(ValueOf(digits[..n], base), digits[n], PowN(base, n), base);
    }
  }

  lemma StepBelow(v: nat, d: nat, bound: nat, base: nat)
    requires v < bound && d < base
    ensures v * base + d < base * bound
  {
    assert (v + 1) * base <= bound * base by { MulMonotone(v + 1, bound, base); }
  }

  lemma MulMonotone(a: nat, b: nat, c: nat)
    requires a <= b
    ensures a * c <= b * c
  {
  }

  // ---------------------------------------------------------------------------
  // IPv4
  // ---------------------------------------------------------------------------

  predicate DecimalDigit(c: char) { '0' <= c <= '9' }

  predicate AllDecimal(s: string) { forall i :: 0 <= i < |s| ==> DecimalDigit(s[i]) }

  function DecimalValue(s: string): nat
    requires AllDecimal(s)
  {
    if s == "" then 0 else DecimalValue(s[..|s| - 1]) * 10 + (s[|s| - 1] as int - '0' as int)
  }

  predicate Octet(s: string) { 1 <= |s| <= 3 && AllDecimal(s) && DecimalValue(s) <= 255 }

  lemma {:induction false} DecimalReadsBack(n: nat)
    ensures AllDecimal(JobKeys.Decimal(n)) && DecimalValue(JobKeys.Decimal(n)) == n
  {
    var s := JobKeys.Decimal(n);
    if n < 10 {
      assert s[..0] == "";
    } else {
      DecimalReadsBack(n / 10);
      assert s[..|s| - 1] == JobKeys.Decimal(n / 10);
    }
  }

  lemma NumeralIsShort(n: nat)
    requires n < 1000
    ensures 1 <= |JobKeys.Decimal(n)| <= 3
  {
    var tens, hundreds := n / 10, n / 100;
    assert hundreds == tens / 10 && hundreds < 10;
    assert |JobKeys.Decimal(hundreds)| == 1;
    assert |JobKeys.Decimal(tens)| <= 2;
  }

  /** A number's decimal numeral is an octet of that value exactly when it is at most 255. */
  lemma NumeralIsOctetExactlyUpTo255(n: nat)
    ensures Octet(JobKeys.Decimal(n)) <==> n <= 255
    ensures forall s: string :: Octet(s) ==> 1 <= |s| <= 3
    ensures AllDecimal(JobKeys.Decimal(n)) && DecimalValue(JobKeys.Decimal(n)) == n
  {
    DecimalReadsBack(n);
    if n <= 255 { NumeralIsShort(n); }
  }

  predicate Octets(parts: seq<string>) { forall i :: 0 <= i < |parts| ==> Octet(parts[i]) }

  function OctetValues(parts: seq<string>): (r: seq<nat>)
    requires Octets(parts)
    ensures |r| == |parts| && AllBelow(r, 256)
  {
    seq(|parts|, i requires 0 <= i < |parts| => DecimalValue(parts[i]))
  }

  function ParseIpv4(input: string): Option<nat> {
    var parts := Split(input, '.');
    if |parts| == 4 && Octets(parts) then Some(ValueOf(OctetValues(parts), 256)) else None
  }

  /** The loop over the parts, shifting one octet in at a time. */
  method ReadIpv4(input: string) returns (r: Option<nat>)
    ensures r == ParseIpv4(input)
  {
    var parts := Split(input, '.');
    if |parts| != 4 {
      return None;
    }
    var value := 0;
    for i := 0 to |parts|
      invariant Octets(parts[..i])
      invariant value == ValueOf(OctetValues(parts[..i]), 256)
    {
      if !Octet(parts[i]) {
        return None;
      }
      assert OctetValues(parts[..i + 1])[..i] == OctetValues(parts[..i]);
      value := value * 256 + DecimalValue(parts[i]);
    }
    assert parts[..|parts|] == parts;
    return Some(value);
  }

  /** A text denotes an IPv4 address exactly when it is four octets joined by dots; the value is theirs. */
  lemma Ipv4Exactly(input: string, octets: seq<string>)
    requires |octets| == 4 && Octets(octets)
    ensures ParseIpv4(Join(octets, '.')) == Some(ValueOf(OctetValues(octets), 256))
    ensures ParseIpv4(input).Some? ==>
              var parts := Split(input, '.');
              |parts| == 4 && Octets(parts) && input == Join(parts, '.') && ParseIpv4(input).value < 0x1_0000_0000
  {
    forall i | 0 <= i < |octets| ensures '.' !in octets[i] { assert Octet(octets[i]); }
    SplitJoin(octets, '.');
    JoinSplit(input, '.');
    if ParseIpv4(input).Some? {
      ValueBelow(OctetValues(Split(input, '.')), 256);
      assert PowN(256, 4) == 0x1_0000_0000;
    }
  }

  // ---------------------------------------------------------------------------
  // Hextets
  // ---------------------------------------------------------------------------

  predicate HexDigit(c: char) { '0' <= c <= '9' || 'a' <= c <= 'f' || 'A' <= c <= 'F' }

  function HexDigitValue(c: char): (v: nat)
    requires HexDigit(c)
    ensures v < 16
  {
    if c <= '9' then c as int - '0' as int
    else if c <= 'F' then c as int - 'A' as int + 10
    else c as int - 'a' as int + 10
  }

  predicate AllHex(s: string) { forall i :: 0 <= i < |s| ==> HexDigit(s[i]) }

  function HexDigits(s: string): (r: seq<nat>)
    requires AllHex(s)
    ensures |r| == |s| && AllBelow(r, 16)
  {
    seq(|s|, i requires 0 <= i < |s| => HexDigitValue(s[i]))
  }

  predicate Hextet(s: string) { 1 <= |s| <= 4 && AllHex(s) }

  predicate Hextets(groups: seq<string>) { forall i :: 0 <= i < |groups| ==> Hextet(groups[i]) }

  function HextetValue(s: string): (v: nat)
    requires Hextet(s)
    ensures v < 0x1_0000
  {
    ValueBelow(HexDigits(s), 16);
    assert PowN(16, 1) == 16 && PowN(16, 2) == 256 && PowN(16, 3) == 4096 && PowN(16, 4) == 0x1_0000;
    ValueOf(HexDigits(s), 16)
  }

  function HextetValues(groups: seq<string>): (r: seq<nat>)
    requires Hextets(groups)
    ensures |r| == |groups| && AllBelow(r, 0x1_0000)
  {
    seq(|groups|, i requires 0 <= i < |groups| => HextetValue(groups[i]))
  }

  const HEX := "0123456789abcdef"

  /** The shortest lower-case hexadecimal numeral. */
  function Hex(n: nat): (s: string)
    ensures s != "" && AllHex(s)
  {
    if n < 16 then [HEX[n]] else Hex(n / 16) + [HEX[n % 16]]
  }

  const UPPER_HEX := "0123456789ABCDEF"

  /** Both spellings of a digit are read as its value. */
  lemma HexDigitReadsBack(n: nat)
    requires n < 16
    ensures HexDigit(HEX[n]) && HexDigitValue(HEX[n]) == n
    ensures HexDigit(UPPER_HEX[n]) && HexDigitValue(UPPER_HEX[n]) == n
  {
  }

  lemma OneDigit(n: nat)
    requires n < 16
    ensures ValueOf(HexDigits(Hex(n)), 16) == n
  {
    HexDigitReadsBack(n);
    assert HexDigits(Hex(n))[..0] == [];
  }

  lemma {:induction false} HexReadsBack(n: nat, k: nat)
    requires k >= 1 && n < PowN(16, k)
    ensures |Hex(n)| <= k && ValueOf(HexDigits(Hex(n)), 16) == n
    decreases n
  {
    if n < 16 {
      OneDigit(n);
    } else {
      assert PowN(16, 1) == 16;
      HexReadsBack(n / 16, k - 1);
      HexDigitReadsBack(n % 16);
      var s := Hex(n);
      assert s[..|s| - 1] == Hex(n / 16);
      assert HexDigits(s)[..|s| - 1] == HexDigits(Hex(n / 16));
    }
  }

  lemma HexIsHextet(n: nat)
    requires n < 0x1_0000
    ensures Hextet(Hex(n)) && HextetValue(Hex(n)) == n
  {
    assert PowN(16, 1) == 16 && PowN(16, 2) == 256 && PowN(16, 3) == 4096 && PowN(16, 4) == 0x1_0000;
    HexReadsBack(n, 4);
  }

  // ---------------------------------------------------------------------------
  // IPv6 made of hextets only
  // ---------------------------------------------------------------------------

  predicate DoubleAt(text: string, i: nat) { i + 1 < |text| && text[i] == ':' && text[i + 1] == ':' }

  /** The first `::` at or after a position. */
  function IndexOfDouble(text: string, from: nat): (index: Option<nat>)
    ensures match index
            case None => forall i: nat :: i >= from ==> !DoubleAt(text, i)
            case Some(k) => k >= from && DoubleAt(text, k) && forall i: nat :: from <= i < k ==> !DoubleAt(text, i)
    decreases |text| - from
  {
    if from + 1 >= |text| then None
    else if DoubleAt(text, from) then Some(from)
    else IndexOfDouble(text, from + 1)
  }

  function Zeros(n: nat): (r: seq<string>)
    ensures |r| == n && Hextets(r)
  {
    seq(n, i => "0")
  }

  function Groups(text: string): seq<string> { if text == "" then [] else Split(text, ':') }

  function ValueOfGroups(groups: seq<string>): Option<nat> {
    if Hextets(groups) then Some(ValueOf(HextetValues(groups), 0x1_0000)) else None
  }

  /** `::` stands for at least one group of zeros. */
  function ValueOfCompressed(head: seq<string>, rest: seq<string>): Option<nat> {
    if |head| + |rest| > 7 then None else ValueOfGroups(head + Zeros(8 - |head| - |rest|) + rest)
  }

  function ParseHextets(text: string): Option<nat> {
    var double := IndexOfDouble(text, 0);
    if double.None? then
      var head := Split(text, ':');
      if |head| != 8 then None else ValueOfGroups(head)
    else if IndexOfDouble(text, double.value + 1).Some? then None
    else
      ValueOfCompressed(Groups(text[..double.value]), Groups(text[double.value + 2..]))
  }

  /** The two ways section 2.2 of RFC 4291 writes eight hextets down. */
  datatype Form = Full(groups: seq<string>) | Compressed(head: seq<string>, rest: seq<string>)

  predicate WellFormed(f: Form) {
    match f
    case Full(groups) => |groups| == 8 && Hextets(groups)
    case Compressed(head, rest) => |head| + |rest| <= 7 && Hextets(head) && Hextets(rest)
  }

  function TextOf(f: Form): string {
    match f
    case Full(groups) => Join(groups, ':')
    case Compressed(head, rest) => Join(head, ':') + "::" + Join(rest, ':')
  }

  function AllGroups(f: Form): (groups: seq<string>)
    requires WellFormed(f)
    ensures |groups| == 8 && Hextets(groups)
  {
    match f
    case Full(groups) => groups
    case Compressed(head, rest) => head + Zeros(8 - |head| - |rest|) + rest
  }

  function Address(f: Form): nat
    requires WellFormed(f)
  {
    ValueOf(HextetValues(AllGroups(f)), 0x1_0000)
  }

  /** A number with `n` hextets of zeros written behind it. */
  function Shifted(v: nat, n: nat): nat { if n == 0 then v else Shifted(v, n - 1) * 0x1_0000 }

  lemma {:induction false} ValueOfConcat(a: seq<nat>, b: seq<nat>)
    ensures ValueOf(a + b, 0x1_0000) == Shifted(ValueOf(a, 0x1_0000), |b|) + ValueOf(b, 0x1_0000)
    decreases |b|
  {
    if b == [] {
      assert a + b == a;
    } else {
      var n := |b| - 1;
      ValueOfConcat(a, b[..n]);
      assert (a + b)[..|a| + n] == a + b[..n];
    }
  }

  lemma {:induction false} ShiftedTwice(v: nat, m: nat, n: nat)
    ensures Shifted(Shifted(v, m), n) == Shifted(v, m + n)
  {
    if n == 0 {
    } else {
      ShiftedTwice(v, m, n - 1);
    }
  }

  lemma {:induction false} ZerosAreNothing(n: nat)
    ensures ValueOf(HextetValues(Zeros(n)), 0x1_0000) == 0
  {
    if n == 0 {
    } else {
      ZerosAreNothing(n - 1);
      assert Zeros(n)[..n - 1] == Zeros(n - 1);
      assert HextetValues(Zeros(n))[..n - 1] == HextetValues(Zeros(n - 1));
      ZeroHextet();
    }
  }

  lemma ZeroHextet()
    ensures Hextet("0") && HextetValue("0") == 0
  {
    assert HexDigits("0") == [0] && [0][..0] == [];
  }

  function GroupsValue(groups: seq<string>): nat
    requires Hextets(groups)
  {
    ValueOf(HextetValues(groups), 0x1_0000)
  }

  lemma HextetsConcat(a: seq<string>, b: seq<string>)
    requires Hextets(a) && Hextets(b)
    ensures Hextets(a + b)
  {
  }

  lemma HextetValuesConcat(a: seq<string>, b: seq<string>)
    requires Hextets(a) && Hextets(b) && Hextets(a + b)
    ensures HextetValues(a + b) == HextetValues(a) + HextetValues(b)
  {
  }

  lemma ConcatValue(a: seq<string>, b: seq<string>)
    requires Hextets(a) && Hextets(b) && Hextets(a + b)
    ensures GroupsValue(a + b) == Shifted(GroupsValue(a), |b|) + GroupsValue(b)
  {
    HextetValuesConcat(a, b);
    ValueOfConcat(HextetValues(a), HextetValues(b));
  }

  lemma ZerosAfter(head: seq<string>, zeros: seq<string>, n: nat)
    requires Hextets(head) && Hextets(zeros) && |zeros| == n && GroupsValue(zeros) == 0 && Hextets(head + zeros)
    ensures GroupsValue(head + zeros) == Shifted(GroupsValue(head), n)
  {
    ConcatValue(head, zeros);
  }

  lemma NothingBetween(head: seq<string>, leading: seq<string>, rest: seq<string>, n: nat)
    requires Hextets(head) && Hextets(leading) && Hextets(rest) && Hextets(leading + rest)
    requires GroupsValue(leading) == Shifted(GroupsValue(head), n)
    ensures GroupsValue(leading + rest) == Shifted(GroupsValue(head), n + |rest|) + GroupsValue(rest)
  {
    ConcatValue(leading, rest);
    ShiftedTwice(GroupsValue(head), n, |rest|);
  }

  lemma ZerosBetween(head: seq<string>, n: nat, rest: seq<string>)
    requires Hextets(head) && Hextets(rest) && Hextets(head + Zeros(n) + rest)
    ensures GroupsValue(head + Zeros(n) + rest) == Shifted(GroupsValue(head), n + |rest|) + GroupsValue(rest)
  {
    ZerosAreNothing(n);
    HextetsConcat(head, Zeros(n));
    ZerosAfter(head, Zeros(n), n);
    NothingBetween(head, head + Zeros(n), rest, n);
  }

  lemma ZerosFill(head: seq<string>, rest: seq<string>, total: nat)
    requires |head| + |rest| <= total && Hextets(head) && Hextets(rest)
    ensures Hextets(head + Zeros(total - |head| - |rest|) + rest)
    ensures GroupsValue(head + Zeros(total - |head| - |rest|) + rest) ==
              Shifted(GroupsValue(head), total - |head|) + GroupsValue(rest)
  {
    var n := total - |head| - |rest|;
    HextetsConcat(head, Zeros(n));
    HextetsConcat(head + Zeros(n), rest);
    ZerosBetween(head, n, rest);
  }

  /** `::` stands for zeros: the groups before it are the leading ones of the address and those after it
      the trailing ones, with nothing in between. */
  lemma CompressedAddressIs(f: Form)
    requires WellFormed(f) && f.Compressed?
    ensures Address(f) == Shifted(GroupsValue(f.head), 8 - |f.head|) + GroupsValue(f.rest)
  {
    ZerosFill(f.head, f.rest, 8);
    assert Address(f) == GroupsValue(AllGroups(f));
  }

  /** Addresses have 128 bits. */
  lemma AddressBelow(f: Form)
    requires WellFormed(f)
    ensures Address(f) < 0x1_0000_0000_0000_0000_0000_0000_0000_0000
  {
    ValueBelow(HextetValues(AllGroups(f)), 0x1_0000);
    assert PowN(0x1_0000, 8) == 0x1_0000_0000_0000_0000_0000_0000_0000_0000;
  }

  // --- texts of groups -------------------------------------------------------

  /** Joined groups never start or end with a colon, nor hold two in a row. */
  lemma {:induction false} JoinedGroups(groups: seq<string>)
    requires groups != [] && Hextets(groups)
    ensures var text := Join(groups, ':');
            && text != "" && text[0] != ':' && text[|text| - 1] != ':'
            && (forall i: nat :: !DoubleAt(text, i))
            && (forall i :: 0 <= i < |text| ==> text[i] == ':' || HexDigit(text[i]))
  {
    assert Hextet(groups[0]);
    if |groups| > 1 {
      var rest := Join(groups[1..], ':');
      JoinedGroups(groups[1..]);
      var text := Join(groups, ':');
      assert text == groups[0] + ":" + rest;
      forall i: nat ensures !DoubleAt(text, i) {
        if i > |groups[0]| { assert DoubleAt(text, i) ==> DoubleAt(rest, i - |groups[0]| - 1); }
      }
    }
  }

  lemma GroupsOfJoin(groups: seq<string>)
    requires Hextets(groups)
    ensures Groups(Join(groups, ':')) == groups
    ensures groups != [] ==> Split(Join(groups, ':'), ':') == groups
  {
    if groups != [] {
      JoinedGroups(groups);
      forall i | 0 <= i < |groups| ensures ':' !in groups[i] { assert Hextet(groups[i]); }
      SplitJoin(groups, ':');
    }
  }

  lemma CompressedHasOneDouble(head: seq<string>, rest: seq<string>)
    requires Hextets(head) && Hextets(rest)
    ensures var text := TextOf(Compressed(head, rest)); var h := |Join(head, ':')|;
            forall i: nat :: DoubleAt(text, i) <==> i == h
  {
    var left, right := Join(head, ':'), Join(rest, ':');
    var text := left + "::" + right;
    if head != [] { JoinedGroups(head); }
    if rest != [] { JoinedGroups(rest); }
    forall i: nat ensures DoubleAt(text, i) <==> i == |left| {
      if i + 1 < |left| { assert DoubleAt(text, i) <==> DoubleAt(left, i); }
      if i > |left| + 1 { assert DoubleAt(text, i) <==> DoubleAt(right, i - |left| - 2); }
    }
  }

  lemma FullParses(groups: seq<string>)
    requires WellFormed(Full(groups))
    ensures ParseHextets(Join(groups, ':')) == ValueOfGroups(groups)
  {
    JoinedGroups(groups);
    GroupsOfJoin(groups);
  }

  /** How a compressed text is taken apart. */
  lemma CompressedTakenApart(head: seq<string>, rest: seq<string>)
    requires Hextets(head) && Hextets(rest)
    ensures var text := TextOf(Compressed(head, rest)); var h := |Join(head, ':')|;
            && IndexOfDouble(text, 0) == Some(h) && IndexOfDouble(text, h + 1) == None
            && h + 2 <= |text| && Groups(text[..h]) == head && Groups(text[h + 2..]) == rest
  {
    var text, left := TextOf(Compressed(head, rest)), Join(head, ':');
    CompressedHasOneDouble(head, rest);
    assert DoubleAt(text, |left|);
    assert text[..|left|] == left && text[|left| + 2..] == Join(rest, ':');
    GroupsOfJoin(head);
    GroupsOfJoin(rest);
  }

  lemma CompressedParses(head: seq<string>, rest: seq<string>)
    requires WellFormed(Compressed(head, rest))
    ensures ParseHextets(TextOf(Compressed(head, rest))) == ValueOfCompressed(head, rest)
  {
    CompressedTakenApart(head, rest);
  }

  /** Every well-formed text parses to its address. */
  lemma EveryFormParses(f: Form)
    requires WellFormed(f)
    ensures ParseHextets(TextOf(f)) == Some(Address(f))
  {
    match f
    case Full(groups) => FullParses(groups);
    case Compressed(head, rest) => CompressedParses(head, rest);
  }

  /** The form a text is read as. */
  function FormOf(text: string): Form {
    match IndexOfDouble(text, 0)
    case None => Full(Split(text, ':'))
    case Some(k) => Compressed(Groups(text[..k]), Groups(text[k + 2..]))
  }

  lemma MiddleHextets(head: seq<string>, zeros: seq<string>, rest: seq<string>)
    requires Hextets(head + zeros + rest)
    ensures Hextets(head) && Hextets(rest)
  {
    var groups := head + zeros + rest;
    forall i | 0 <= i < |head| ensures Hextet(head[i]) { assert groups[i] == head[i]; }
    forall i | 0 <= i < |rest| ensures Hextet(rest[i]) { assert groups[|head| + |zeros| + i] == rest[i]; }
  }

  lemma JoinGroups(text: string)
    ensures Join(Groups(text), ':') == text
  {
    JoinSplit(text, ':');
  }

  lemma AroundDouble(text: string, k: nat)
    requires DoubleAt(text, k)
    ensures text == text[..k] + "::" + text[k + 2..]
  {
  }

  lemma FormOfIsTheText(text: string)
    ensures TextOf(FormOf(text)) == text
  {
    match IndexOfDouble(text, 0)
    case None => JoinSplit(text, ':');
    case Some(k) =>
      JoinGroups(text[..k]);
      JoinGroups(text[k + 2..]);
      AroundDouble(text, k);
  }

  lemma ValuedCompressedIsWellFormed(head: seq<string>, rest: seq<string>)
    requires ValueOfCompressed(head, rest).Some?
    ensures WellFormed(Compressed(head, rest))
  {
    MiddleHextets(head, Zeros(8 - |head| - |rest|), rest);
  }

  lemma FormOfIsWellFormed(text: string)
    requires ParseHextets(text).Some?
    ensures WellFormed(FormOf(text))
  {
    match IndexOfDouble(text, 0)
    case None =>
    case Some(k) => ValuedCompressedIsWellFormed(Groups(text[..k]), Groups(text[k + 2..]));
  }

  /** Whatever parses is a well-formed text, and parses to that form's address. */
  lemma OnlyFormsParse(text: string)
    requires ParseHextets(text).Some?
    ensures WellFormed(FormOf(text)) && TextOf(FormOf(text)) == text && ParseHextets(text) == Some(Address(FormOf(text)))
  {
    FormOfIsTheText(text);
    FormOfIsWellFormed(text);
    EveryFormParses(FormOf(text));
  }

  // ---------------------------------------------------------------------------
  // IPv6 with an embedded IPv4 tail
  // ---------------------------------------------------------------------------

  /** One past the last colon. */
  function AfterLastColon(text: string): (k: nat)
    ensures k <= |text| && ':' !in text[k..] && (k > 0 ==> text[k - 1] == ':')
  {
    if text == "" then 0
    else if text[|text| - 1] == ':' then |text|
    else
      var k := AfterLastColon(text[..|text| - 1]);
      assert text[k..] == text[..|text| - 1][k..] + [text[|text| - 1]];
      k
  }

  /** An IPv4 address as two hextets. */
  function TwoHextets(v4: nat): string { Hex(v4 / 0x1_0000 % 0x1_0000) + ":" + Hex(v4 % 0x1_0000) }

  function Expand(input: string): Option<string> {
    var k := AfterLastColon(input);
    if '.' !in input[k..] then Some(input)
    else
      match ParseIpv4(input[k..])
      case None => None
      case Some(v4) => Some(input[..k] + TwoHextets(v4))
  }

  /** Zone identifiers and brackets are not part of an address, and a colon is. */
  predicate BareWithColon(input: string) { '%' !in input && '[' !in input && ']' !in input && ':' in input }

  function ParseExpanded(text: Option<string>): Option<nat> {
    if text.None? then None else ParseHextets(text.value)
  }

  function ParseIpv6(input: string): Option<nat> {
    if BareWithColon(input) then ParseExpanded(Expand(input)) else None
  }

  predicate PlainChars(text: string) { forall i :: 0 <= i < |text| ==> text[i] == ':' || HexDigit(text[i]) }

  lemma CompressedChars(head: seq<string>, rest: seq<string>)
    requires Hextets(head) && Hextets(rest)
    ensures var text := TextOf(Compressed(head, rest)); PlainChars(text) && ':' in text
  {
    if head != [] { JoinedGroups(head); }
    if rest != [] { JoinedGroups(rest); }
    assert TextOf(Compressed(head, rest))[|Join(head, ':')|] == ':';
  }

  lemma FormChars(f: Form)
    requires WellFormed(f)
    ensures PlainChars(TextOf(f)) && ':' in TextOf(f)
  {
    match f
    case Full(groups) =>
      JoinedGroups(groups);
      assert Join(groups, ':') == groups[0] + ":" + Join(groups[1..], ':');
    case Compressed(head, rest) => CompressedChars(head, rest);
  }

  lemma PlainIsNotExpanded(text: string)
    requires PlainChars(text) && ':' in text
    ensures ParseIpv6(text) == ParseHextets(text)
  {
    assert forall c <- text :: c != '.' && c != '%' && c != '[' && c != ']';
    assert forall c <- text[AfterLastColon(text)..] :: c in text;
  }

  /** Section 2.2 of RFC 4291, items 1 and 2: every full or compressed text of a 128-bit value parses
      to that value. */
  lemma EveryTextualFormParses(f: Form)
    requires WellFormed(f)
    ensures ParseIpv6(TextOf(f)) == Some(Address(f)) && Address(f) < 0x1_0000_0000_0000_0000_0000_0000_0000_0000
  {
    FormChars(f);
    PlainIsNotExpanded(TextOf(f));
    EveryFormParses(f);
    AddressBelow(f);
  }

  lemma {:induction false} LastColonFound(before: string, tail: string)
    requires before != "" && before[|before| - 1] == ':' && ':' !in tail
    ensures AfterLastColon(before + tail) == |before|
    decreases |tail|
  {
    if tail == "" {
      assert before + tail == before;
    } else {
      var shorter := tail[..|tail| - 1];
      assert (before + tail)[..|before + tail| - 1] == before + shorter;
      LastColonFound(before, shorter);
    }
  }

  lemma {:induction false} JoinedOctets(octets: seq<string>)
    requires octets != [] && Octets(octets)
    ensures var text := Join(octets, '.');
            && (forall i :: 0 <= i < |text| ==> text[i] == '.' || DecimalDigit(text[i]))
            && (|octets| > 1 ==> '.' in text)
  {
    assert Octet(octets[0]);
    if |octets| > 1 {
      JoinedOctets(octets[1..]);
      var text := Join(octets, '.');
      assert text == octets[0] + "." + Join(octets[1..], '.');
      assert text[|octets[0]|] == '.';
    }
  }

  lemma TailExpands(before: string, octets: seq<string>)
    requires before != "" && before[|before| - 1] == ':' && |octets| == 4 && Octets(octets)
    ensures Expand(before + Join(octets, '.')) == Some(before + TwoHextets(ValueOf(OctetValues(octets), 256)))
  {
    var tail := Join(octets, '.');
    Ipv4Exactly(tail, octets);
    JoinedOctets(octets);
    LastColonFound(before, tail);
    var text := before + tail;
    assert text[..|before|] == before && text[|before|..] == tail;
  }

  lemma QuadIsBare(before: string, octets: seq<string>)
    requires before != "" && before[|before| - 1] == ':' && PlainChars(before)
    requires |octets| == 4 && Octets(octets)
    ensures BareWithColon(before + Join(octets, '.'))
  {
    JoinedOctets(octets);
    var text := before + Join(octets, '.');
    assert text[|before| - 1] == ':';
    assert forall i :: 0 <= i < |text| ==> text[i] == ':' || text[i] == '.' || HexDigit(text[i]);
  }

  lemma HextetsAreNotExpanded(before: string, v4: nat)
    requires before != "" && before[|before| - 1] == ':' && PlainChars(before)
    ensures ParseIpv6(before + TwoHextets(v4)) == ParseHextets(before + TwoHextets(v4))
  {
    var text := before + TwoHextets(v4);
    assert text[|before| - 1] == ':';
    assert PlainChars(TwoHextets(v4));
    PlainIsNotExpanded(text);
  }

  /** Item 3: a dotted-quad tail stands for the two hextets of its 32 bits. */
  lemma DottedTailIsTwoHextets(before: string, octets: seq<string>)
    requires before != "" && before[|before| - 1] == ':' && PlainChars(before)
    requires |octets| == 4 && Octets(octets)
    ensures ParseIpv6(before + Join(octets, '.')) == ParseIpv6(before + TwoHextets(ValueOf(OctetValues(octets), 256)))
  {
    TailExpands(before, octets);
    QuadIsBare(before, octets);
    HextetsAreNotExpanded(before, ValueOf(OctetValues(octets), 256));
  }

  // --- texts whose last 32 bits are a dotted quad ------------------------------

  /** Six hextets, or a compression that leaves room for them, and four octets. */
  datatype EmbeddedForm =
    | EmbeddedFull(groups: seq<string>, octets: seq<string>)
    | EmbeddedCompressed(head: seq<string>, rest: seq<string>, octets: seq<string>)

  predicate WellFormedEmbedded(e: EmbeddedForm) {
    && |e.octets| == 4 && Octets(e.octets)
    && match e
       case EmbeddedFull(groups, _) => |groups| == 6 && Hextets(groups)
       case EmbeddedCompressed(head, rest, _) => |head| + |rest| <= 5 && Hextets(head) && Hextets(rest)
  }

  /** What stands before the quad. */
  function LeadingText(e: EmbeddedForm): string {
    match e
    case EmbeddedFull(groups, _) => Join(groups, ':') + ":"
    case EmbeddedCompressed(head, rest, _) => Join(head, ':') + "::" + if rest == [] then "" else Join(rest, ':') + ":"
  }

  function EmbeddedText(e: EmbeddedForm): string { LeadingText(e) + Join(e.octets, '.') }

  /** The hextets of the upper 96 bits. */
  function LeadingGroups(e: EmbeddedForm): (groups: seq<string>)
    requires WellFormedEmbedded(e)
    ensures |groups| == 6 && Hextets(groups)
  {
    match e
    case EmbeddedFull(groups, _) => groups
    case EmbeddedCompressed(head, rest, _) => head + Zeros(6 - |head| - |rest|) + rest
  }

  /** The hextets above, the quad below. */
  function EmbeddedAddress(e: EmbeddedForm): nat
    requires WellFormedEmbedded(e)
  {
    ValueOf(HextetValues(LeadingGroups(e)), 0x1_0000) * 0x1_0000_0000 + ValueOf(OctetValues(e.octets), 256)
  }

  lemma EmbeddedCompressedAddressIs(e: EmbeddedForm)
    requires WellFormedEmbedded(e) && e.EmbeddedCompressed?
    ensures EmbeddedAddress(e) == (Shifted(GroupsValue(e.head), 6 - |e.head|) + GroupsValue(e.rest)) * 0x1_0000_0000
                                  + ValueOf(OctetValues(e.octets), 256)
  {
    ZerosFill(e.head, e.rest, 6);
    assert LeadingGroups(e) == e.head + Zeros(6 - |e.head| - |e.rest|) + e.rest;
  }

  function QuadGroups(v4: nat): (two: seq<string>)
    ensures |two| == 2
  {
    [Hex(v4 / 0x1_0000 % 0x1_0000), Hex(v4 % 0x1_0000)]
  }

  /** The same text with the quad written as two hextets. */
  function Spelled(e: EmbeddedForm, two: seq<string>): Form {
    match e
    case EmbeddedFull(groups, _) => Full(groups + two)
    case EmbeddedCompressed(head, rest, _) => Compressed(head, rest + two)
  }

  lemma {:induction false} JoinAppend(a: seq<string>, b: seq<string>, separator: char)
    requires a != [] && b != []
    ensures Join(a + b, separator) == Join(a, separator) + [separator] + Join(b, separator)
  {
    assert (a + b)[1..] == a[1..] + b;
    if |a| == 1 {
      assert a[1..] + b == b;
    } else {
      JoinAppend(a[1..], b, separator);
      var first, rest := a[0] + [separator], Join(a[1..], separator);
      assert first + (rest + [separator] + Join(b, separator)) == (first + rest) + [separator] + Join(b, separator);
    }
  }

  lemma QuadGroupsJoin(v4: nat)
    ensures Join(QuadGroups(v4), ':') == TwoHextets(v4)
  {
    assert QuadGroups(v4)[1..] == [Hex(v4 % 0x1_0000)];
  }

  lemma SpelledText(e: EmbeddedForm, v4: nat)
    requires e.EmbeddedFull? ==> e.groups != []
    ensures TextOf(Spelled(e, QuadGroups(v4))) == LeadingText(e) + TwoHextets(v4)
  {
    QuadGroupsJoin(v4);
    match e
    case EmbeddedFull(groups, _) => JoinAppend(groups, QuadGroups(v4), ':');
    case EmbeddedCompressed(head, rest, _) =>
      if rest == [] {
        assert rest + QuadGroups(v4) == QuadGroups(v4);
      } else {
        JoinAppend(rest, QuadGroups(v4), ':');
        assert Join(head, ':') + "::" + (Join(rest, ':') + ":" + TwoHextets(v4)) == LeadingText(e) + TwoHextets(v4);
      }
  }

  lemma HighHalf(v4: nat)
    requires v4 < 0x1_0000_0000
    ensures v4 / 0x1_0000 < 0x1_0000 && v4 / 0x1_0000 % 0x1_0000 == v4 / 0x1_0000
  {
  }

  lemma QuadGroupsAreHextets(v4: nat)
    requires v4 < 0x1_0000_0000
    ensures Hextets(QuadGroups(v4))
    ensures HextetValue(QuadGroups(v4)[0]) * 0x1_0000 + HextetValue(QuadGroups(v4)[1]) == v4
  {
    HighHalf(v4);
    HexIsHextet(v4 / 0x1_0000);
    HexIsHextet(v4 % 0x1_0000);
  }

  lemma OneMoreHextet(groups: seq<string>, group: string)
    requires Hextets(groups) && Hextet(group)
    ensures Hextets(groups + [group])
    ensures ValueOf(HextetValues(groups + [group]), 0x1_0000) == ValueOf(HextetValues(groups), 0x1_0000) * 0x1_0000 + HextetValue(group)
  {
    assert HextetValues(groups + [group]) == HextetValues(groups) + [HextetValue(group)];
    assert (HextetValues(groups) + [HextetValue(group)])[..|groups|] == HextetValues(groups);
  }

  lemma TwoMoreHextets(groups: seq<string>, v4: nat)
    requires Hextets(groups) && v4 < 0x1_0000_0000
    ensures Hextets(groups + QuadGroups(v4))
    ensures ValueOf(HextetValues(groups + QuadGroups(v4)), 0x1_0000) == ValueOf(HextetValues(groups), 0x1_0000) * 0x1_0000_0000 + v4
  {
    var two := QuadGroups(v4);
    QuadGroupsAreHextets(v4);
    OneMoreHextet(groups, two[0]);
    OneMoreHextet(groups + [two[0]], two[1]);
    assert groups + [two[0]] + [two[1]] == groups + two;
  }

  /** Spelling the quad out changes neither the form nor the address. */
  lemma SpelledAddress(e: EmbeddedForm)
    requires WellFormedEmbedded(e)
    ensures var v4 := ValueOf(OctetValues(e.octets), 256);
            WellFormed(Spelled(e, QuadGroups(v4))) && Address(Spelled(e, QuadGroups(v4))) == EmbeddedAddress(e)
  {
    var v4 := ValueOf(OctetValues(e.octets), 256);
    ValueBelow(OctetValues(e.octets), 256);
    assert PowN(256, 4) == 0x1_0000_0000;
    TwoMoreHextets(LeadingGroups(e), v4);
    if e.EmbeddedCompressed? {
      TwoMoreHextets(e.rest, v4);
      var zeros := Zeros(6 - |e.head| - |e.rest|);
      assert e.head + zeros + (e.rest + QuadGroups(v4)) == (e.head + zeros + e.rest) + QuadGroups(v4);
    }
  }

  lemma LeadingTextIsPlain(e: EmbeddedForm)
    requires match e
             case EmbeddedFull(groups, _) => groups != [] && Hextets(groups)
             case EmbeddedCompressed(head, rest, _) => Hextets(head) && Hextets(rest)
    ensures var before := LeadingText(e); before != "" && before[|before| - 1] == ':' && PlainChars(before)
  {
    match e
    case EmbeddedFull(groups, _) => JoinedGroups(groups);
    case EmbeddedCompressed(head, rest, _) =>
      if head != [] { JoinedGroups(head); }
      if rest != [] { JoinedGroups(rest); }
  }

  /** Every full or compressed text whose last 32 bits are written as a dotted quad parses to the
      address whose upper 96 bits are its hextets and whose lower 32 bits are the quad. */
  lemma EveryEmbeddedFormParses(e: EmbeddedForm)
    requires WellFormedEmbedded(e)
    ensures ParseIpv6(EmbeddedText(e)) == Some(EmbeddedAddress(e))
  {
    var v4 := ValueOf(OctetValues(e.octets), 256);
    LeadingTextIsPlain(e);
    DottedTailIsTwoHextets(LeadingText(e), e.octets);
    SpelledText(e, v4);
    SpelledAddress(e);
    EveryTextualFormParses(Spelled(e, QuadGroups(v4)));
  }

  // --- what is refused ---------------------------------------------------------

  lemma InSuffix(s: string, k: nat, i: nat)
    requires k <= |s| && i < |s|
    ensures k <= i ==> s[i] in s[k..]
  {
    if k <= i { assert s[k..][i - k] == s[i]; }
  }

  /** Two `::` are refused, overlapping ones included, whatever the rest of the text looks like. */
  lemma TwoDoublesAreRefused(input: string, i: nat, j: nat)
    requires i < j && DoubleAt(input, i) && DoubleAt(input, j)
    ensures ParseIpv6(input) == None
  {
    var k := AfterLastColon(input);
    InSuffix(input, k, j + 1);
    if Expand(input).Some? {
      var text := Expand(input).value;
      assert DoubleAt(text, i) && DoubleAt(text, j);
    }
  }

  /** Without `::` any number of hextets other than eight is refused. */
  lemma WrongCountIsRefused(groups: seq<string>)
    requires Hextets(groups) && |groups| != 8
    ensures ParseIpv6(Join(groups, ':')) == None
  {
    if groups != [] {
      JoinedGroups(groups);
      GroupsOfJoin(groups);
      if ':' in Join(groups, ':') { PlainIsNotExpanded(Join(groups, ':')); }
    }
  }

  /** With `::`, which stands for at least one, more than seven are refused. */
  lemma WrongCompressedCountIsRefused(head: seq<string>, rest: seq<string>)
    requires Hextets(head) && Hextets(rest) && |head| + |rest| > 7
    ensures ParseIpv6(TextOf(Compressed(head, rest))) == None
  {
    CompressedTakenApart(head, rest);
    CompressedChars(head, rest);
    PlainIsNotExpanded(TextOf(Compressed(head, rest)));
  }

  /** Before a dotted quad there is room for six hextets, or for five around a `::`. */
  lemma WrongEmbeddedCountIsRefused(e: EmbeddedForm)
    requires |e.octets| == 4 && Octets(e.octets)
    requires match e
             case EmbeddedFull(groups, _) => groups != [] && Hextets(groups) && |groups| != 6
             case EmbeddedCompressed(head, rest, _) => Hextets(head) && Hextets(rest) && |head| + |rest| > 5
    ensures ParseIpv6(EmbeddedText(e)) == None
  {
    var v4 := ValueOf(OctetValues(e.octets), 256);
    ValueBelow(OctetValues(e.octets), 256);
    assert PowN(256, 4) == 0x1_0000_0000;
    LeadingTextIsPlain(e);
    DottedTailIsTwoHextets(LeadingText(e), e.octets);
    SpelledText(e, v4);
    match e
    case EmbeddedFull(groups, _) =>
      TwoMoreHextets(groups, v4);
      WrongCountIsRefused(groups + QuadGroups(v4));
    case EmbeddedCompressed(head, rest, _) =>
      TwoMoreHextets(rest, v4);
      WrongCompressedCountIsRefused(head, rest + QuadGroups(v4));
  }

  // --- nothing else is accepted ------------------------------------------------

  lemma SplitStep(c: char, s: string, separator: char)
    ensures Split([c] + s, separator) ==
              var rest := Split(s, separator);
              if c == separator then [""] + rest else [[c] + rest[0]] + rest[1..]
  {
    assert ([c] + s)[1..] == s;
  }

  lemma {:induction false} SplitAppend(a: string, b: string, separator: char)
    ensures Split(a + [separator] + b, separator) == Split(a, separator) + Split(b, separator)
  {
    if a == "" {
      assert a + [separator] + b == [separator] + b;
      SplitStep(separator, b, separator);
    } else {
      SplitAppend(a[1..], b, separator);
      var shorter := a[1..] + [separator] + b;
      assert a + [separator] + b == [a[0]] + shorter;
      SplitStep(a[0], shorter, separator);
      assert a == [a[0]] + a[1..];
      SplitStep(a[0], a[1..], separator);
      AppendAfterFirst(Split(a[1..], separator), Split(b, separator), a[0]);
    }
  }

  lemma AppendAfterFirst(first: seq<string>, rest: seq<string>, c: char)
    requires first != []
    ensures (first + rest)[0] == first[0]
    ensures [""] + (first + rest) == ([""] + first) + rest
    ensures [[c] + first[0]] + (first + rest)[1..] == ([[c] + first[0]] + first[1..]) + rest
  {
    assert (first + rest)[1..] == first[1..] + rest;
  }

  lemma TwoHextetsSplit(v4: nat)
    ensures var two := TwoHextets(v4); Split(two, ':') == QuadGroups(v4) && Solid(two)
  {
    var high, low := Hex(v4 / 0x1_0000 % 0x1_0000), Hex(v4 % 0x1_0000);
    SplitPrefix(high, low, ':');
    SplitPrefix(low, "", ':');
  }

  /** A text that can follow a colon without making a `::`. */
  ghost predicate Solid(tail: string) { tail != "" && tail[0] != ':' && forall i: nat :: !DoubleAt(tail, i) }

  /** A `::` lies before such a text. */
  lemma DoubleLiesBefore(before: string, tail: string, d: nat)
    requires Solid(tail) && DoubleAt(before + tail, d)
    ensures d + 2 <= |before| && DoubleAt(before, d)
  {
    assert (before + tail)[|before|] == tail[0];
    if d >= |before| { assert DoubleAt(tail, d - |before|); }
  }

  lemma SameFirstDouble(before: string, tail: string)
    requires Solid(tail)
    ensures IndexOfDouble(before + tail, 0) == IndexOfDouble(before, 0)
  {
    var text := before + tail;
    if IndexOfDouble(text, 0).Some? { DoubleLiesBefore(before, tail, IndexOfDouble(text, 0).value); }
    if IndexOfDouble(before, 0).Some? { assert DoubleAt(text, IndexOfDouble(before, 0).value); }
  }

  /** The groups of a text that is empty or ends in a colon. */
  function GroupsBefore(rest: string): seq<string> { if rest == "" then [] else Split(rest[..|rest| - 1], ':') }

  /** How a text with a dotted quad is read. */
  function EmbeddedFormOf(before: string, quad: string): EmbeddedForm
    requires before != ""
  {
    var octets := Split(quad, '.');
    match IndexOfDouble(before, 0)
    case None => EmbeddedFull(GroupsBefore(before), octets)
    case Some(d) => EmbeddedCompressed(Groups(before[..d]), GroupsBefore(before[d + 2..]), octets)
  }

  lemma EmbeddedFormOfIsTheText(before: string, quad: string)
    requires before != "" && before[|before| - 1] == ':'
    ensures EmbeddedText(EmbeddedFormOf(before, quad)) == before + quad
  {
    JoinSplit(quad, '.');
    match IndexOfDouble(before, 0)
    case None =>
      JoinSplit(before[..|before| - 1], ':');
      assert before == before[..|before| - 1] + ":";
    case Some(d) =>
      var rest := before[d + 2..];
      JoinSplit(before[..d], ':');
      assert before == before[..d] + "::" + rest;
      if rest != "" {
        JoinSplit(rest[..|rest| - 1], ':');
        assert rest == rest[..|rest| - 1] + ":";
      }
  }

  lemma SliceOfSum(before: string, tail: string, d: nat)
    requires d + 2 <= |before|
    ensures (before + tail)[..d] == before[..d] && (before + tail)[d + 2..] == before[d + 2..] + tail
  {
  }

  lemma RestIsReadAlike(rest: string, tail: string)
    requires tail != "" && (rest != "" ==> rest[|rest| - 1] == ':')
    ensures Groups(rest + tail) == GroupsBefore(rest) + Split(tail, ':')
  {
    if rest == "" {
      assert rest + tail == tail;
    } else {
      SplitBefore(rest, tail);
    }
  }

  lemma FullReadAlike(before: string, tail: string)
    requires before != "" && before[|before| - 1] == ':' && IndexOfDouble(before + tail, 0).None?
    ensures FormOf(before + tail) == Full(GroupsBefore(before) + Split(tail, ':'))
  {
    SplitBefore(before, tail);
  }

  lemma CompressedReadAlike(before: string, tail: string, d: nat)
    requires before != "" && before[|before| - 1] == ':' && tail != ""
    requires d + 2 <= |before| && IndexOfDouble(before + tail, 0) == Some(d)
    ensures FormOf(before + tail) == Compressed(Groups(before[..d]), GroupsBefore(before[d + 2..]) + Split(tail, ':'))
  {
    SliceOfSum(before, tail, d);
    RestIsReadAlike(before[d + 2..], tail);
  }

  /** Reading the text with the quad spelled out finds the same groups. */
  lemma SpelledOutIsReadAlike(before: string, quad: string, tail: string)
    requires before != "" && before[|before| - 1] == ':' && Solid(tail)
    ensures FormOf(before + tail) == Spelled(EmbeddedFormOf(before, quad), Split(tail, ':'))
  {
    SameFirstDouble(before, tail);
    match IndexOfDouble(before, 0)
    case None => FullReadAlike(before, tail);
    case Some(d) => CompressedReadAlike(before, tail, d);
  }

  lemma SplitBefore(before: string, tail: string)
    requires before != "" && before[|before| - 1] == ':'
    ensures Split(before + tail, ':') == Split(before[..|before| - 1], ':') + Split(tail, ':')
  {
    SplitAppend(before[..|before| - 1], tail, ':');
    assert before + tail == before[..|before| - 1] + [':'] + tail;
  }

  lemma PrefixHextets(groups: seq<string>, more: seq<string>)
    requires Hextets(groups + more)
    ensures Hextets(groups)
  {
    forall i | 0 <= i < |groups| ensures Hextet(groups[i]) { assert (groups + more)[i] == groups[i]; }
  }

  lemma EmbeddedFormOfIsWellFormed(before: string, quad: string)
    requires before != "" && before[|before| - 1] == ':' && ParseIpv4(quad).Some?
    requires ParseHextets(before + TwoHextets(ParseIpv4(quad).value)).Some?
    ensures WellFormedEmbedded(EmbeddedFormOf(before, quad))
  {
    var v4 := ParseIpv4(quad).value;
    TwoHextetsSplit(v4);
    SpelledOutIsReadAlike(before, quad, TwoHextets(v4));
    FormOfIsWellFormed(before + TwoHextets(v4));
    match EmbeddedFormOf(before, quad)
    case EmbeddedFull(groups, _) => PrefixHextets(groups, QuadGroups(v4));
    case EmbeddedCompressed(_, rest, _) => PrefixHextets(rest, QuadGroups(v4));
  }

  /** The input is a full or compressed text, and parses to its address. */
  predicate Reads(input: string, f: Form) {
    WellFormed(f) && TextOf(f) == input && ParseIpv6(input) == Some(Address(f))
  }

  /** The input ends in a dotted quad, and parses to its address. */
  predicate ReadsEmbedded(input: string, e: EmbeddedForm) {
    WellFormedEmbedded(e) && EmbeddedText(e) == input && ParseIpv6(input) == Some(EmbeddedAddress(e))
  }

  lemma EmbeddedInputReads(before: string, quad: string)
    requires before != "" && before[|before| - 1] == ':' && ParseIpv4(quad).Some?
    requires ParseHextets(before + TwoHextets(ParseIpv4(quad).value)).Some?
    ensures ReadsEmbedded(before + quad, EmbeddedFormOf(before, quad))
  {
    EmbeddedFormOfIsTheText(before, quad);
    EmbeddedFormOfIsWellFormed(before, quad);
    EveryEmbeddedFormParses(EmbeddedFormOf(before, quad));
  }

  lemma PlainInputReads(input: string)
    requires ParseHextets(input).Some? && ParseIpv6(input) == ParseHextets(input)
    ensures Reads(input, FormOf(input))
  {
    OnlyFormsParse(input);
  }

  lemma ParsesBelow(input: string)
    requires ParseIpv6(input).Some?
    ensures ParseIpv6(input).value < 0x1_0000_0000_0000_0000_0000_0000_0000_0000
  {
    OnlyFormsParse(Expand(input).value);
    AddressBelow(FormOf(Expand(input).value));
  }

  lemma CutAtLastColon(input: string)
    requires ':' in input
    ensures var k := AfterLastColon(input); k > 0 && input[..k] + input[k..] == input && input[..k][k - 1] == ':'
  {
  }

  /** Whatever parses is one of these texts, parses to its address, and is below 2^128. */
  lemma OnlyTextualFormsParse(input: string)
    requires ParseIpv6(input).Some?
    ensures (exists f: Form :: Reads(input, f)) || (exists e: EmbeddedForm :: ReadsEmbedded(input, e))
    ensures ParseIpv6(input).value < 0x1_0000_0000_0000_0000_0000_0000_0000_0000
  {
    ParsesBelow(input);
    CutAtLastColon(input);
    var k := AfterLastColon(input);
    if '.' !in input[k..] {
      PlainInputReads(input);
    } else {
      EmbeddedInputReads(input[..k], input[k..]);
    }
  }

  /** The loop over the groups, shifting one hextet in at a time. */
  method ReadGroups(groups: seq<string>) returns (r: Option<nat>)
    ensures r == ValueOfGroups(groups)
  {
    var value := 0;
    for i := 0 to |groups|
      invariant Hextets(groups[..i])
      invariant value == ValueOf(HextetValues(groups[..i]), 0x1_0000)
    {
      if !Hextet(groups[i]) {
        return None;
      }
      assert HextetValues(groups[..i + 1])[..i] == HextetValues(groups[..i]);
      value := value * 0x1_0000 + HextetValue(groups[i]);
    }
    assert groups[..|groups|] == groups;
    return Some(value);
  }

  method ReadHextets(text: string) returns (r: Option<nat>)
    ensures r == ParseHextets(text)
  {
    var double := IndexOfDouble(text, 0);
    if double.None? {
      var head := Split(text, ':');
      if |head| != 8 {
        return None;
      }
      r := ReadGroups(head);
      return;
    }
    if IndexOfDouble(text, double.value + 1).Some? {
      return None;
    }
    var head, rest := Groups(text[..double.value]), Groups(text[double.value + 2..]);
    if |head| + |rest| > 7 {
      return None;
    }
    r := ReadGroups(head + Zeros(8 - |head| - |rest|) + rest);
  }

  /** The whole parser, step by step. */
  method ReadIpv6(input: string) returns (r: Option<nat>)
    ensures r == ParseIpv6(input)
  {
    if !BareWithColon(input) {
      return None;
    }
    var text := input;
    var k := AfterLastColon(input);
    if '.' in input[k..] {
      var embedded := ReadIpv4(input[k..]);
      if embedded.None? {
        return None;
      }
      text := input[..k] + TwoHextets(embedded.value);
    }
    r := ReadHextets(text);
  }
}
