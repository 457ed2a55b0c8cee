/** Declaring and toggling catalog dimensions: the validator that collects every violation, and the two
    writes that change the table. */
module CatalogAdmin {
  import opened Prelude
  import opened Catalog
  import Binary64

  datatype Field = ServiceCode | CountryCode | OperatorCode | MinBasePrice | MaxBasePrice | FixedFee | MarkupBps | RoundTo | Note

  datatype ViolationCode =
    | InvalidServiceCode | InvalidCountryCode | InvalidOperatorCode
    | InvalidPriceOverride | InvalidPriceGuardrailOrder | InvalidNote

  datatype Violation = Violation(field: Field, code: ViolationCode)

  /** An input as it is checked: codes trimmed, the country code in upper case, a note as its trimmed
      length. Overrides arrive as arbitrary numbers. */
  datatype Declaration = Declaration(
    serviceCode: string, countryCode: string, operatorCode: string, enabled: bool,
    overrides: map<Field, real>, noteLength: nat)

  const CODE_MAX_LENGTH := 32
  const NOTE_MAX_LENGTH := 500

  /** The overridable fields with the least value each may take, in the order they are checked. */
  const OVERRIDE_FIELDS: seq<(Field, int)> := [(MinBasePrice, 0), (MaxBasePrice, 0), (FixedFee, 0), (MarkupBps, 0), (RoundTo, 1)]

  predicate CodeStart(c: char) { 'a' <= c <= 'z' || '0' <= c <= '9' }

  predicate CodeOk(code: string) {
    && 0 < |code| <= CODE_MAX_LENGTH && CodeStart(code[0])
    && forall c <- code :: CodeStart(c) || c == '_' || c == '-'
  }

  predicate CountryOk(code: string) { |code| == 2 && 'A' <= code[0] <= 'Z' && 'A' <= code[1] <= 'Z' }

  predicate ValueOk(value: real, minimum: int) {
    Binary64.IsSafeInteger(value) && minimum as real <= value <= INT4_MAX as real
  }

  predicate OutOfOrder(overrides: map<Field, real>) {
    && MinBasePrice in overrides && MaxBasePrice in overrides
    && Binary64.IsSafeInteger(overrides[MinBasePrice]) && Binary64.IsSafeInteger(overrides[MaxBasePrice])
    && overrides[MaxBasePrice] < overrides[MinBasePrice]
  }

  function LeastFor(field: Field): int { if field.RoundTo? then 1 else 0 }

  predicate IsOverride(field: Field) { field in {MinBasePrice, MaxBasePrice, FixedFee, MarkupBps, RoundTo} }

  predicate BadOverride(overrides: map<Field, real>, field: Field) {
    IsOverride(field) && field in overrides && !ValueOk(overrides[field], LeastFor(field))
  }

  /** Which violations an input has. */
  predicate Faulted(input: Declaration, v: Violation) {
    match v.code
    case InvalidServiceCode => v.field.ServiceCode? && !CodeOk(input.serviceCode)
    case InvalidCountryCode => v.field.CountryCode? && !CountryOk(input.countryCode)
    case InvalidOperatorCode => v.field.OperatorCode? && !CodeOk(input.operatorCode)
    case InvalidPriceOverride => BadOverride(input.overrides, v.field)
    case InvalidPriceGuardrailOrder => v.field.MaxBasePrice? && OutOfOrder(input.overrides)
    case InvalidNote => v.field.Note? && input.noteLength > NOTE_MAX_LENGTH
  }

  function Override(overrides: map<Field, real>, field: Field): Option<int> {
    if field in overrides then Some(overrides[field].Floor) else None
  }

  /** The row a valid declaration becomes. */
  function RowOf(input: Declaration): Dimension {
    Dimension(Filter(input.serviceCode, input.countryCode, input.operatorCode), input.enabled,
              Override(input.overrides, MinBasePrice), Override(input.overrides, MaxBasePrice),
              Override(input.overrides, FixedFee), Override(input.overrides, MarkupBps), Override(input.overrides, RoundTo))
  }

  method CheckOverrides(overrides: map<Field, real>) returns (violations: seq<Violation>)
    ensures forall v :: v in violations <==> v.code.InvalidPriceOverride? && BadOverride(overrides, v.field)
  {
    violations := [];
    for i := 0 to |OVERRIDE_FIELDS|
      invariant forall v :: v in violations <==>
                  v.code.InvalidPriceOverride? && BadOverride(overrides, v.field)
                  && exists j :: 0 <= j < i && OVERRIDE_FIELDS[j].0 == v.field
    {
      var (field, minimum) := OVERRIDE_FIELDS[i];
      assert IsOverride(field) && minimum == LeastFor(field);
      if field in overrides && !ValueOk(overrides[field], minimum) {
        violations := violations + [Violation(field, InvalidPriceOverride)];
      }
    }
    OverridesListed();
  }

  /** Collects every violation of an input, and accepts it exactly when it has none. */
  method ValidateDeclaration(input: Declaration) returns (violations: seq<Violation>, declared: Option<Dimension>)
    ensures forall v :: v in violations <==> Faulted(input, v)
    ensures declared == if violations == [] then Some(RowOf(input)) else None
  {
    violations := [];
    if !CodeOk(input.serviceCode) {
      violations := violations + [Violation(ServiceCode, InvalidServiceCode)];
    }
    if !CountryOk(input.countryCode) {
      violations := violations + [Violation(CountryCode, InvalidCountryCode)];
    }
    if !CodeOk(input.operatorCode) {
      violations := violations + [Violation(OperatorCode, InvalidOperatorCode)];
    }
    var priceViolations := CheckOverrides(input.overrides);
    violations := violations + priceViolations;
    if OutOfOrder(input.overrides) {
      violations := violations + [Violation(MaxBasePrice, InvalidPriceGuardrailOrder)];
    }
    if input.noteLength > NOTE_MAX_LENGTH {
      violations := violations + [Violation(Note, InvalidNote)];
    }
    declared := if violations == [] then Some(RowOf(input)) else None;
  }

  lemma OverridesListed()
    ensures forall field :: IsOverride(field) ==> exists j :: 0 <= j < |OVERRIDE_FIELDS| && OVERRIDE_FIELDS[j].0 == field
  {
    assert OVERRIDE_FIELDS[0].0 == MinBasePrice && OVERRIDE_FIELDS[1].0 == MaxBasePrice && OVERRIDE_FIELDS[2].0 == FixedFee
           && OVERRIDE_FIELDS[3].0 == MarkupBps && OVERRIDE_FIELDS[4].0 == RoundTo;
  }

  lemma OverrideStaysOk(input: Declaration, field: Field)
    requires IsOverride(field) && !BadOverride(input.overrides, field)
    ensures OverrideOk(Override(input.overrides, field), LeastFor(field))
  {
  }

  // --- the rules written out --------------------------------------------------

  predicate LowerOrDigit(c: char) { 97 <= c as int <= 122 || 48 <= c as int <= 57 }

  /** One to 32 characters, the first a lower-case letter or a digit, any other also `_` or `-`. */
  predicate GoodCode(code: string) {
    && 1 <= |code| <= 32 && LowerOrDigit(code[0])
    && forall i :: 0 <= i < |code| ==> LowerOrDigit(code[i]) || code[i] in "_-"
  }

  /** Two capital letters. */
  predicate GoodCountry(code: string) { |code| == 2 && 65 <= code[0] as int <= 90 && 65 <= code[1] as int <= 90 }

  /** A whole number that fits the column. */
  predicate GoodAmount(value: real, least: int) { value.Floor as real == value && least <= value.Floor <= 2_147_483_647 }

  predicate Whole(value: real) { value.Floor as real == value && -0x1F_FFFF_FFFF_FFFF <= value.Floor <= 0x1F_FFFF_FFFF_FFFF }

  lemma CodeOkExactlyWhenGood(code: string)
    ensures CodeOk(code) <==> GoodCode(code)
  {
    forall c: char ensures c in "_-" <==> c == '_' || c == '-' {
      assert "_-"[0] == '_' && "_-"[1] == '-';
    }
    if CodeOk(code) {
      forall i | 0 <= i < |code| ensures LowerOrDigit(code[i]) || code[i] in "_-" { assert code[i] in code; }
    }
  }

  /** An input has exactly the violations the rules give it, each named by its field. */
  lemma FaultedExactlyWhen(input: Declaration, v: Violation)
    ensures Faulted(input, v) <==>
              match v
              case Violation(ServiceCode, InvalidServiceCode) => !GoodCode(input.serviceCode)
              case Violation(OperatorCode, InvalidOperatorCode) => !GoodCode(input.operatorCode)
              case Violation(CountryCode, InvalidCountryCode) => !GoodCountry(input.countryCode)
              case Violation(RoundTo, InvalidPriceOverride) => RoundTo in input.overrides && !GoodAmount(input.overrides[RoundTo], 1)
              case Violation(field, InvalidPriceOverride) =>
                (field.MinBasePrice? || field.MaxBasePrice? || field.FixedFee? || field.MarkupBps?)
                && field in input.overrides && !GoodAmount(input.overrides[field], 0)
              case Violation(MaxBasePrice, InvalidPriceGuardrailOrder) =>
                && MinBasePrice in input.overrides && MaxBasePrice in input.overrides
                && Whole(input.overrides[MinBasePrice]) && Whole(input.overrides[MaxBasePrice])
                && input.overrides[MaxBasePrice] < input.overrides[MinBasePrice]
              case Violation(Note, InvalidNote) => input.noteLength > 500
              case _ => false
  {
    CodeOkExactlyWhenGood(input.serviceCode);
    CodeOkExactlyWhenGood(input.operatorCode);
  }

  /** The rows that may be declared. */
  predicate Declarable(d: Dimension) {
    && GoodCode(d.triple.serviceCode) && GoodCountry(d.triple.countryCode) && GoodCode(d.triple.operatorCode)
    && DeclaredOk(d)
  }

  function With(overrides: map<Field, real>, field: Field, value: Option<int>): map<Field, real> {
    if value.None? then overrides else overrides[field := value.value as real]
  }

  /** The form that asks for a row. */
  function FormFor(d: Dimension): Declaration {
    Declaration(d.triple.serviceCode, d.triple.countryCode, d.triple.operatorCode, d.enabled,
                With(With(With(With(With(map[], MinBasePrice, d.minBasePriceIdr), MaxBasePrice, d.maxBasePriceIdr),
                               FixedFee, d.fixedFeeIdr), MarkupBps, d.markupBps), RoundTo, d.roundToIdr), 0)
  }

  /** Every row that keeps the rules can be declared, exactly as it is. */
  lemma EveryGoodRowCanBeDeclared(d: Dimension)
    requires Declarable(d)
    ensures RowOf(FormFor(d)) == d
    ensures forall v :: !Faulted(FormFor(d), v)
  {
    forall v ensures !Faulted(FormFor(d), v) {
      FaultedExactlyWhen(FormFor(d), v);
    }
  }

  /** An input without violations becomes a row that keeps every promise made about declared rows. */
  lemma UnfaultedIsDeclaredOk(input: Declaration)
    requires forall v :: !Faulted(input, v)
    ensures DeclaredOk(RowOf(input))
  {
    assert !Faulted(input, Violation(ServiceCode, InvalidServiceCode));
    assert !Faulted(input, Violation(CountryCode, InvalidCountryCode));
    assert !Faulted(input, Violation(OperatorCode, InvalidOperatorCode));
    forall field | IsOverride(field) ensures OverrideOk(Override(input.overrides, field), LeastFor(field)) {
      assert !Faulted(input, Violation(field, InvalidPriceOverride));
      OverrideStaysOk(input, field);
    }
    assert !Faulted(input, Violation(MaxBasePrice, InvalidPriceGuardrailOrder));
    if MinBasePrice in input.overrides && MaxBasePrice in input.overrides {
      assert !Faulted(input, Violation(MinBasePrice, InvalidPriceOverride));
      assert !Faulted(input, Violation(MaxBasePrice, InvalidPriceOverride));
    }
  }

  datatype DeclareOutcome = Declared | InvalidDimension(violations: seq<Violation>) | Duplicate

  class CatalogTable {
    var rows: seq<Dimension>

    constructor ()
      ensures rows == []
    {
      rows := [];
    }

    /** Validates and inserts; the unique triple decides whether the row is new. */
    method DeclareDimension(input: Declaration) returns (outcome: DeclareOutcome)
      modifies this
      ensures outcome.InvalidDimension? <==> exists v :: Faulted(input, v)
      ensures outcome.InvalidDimension? ==> rows == old(rows)
      ensures !outcome.InvalidDimension? ==>
                var d := RowOf(input);
                && (outcome.Duplicate? <==> RowFor(old(rows), d.triple).Some?)
                && rows == (if outcome.Duplicate? then old(rows) else old(rows) + [d])
                && DeclaredOk(d)
    {
      var violations, declared := ValidateDeclaration(input);
      if declared.None? {
        assert Faulted(input, violations[0]);
        return InvalidDimension(violations);
      }
      UnfaultedIsDeclaredOk(input);
      if RowFor(rows, declared.value.triple).Some? {
        return Duplicate;
      }
      rows := rows + [declared.value];
      return Declared;
    }

    /** Flips the enabled flag of one row, and nothing else. */
    method ToggleDimension(triple: Filter, enabled: bool) returns (toggled: bool)
      requires UniqueTriples(rows)
      modifies this
      ensures rows == ToggleRow(old(rows), triple, enabled)
      ensures toggled <==> RowFor(old(rows), triple).Some?
    {
      RowForFinds(rows, triple);
      toggled := false;
      for i := 0 to |rows|
        invariant |rows| == |old(rows)|
        invariant forall j :: 0 <= j < |rows| ==>
                    rows[j] == if j < i && old(rows)[j].triple == triple then old(rows)[j].(enabled := enabled) else old(rows)[j]
        invariant toggled <==> exists j :: 0 <= j < i && old(rows)[j].triple == triple
      {
        if rows[i].triple == triple {
          rows := rows[i := rows[i].(enabled := enabled)];
          toggled := true;
        }
      }
      assert rows == ToggleRow(old(rows), triple, enabled);
    }
  }
}
