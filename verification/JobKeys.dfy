/** The constant operation key a job mints for an item. Strings are sequences of code units here. */
module JobKeys {

  function Digit(d: nat): (c: char)
    requires d < 10
    ensures c != ':'
  { ('0' as int + d) as char }

  /** The decimal numeral of a number. */
  function Decimal(n: nat): (s: string)
    ensures s != "" && ':' !in s
  {
    if n < 10 then [Digit(n)] else Decimal(n / 10) + [Digit(n % 10)]
  }

  function Sized(s: string): string { Decimal(|s|) + ":" + s }

  function JobOperationKey(jobName: string, itemKey: string): string
    requires jobName != "" && itemKey != ""
  {
    Sized(jobName) + ":" + Sized(itemKey)
  }

  lemma {:induction false} DecimalInjective(m: nat, n: nat)
    requires Decimal(m) == Decimal(n)
    ensures m == n
  {
    var s := Decimal(m);
    assert s[|s| - 1] == Digit(m % 10) == Digit(n % 10);
    if m >= 10 && n >= 10 {
      assert s[..|s| - 1] == Decimal(m / 10) == Decimal(n / 10);
      DecimalInjective(m / 10, n / 10);
    }
  }

  function FirstSeparator(s: string): nat {
    if s == "" || s[0] == ':' then 0 else 1 + FirstSeparator(s[1..])
  }

  lemma {:induction false} FirstSeparatorAt(a: string, x: string)
    requires ':' !in a
    ensures FirstSeparator(a + ":" + x) == |a|
  {
    if a == "" {
    } else {
      assert (a + ":" + x)[1..] == a[1..] + ":" + x;
      FirstSeparatorAt(a[1..], x);
    }
  }

  /** Text before the first separator can be told from what follows it. */
  lemma SplitAtSeparator(a: string, x: string, b: string, y: string)
    requires ':' !in a && ':' !in b && a + ":" + x == b + ":" + y
    ensures a == b && x == y
  {
    var whole := a + ":" + x;
    FirstSeparatorAt(a, x);
    FirstSeparatorAt(b, y);
    assert a == whole[..|a|] && b == whole[..|b|];
    assert x == whole[|a| + 1..] && y == whole[|b| + 1..];
  }

  lemma SizedPrefixFree(a: string, x: string, b: string, y: string)
    requires Sized(a) + x == Sized(b) + y
    ensures a == b && x == y
  {
    assert Decimal(|a|) + ":" + (a + x) == Sized(a) + x;
    assert Decimal(|b|) + ":" + (b + y) == Sized(b) + y;
    SplitAtSeparator(Decimal(|a|), a + x, Decimal(|b|), b + y);
    DecimalInjective(|a|, |b|);
    assert a == (a + x)[..|a|] && b == (b + y)[..|b|];
    assert x == (a + x)[|a|..] && y == (b + y)[|b|..];
  }

  /** Distinct job/item pairs never share a key, and the same pair always has the same one. */
  lemma JobOperationKeysNeverCollide(job: string, item: string, otherJob: string, otherItem: string)
    requires job != "" && item != "" && otherJob != "" && otherItem != ""
    ensures JobOperationKey(job, item) == JobOperationKey(otherJob, otherItem) <==> job == otherJob && item == otherItem
  {
    if JobOperationKey(job, item) == JobOperationKey(otherJob, otherItem) {
      assert JobOperationKey(job, item) == Sized(job) + (":" + Sized(item));
      assert JobOperationKey(otherJob, otherItem) == Sized(otherJob) + (":" + Sized(otherItem));
      SizedPrefixFree(job, ":" + Sized(item), otherJob, ":" + Sized(otherItem));
      assert Sized(item) == (":" + Sized(item))[1..] == (":" + Sized(otherItem))[1..] == Sized(otherItem);
      assert Sized(item) + "" == Sized(otherItem) + "";
      SizedPrefixFree(item, "", otherItem, "");
    }
  }
}
