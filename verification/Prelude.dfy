/** Vocabulary shared by every module of the model. */
module Prelude {

  datatype Option<+T> = None | Some(value: T) {
    function GetOr(default: T): T {
      match this
      case Some(v) => v
      case None => default
    }
  }

  /** Instants read from a clock, in epoch milliseconds. */
  type Time = nat

  /** White space and line terminators, as trimming strips them. */
  predicate IsSpace(c: char) {
    || c in {'\t', '\n', '\U{000B}', '\U{000C}', '\r', ' ', '\U{00A0}', '\U{1680}', '\U{2028}', '\U{2029}',
             '\U{202F}', '\U{205F}', '\U{3000}', '\U{FEFF}'}
    || '\U{2000}' <= c <= '\U{200A}'
  }

  function TrimStart(s: string): (t: string)
    ensures |t| <= |s| && t == s[|s| - |t|..]
    ensures t != [] ==> !IsSpace(t[0])
  {
    if s == "" then "" else if IsSpace(s[0]) then TrimStart(s[1..]) else s
  }

  function TrimEnd(s: string): (t: string)
    ensures t <= s
    ensures t != [] ==> !IsSpace(t[|t| - 1])
  {
    if s == "" then "" else if IsSpace(s[|s| - 1]) then TrimEnd(s[..|s| - 1]) else s
  }

  function Trim(s: string): string { TrimEnd(TrimStart(s)) }

  lemma {:induction false} TrimStartBlank(s: string)
    ensures TrimStart(s) == "" <==> forall c <- s :: IsSpace(c)
  {
    if s == "" {
    } else {
      TrimStartBlank(s[1..]);
      assert s == [s[0]] + s[1..];
    }
  }

  predicate Trimmed(s: string) { s != "" ==> !IsSpace(s[0]) && !IsSpace(s[|s| - 1]) }

  lemma TrimTrims(s: string)
    ensures Trimmed(Trim(s))
  {
    var t := TrimStart(s);
    assert TrimEnd(t) <= t;
  }

  lemma TrimmedStays(s: string)
    requires Trimmed(s)
    ensures Trim(s) == s
  {
    assert TrimStart(s) == s;
  }

  predicate AllSpace(s: string) { forall i :: 0 <= i < |s| ==> IsSpace(s[i]) }

  lemma TrimStartSkipsOne(c: char, rest: string)
    requires IsSpace(c)
    ensures TrimStart([c] + rest) == TrimStart(rest)
  {
    assert ([c] + rest)[1..] == rest;
  }

  lemma HeadApart(s: string, rest: string)
    requires s != ""
    ensures s + rest == [s[0]] + (s[1..] + rest)
  {
  }

  lemma {:induction false} TrimStartSkips(before: string, rest: string)
    requires AllSpace(before)
    ensures TrimStart(before + rest) == TrimStart(rest)
    decreases |before|
  {
    if before == "" {
      assert before + rest == rest;
    } else {
      TrimStartSkips(before[1..], rest);
      TrimStartSkipsOne(before[0], before[1..] + rest);
      HeadApart(before, rest);
    }
  }

  lemma TrimEndSkipsOne(rest: string, c: char)
    requires IsSpace(c)
    ensures TrimEnd(rest + [c]) == TrimEnd(rest)
  {
    assert (rest + [c])[..|rest|] == rest;
  }

  lemma {:induction false} TrimEndSkips(rest: string, after: string)
    requires AllSpace(after)
    ensures TrimEnd(rest + after) == TrimEnd(rest)
    decreases |after|
  {
    if after == "" {
      assert rest + after == rest;
    } else {
      var shorter, last := after[..|after| - 1], after[|after| - 1];
      TrimEndSkips(rest, shorter);
      TrimEndSkipsOne(rest + shorter, last);
      assert rest + after == (rest + shorter) + [last];
    }
  }

  /** Trimming takes the white space around a text and nothing else. */
  lemma TrimLeaves(before: string, key: string, after: string)
    requires AllSpace(before) && AllSpace(after) && Trimmed(key) && key != ""
    ensures Trim(before + key + after) == key
  {
    assert before + key + after == before + (key + after);
    TrimStartSkips(before, key + after);
    assert TrimStart(key + after) == key + after;
    TrimEndSkips(key, after);
  }
}
