/** The string operations of the Kotlin and Java standard libraries that the core relies on:
    Kotlin's `split(":")`, Java's `String.split("\\.")`, `String.trim()`, `startsWith`,
    `endsWith` and `Integer.parseInt`. */
module Text {
  import opened Wrappers

  /** Glues `parts` back together with `sep` between consecutive parts. */
  function Join(parts: seq<string>, sep: char): string
  {
    if |parts| == 0 then ""
    else if |parts| == 1 then parts[0]
    else parts[0] + [sep] + Join(parts[1..], sep)
  }

  /** Kotlin's `s.split(sep)`: every occurrence of `sep` ends a part and empty parts,
      trailing ones included, are kept, so "a:b:" has three parts. */
  function Split(s: string, sep: char): (parts: seq<string>)
    ensures |parts| >= 1
    ensures forall i :: 0 <= i < |parts| ==> sep !in parts[i]
    ensures Join(parts, sep) == s
  {
    if s == [] then [""]
    else if s[0] == sep then
      var rest := Split(s[1..], sep);
      assert Join([""] + rest, sep) == "" + [sep] + Join(rest, sep);
      [""] + rest
    else
      var rest := Split(s[1..], sep);
      var parts := [[s[0]] + rest[0]] + rest[1..];
      assert parts[1..] == rest[1..];
      parts
  }

  lemma {:induction false} SplitWithoutSeparator(s: string, sep: char)
    requires sep !in s
    ensures Split(s, sep) == [s]
  {
    if s != [] {
      SplitWithoutSeparator(s[1..], sep);
    }
  }

  lemma {:induction false} SplitAfterFirstPart(p: string, sep: char, t: string)
    requires sep !in p
    ensures Split(p + [sep] + t, sep) == [p] + Split(t, sep)
  {
    if p == [] {
      assert p + [sep] + t == [sep] + t;
      assert ([sep] + t)[1..] == t;
    } else {
      assert (p + [sep] + t)[1..] == p[1..] + [sep] + t;
      SplitAfterFirstPart(p[1..], sep, t);
      assert [p[0]] + p[1..] == p;
    }
  }

  /** Splitting is the inverse of joining parts that do not contain the separator. */
  lemma {:induction false} SplitJoin(parts: seq<string>, sep: char)
    requires |parts| >= 1
    requires forall i :: 0 <= i < |parts| ==> sep !in parts[i]
    ensures Split(Join(parts, sep), sep) == parts
  {
    if |parts| == 1 {
      SplitWithoutSeparator(parts[0], sep);
    } else {
      SplitJoin(parts[1..], sep);
      SplitAfterFirstPart(parts[0], sep, Join(parts[1..], sep));
      assert [parts[0]] + parts[1..] == parts;
    }
  }

  /** Drops the empty strings at the end of `parts`, as Java's `String.split` does. */
  function DropTrailingEmpty(parts: seq<string>): (r: seq<string>)
    ensures |r| <= |parts| && r == parts[..|r|]
    ensures r == [] || r[|r| - 1] != ""
    ensures forall i :: |r| <= i < |parts| ==> parts[i] == ""
  {
    if parts != [] && parts[|parts| - 1] == "" then DropTrailingEmpty(parts[..|parts| - 1])
    else parts
  }

  /** `Join` of parts split at an inner index: the two halves joined with one separator. */
  lemma {:induction false} JoinSplitAt(ps: seq<string>, sep: char, m: nat)
    requires 1 <= m < |ps|
    ensures Join(ps, sep) == Join(ps[..m], sep) + [sep] + Join(ps[m..], sep)
  {
    if m > 1 {
      JoinSplitAt(ps[1..], sep, m - 1);
      assert ps[..m][1..] == ps[1..][..m - 1];
      assert ps[1..][m - 1..] == ps[m..];
    }
  }

  /** Joining empty parts gives separators only. */
  lemma {:induction false} JoinOfEmpties(q: seq<string>, sep: char)
    requires forall i :: 0 <= i < |q| ==> q[i] == ""
    ensures forall k :: 0 <= k < |Join(q, sep)| ==> Join(q, sep)[k] == sep
  {
    if |q| > 1 {
      JoinOfEmpties(q[1..], sep);
      assert Join(q, sep) == [sep] + Join(q[1..], sep);
    }
  }

  /** Dropping trailing empty parts cuts separators off the end of the join, and nothing else. */
  lemma JoinDropTrailingEmpty(ps: seq<string>, sep: char)
    ensures var j := Join(DropTrailingEmpty(ps), sep);
      j <= Join(ps, sep) && forall k :: |j| <= k < |Join(ps, sep)| ==> Join(ps, sep)[k] == sep
  {
    var r := DropTrailingEmpty(ps);
    var m := |r|;
    if m == 0 {
      JoinOfEmpties(ps, sep);
    } else if m < |ps| {
      JoinSplitAt(ps, sep, m);
      JoinOfEmpties(ps[m..], sep);
      var tail := Join(ps[m..], sep);
      assert Join(ps, sep) == Join(r, sep) + ([sep] + tail);
    }
  }

  /** Java's `s.split(regex)` for a regex that matches the single character `sep`:
      without a match the result is `[s]` (also for the empty string); otherwise the
      parts of Kotlin's split with trailing empty parts removed. */
  function JavaSplit(s: string, sep: char): (parts: seq<string>)
    ensures forall i :: 0 <= i < |parts| ==> sep !in parts[i]
    ensures Join(parts, sep) <= s
    ensures forall k :: |Join(parts, sep)| <= k < |s| ==> s[k] == sep
    ensures sep in s ==> parts == [] || parts[|parts| - 1] != ""
    ensures sep !in s ==> |parts| == 1
  {
    if sep !in s then [s]
    else
      var ps := Split(s, sep);
      JoinDropTrailingEmpty(ps, sep);
      DropTrailingEmpty(ps)
  }

  /** Java's split is the inverse of joining separator-free parts when the last part, if
      there are several, is not empty. */
  lemma {:induction false} JavaSplitJoin(ps: seq<string>, sep: char)
    requires |ps| >= 1
    requires forall i :: 0 <= i < |ps| ==> sep !in ps[i]
    requires |ps| >= 2 ==> ps[|ps| - 1] != ""
    ensures JavaSplit(Join(ps, sep), sep) == ps
  {
    if |ps| >= 2 {
      var s := Join(ps, sep);
      assert s[|ps[0]|] == sep;
      SplitJoin(ps, sep);
    }
  }

  /** `s.startsWith(prefix)` */
  predicate StartsWith(s: string, prefix: string)
  {
    prefix <= s
  }

  /** `s.endsWith(suffix)` */
  predicate EndsWith(s: string, suffix: string)
  {
    |suffix| <= |s| && s[|s| - |suffix|..] == suffix
  }

  /** The characters `String.trim()` removes: every code unit up to and including U+0020. */
  predicate IsTrimmed(c: char)
  {
    c <= ' '
  }

  /** How many characters `trim()` skips at the front of `s`. */
  function TrimStartCount(s: string): (n: nat)
    ensures n <= |s|
    ensures forall k :: 0 <= k < n ==> IsTrimmed(s[k])
    ensures n == |s| || !IsTrimmed(s[n])
  {
    if s != [] && IsTrimmed(s[0]) then
      var n := 1 + TrimStartCount(s[1..]);
      assert forall k :: 1 <= k < n ==> s[k] == s[1..][k - 1];
      n
    else 0
  }

  /** How many characters `trim()` cuts off at the end of `s`. */
  function TrimEndCount(s: string): (n: nat)
    ensures n <= |s|
    ensures forall k :: |s| - n <= k < |s| ==> IsTrimmed(s[k])
    ensures n == |s| || !IsTrimmed(s[|s| - n - 1])
  {
    if s != [] && IsTrimmed(s[|s| - 1]) then
      var n := 1 + TrimEndCount(s[..|s| - 1]);
      assert forall k :: |s| - n <= k < |s| - 1 ==> s[k] == s[..|s| - 1][k];
      n
    else 0
  }

  /** Java's `s.trim()`: the longest middle slice of `s` that neither starts nor ends with
      a character at or below U+0020; everything cut off is such a character. */
  function Trim(s: string): (t: string)
    ensures var i := TrimStartCount(s);
      i + |t| <= |s| && t == s[i..i + |t|]
      && (forall k :: 0 <= k < i ==> IsTrimmed(s[k]))
      && (forall k :: i + |t| <= k < |s| ==> IsTrimmed(s[k]))
    ensures t == [] || (!IsTrimmed(t[0]) && !IsTrimmed(t[|t| - 1]))
  {
    var i := TrimStartCount(s);
    var j := |s| - TrimEndCount(s);
    if i < j then s[i..j] else ""
  }

  /** Trimming an already trimmed string changes nothing. */
  lemma TrimIdempotent(s: string)
    ensures Trim(Trim(s)) == Trim(s)
  {
    var t := Trim(s);
    if t != [] {
      assert TrimStartCount(t) == 0;
      assert TrimEndCount(t) == 0;
    }
  }

  // ---- Integer.parseInt(s), radix 10 ----

  const IntMin: int := -0x8000_0000
  const IntMax: int := 0x7fff_ffff

  predicate IsDigit(c: char)
  {
    '0' <= c <= '9'
  }

  predicate AllDigits(s: string)
  {
    forall k :: 0 <= k < |s| ==> IsDigit(s[k])
  }

  /** The value of a string of decimal digits, most significant first. */
  function DigitsValue(s: string): nat
    requires AllDigits(s)
  {
    if s == [] then 0 else DigitsValue(s[..|s| - 1]) * 10 + (s[|s| - 1] as int - '0' as int)
  }

  /** Java's `Integer.parseInt(s)`: an optional '+' or '-' followed by at least one digit,
      with a value inside the 32-bit range; `None` where Java throws NumberFormatException. */
  function ParseInt(s: string): (r: Option<int>)
    ensures r.Some? ==> IntMin <= r.value <= IntMax
    ensures r.Some? ==> |s| >= 1 && (IsDigit(s[0]) || s[0] == '+' || s[0] == '-')
    ensures |s| >= 1 && AllDigits(s) ==>
      (r.Some? <==> DigitsValue(s) <= IntMax) && (r.Some? ==> r.value == DigitsValue(s))
  {
    if |s| == 0 then None
    else
      var digits := if s[0] == '-' || s[0] == '+' then s[1..] else s;
      if |digits| == 0 || !AllDigits(digits) then None
      else
        var v: int := if s[0] == '-' then -(DigitsValue(digits) as int) else DigitsValue(digits);
        if IntMin <= v <= IntMax then Some(v) else None
  }

  /** A character that is neither a digit nor a leading sign makes `parseInt` throw, as does
      a sign alone or the empty string. */
  lemma ParseIntRejects(s: string, k: nat)
    requires k < |s| && !IsDigit(s[k]) && (k > 0 || (s[0] != '+' && s[0] != '-'))
    ensures ParseInt(s) == None && ParseInt("") == None && ParseInt("+") == None && ParseInt("-") == None
  {
    var digits := if s[0] == '-' || s[0] == '+' then s[1..] else s;
    if |digits| > 0 {
      if k > 0 && (s[0] == '-' || s[0] == '+') {
        assert digits[k - 1] == s[k];
      } else {
        assert digits[k] == s[k];
      }
    }
  }

  lemma {:induction false} DigitsValueLeadingZero(s: string)
    requires AllDigits(s)
    ensures AllDigits("0" + s) && DigitsValue("0" + s) == DigitsValue(s)
  {
    var z := "0" + s;
    assert forall k :: 0 <= k < |z| ==> IsDigit(z[k]);
    if s == [] {
      assert z[..0] == [];
    } else {
      assert z[..|z| - 1] == "0" + s[..|s| - 1];
      DigitsValueLeadingZero(s[..|s| - 1]);
    }
  }

  /** A leading zero does not change what an unsigned number parses to. */
  lemma ParseLeadingZero(s: string)
    requires |s| >= 1 && AllDigits(s)
    ensures ParseInt("0" + s) == ParseInt(s)
  {
    DigitsValueLeadingZero(s);
  }

  /** The decimal rendering of `n` without sign or leading zeros (Java's `Integer.toString`). */
  function Decimal(n: nat): (s: string)
    ensures |s| >= 1 && AllDigits(s)
  {
    var last := ['0' + (n % 10) as char];
    if n < 10 then last else Decimal(n / 10) + last
  }

  lemma {:induction false} DecimalValue(n: nat)
    ensures DigitsValue(Decimal(n)) == n
  {
    var s := Decimal(n);
    assert s[..|s| - 1] == (if n < 10 then "" else Decimal(n / 10));
    if n >= 10 {
      DecimalValue(n / 10);
    }
  }

  /** Parsing is the inverse of rendering for every non-negative `int`. */
  lemma ParseDecimal(n: nat)
    requires n <= IntMax
    ensures ParseInt(Decimal(n)) == Some(n)
  {
    DecimalValue(n);
    assert IsDigit(Decimal(n)[0]);
  }

  /** A number with a '+' sign parses to itself. */
  lemma ParsePlus(n: nat)
    requires n <= IntMax
    ensures ParseInt("+" + Decimal(n)) == Some(n)
  {
    DecimalValue(n);
    assert ("+" + Decimal(n))[1..] == Decimal(n);
  }

  /** A number with a '-' sign parses to its negation, down to the most negative `int`,
      and below that `parseInt` throws. */
  lemma ParseNegative(n: nat)
    ensures n <= -IntMin ==> ParseInt("-" + Decimal(n)) == Some(-(n as int))
    ensures n > -IntMin ==> ParseInt("-" + Decimal(n)) == None
  {
    DecimalValue(n);
    assert ("-" + Decimal(n))[1..] == Decimal(n);
  }

  /** An unsigned number above the largest `int` makes `parseInt` throw. */
  lemma ParseOverflow(n: nat)
    requires n > IntMax
    ensures ParseInt(Decimal(n)) == None
  {
    DecimalValue(n);
  }
}
