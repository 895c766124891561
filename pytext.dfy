/**
 Python's string operations as the relay bot uses them: `str.strip()`,
 `str.split(sep)`, `str.startswith`, the decimal `int(s)` conversion and the
 `str(n)` / f-string rendering of an integer.
 */
module PyText {
  import opened Wrappers

  /** `str.isspace()` for one character: every character Python strips by default. */
  predicate IsSpace(c: char)
  {
    var n := c as int;
    (9 <= n <= 13) || (28 <= n <= 32) || n == 0x85 || n == 0xA0 || n == 0x1680 ||
    (0x2000 <= n <= 0x200A) || n == 0x2028 || n == 0x2029 || n == 0x202F ||
    n == 0x205F || n == 0x3000
  }

  predicate IsDigit(c: char) { '0' <= c <= '9' }

  function DigitValue(c: char): (d: nat)
    requires IsDigit(c)
    ensures d < 10
  {
    (c as int) - ('0' as int)
  }

  function DigitChar(d: nat): (c: char)
    requires d < 10
    ensures IsDigit(c) && DigitValue(c) == d
  {
    (('0' as int) + d) as char
  }

  // ---------------------------------------------------------------- strip

  /** Leading whitespace removed. */
  function TrimStart(s: string): (r: string)
    ensures |r| <= |s|
    ensures r != [] ==> !IsSpace(r[0])
    ensures (s == [] || !IsSpace(s[0])) ==> r == s
  {
    if s != [] && IsSpace(s[0]) then TrimStart(s[1..]) else s
  }

  /** Trailing whitespace removed. */
  function TrimEnd(s: string): (r: string)
    ensures |r| <= |s|
    ensures r != [] ==> !IsSpace(r[|r| - 1])
    ensures (s == [] || !IsSpace(s[|s| - 1])) ==> r == s
    ensures s != [] && !IsSpace(s[0]) ==> r != [] && r[0] == s[0]
  {
    if s != [] && IsSpace(s[|s| - 1]) then TrimEnd(s[..|s| - 1]) else s
  }

  /** `s.strip()`: the text between the leading and trailing whitespace. */
  function Strip(s: string): (r: string)
    ensures |r| <= |s|
    ensures r != [] ==> !IsSpace(r[0]) && !IsSpace(r[|r| - 1])
    ensures (s == [] || (!IsSpace(s[0]) && !IsSpace(s[|s| - 1]))) ==> r == s
  {
    var t := TrimStart(s);
    TrimEnd(t)
  }

  /** Every character of `s` is whitespace. */
  predicate AllSpace(s: string)
  {
    forall i :: 0 <= i < |s| ==> IsSpace(s[i])
  }

  lemma AllSpaceConcat(a: string, b: string)
    requires AllSpace(a) && AllSpace(b)
    ensures AllSpace(a + b)
  {
    forall i | 0 <= i < |a + b| ensures IsSpace((a + b)[i]) {
      if i < |a| {
        assert (a + b)[i] == a[i];
      } else {
        assert (a + b)[i] == b[i - |a|];
      }
    }
  }

  lemma {:induction false} TrimStartMeaning(s: string)
    ensures var r := TrimStart(s);
            r == s[|s| - |r|..] && AllSpace(s[..|s| - |r|])
  {
    if s != [] && IsSpace(s[0]) {
      TrimStartMeaning(s[1..]);
      var r := TrimStart(s);
      var k := |s| - |r|;
      assert s[1..][..k - 1] == s[1..k];
      assert s[..k] == [s[0]] + s[1..k];
      AllSpaceConcat([s[0]], s[1..k]);
      assert s[1..][k - 1..] == s[k..];
    } else {
      assert s[..0] == [];
    }
  }

  lemma {:induction false} TrimEndMeaning(s: string)
    ensures var r := TrimEnd(s);
            r == s[..|r|] && AllSpace(s[|r|..])
  {
    if s != [] && IsSpace(s[|s| - 1]) {
      var init := s[..|s| - 1];
      TrimEndMeaning(init);
      var r := TrimEnd(s);
      assert init[|r|..] + [s[|s| - 1]] == s[|r|..];
      AllSpaceConcat(init[|r|..], [s[|s| - 1]]);
      assert init[..|r|] == s[..|r|];
    } else {
      assert s[|s|..] == [];
    }
  }

  /**
   `Strip(s)` is the slice of `s` that starts at some offset `k`, and
   everything before and after that slice is whitespace.
   */
  lemma StripMeaning(s: string) returns (k: nat)
    ensures k + |Strip(s)| <= |s|
    ensures Strip(s) == s[k..k + |Strip(s)|]
    ensures AllSpace(s[..k]) && AllSpace(s[k + |Strip(s)|..])
  {
    var t := TrimStart(s);
    k := |s| - |t|;
    var r := TrimEnd(t);
    assert t == s[k..] && AllSpace(s[..k]) by { TrimStartMeaning(s); }
    assert r == t[..|r|] && AllSpace(t[|r|..]) by { TrimEndMeaning(t); }
    assert Strip(s) == r;
    SuffixSlices(s, k, |r|);
  }

  /** Slicing a suffix of `s` is slicing `s` itself, shifted. */
  lemma SuffixSlices<T>(s: seq<T>, k: nat, n: nat)
    requires k + n <= |s|
    ensures s[k..][..n] == s[k..k + n]
    ensures s[k..][n..] == s[k + n..]
  {
  }

  /** A field is blank after stripping exactly when all its characters are whitespace. */
  lemma StripBlank(s: string)
    ensures Strip(s) == [] <==> AllSpace(s)
  {
    var k := StripMeaning(s);
    var r := Strip(s);
    if r == [] {
      assert s == s[..k] + s[k..];
      AllSpaceConcat(s[..k], s[k..]);
    } else {
      assert r[0] == s[k];
      assert !IsSpace(s[k]);
    }
  }

  // ---------------------------------------------------------------- split

  /** The inverse of `Split`: the parts glued together with `sep` between them. */
  function Join(parts: seq<string>, sep: char): string
  {
    if parts == [] then []
    else if |parts| == 1 then parts[0]
    else parts[0] + [sep] + Join(parts[1..], sep)
  }

  /**
   `s.split(sep)` for a one-character separator: always at least one field,
   no field contains the separator, and joining the fields gives back `s`,
   so an empty string yields one empty field and adjacent separators yield
   empty fields.
   */
  function Split(s: string, sep: char): (parts: seq<string>)
    ensures |parts| >= 1
    ensures forall i :: 0 <= i < |parts| ==> sep !in parts[i]
    ensures Join(parts, sep) == s
  {
    if s == [] then [[]]
    else
      var rest := Split(s[1..], sep);
      if s[0] == sep then
        assert Join([[]] + rest, sep) == [sep] + Join(rest, sep);
        [[]] + rest
      else
        var parts := [[s[0]] + rest[0]] + rest[1..];
        assert Join(parts, sep) == [s[0]] + Join(rest, sep) by {
          if |rest| > 1 {
            assert parts[1..] == rest[1..];
          }
        }
        parts
  }

  lemma {:induction false} SplitWithoutSeparator(s: string, sep: char)
    requires sep !in s
    ensures Split(s, sep) == [s]
  {
    if s != [] {
      SplitWithoutSeparator(s[1..], sep);
    }
  }

  /** Splitting after a first field that holds no separator peels that field off. */
  lemma {:induction false} SplitFirstField(a: string, sep: char, b: string)
    requires sep !in a
    ensures Split(a + [sep] + b, sep) == [a] + Split(b, sep)
  {
    var s := a + [sep] + b;
    if a == [] {
      assert s[1..] == b;
    } else {
      assert s[1..] == a[1..] + [sep] + b;
      SplitFirstField(a[1..], sep, b);
      assert [a[0]] + a[1..] == a;
    }
  }

  /** `sep.join(parts).split(sep) == parts` when no part holds the separator. */
  lemma {:induction false} SplitJoin(parts: seq<string>, sep: char)
    requires |parts| >= 1
    requires forall i :: 0 <= i < |parts| ==> sep !in parts[i]
    ensures Split(Join(parts, sep), sep) == parts
  {
    if |parts| == 1 {
      SplitWithoutSeparator(parts[0], sep);
    } else {
      SplitFirstField(parts[0], sep, Join(parts[1..], sep));
      SplitJoin(parts[1..], sep);
    }
  }

  predicate StartsWith(s: string, prefix: string)
  {
    |prefix| <= |s| && s[..|prefix|] == prefix
  }

  // ---------------------------------------------------------------- int()

  /**
   Python's grammar for the digits of a decimal integer: ASCII digits, where a
   single underscore may separate two digits. Read from the right.
   */
  predicate IsDigitRun(s: string)
  {
    && |s| > 0
    && IsDigit(s[|s| - 1])
    && (|s| == 1 ||
        if s[|s| - 2] == '_' then IsDigitRun(s[..|s| - 2]) else IsDigitRun(s[..|s| - 1]))
  }

  /** The decimal value of a digit run, underscores ignored. */
  function RunValue(s: string): nat
    requires IsDigitRun(s)
  {
    var d := DigitValue(s[|s| - 1]);
    if |s| == 1 then d
    else if s[|s| - 2] == '_' then RunValue(s[..|s| - 2]) * 10 + d
    else RunValue(s[..|s| - 1]) * 10 + d
  }

  function ParseDigits(s: string): Option<nat>
  {
    if IsDigitRun(s) then Some(RunValue(s)) else None
  }

  /**
   `int(s)`: surrounding whitespace, an optional sign and a digit run.
   `None` stands for the `ValueError` Python raises.
   */
  function ParseInt(s: string): (r: Option<int>)
    ensures r.Some? ==> Strip(s) != []
  {
    var t := Strip(s);
    if |t| > 0 && (t[0] == '-' || t[0] == '+') then
      match ParseDigits(t[1..])
      case None => None
      case Some(n) =>
        var v: int := if t[0] == '-' then -(n as int) else n;
        Some(v)
    else
      match ParseDigits(t)
      case None => None
      case Some(n) => Some(n)
  }

  // ---------------------------------------------------------------- str()

  /** `str(n)` for a natural number: decimal digits without leading zeros. */
  function NatToString(n: nat): (s: string)
    ensures |s| > 0
    ensures forall i :: 0 <= i < |s| ==> IsDigit(s[i])
    ensures s[0] == '0' ==> n == 0
  {
    if n < 10 then [DigitChar(n)] else NatToString(n / 10) + [DigitChar(n % 10)]
  }

  /** `str(n)` for any integer: a minus sign before the digits of a negative number. */
  function IntToString(n: int): (s: string)
  {
    if n < 0 then "-" + NatToString(-n) else NatToString(n)
  }

  lemma {:induction false} NatRoundTrip(n: nat)
    ensures ParseDigits(NatToString(n)) == Some(n)
  {
    var s := NatToString(n);
    if n >= 10 {
      NatRoundTrip(n / 10);
      assert s[..|s| - 1] == NatToString(n / 10);
    }
  }

  /**
   The rendering of an integer holds only digits and a minus sign, so neither
   `split('_')` nor `split(',')` cuts it apart.
   */
  lemma IntToStringChars(n: int)
    ensures forall i :: 0 <= i < |IntToString(n)| ==> IntToString(n)[i] == '-' || IsDigit(IntToString(n)[i])
    ensures '_' !in IntToString(n) && ',' !in IntToString(n)
  {
    var s := IntToString(n);
    var d := NatToString(if n < 0 then -n else n);
    if n < 0 {
      assert forall i :: 1 <= i < |s| ==> s[i] == d[i - 1];
    }
  }

  /** The rendering of an integer is never blank. */
  lemma IntToStringNotBlank(n: int)
    ensures Strip(IntToString(n)) == IntToString(n) != []
  {
    var s := IntToString(n);
    var d := NatToString(if n < 0 then -n else n);
    assert s[|s| - 1] == d[|d| - 1];
  }

  /** Round trip: `int(str(n)) == n` for every integer, negative ones included. */
  lemma IntRoundTrip(n: int)
    ensures ParseInt(IntToString(n)) == Some(n)
  {
    var s := IntToString(n);
    IntToStringNotBlank(n);
    var m := if n < 0 then -n else n;
    NatRoundTrip(m);
    if n < 0 {
      assert s[1..] == NatToString(m);
    }
  }

}
