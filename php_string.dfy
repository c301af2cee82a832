/**
 * The PHP string built-ins that the frame class relies on: `explode`, `implode`, `trim`, `rtrim`,
 * the truthiness of a string, and the conversion of an integer to its decimal text.
 * A PHP string is a byte string; here each `char` stands for one octet, so `strlen(s)` is `|s|`.
 */
module PhpString {

  /** The characters PHP's `trim` removes when no character list is given: " \t\n\r\0\x0B". */
  const TRIM_CHARS: set<char> := {' ', '\t', '\n', '\r', '\0', '\U{B}'}

  /** PHP's truthiness of a string: only "" and "0" are falsy. */
  predicate Truthy(s: string) {
    s != "" && s != "0"
  }

  /** `explode(sep, s)` for a one-character separator: the pieces between the separators. */
  function Explode(sep: char, s: string): (r: seq<string>)
    ensures |r| >= 1
    ensures forall i :: 0 <= i < |r| ==> sep !in r[i]
    decreases |s|
  {
    if s == [] then [""]
    else
      var rest := Explode(sep, s[1..]);
      if s[0] == sep then [""] + rest
      else [[s[0]] + rest[0]] + rest[1..]
  }

  /** `implode(sep, parts)`: the parts joined by the separator; the empty array gives "". */
  function Implode(sep: char, parts: seq<string>): string
    decreases |parts|
  {
    if parts == [] then ""
    else if |parts| == 1 then parts[0]
    else parts[0] + [sep] + Implode(sep, parts[1..])
  }

  /** Joining two non-empty lists of pieces puts exactly one separator between them. */
  lemma {:induction false} ImplodeAppend(sep: char, p: seq<string>, q: seq<string>)
    requires p != [] && q != []
    ensures Implode(sep, p + q) == Implode(sep, p) + [sep] + Implode(sep, q)
    decreases |p|
  {
    if |p| == 1 {
      assert p + q == [p[0]] + q;
    } else {
      assert (p + q)[1..] == p[1..] + q;
      ImplodeAppend(sep, p[1..], q);
    }
  }

  /** A separator splits the text around it: the pieces of `a` followed by the pieces of `b`. */
  lemma {:induction false} ExplodeAround(sep: char, a: string, b: string)
    ensures Explode(sep, a + [sep] + b) == Explode(sep, a) + Explode(sep, b)
    decreases |a|
  {
    if a == [] {
      assert a + [sep] + b == [sep] + b;
      assert ([sep] + b)[1..] == b;
    } else {
      assert (a + [sep] + b)[1..] == a[1..] + [sep] + b;
      ExplodeAround(sep, a[1..], b);
    }
  }

  /** Text without the separator is a single piece. */
  lemma {:induction false} ExplodeNoSeparator(sep: char, s: string)
    requires sep !in s
    ensures Explode(sep, s) == [s]
    decreases |s|
  {
    if s != [] {
      assert sep !in s[1..];
      ExplodeNoSeparator(sep, s[1..]);
      assert [s[0]] + s[1..] == s;
    }
  }

  /** The first piece of a text is everything before its first separator. */
  lemma ExplodeFirst(sep: char, a: string, s: string)
    requires sep !in a
    requires s == [] || s[0] == sep
    ensures Explode(sep, a + s)[0] == a
  {
    ExplodeNoSeparator(sep, a);
    if s == [] {
      assert a + s == a;
    } else {
      assert a + s == a + [sep] + s[1..];
      ExplodeAround(sep, a, s[1..]);
    }
  }

  /** `implode` after `explode` gives back the original text. */
  lemma {:induction false} ImplodeExplode(sep: char, s: string)
    ensures Implode(sep, Explode(sep, s)) == s
    decreases |s|
  {
    if s != [] {
      var rest := Explode(sep, s[1..]);
      ImplodeExplode(sep, s[1..]);
      if s[0] == sep {
        assert ([""] + rest)[1..] == rest;
      } else {
        var r := [[s[0]] + rest[0]] + rest[1..];
        if |rest| == 1 {
          assert s[1..] == rest[0];
        } else {
          assert r[1..] == rest[1..];
          assert s[1..] == rest[0] + [sep] + Implode(sep, rest[1..]);
        }
        assert s == [s[0]] + s[1..];
      }
    }
  }

  /** `explode` after `implode` gives back the parts, when no part holds the separator. */
  lemma {:induction false} ExplodeImplode(sep: char, parts: seq<string>)
    requires parts != []
    requires forall i :: 0 <= i < |parts| ==> sep !in parts[i]
    ensures Explode(sep, Implode(sep, parts)) == parts
    decreases |parts|
  {
    ExplodeNoSeparator(sep, parts[0]);
    if |parts| > 1 {
      ExplodeImplode(sep, parts[1..]);
      ExplodeAround(sep, parts[0], Implode(sep, parts[1..]));
      assert [parts[0]] + parts[1..] == parts;
    }
  }

  /** Strips the leading characters that belong to `cs` (`ltrim`). */
  function TrimLeft(s: string, cs: set<char>): (r: string)
    ensures |r| <= |s| && r == s[|s| - |r|..]
    ensures forall i :: 0 <= i < |s| - |r| ==> s[i] in cs
    ensures r == [] || r[0] !in cs
    decreases |s|
  {
    if s != [] && s[0] in cs then TrimLeft(s[1..], cs) else s
  }

  /** Strips the trailing characters that belong to `cs` (`rtrim(s, cs)`). */
  function TrimRight(s: string, cs: set<char>): (r: string)
    ensures |r| <= |s| && r == s[..|r|]
    ensures forall i :: |r| <= i < |s| ==> s[i] in cs
    ensures r == [] || r[|r| - 1] !in cs
    decreases |s|
  {
    if s != [] && s[|s| - 1] in cs then TrimRight(s[..|s| - 1], cs) else s
  }

  /** PHP's `trim(s)` with its default character list. */
  function Trim(s: string): string {
    TrimRight(TrimLeft(s, TRIM_CHARS), TRIM_CHARS)
  }

  /** True when `s` does not begin with a character `trim` would remove. */
  predicate StartsSolid(s: string) {
    s != [] && s[0] !in TRIM_CHARS
  }

  /** True when `s` does not end with a character `trim` would remove. */
  predicate EndsSolid(s: string) {
    s != [] && s[|s| - 1] !in TRIM_CHARS
  }

  /** `rtrim` stops at the last character outside `cs`. */
  lemma {:induction false} TrimRightStops(t: string, cs: set<char>, k: nat)
    requires 0 < k <= |t| && t[k - 1] !in cs
    requires forall i :: k <= i < |t| ==> t[i] in cs
    ensures TrimRight(t, cs) == t[..k]
    decreases |t|
  {
    if |t| > k {
      var front := t[..|t| - 1];
      assert front[..k] == t[..k];
      TrimRightStops(front, cs, k);
    }
  }

  /** `trim` removes exactly a padding of trim characters after text that begins and ends solid. */
  lemma TrimPadded(s: string, pad: string)
    requires StartsSolid(s) && EndsSolid(s)
    requires forall i :: 0 <= i < |pad| ==> pad[i] in TRIM_CHARS
    ensures Trim(s + pad) == s
  {
    var t := s + pad;
    assert t[0] == s[0];
    assert TrimLeft(t, TRIM_CHARS) == t;
    assert t[|s| - 1] == s[|s| - 1];
    assert forall i :: |s| <= i < |t| ==> t[i] == pad[i - |s|];
    TrimRightStops(t, TRIM_CHARS, |s|);
    assert t[..|s|] == s;
  }

  /** The decimal digit for 0 <= d < 10. */
  function Digit(d: nat): char
    requires d < 10
  {
    "0123456789"[d]
  }

  /** A text made of decimal digits only. */
  predicate IsDecimal(s: string) {
    forall i :: 0 <= i < |s| ==> '0' <= s[i] <= '9'
  }

  /** PHP's conversion of a non-negative integer to its decimal text. */
  function NatToString(n: nat): (r: string)
    ensures r != []
    ensures IsDecimal(r)
    ensures r[0] == '0' ==> n == 0 && |r| == 1
  {
    if n < 10 then [Digit(n)] else NatToString(n / 10) + [Digit(n % 10)]
  }

  /** PHP's conversion of an integer to its text: a minus sign before the magnitude when negative. */
  function IntToString(i: int): string {
    if i < 0 then ['-'] + NatToString(-i) else NatToString(i)
  }

  /** The value of a text of decimal digits; the independent reading of `NatToString`. */
  function DecimalValue(s: string): nat
    requires IsDecimal(s)
    decreases |s|
  {
    if s == [] then 0
    else 10 * DecimalValue(s[..|s| - 1]) + ((s[|s| - 1] as int) - ('0' as int))
  }

  /** The decimal text of `n` reads back as `n`. */
  lemma {:induction false} DecimalRoundTrip(n: nat)
    ensures DecimalValue(NatToString(n)) == n
  {
    var r := NatToString(n);
    if n >= 10 {
      DecimalRoundTrip(n / 10);
      assert r[..|r| - 1] == NatToString(n / 10);
    }
  }

  /**
   * The text of an integer reads back as that integer: digits without a leading zero for a
   * non-negative one, a minus sign before such digits for a negative one.
   */
  lemma IntToStringValue(i: int)
    ensures var r := IntToString(i);
      i >= 0 ==> r != [] && (|r| > 1 ==> r[0] != '0') && IsDecimal(r) && DecimalValue(r) == i
    ensures var r := IntToString(i);
      i < 0 ==> |r| >= 2 && r[0] == '-' && r[1] != '0' && IsDecimal(r[1..]) && DecimalValue(r[1..]) == -i
  {
    if i < 0 {
      NegativeText(i);
    } else {
      DecimalRoundTrip(i);
    }
  }

  /** A negative integer's text is a minus sign before the decimal text of its magnitude. */
  lemma NegativeText(i: int)
    requires i < 0
    ensures var r := IntToString(i);
      |r| >= 2 && r[0] == '-' && r[1] != '0' && IsDecimal(r[1..]) && DecimalValue(r[1..]) == -i
  {
    var m := NatToString(-i);
    DecimalRoundTrip(-i);
    SignPrefix(m, -i);
  }

  /** A minus sign before decimal digits leaves those digits, and their value, after it. */
  lemma SignPrefix(m: string, n: nat)
    requires m != [] && m[0] != '0' && IsDecimal(m) && DecimalValue(m) == n
    ensures var r := ['-'] + m;
      |r| >= 2 && r[0] == '-' && r[1] != '0' && IsDecimal(r[1..]) && DecimalValue(r[1..]) == n
  {
    assert (['-'] + m)[1..] == m;
  }

}
