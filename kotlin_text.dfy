/**
 * The parts of the Kotlin and Java standard libraries that the class-name code
 * relies on: a mutable string builder, String.indexOf on a character,
 * Int.toString and String.toIntOrNull. Split is not called by the code; it
 * states what its indexOf loop walks over.
 */
module KotlinText {
  import opened Wrappers

  /** java.lang.StringBuilder, reduced to the text it holds. */
  class StringBuilder {
    var text: string

    constructor ()
      ensures text == ""
    {
      text := "";
    }

    method Append(s: string)
      modifies this
      ensures text == old(text) + s
    {
      text := text + s;
    }

    method AppendChar(ch: char)
      modifies this
      ensures text == old(text) + [ch]
    {
      text := text + [ch];
    }
  }

  /** String.indexOf(ch, from): the first position at or after from that holds ch, or -1. */
  function IndexOf(s: string, ch: char, from: nat): (r: int)
    ensures r == -1 || from <= r < |s|
    ensures r == -1 ==> forall k :: from <= k < |s| ==> s[k] != ch
    ensures r != -1 ==> s[r] == ch && forall k :: from <= k < r ==> s[k] != ch
    decreases |s| - from
  {
    if from >= |s| then -1
    else if s[from] == ch then from
    else IndexOf(s, ch, from + 1)
  }

  /** The pieces of s between occurrences of sep, in order; there is always at least one. */
  function Split(s: string, sep: char): (parts: seq<string>)
    ensures |parts| >= 1
    ensures forall i :: 0 <= i < |parts| ==> sep !in parts[i]
  {
    if s == [] then [""]
    else
      var rest := Split(s[1..], sep);
      if s[0] == sep then [""] + rest else [[s[0]] + rest[0]] + rest[1..]
  }

  /** One unfolding of Split on a non-empty suffix. */
  lemma SplitSuffix(s: string, sep: char, from: nat)
    requires from < |s|
    ensures Split(s[from..], sep) ==
      var rest := Split(s[from + 1..], sep);
      if s[from] == sep then [""] + rest else [[s[from]] + rest[0]] + rest[1..]
  {
    assert s[from..][0] == s[from];
    assert s[from..][1..] == s[from + 1..];
  }

  /** Splitting at the first separator found by indexOf peels off exactly one piece. */
  lemma {:induction false} SplitAtIndexOf(s: string, sep: char, from: nat)
    requires from <= |s|
    ensures var k := IndexOf(s, sep, from);
      if k == -1 then Split(s[from..], sep) == [s[from..]]
      else Split(s[from..], sep) == [s[from..k]] + Split(s[k + 1..], sep)
    decreases |s| - from
  {
    if from == |s| {
      assert s[from..] == [];
    } else {
      SplitSuffix(s, sep, from);
      if s[from] == sep {
        assert s[from..from] == "";
      } else {
        SplitAtIndexOf(s, sep, from + 1);
        var k := IndexOf(s, sep, from + 1);
        assert IndexOf(s, sep, from) == k;
        if k == -1 {
          assert [s[from]] + s[from + 1..] == s[from..];
        } else {
          assert [s[from]] + s[from + 1..k] == s[from..k];
        }
      }
    }
  }

  /** A string without the separator is one piece. */
  lemma {:induction false} SplitWithoutSeparator(s: string, sep: char)
    requires sep !in s
    ensures Split(s, sep) == [s]
  {
    if s != [] {
      assert sep !in s[1..] by {
        forall k | 0 <= k < |s[1..]| ensures s[1..][k] != sep {
          assert s[1..][k] == s[k + 1];
        }
      }
      SplitWithoutSeparator(s[1..], sep);
      assert [s[0]] + s[1..] == s;
    }
  }

  /** Appending a separator and a separator-free piece adds exactly that piece. */
  lemma {:induction false} SplitAppend(t: string, sep: char, x: string)
    requires sep !in x
    ensures Split(t + [sep] + x, sep) == Split(t, sep) + [x]
    decreases |t|
  {
    var u := t + [sep] + x;
    if t == [] {
      assert u[1..] == x;
      SplitWithoutSeparator(x, sep);
    } else {
      assert u[0] == t[0];
      assert u[1..] == t[1..] + [sep] + x;
      SplitAppend(t[1..], sep, x);
    }
  }

  predicate IsDigit(ch: char) {
    '0' <= ch <= '9'
  }

  predicate AllDigits(s: string) {
    forall k :: 0 <= k < |s| ==> IsDigit(s[k])
  }

  function DigitChar(d: nat): (ch: char)
    requires d < 10
    ensures IsDigit(ch) && ch as int - '0' as int == d
  {
    ('0' as int + d) as char
  }

  /** The value of a string of decimal digits, most significant first. */
  function DigitsValue(s: string): nat
    requires AllDigits(s)
  {
    if s == [] then 0 else DigitsValue(s[..|s| - 1]) * 10 + (s[|s| - 1] as int - '0' as int)
  }

  /** Int.toString of a non-negative value: decimal digits without leading zeros. */
  function NatToString(n: nat): (s: string)
    ensures |s| >= 1 && AllDigits(s)
    ensures |s| > 1 ==> s[0] != '0'
  {
    if n < 10 then [DigitChar(n)] else NatToString(n / 10) + [DigitChar(n % 10)]
  }

  const INT_MIN: int := -0x8000_0000
  const INT_MAX: int := 0x7fff_ffff

  function InIntRange(v: int): (r: Option<int>)
    ensures r.Some? <==> INT_MIN <= v <= INT_MAX
    ensures r.Some? ==> r.value == v
  {
    if INT_MIN <= v <= INT_MAX then Some(v) else None
  }

  /** The value of a sign followed by decimal digits. */
  function SignedValue(s: string): int
    requires |s| >= 1 && AllDigits(s[1..])
  {
    var magnitude: int := DigitsValue(s[1..]);
    if s[0] == '-' then -magnitude else magnitude
  }

  /**
   * String.toIntOrNull(): an optional '+' or '-' followed by at least one
   * decimal digit, whose value fits a 32-bit Int; null otherwise.
   */
  function ParseInt(s: string): (r: Option<int>)
    ensures r.Some? ==> INT_MIN <= r.value <= INT_MAX
    ensures r.Some? ==> |s| >= 1 && AllDigits(s[1..]) && (IsDigit(s[0]) || (|s| >= 2 && (s[0] == '-' || s[0] == '+')))
    ensures r.Some? && IsDigit(s[0]) ==> AllDigits(s) && r.value == DigitsValue(s)
    ensures r.Some? && !IsDigit(s[0]) ==> r.value == SignedValue(s)
    ensures |s| >= 1 && IsDigit(s[0]) && AllDigits(s) && DigitsValue(s) <= INT_MAX ==> r.Some?
    ensures |s| >= 2 && (s[0] == '-' || s[0] == '+') && AllDigits(s[1..]) && InIntRange(SignedValue(s)).Some?
      ==> r.Some?
  {
    if |s| == 0 then None
    else if s[0] == '-' || s[0] == '+' then
      if |s| == 1 || !AllDigits(s[1..]) then None
      else InIntRange(SignedValue(s))
    else if AllDigits(s) then
      assert AllDigits(s[1..]) by {
        forall k | 0 <= k < |s[1..]| ensures IsDigit(s[1..][k]) {
          assert s[1..][k] == s[k + 1];
        }
      }
      InIntRange(DigitsValue(s))
    else None
  }

  lemma {:induction false} DigitsValueOfNatToString(n: nat)
    ensures DigitsValue(NatToString(n)) == n
  {
    var s := NatToString(n);
    if n >= 10 {
      DigitsValueOfNatToString(n / 10);
      assert s[..|s| - 1] == NatToString(n / 10);
    } else {
      assert s[..0] == [];
    }
  }

  /** toIntOrNull reads back what toString wrote, for every index an Int can hold. */
  lemma ParseNatToString(n: nat)
    requires n <= INT_MAX
    ensures ParseInt(NatToString(n)) == Some(n)
  {
    DigitsValueOfNatToString(n);
    var s := NatToString(n);
    assert IsDigit(s[0]);
  }

  /** A string that does not start with a digit or a sign is never numeric: no Java identifier is. */
  lemma IdentifierIsNotNumeric(s: string)
    requires |s| >= 1 && !IsDigit(s[0]) && s[0] != '-' && s[0] != '+'
    ensures ParseInt(s) == None
  {
  }
}
