/**
 * The string operations the Java and JavaScript sources call: startsWith, contains,
 * toLowerCase (ASCII letters only), equalsIgnoreCase, number-to-decimal conversion and join.
 */
module Strings {

  /** `s.startsWith(prefix)`. */
  predicate StartsWith(s: string, prefix: string) {
    |prefix| <= |s| && s[..|prefix|] == prefix
  }

  lemma StartsWithSelf(s: string)
    ensures StartsWith(s, s)
  {
  }

  lemma StartsWithTransitive(s: string, t: string, u: string)
    requires StartsWith(s, t) && StartsWith(t, u)
    ensures StartsWith(s, u)
  {
    assert s[..|u|] == s[..|t|][..|u|];
  }

  /** `fragment` occurs in `s` beginning at index `i`. */
  predicate OccursAt(s: string, fragment: string, i: int) {
    0 <= i && i + |fragment| <= |s| && s[i..i + |fragment|] == fragment
  }

  /** `s.contains(fragment)`: a match is tried at every start position, left to right. */
  predicate Contains(s: string, fragment: string)
    decreases |s|
  {
    StartsWith(s, fragment) || (|s| > 0 && Contains(s[1..], fragment))
  }

  /** The left-to-right search finds `fragment` exactly when it occurs at some index. */
  lemma {:induction false} ContainsIffOccurs(s: string, fragment: string)
    ensures Contains(s, fragment) <==> exists i :: OccursAt(s, fragment, i)
    decreases |s|
  {
    if StartsWith(s, fragment) {
      assert OccursAt(s, fragment, 0);
    } else if |s| > 0 {
      ContainsIffOccurs(s[1..], fragment);
      if Contains(s[1..], fragment) {
        var i :| OccursAt(s[1..], fragment, i);
        assert s[1..][i..i + |fragment|] == s[i + 1..i + 1 + |fragment|];
        assert OccursAt(s, fragment, i + 1);
      }
      forall i | OccursAt(s, fragment, i) && i > 0
        ensures Contains(s[1..], fragment)
      {
        assert s[1..][i - 1..i - 1 + |fragment|] == s[i..i + |fragment|];
        assert OccursAt(s[1..], fragment, i - 1);
      }
    }
  }

  /** A fragment that starts the suffix of `s` from position `k` is contained in `s`. */
  lemma ContainsFromSuffix(s: string, fragment: string, k: nat)
    requires k <= |s| && StartsWith(s[k..], fragment)
    ensures Contains(s, fragment)
  {
    ContainsIffOccurs(s, fragment);
    assert s[k..][..|fragment|] == s[k..k + |fragment|];
    assert OccursAt(s, fragment, k);
  }

  /** The second part of a concatenation is contained in it. */
  lemma ContainsSecondPart(a: string, b: string)
    ensures Contains(a + b, b)
  {
    assert (a + b)[|a|..] == b;
    ContainsFromSuffix(a + b, b, |a|);
  }

  /**
   * A fragment as long as `b`, other than `b`, whose first character does not occur in `a`,
   * is not contained in `a + b`.
   */
  lemma NotContainedInConcat(a: string, b: string, fragment: string)
    requires |fragment| == |b| > 0 && fragment[0] !in a && fragment != b
    ensures !Contains(a + b, fragment)
  {
    var s := a + b;
    ContainsIffOccurs(s, fragment);
    forall i | 0 <= i ensures !OccursAt(s, fragment, i) {
      if i < |a| {
        assert s[i] == a[i] && a[i] in a;
        assert s[i] != fragment[0];
      } else if i == |a| {
        assert s[i..i + |fragment|] == b;
      }
    }
  }

  /** `s.contains(String.valueOf(c))`: a one-character fragment is contained exactly when it is an element. */
  lemma ContainsChar(s: string, c: char)
    ensures Contains(s, [c]) <==> c in s
  {
    ContainsIffOccurs(s, [c]);
    if c in s {
      var i :| 0 <= i < |s| && s[i] == c;
      assert s[i..i + 1] == [c];
      assert OccursAt(s, [c], i);
    }
    forall i | OccursAt(s, [c], i) ensures c in s {
      assert s[i..i + 1][0] == s[i];
    }
  }

  /** `Character.toLowerCase` restricted to the ASCII letters. */
  function LowerChar(c: char): char {
    if 'A' <= c <= 'Z' then (c as int - 'A' as int + 'a' as int) as char else c
  }

  /** `s.toLowerCase()` restricted to the ASCII letters. */
  function Lower(s: string): (r: string)
    ensures |r| == |s|
    ensures forall i :: 0 <= i < |s| ==> r[i] == LowerChar(s[i])
  {
    if s == [] then [] else [LowerChar(s[0])] + Lower(s[1..])
  }

  /** A string without upper-case letters is its own lower-case form. */
  lemma LowerUnchanged(s: string)
    requires forall c | c in s :: !('A' <= c <= 'Z')
    ensures Lower(s) == s
  {
    forall i | 0 <= i < |s| ensures Lower(s)[i] == s[i] {
      assert s[i] in s;
    }
  }

  /** Lower-casing a given string yields the string of its lower-cased characters. */
  lemma LowerIs(s: string, t: string)
    requires |s| == |t| && forall i :: 0 <= i < |s| ==> LowerChar(s[i]) == t[i]
    ensures Lower(s) == t
  {
  }

  /** `a.equalsIgnoreCase(b)` restricted to the ASCII letters. */
  predicate EqualsIgnoreCase(a: string, b: string) {
    Lower(a) == Lower(b)
  }

  predicate IsDigits(s: string) {
    forall i :: 0 <= i < |s| ==> '0' <= s[i] <= '9'
  }

  function DigitChar(d: nat): char
    requires d < 10
  {
    ('0' as int + d) as char
  }

  /** The decimal form of a non-negative number, as `"" + n` gives it. */
  function NatToString(n: nat): (s: string)
    ensures |s| > 0 && IsDigits(s)
    decreases n
  {
    if n < 10 then [DigitChar(n)] else NatToString(n / 10) + [DigitChar(n % 10)]
  }

  /** The value of a string of decimal digits. */
  function ParseDecimal(s: string): nat
    requires IsDigits(s)
  {
    if s == [] then 0 else ParseDecimal(s[..|s| - 1]) * 10 + (s[|s| - 1] as int - '0' as int)
  }

  /** The decimal form can be read back: distinct numbers have distinct forms. */
  lemma {:induction false} ParseNatToString(n: nat)
    ensures ParseDecimal(NatToString(n)) == n
    decreases n
  {
    if n >= 10 {
      ParseNatToString(n / 10);
      var s := NatToString(n);
      assert s[..|s| - 1] == NatToString(n / 10);
    }
  }

  lemma NatToStringInjective(a: nat, b: nat)
    requires NatToString(a) == NatToString(b)
    ensures a == b
  {
    ParseNatToString(a);
    ParseNatToString(b);
  }

  /** `parts.join(separator)`. */
  function Join(parts: seq<string>, separator: string): string {
    if |parts| == 0 then ""
    else if |parts| == 1 then parts[0]
    else parts[0] + separator + Join(parts[1..], separator)
  }

  /** Joining one more part appends the separator and that part. */
  lemma {:induction false} JoinSnoc(parts: seq<string>, last: string, separator: string)
    requires |parts| > 0
    ensures Join(parts + [last], separator) == Join(parts, separator) + separator + last
    decreases |parts|
  {
    if |parts| > 1 {
      assert (parts + [last])[1..] == parts[1..] + [last];
      JoinSnoc(parts[1..], last, separator);
    }
  }
}
