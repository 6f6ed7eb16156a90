/** Reading the numbers a formula claims to use.

    The game takes every maximal run of the ASCII digits 0-9 in the formula
    text, left to right, and reads each run as a decimal integer (a leading
    zero is harmless: "007" reads as 7). Everything else in the text, the
    decimal point included, only separates runs.
 */
module Formula {

  predicate IsDigit(c: char) {
    '0' <= c <= '9'
  }

  predicate AllDigits(s: string) {
    forall k :: 0 <= k < |s| ==> IsDigit(s[k])
  }

  predicate NoDigits(s: string) {
    forall k :: 0 <= k < |s| ==> !IsDigit(s[k])
  }

  function DigitValue(c: char): (v: nat)
    requires IsDigit(c)
    ensures v <= 9
  {
    (c as int) - ('0' as int)
  }

  function DigitChar(v: nat): (c: char)
    requires v <= 9
    ensures IsDigit(c) && DigitValue(c) == v
  {
    ('0' as int + v) as char
  }

  /** The decimal value of a run of digits, most significant digit first. */
  function DecimalValue(ds: string): nat
    requires AllDigits(ds)
  {
    if ds == [] then 0 else DecimalValue(ds[..|ds| - 1]) * 10 + DigitValue(ds[|ds| - 1])
  }

  /** The length of the digit run the text starts with: every character before
      it is a digit and the character after it, if any, is not. */
  function RunLength(s: string): (n: nat)
    ensures n <= |s|
    ensures AllDigits(s[..n])
    ensures n < |s| ==> !IsDigit(s[n])
  {
    if s == [] || !IsDigit(s[0]) then 0
    else
      var m := RunLength(s[1..]);
      assert s[..m + 1] == [s[0]] + s[1..][..m];
      m + 1
  }

  /** The numbers the formula claims to use: the maximal digit runs, left to
      right, each read as a decimal integer. A text without digits claims
      nothing, and a text with a digit claims something. */
  function ExtractNumbers(s: string): (ns: seq<nat>)
    ensures ns == [] <==> NoDigits(s)
    ensures |ns| <= |s|
    decreases |s|
  {
    if s == [] then []
    else if !IsDigit(s[0]) then
      var rest := ExtractNumbers(s[1..]);
      assert NoDigits(s[1..]) ==> NoDigits(s) by {
        if NoDigits(s[1..]) {
          forall k | 0 <= k < |s| ensures !IsDigit(s[k]) {
            if k > 0 {
              assert s[k] == s[1..][k - 1];
            }
          }
        }
      }
      rest
    else
      var n := RunLength(s);
      [DecimalValue(s[..n])] + ExtractNumbers(s[n..])
  }

  /** Appending text that cannot extend the leading digit run leaves its
      length unchanged. */
  lemma {:induction false} RunLengthOfPrefix(a: string, t: string)
    requires t == [] || !IsDigit(t[0]) || RunLength(a) < |a|
    ensures RunLength(a + t) == RunLength(a)
    decreases |a|
  {
    if a != [] && IsDigit(a[0]) {
      assert (a + t)[1..] == a[1..] + t;
      RunLengthOfPrefix(a[1..], t);
    } else if a == [] {
      assert a + t == t;
    }
  }

  /** A non-digit splits the formula: the numbers of a + [c] + b are those of
      a followed by those of b. */
  lemma {:induction false} ExtractSplitsAtNonDigit(a: string, c: char, b: string)
    requires !IsDigit(c)
    ensures ExtractNumbers(a + [c] + b) == ExtractNumbers(a) + ExtractNumbers(b)
    decreases |a|
  {
    var s := a + [c] + b;
    if a == [] {
      assert s == [c] + b && s[1..] == b;
    } else if !IsDigit(a[0]) {
      assert s[1..] == a[1..] + [c] + b;
      ExtractSplitsAtNonDigit(a[1..], c, b);
    } else {
      var m := RunLength(a);
      RunLengthOfPrefix(a, [c] + b);
      assert s == a + ([c] + b);
      assert s[..m] == a[..m];
      assert s[m..] == a[m..] + [c] + b;
      ExtractSplitsAtNonDigit(a[m..], c, b);
    }
  }

  /** A run of digits on its own is one number, its decimal value. */
  lemma DigitRunIsOneNumber(ds: string)
    requires ds != [] && AllDigits(ds)
    ensures ExtractNumbers(ds) == [DecimalValue(ds)]
  {
    assert ds[..|ds|] == ds;
    RunLengthOfPrefix(ds, []);
    assert ds + [] == ds;
    assert ds[|ds|..] == [];
  }

  /** The decimal spelling of a natural number, without leading zeros. */
  function Show(n: nat): (ds: string)
    ensures ds != [] && AllDigits(ds)
    ensures DecimalValue(ds) == n
  {
    if n < 10 then
      var ds := [DigitChar(n)];
      assert ds[..0] == [];
      ds
    else
      var ds := Show(n / 10) + [DigitChar(n % 10)];
      assert ds[..|ds| - 1] == Show(n / 10);
      ds
  }

  /** The formula n0 op n1 op ... written with a single non-digit operator. */
  function Join(ns: seq<nat>, op: char): string
  {
    if |ns| == 0 then []
    else if |ns| == 1 then Show(ns[0])
    else Show(ns[0]) + [op] + Join(ns[1..], op)
  }

  /** Writing numbers out with any non-digit operator between them and
      extracting them again gives back exactly those numbers, in order. */
  lemma {:induction false} ExtractJoinRoundTrip(ns: seq<nat>, op: char)
    requires !IsDigit(op)
    ensures ExtractNumbers(Join(ns, op)) == ns
    decreases |ns|
  {
    if |ns| == 0 {
    } else if |ns| == 1 {
      DigitRunIsOneNumber(Show(ns[0]));
    } else {
      ExtractSplitsAtNonDigit(Show(ns[0]), op, Join(ns[1..], op));
      DigitRunIsOneNumber(Show(ns[0]));
      ExtractJoinRoundTrip(ns[1..], op);
      assert ns == [ns[0]] + ns[1..];
    }
  }

  /** A decimal point is not part of a number: "1.5" claims the two numbers
      1 and 5. */
  lemma DecimalPointSeparates()
    ensures ExtractNumbers("1.5") == [1, 5]
  {
    ExtractSplitsAtNonDigit("1", '.', "5");
    assert "1.5" == "1" + ['.'] + "5";
    DigitRunIsOneNumber("1");
    DigitRunIsOneNumber("5");
  }
}
