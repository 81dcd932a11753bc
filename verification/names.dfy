/**
  String helpers the rewrite pass relies on: Java's decimal rendering of a
  non-negative `int`, the accessor naming scheme, `String.lastIndexOf`, the
  package prefix of a `/`-separated internal name and the binary name handed
  to the class loader.
 */
module Names {
  import opened Results

  predicate IsDigit(c: char) {
    '0' <= c <= '9'
  }

  function DigitChar(d: nat): (c: char)
    requires d < 10
    ensures IsDigit(c)
  {
    ('0' as int + d) as char
  }

  function DigitValue(c: char): nat
    requires IsDigit(c)
  {
    c as int - '0' as int
  }

  /** `Integer.toString(n)` for `n >= 0`: decimal digits, no leading zero. */
  function DecimalString(n: nat): (s: string)
    ensures |s| > 0
    ensures forall i :: 0 <= i < |s| ==> IsDigit(s[i])
    ensures s[0] == '0' ==> s == "0"
  {
    if n < 10 then [DigitChar(n)] else DecimalString(n / 10) + [DigitChar(n % 10)]
  }

  /** The number a string of decimal digits denotes. */
  function DecimalValue(s: string): nat
    requires forall i :: 0 <= i < |s| ==> IsDigit(s[i])
  {
    if |s| == 0 then 0 else 10 * DecimalValue(s[..|s| - 1]) + DigitValue(s[|s| - 1])
  }

  /** Reading the decimal rendering back gives the number. */
  lemma {:induction false} DecimalRoundTrip(n: nat)
    ensures DecimalValue(DecimalString(n)) == n
  {
    if n >= 10 {
      var s := DecimalString(n);
      assert s[..|s| - 1] == DecimalString(n / 10);
      DecimalRoundTrip(n / 10);
    }
  }

  const AccessorPrefix: string := "access$lambda$"

  /** The name of the `k`-th accessor of a class: `access$lambda$<k>`. */
  function AccessorName(k: nat): string {
    AccessorPrefix + DecimalString(k)
  }

  /** An accessor name is the prefix followed by digits that read back as its number. */
  lemma AccessorNameNumber(k: nat)
    ensures var s := AccessorName(k);
            && |s| > |AccessorPrefix| && s[..|AccessorPrefix|] == AccessorPrefix
            && (forall i :: |AccessorPrefix| <= i < |s| ==> IsDigit(s[i]))
            && DecimalValue(s[|AccessorPrefix|..]) == k
  {
    var s := AccessorName(k);
    assert s[|AccessorPrefix|..] == DecimalString(k);
    DecimalRoundTrip(k);
  }

  /** Accessors with different numbers have different names. */
  lemma AccessorNameInjective(j: nat, k: nat)
    ensures AccessorName(j) == AccessorName(k) <==> j == k
  {
    AccessorNameNumber(j);
    AccessorNameNumber(k);
  }

  /** `s.lastIndexOf(c)`: the last position holding `c`, or -1. */
  function LastIndexOf(s: string, c: char): (k: int)
    ensures -1 <= k < |s|
    ensures k >= 0 ==> s[k] == c
    ensures forall j :: k < j < |s| ==> s[j] != c
  {
    if |s| == 0 then -1
    else if s[|s| - 1] == c then |s| - 1
    else LastIndexOf(s[..|s| - 1], c)
  }

  /**
    `name.substring(0, name.lastIndexOf('/'))`: the package part of an
    internal name. Java throws when the name holds no `/` (the substring end
    is -1); that case answers None.
   */
  function PackageOf(name: string): (r: Option<string>)
    ensures r.None? <==> '/' !in name
    ensures r.Some? ==> |r.value| < |name| && name[..|r.value|] == r.value && name[|r.value|] == '/'
    ensures r.Some? ==> '/' !in name[|r.value| + 1..]
  {
    var k := LastIndexOf(name, '/');
    if k < 0 then None else Some(name[..k])
  }

  /** `name.replace('/', '.')`: the binary name a class loader expects. */
  function BinaryName(name: string): (r: string)
    ensures |r| == |name|
    ensures forall i :: 0 <= i < |name| ==> r[i] == (if name[i] == '/' then '.' else name[i])
  {
    if |name| == 0 then ""
    else [if name[0] == '/' then '.' else name[0]] + BinaryName(name[1..])
  }
}
