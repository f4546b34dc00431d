/** Decimal rendering of unsigned numbers, as std::format("{}") and the
    zero-padded chrono fields print them. */
module Text {

  function DigitChar(d: nat): (c: char)
    requires d < 10
    ensures '0' <= c <= '9'
  {
    "0123456789"[d]
  }

  predicate IsDigits(s: string) {
    forall i :: 0 <= i < |s| ==> '0' <= s[i] <= '9'
  }

  /** The decimal digits of n, most significant first, without leading zeros. */
  function NatText(n: nat): (s: string)
    ensures |s| >= 1 && IsDigits(s)
    ensures n >= 10 ==> s[0] != '0'
    decreases n
  {
    if n < 10 then [DigitChar(n)] else NatText(n / 10) + [DigitChar(n % 10)]
  }

  /** The number a string of decimal digits denotes. */
  function DecimalValue(s: string): nat
    requires IsDigits(s)
  {
    if s == [] then 0 else 10 * DecimalValue(s[..|s| - 1]) + (s[|s| - 1] as int - '0' as int)
  }

  /** Reading the digits back gives the number: the rendering loses nothing. */
  lemma {:induction false} DecimalValueOfNatText(n: nat)
    ensures DecimalValue(NatText(n)) == n
    decreases n
  {
    var s := NatText(n);
    if n >= 10 {
      DecimalValueOfNatText(n / 10);
      assert s[..|s| - 1] == NatText(n / 10);
    }
  }

  /** NatText is injective: distinct numbers print differently. */
  lemma NatTextInjective(m: nat, n: nat)
    ensures NatText(m) == NatText(n) ==> m == n
  {
    DecimalValueOfNatText(m);
    DecimalValueOfNatText(n);
  }

  /** Left-pads s with '0' up to width characters (the chrono %Y, %m, %d fields). */
  function ZeroPad(s: string, width: nat): (r: string)
    ensures |r| == if |s| < width then width else |s|
    ensures r[|r| - |s|..] == s
    ensures forall i :: 0 <= i < |r| - |s| ==> r[i] == '0'
  {
    if |s| < width then Zeros(width - |s|) + s else s
  }

  /** n '0' characters. */
  function Zeros(n: nat): (z: string)
    ensures |z| == n && forall i :: 0 <= i < n ==> z[i] == '0'
  {
    seq(n, i => '0')
  }

  /** The three parts of tag + field + rest can be cut back out of it. */
  lemma LabelledSlices(tag: string, field: string, rest: string)
    ensures |tag + field + rest| == |tag| + |field| + |rest|
    ensures (tag + field + rest)[..|tag|] == tag
    ensures (tag + field + rest)[|tag|..|tag| + |field|] == field
    ensures (tag + field + rest)[|tag| + |field|..] == rest
  {
  }

  /** Four labelled fields laid end to end: every label and every field can be
      cut back out at the offset the lengths before it add up to. */
  lemma LabelledFields(l1: string, f1: string, l2: string, f2: string,
                       l3: string, f3: string, l4: string, f4: string)
    ensures var s := l1 + f1 + l2 + f2 + l3 + f3 + l4 + f4;
            var a := |l1|; var b := a + |f1|; var c := b + |l2|; var d := c + |f2|;
            var e := d + |l3|; var f := e + |f3|; var g := f + |l4|;
            && |s| == g + |f4|
            && s[..a] == l1 && s[a..b] == f1 && s[b..c] == l2 && s[c..d] == f2
            && s[d..e] == l3 && s[e..f] == f3 && s[f..g] == l4 && s[g..] == f4
  {
  }
}
