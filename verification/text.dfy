/** Strings as the modelled programs build and split them: decimal numbers as the
    printf family writes them, padding, and the explode/implode pair. */
module Text {

  predicate IsDigit(c: char) { '0' <= c <= '9' }

  function DigitChar(d: nat): (c: char)
    requires d < 10
    ensures IsDigit(c) && DigitValue(c) == d
  {
    ("0123456789")[d]
  }

  function DigitValue(c: char): (d: nat)
    requires IsDigit(c)
    ensures d < 10
  {
    (c as int) - ('0' as int)
  }

  predicate AllDigits(s: string) { forall k :: 0 <= k < |s| ==> IsDigit(s[k]) }

  /** The decimal numeral of n, without padding. */
  function Decimal(n: nat): (s: string)
    ensures |s| >= 1 && AllDigits(s)
  {
    if n < 10 then [DigitChar(n)] else Decimal(n / 10) + [DigitChar(n % 10)]
  }

  /** The number a numeral denotes; leading zeros are harmless. */
  function Value(s: string): nat
    requires AllDigits(s)
  {
    if s == "" then 0 else 10 * Value(s[..|s| - 1]) + DigitValue(s[|s| - 1])
  }

  lemma {:induction false} ValueDecimal(n: nat)
    ensures Value(Decimal(n)) == n
  {
    if n >= 10 {
      ValueDecimal(n / 10);
      var s := Decimal(n);
      assert s[..|s| - 1] == Decimal(n / 10);
    }
  }

  /** A numeral does not start with a zero, except that of 0. */
  lemma {:induction false} DecimalHead(n: nat)
    requires n >= 1
    ensures Decimal(n)[0] != '0'
  {
    if n >= 10 { DecimalHead(n / 10); }
  }

  /** c repeated n times. */
  function Fill(c: char, n: nat): (s: string)
    ensures |s| == n && forall k :: 0 <= k < n ==> s[k] == c
  {
    seq(n, _ => c)
  }

  /** Right-justified in a field of at least `width`, as in "%03d" or "%2d". */
  function PadLeft(c: char, width: nat, s: string): (r: string)
  {
    if |s| < width then Fill(c, width - |s|) + s else s
  }

  /** Left-justified in a field of at least `width`, as in "%-24s". */
  function PadRight(width: nat, s: string): (r: string)
  {
    if |s| < width then s + Fill(' ', width - |s|) else s
  }

  lemma {:induction false} ValueZeros(n: nat, s: string)
    requires AllDigits(s)
    ensures AllDigits(Fill('0', n) + s) && Value(Fill('0', n) + s) == Value(s)
    decreases n + |s|
  {
    var t := Fill('0', n) + s;
    if s != "" {
      ValueZeros(n, s[..|s| - 1]);
      assert t[..|t| - 1] == Fill('0', n) + s[..|s| - 1];
    } else if n > 0 {
      ValueZeros(n - 1, s);
      assert t[..|t| - 1] == Fill('0', n - 1) + s;
    }
  }

  /** The first position of a character that is not a decimal digit. */
  function LeadDigits(s: string): (k: nat)
    ensures k <= |s| && AllDigits(s[..k]) && (k < |s| ==> !IsDigit(s[k]))
  {
    if s == "" || !IsDigit(s[0]) then 0 else
    var k := LeadDigits(s[1..]);
    assert s[..k + 1] == [s[0]] + s[1..][..k];
    k + 1
  }

  lemma LeadDigitsOf(num: string, rest: string)
    requires AllDigits(num) && rest != "" && !IsDigit(rest[0])
    ensures LeadDigits(num + rest) == |num|
    ensures (num + rest)[..|num|] == num && (num + rest)[|num|..] == rest
  {
  }

  /** The first position of c in s, or |s|. */
  function IndexOf(s: string, c: char): (k: nat)
    ensures k <= |s| && (k < |s| ==> s[k] == c)
    ensures forall j :: 0 <= j < k ==> s[j] != c
  {
    if s == "" || s[0] == c then 0 else 1 + IndexOf(s[1..], c)
  }

  lemma IndexOfFirst(pre: string, c: char, post: string)
    requires c !in pre
    ensures IndexOf(pre + [c] + post, c) == |pre|
  {
    var s := pre + [c] + post;
    assert s[|pre|] == c;
    forall j | 0 <= j < |pre| ensures s[j] != c {
      assert s[j] == pre[j];
    }
  }

  /** explode("\n", s): always at least one piece, the separators dropped. */
  function Explode(s: string): (ls: seq<string>)
    ensures |ls| >= 1
    ensures forall k :: 0 <= k < |ls| ==> '\n' !in ls[k]
    decreases |s|
  {
    var k := IndexOf(s, '\n');
    if k == |s| then [s] else [s[..k]] + Explode(s[k + 1..])
  }

  /** implode(sep, ls). */
  function Implode(sep: string, ls: seq<string>): string {
    if ls == [] then "" else if |ls| == 1 then ls[0] else ls[0] + sep + Implode(sep, ls[1..])
  }

  lemma {:induction false} ImplodeExplode(s: string)
    ensures Implode("\n", Explode(s)) == s
    decreases |s|
  {
    var k := IndexOf(s, '\n');
    if k < |s| {
      ImplodeExplode(s[k + 1..]);
      var ls := Explode(s);
      assert ls[1..] == Explode(s[k + 1..]);
      assert s == s[..k] + "\n" + s[k + 1..];
    }
  }

  lemma {:induction false} ExplodeImplode(ls: seq<string>)
    requires |ls| >= 1 && forall k :: 0 <= k < |ls| ==> '\n' !in ls[k]
    ensures Explode(Implode("\n", ls)) == ls
  {
    if |ls| == 1 {
      assert IndexOf(ls[0], '\n') == |ls[0]|;
    } else {
      var rest := Implode("\n", ls[1..]);
      var s := ls[0] + "\n" + rest;
      assert s == Implode("\n", ls);
      IndexOfFirst(ls[0], '\n', rest);
      assert s[..|ls[0]|] == ls[0] && s[|ls[0]| + 1..] == rest;
      ExplodeImplode(ls[1..]);
    }
  }
}
