/**
 Token amounts in print: an integer amount shown with a fixed number of decimals, and the same with
 the trailing zeros of the fraction trimmed off.
 */
module TokenAmount {
  // ---------- digits ----------

  predicate IsDigit(c: char) {
    '0' <= c <= '9'
  }

  ghost predicate IsDigits(s: string) {
    forall i | 0 <= i < |s| :: IsDigit(s[i])
  }

  function ValueOf(c: char): nat
    requires IsDigit(c)
  {
    c as int - '0' as int
  }

  function DigitFor(v: nat): (c: char)
    requires v < 10
    ensures IsDigit(c) && ValueOf(c) == v
  {
    ('0' as int + v) as char
  }

  // n * 10^k
  ghost function Scaled(n: nat, k: nat): nat {
    if k == 0 then n else 10 * Scaled(n, k - 1)
  }

  // The number a string of digits spells.
  ghost function NatOf(s: string): nat
    requires IsDigits(s)
  {
    if s == [] then 0 else NatOf(s[..|s| - 1]) * 10 + ValueOf(s[|s| - 1])
  }

  function Digits(n: nat): (s: string)
    ensures |s| > 0 && IsDigits(s)
  {
    if n < 10 then [DigitFor(n)] else Digits(n / 10) + [DigitFor(n % 10)]
  }

  lemma {:induction false} DigitsSpell(n: nat)
    ensures NatOf(Digits(n)) == n
  {
    if n < 10 {
      assert [DigitFor(n)][..0] == [];
    } else {
      DigitsSpell(n / 10);
      assert Digits(n)[..|Digits(n)| - 1] == Digits(n / 10);
    }
  }

  lemma {:induction false} DigitsStart(n: nat)
    ensures Digits(n)[0] == '0' ==> |Digits(n)| == 1
  {
    if n >= 10 {
      DigitsStart(n / 10);
      if |Digits(n / 10)| == 1 { DigitsSpell(n / 10); }
    }
  }

  function Zeros(k: nat): (s: string)
    ensures |s| == k && IsDigits(s) && forall i | 0 <= i < k :: s[i] == '0'
  {
    if k == 0 then [] else Zeros(k - 1) + ['0']
  }

  lemma {:induction false} ZerosSpell(k: nat)
    ensures NatOf(Zeros(k)) == 0
  {
    if k > 0 {
      assert Zeros(k)[..k - 1] == Zeros(k - 1);
      ZerosSpell(k - 1);
    }
  }

  lemma {:induction false} LeadingZeros(k: nat, s: string)
    requires IsDigits(s)
    ensures IsDigits(Zeros(k) + s) && NatOf(Zeros(k) + s) == NatOf(s)
  {
    if s == [] {
      assert Zeros(k) + s == Zeros(k);
      ZerosSpell(k);
    } else {
      assert (Zeros(k) + s)[..|Zeros(k) + s| - 1] == Zeros(k) + s[..|s| - 1];
      LeadingZeros(k, s[..|s| - 1]);
    }
  }

  lemma SpellNext(s: string, c: char)
    requires IsDigits(s) && IsDigit(c)
    ensures IsDigits(s + [c]) && NatOf(s + [c]) == NatOf(s) * 10 + ValueOf(c)
  {
    assert (s + [c])[..|s|] == s;
  }

  lemma {:induction false} TrailingZeros(s: string, k: nat)
    requires IsDigits(s)
    ensures IsDigits(s + Zeros(k)) && NatOf(s + Zeros(k)) == Scaled(NatOf(s), k)
  {
    if k == 0 {
      assert s + Zeros(k) == s;
    } else {
      TrailingZeros(s, k - 1);
      assert s + Zeros(k) == (s + Zeros(k - 1)) + ['0'];
      SpellNext(s + Zeros(k - 1), '0');
    }
  }

  // ---------- what a printed amount means ----------

  function PointAt(s: string): (p: nat)
    ensures p <= |s| && (p < |s| ==> s[p] == '.') && forall i | 0 <= i < p :: s[i] != '.'
  {
    if s == [] || s[0] == '.' then 0 else 1 + PointAt(s[1..])
  }

  // Digits, and digits again after a point.
  ghost predicate IsNumber(s: string) {
    var p := PointAt(s);
    IsDigits(s[..p]) && p > 0 && (p < |s| ==> p + 1 < |s| && IsDigits(s[p + 1..]))
  }

  // A numerator, and how many decimals it has.
  ghost function Parse(s: string): (nat, nat)
    requires IsNumber(s)
  {
    var p := PointAt(s);
    if p == |s| then (NatOf(s[..p]), 0) else (NatOf(s[..p] + s[p + 1..]), |s| - p - 1)
  }

  lemma PointIs(whole: string, fraction: string)
    requires IsDigits(whole) && IsDigits(fraction)
    ensures PointAt(whole + "." + fraction) == |whole| && PointAt(whole) == |whole|
  {
    var s := whole + "." + fraction;
    assert s[|whole|] == '.';
    assert forall i | 0 <= i < |whole| :: s[i] == whole[i];
  }

  lemma ParsePointed(whole: string, fraction: string)
    requires IsDigits(whole) && whole != [] && IsDigits(fraction) && fraction != []
    ensures IsNumber(whole + "." + fraction)
    ensures Parse(whole + "." + fraction) == (NatOf(whole + fraction), |fraction|)
  {
    PointIs(whole, fraction);
    var s := whole + "." + fraction;
    assert s[..|whole|] == whole && s[|whole| + 1..] == fraction;
  }

  lemma ParseWhole(whole: string)
    requires IsDigits(whole) && whole != []
    ensures IsNumber(whole) && Parse(whole) == (NatOf(whole), 0)
  {
    PointIs(whole, []);
    assert whole[..|whole|] == whole;
  }

  // ---------- printing ----------

  // Left-padded with zeros to one digit more than the decimals.
  function Padded(amount: nat, decimals: nat): (s: string)
    ensures |s| > decimals && IsDigits(s)
  {
    var digits := Digits(amount);
    Zeros(if |digits| < decimals + 1 then decimals + 1 - |digits| else 0) + digits
  }

  function RealNumberString(amount: nat, decimals: nat): string {
    if decimals > 0 then
      var s := Padded(amount, decimals);
      s[..|s| - decimals] + "." + s[|s| - decimals..]
    else Digits(amount)
  }

  lemma PrintedStart(amount: nat, decimals: nat)
    ensures var s := RealNumberString(amount, decimals); s != [] && (s[0] == '0' ==> PointAt(s) == 1)
  {
    var digits := Digits(amount);
    DigitsStart(amount);
    if decimals > 0 {
      var s := Padded(amount, decimals);
      PointIs(s[..|s| - decimals], s[|s| - decimals..]);
      if |digits| >= decimals + 1 { assert Zeros(0) + digits == digits; }
    } else {
      PointIs(digits, []);
    }
  }

  lemma PaddedSpells(amount: nat, decimals: nat)
    ensures NatOf(Padded(amount, decimals)) == amount
  {
    var digits := Digits(amount);
    DigitsSpell(amount);
    LeadingZeros(if |digits| < decimals + 1 then decimals + 1 - |digits| else 0, digits);
  }

  lemma PrintedParses(amount: nat, decimals: nat)
    ensures IsNumber(RealNumberString(amount, decimals))
    ensures Parse(RealNumberString(amount, decimals)) == (amount, decimals)
  {
    PaddedSpells(amount, decimals);
    if decimals > 0 {
      var s := Padded(amount, decimals);
      assert s == s[..|s| - decimals] + s[|s| - decimals..];
      ParsePointed(s[..|s| - decimals], s[|s| - decimals..]);
    } else {
      DigitsSpell(amount);
      ParseWhole(Digits(amount));
    }
  }

  // Printing loses nothing: the amount and the decimals can be read back. The integer digits start with a zero
  // only if that is all of them.
  lemma PrintedDenotes(amount: nat, decimals: nat)
    ensures IsNumber(RealNumberString(amount, decimals))
    ensures Parse(RealNumberString(amount, decimals)) == (amount, decimals)
    ensures RealNumberString(amount, decimals)[0] == '0' ==> PointAt(RealNumberString(amount, decimals)) == 1
  {
    PrintedStart(amount, decimals);
    PrintedParses(amount, decimals);
  }

  function TrimEnd(s: string, c: char): (r: string)
    ensures |r| <= |s| && r == s[..|r|] && (r != [] ==> r[|r| - 1] != c)
    ensures forall i | |r| <= i < |s| :: s[i] == c
  {
    if s != [] && s[|s| - 1] == c then TrimEnd(s[..|s| - 1], c) else s
  }

  function RealNumberStringTrimmed(amount: nat, decimals: nat): string {
    var s := RealNumberString(amount, decimals);
    if decimals > 0 then TrimEnd(TrimEnd(s, '0'), '.') else s
  }

  // Trimming stops where the prefix ends in another character.
  lemma {:induction false} TrimSuffix(prefix: string, s: string, c: char)
    requires prefix != [] && prefix[|prefix| - 1] != c
    ensures TrimEnd(prefix + s, c) == prefix + TrimEnd(s, c)
  {
    if s != [] && s[|s| - 1] == c {
      assert (prefix + s)[..|prefix + s| - 1] == prefix + s[..|s| - 1];
      TrimSuffix(prefix, s[..|s| - 1], c);
    } else if s == [] {
      assert prefix + s == prefix;
    }
  }

  ghost function Shown(whole: string, fraction: string): string {
    if fraction == [] then whole else whole + "." + fraction
  }

  lemma TrimPoint(whole: string)
    requires IsDigits(whole) && whole != []
    ensures TrimEnd(whole + ".", '.') == whole
  {
    TrimSuffix(whole, ".", '.');
    assert TrimEnd(".", '.') == TrimEnd([], '.');
    assert whole + [] == whole;
  }

  lemma TrimmedShape(whole: string, fraction: string)
    requires IsDigits(whole) && whole != [] && IsDigits(fraction)
    ensures TrimEnd(TrimEnd(whole + "." + fraction, '0'), '.') == Shown(whole, TrimEnd(fraction, '0'))
  {
    var kept := TrimEnd(fraction, '0');
    TrimSuffix(whole + ".", fraction, '0');
    if kept == [] {
      assert whole + "." + kept == whole + ".";
      TrimPoint(whole);
    } else {
      assert (whole + "." + kept)[|whole + "." + kept| - 1] == kept[|kept| - 1];
    }
  }

  lemma ShownPoint(whole: string, fraction: string)
    requires IsDigits(whole) && IsDigits(fraction)
    ensures PointAt(Shown(whole, fraction)) == |whole| && Shown(whole, fraction)[..|whole|] == whole
  {
    PointIs(whole, fraction);
  }

  lemma ParseShown(whole: string, fraction: string)
    requires IsDigits(whole) && whole != [] && IsDigits(fraction)
    ensures IsNumber(Shown(whole, fraction))
    ensures Parse(Shown(whole, fraction)) == (NatOf(whole + fraction), |fraction|)
  {
    PointIs(whole, fraction);
    if fraction == [] {
      assert whole + fraction == whole;
      ParseWhole(whole);
    } else {
      ParsePointed(whole, fraction);
    }
  }

  // The digits of a fraction without the zeros at its end.
  ghost predicate Trimmed(kept: string, fraction: string) {
    && IsDigits(kept) && (kept != [] ==> kept[|kept| - 1] != '0')
    && |kept| <= |fraction| && fraction == kept + Zeros(|fraction| - |kept|)
  }

  lemma TrimEndTrims(fraction: string)
    requires IsDigits(fraction)
    ensures Trimmed(TrimEnd(fraction, '0'), fraction)
  {
  }

  lemma JoinDigits(a: string, b: string)
    requires IsDigits(a) && IsDigits(b)
    ensures IsDigits(a + b)
  {
  }

  lemma JoinThree(a: string, b: string, c: string)
    ensures a + (b + c) == (a + b) + c
  {
  }

  lemma TrimmedValue(whole: string, kept: string, k: nat)
    requires IsDigits(whole + kept) && IsDigits(whole + (kept + Zeros(k)))
    ensures NatOf(whole + (kept + Zeros(k))) == Scaled(NatOf(whole + kept), k)
  {
    JoinThree(whole, kept, Zeros(k));
    TrailingZeros(whole + kept, k);
  }

  // A string that reads as amount / 10^decimals, with no more decimals, no point at its end and no
  // zero at the end of a fraction.
  ghost predicate ShortFor(t: string, amount: nat, decimals: nat) {
    && IsNumber(t) && t[|t| - 1] != '.'
    && var (n, d) := Parse(t);
       d <= decimals && Scaled(n, decimals - d) == amount && (d > 0 ==> t[|t| - 1] != '0')
  }

  lemma ShownEnd(whole: string, kept: string)
    requires IsDigits(whole) && whole != [] && IsDigits(kept)
    requires kept != [] ==> kept[|kept| - 1] != '0'
    ensures var t := Shown(whole, kept);
            t != [] && t[|t| - 1] != '.' && (kept != [] ==> t[|t| - 1] != '0')
  {
    var t := Shown(whole, kept);
    assert t[|t| - 1] == if kept == [] then whole[|whole| - 1] else kept[|kept| - 1];
  }

  lemma ShownShort(whole: string, kept: string, decimals: nat, amount: nat)
    requires IsDigits(whole) && whole != [] && IsDigits(kept) && IsDigits(whole + kept)
    requires kept != [] ==> kept[|kept| - 1] != '0'
    requires |kept| <= decimals && Scaled(NatOf(whole + kept), decimals - |kept|) == amount
    ensures ShortFor(Shown(whole, kept), amount, decimals)
  {
    ParseShown(whole, kept);
    ShownEnd(whole, kept);
  }

  lemma ShownIsShort(whole: string, fraction: string, kept: string, amount: nat)
    requires IsDigits(whole) && whole != [] && Trimmed(kept, fraction)
    requires IsDigits(whole + fraction) && NatOf(whole + fraction) == amount
    ensures ShortFor(Shown(whole, kept), amount, |fraction|)
  {
    JoinDigits(whole, kept);
    TrimmedValue(whole, kept, |fraction| - |kept|);
    ShownShort(whole, kept, |fraction|, amount);
  }

  // The integer digits, and all the decimals.
  ghost function Parts(amount: nat, decimals: nat): (r: (string, string))
    requires decimals > 0
    ensures IsDigits(r.0) && r.0 != [] && IsDigits(r.1) && |r.1| == decimals
    ensures r.0 + r.1 == Padded(amount, decimals) && RealNumberString(amount, decimals) == r.0 + "." + r.1
  {
    var s := Padded(amount, decimals);
    (s[..|s| - decimals], s[|s| - decimals..])
  }

  // The trimmed form means the same number, with no zero at the end of a fraction.
  lemma TrimmedDenotes(amount: nat, decimals: nat)
    ensures ShortFor(RealNumberStringTrimmed(amount, decimals), amount, decimals)
  {
    if decimals > 0 {
      var (whole, fraction) := Parts(amount, decimals);
      PaddedSpells(amount, decimals);
      TrimmedShape(whole, fraction);
      TrimEndTrims(fraction);
      ShownIsShort(whole, fraction, TrimEnd(fraction, '0'), amount);
    } else {
      PrintedDenotes(amount, decimals);
    }
  }

  // Trimming leaves the integer digits alone.
  lemma TrimmedKeepsInteger(amount: nat, decimals: nat)
    ensures var t, s := RealNumberStringTrimmed(amount, decimals), RealNumberString(amount, decimals);
            PointAt(t) == PointAt(s) && t[..PointAt(t)] == s[..PointAt(s)]
  {
    if decimals > 0 {
      var (whole, fraction) := Parts(amount, decimals);
      TrimmedShape(whole, fraction);
      TrimEndTrims(fraction);
      ShownPoint(whole, fraction);
      ShownPoint(whole, TrimEnd(fraction, '0'));
    }
  }

  // For fixed decimals neither form is shared by two amounts.
  lemma PrintedIsInjective(a: nat, b: nat, decimals: nat)
    requires RealNumberString(a, decimals) == RealNumberString(b, decimals)
    ensures a == b
  {
    PrintedDenotes(a, decimals);
    PrintedDenotes(b, decimals);
  }

  lemma SameShort(t: string, a: nat, b: nat, decimals: nat)
    requires ShortFor(t, a, decimals) && ShortFor(t, b, decimals)
    ensures a == b
  {
  }

  lemma TrimmedIsInjective(a: nat, b: nat, decimals: nat)
    requires RealNumberStringTrimmed(a, decimals) == RealNumberStringTrimmed(b, decimals)
    ensures a == b
  {
    TrimmedDenotes(a, decimals);
    TrimmedDenotes(b, decimals);
    SameShort(RealNumberStringTrimmed(a, decimals), a, b, decimals);
  }
}
