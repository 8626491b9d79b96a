/** The pieces of Python's string and number handling that the core relies on:
    `f"{n:04d}"` formatting, decimal values, the ordering `<` on str that
    `sorted` uses, `str.replace`, and the substring test `p in s`. */
module Text {

  function Pow10(k: nat): (r: nat)
    ensures r >= 1
  {
    if k == 0 then 1 else 10 * Pow10(k - 1)
  }

  predicate IsDigit(c: char) { '0' <= c <= '9' }

  predicate AllDigits(s: string) { forall i :: 0 <= i < |s| ==> IsDigit(s[i]) }

  function DigitValue(c: char): (d: nat)
    requires IsDigit(c)
    ensures d < 10
  {
    c as int - '0' as int
  }

  function DigitChar(d: nat): (c: char)
    requires d < 10
    ensures IsDigit(c) && DigitValue(c) == d
  {
    ('0' as int + d) as char
  }

  /** Decimal representation without leading zeros, as `str(n)`. */
  function Digits(n: nat): (r: string)
    ensures 1 <= |r| && AllDigits(r)
    decreases n
  {
    if n < 10 then [DigitChar(n)] else Digits(n / 10) + [DigitChar(n % 10)]
  }

  function Zeros(k: nat): (r: string)
    ensures |r| == k && forall i :: 0 <= i < k ==> r[i] == '0'
  {
    seq(k, _ => '0')
  }

  /** `d` left-filled with zeros up to `width` characters; never truncated. */
  function PadLeft(d: string, width: int): string
  {
    if |d| < width then Zeros(width - |d|) + d else d
  }

  /** `format(n, "0{width}d")`: the sign counts towards the width and the zeros
      go after it, so `ZeroPad(-1, 4) == "-001"`; a number with more digits than
      `width` is written in full. */
  function ZeroPad(n: int, width: nat): string
  {
    if n >= 0 then PadLeft(Digits(n), width) else "-" + PadLeft(Digits(-n), width - 1)
  }

  /** The number a string of decimal digits denotes (leading zeros allowed). */
  function Value(s: string): (v: nat)
    requires AllDigits(s)
    ensures v < Pow10(|s|)
  {
    if s == [] then 0 else 10 * Value(s[..|s| - 1]) + DigitValue(s[|s| - 1])
  }

  lemma {:induction false} ValueOfDigits(n: nat)
    ensures Value(Digits(n)) == n
    decreases n
  {
    if n >= 10 {
      var d := Digits(n / 10);
      ValueOfDigits(n / 10);
      assert Digits(n)[..|Digits(n)| - 1] == d;
    }
  }

  lemma {:induction false} ZerosValue(k: nat)
    ensures AllDigits(Zeros(k)) && Value(Zeros(k)) == 0
  {
    if k > 0 {
      assert Zeros(k)[..k - 1] == Zeros(k - 1);
      ZerosValue(k - 1);
    }
  }

  lemma {:induction false} ValueIgnoresLeadingZeros(k: nat, s: string)
    requires AllDigits(s)
    ensures AllDigits(Zeros(k) + s) && Value(Zeros(k) + s) == Value(s)
    decreases |s|
  {
    if s == [] {
      assert Zeros(k) + s == Zeros(k);
      ZerosValue(k);
    } else {
      var z := Zeros(k) + s;
      assert z[..|z| - 1] == Zeros(k) + s[..|s| - 1];
      ValueIgnoresLeadingZeros(k, s[..|s| - 1]);
    }
  }

  /** Zero padding is undone by reading the digits back. */
  lemma ZeroPadValue(n: nat, width: nat)
    ensures AllDigits(ZeroPad(n, width)) && Value(ZeroPad(n, width)) == n
  {
    ValueOfDigits(n);
    if |Digits(n)| < width {
      ValueIgnoresLeadingZeros(width - |Digits(n)|, Digits(n));
    }
  }

  /** Distinct session numbers never share a zero-padded name. */
  lemma ZeroPadInjective(a: nat, b: nat, width: nat)
    requires ZeroPad(a, width) == ZeroPad(b, width)
    ensures a == b
  {
    ZeroPadValue(a, width);
    ZeroPadValue(b, width);
  }

  lemma {:induction false} ValueZeroIsZeros(s: string)
    requires AllDigits(s) && Value(s) == 0
    ensures s == Zeros(|s|)
    decreases |s|
  {
    if s != [] {
      var k := |s| - 1;
      ValueZeroIsZeros(s[..k]);
      assert s == s[..k] + [s[k]];
    }
  }

  /** Formatting the value of a digit string at the string's own width gives
      back the string, leading zeros included. */
  lemma {:induction false} ZeroPadOfValue(d: string)
    requires AllDigits(d) && 1 <= |d|
    ensures ZeroPad(Value(d), |d|) == d
    decreases |d|
  {
    var k := |d| - 1;
    var init := d[..k];
    var c := DigitValue(d[k]);
    var v := Value(d);
    assert d == init + [d[k]];
    assert v == 10 * Value(init) + c;
    assert DigitChar(c) == d[k];
    if Value(init) == 0 {
      ValueZeroIsZeros(init);
      assert Digits(v) == [d[k]];
    } else {
      ZeroPadOfValue(init);
      var di := Digits(Value(init));
      assert v / 10 == Value(init) && v % 10 == c;
      assert Digits(v) == di + [d[k]];
      assert |di| <= k;
      if |di| < k {
        assert Zeros(k + 1 - |Digits(v)|) == Zeros(k - |di|);
        assert init == Zeros(k - |di|) + di;
      }
    }
  }

  lemma {:induction false} DigitsLength(n: nat, w: nat)
    requires 1 <= w
    ensures |Digits(n)| <= w <==> n < Pow10(w)
    decreases n
  {
    if n >= 10 {
      assert |Digits(n)| == |Digits(n / 10)| + 1;
      if w > 1 {
        DigitsLength(n / 10, w - 1);
        assert n / 10 < Pow10(w - 1) <==> n < Pow10(w);
      }
    } else {
      assert Pow10(w) == 10 * Pow10(w - 1);
    }
  }

  /** `{n:0wd}` has exactly `width` characters while n fits, and widens after. */
  lemma ZeroPadWidth(n: nat, width: nat)
    requires 1 <= width
    ensures n < Pow10(width) ==> |ZeroPad(n, width)| == width
    ensures Pow10(width) <= n ==> |ZeroPad(n, width)| > width
  {
    DigitsLength(n, width);
  }

  lemma {:induction false} ValueFront(s: string)
    requires AllDigits(s) && 1 <= |s|
    ensures Value(s) == DigitValue(s[0]) * Pow10(|s| - 1) + Value(s[1..])
    decreases |s|
  {
    if |s| > 1 {
      var k := |s| - 1;
      var init, tail := s[..k], s[1..];
      var last := DigitValue(s[k]);
      ValueFront(init);
      assert tail[..|tail| - 1] == init[1..] && tail[|tail| - 1] == s[k];
      assert Value(tail) == 10 * Value(init[1..]) + last;
      assert Value(s) == 10 * Value(init) + last;
      ScaleLeadingDigit(DigitValue(s[0]), k);
    }
  }

  lemma ScaleLeadingDigit(d: nat, k: nat)
    requires 1 <= k
    ensures 10 * (d * Pow10(k - 1)) == d * Pow10(k)
  {
    var p := Pow10(k - 1);
    assert Pow10(k) == 10 * p;
    assert 10 * (d * p) == d * (10 * p);
  }

  /** A smaller leading digit outweighs any rest of a fixed number of digits. */
  lemma LeadingDigitDecides(da: nat, db: nat, ra: nat, rb: nat, p: nat)
    requires da < db && ra < p && rb < p
    ensures da * p + ra < db * p + rb
  {
    MulMonotonic(da + 1, db, p);
    assert (da + 1) * p == da * p + p;
  }

  lemma MulMonotonic(x: nat, y: nat, p: nat)
    requires x <= y
    ensures x * p <= y * p
  {
    var e := y - x;
    assert y * p == x * p + e * p;
  }

  /** On digit strings of one length, `<` on str agrees with `<` on numbers. */
  lemma {:induction false} BelowDigits(a: string, b: string)
    requires |a| == |b| && AllDigits(a) && AllDigits(b)
    ensures Below(a, b) <==> Value(a) < Value(b)
    decreases |a|
  {
    if a != [] {
      ValueFront(a);
      ValueFront(b);
      var p := Pow10(|a| - 1);
      var da, db := DigitValue(a[0]), DigitValue(b[0]);
      if da < db {
        LeadingDigitDecides(da, db, Value(a[1..]), Value(b[1..]), p);
      } else if db < da {
        LeadingDigitDecides(db, da, Value(b[1..]), Value(a[1..]), p);
      } else {
        BelowDigits(a[1..], b[1..]);
      }
    }
  }

  /** Python's `a < b` on str: the first differing code point decides, and a
      proper prefix comes first. */
  predicate Below(a: string, b: string)
    decreases |a|
  {
    if a == [] then b != []
    else if b == [] then false
    else if a[0] != b[0] then a[0] < b[0]
    else Below(a[1..], b[1..])
  }

  lemma {:induction false} BelowIrreflexive(a: string)
    ensures !Below(a, a)
    decreases |a|
  {
    if a != [] {
      BelowIrreflexive(a[1..]);
    }
  }

  lemma {:induction false} BelowAsymmetric(a: string, b: string)
    ensures !(Below(a, b) && Below(b, a))
    decreases |a|
  {
    if a != [] && b != [] && a[0] == b[0] {
      BelowAsymmetric(a[1..], b[1..]);
    }
  }

  lemma {:induction false} BelowTotal(a: string, b: string)
    ensures a == b || Below(a, b) || Below(b, a)
    decreases |a|
  {
    if a != [] && b != [] && a[0] == b[0] {
      BelowTotal(a[1..], b[1..]);
      if a[1..] == b[1..] {
        assert a == [a[0]] + a[1..] && b == [b[0]] + b[1..];
      }
    }
  }

  lemma {:induction false} BelowTransitive(a: string, b: string, c: string)
    requires Below(a, b) && Below(b, c)
    ensures Below(a, c)
    decreases |a|
  {
    if a != [] && a[0] == b[0] && b[0] == c[0] {
      BelowTransitive(a[1..], b[1..], c[1..]);
    }
  }

  /** When two strings start with different prefixes of one length, the
      prefixes alone decide their order. */
  lemma {:induction false} BelowPrefixDecides(p: string, q: string, s: string, t: string)
    requires |p| == |q| && p != q
    ensures Below(p + s, q + t) <==> Below(p, q)
    decreases |p|
  {
    assert (p + s)[0] == p[0] && (q + t)[0] == q[0];
    if p[0] == q[0] {
      assert (p + s)[1..] == p[1..] + s && (q + t)[1..] == q[1..] + t;
      assert p == [p[0]] + p[1..] && q == [q[0]] + q[1..];
      BelowPrefixDecides(p[1..], q[1..], s, t);
    }
  }

  /** Python's `s.replace(pat, rep)`: every non-overlapping occurrence of `pat`,
      scanning from the left, is replaced. */
  function ReplaceAll(s: string, pat: string, rep: string): string
    requires pat != []
    decreases |s|
  {
    if |s| < |pat| then s
    else if s[..|pat|] == pat then rep + ReplaceAll(s[|pat|..], pat, rep)
    else [s[0]] + ReplaceAll(s[1..], pat, rep)
  }

  /** A pattern whose first character occurs nowhere before it is replaced only
      where it ends the string. */
  lemma {:induction false} ReplaceOnlyAtEnd(s: string, pat: string, rep: string)
    requires pat != [] && pat[0] !in s
    ensures ReplaceAll(s + pat, pat, rep) == s + rep
    decreases |s|
  {
    if s == [] {
      assert s + pat == pat && pat[|pat|..] == [];
    } else {
      var z := s + pat;
      assert s[0] in s;
      assert z[..|pat|] != pat by {
        assert z[..|pat|][0] == s[0];
      }
      assert z[1..] == s[1..] + pat;
      ReplaceOnlyAtEnd(s[1..], pat, rep);
      assert ReplaceAll(z, pat, rep) == [s[0]] + ReplaceAll(z[1..], pat, rep);
      assert [s[0]] + (s[1..] + rep) == s + rep;
    }
  }

  /** `p` occurs in `s` starting at position i. */
  predicate OccursAt(s: string, p: string, i: nat)
  {
    i + |p| <= |s| && s[i..i + |p|] == p
  }

  /** Python's substring test `p in s`. */
  predicate Contains(s: string, p: string)
    decreases |s|
  {
    |p| <= |s| && (s[..|p|] == p || Contains(s[1..], p))
  }

  lemma {:induction false} ContainsIff(s: string, p: string)
    ensures Contains(s, p) <==> exists i: nat :: OccursAt(s, p, i)
    decreases |s|
  {
    if |p| > |s| {
      forall i: nat ensures !OccursAt(s, p, i) { }
    } else if s[..|p|] == p {
      assert OccursAt(s, p, 0);
    } else {
      assert !OccursAt(s, p, 0);
      ContainsIff(s[1..], p);
      forall i: nat | OccursAt(s[1..], p, i)
        ensures OccursAt(s, p, i + 1)
      {
        assert s[1..][i..i + |p|] == s[i + 1..i + 1 + |p|];
      }
      forall i: nat | OccursAt(s, p, i) && i > 0
        ensures OccursAt(s[1..], p, i - 1)
      {
        assert s[1..][i - 1..i - 1 + |p|] == s[i..i + |p|];
      }
    }
  }
}
