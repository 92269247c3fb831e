/** The `M:SS` countdown label: `${Math.floor(t / 60)}:${String(t % 60).padStart(2, '0')}`. */
module TimerDisplay {
  import opened Wrappers
  import Text

  /** JavaScript `%`: the remainder takes the sign of the dividend. */
  function JsRem(t: int, d: int): (r: int)
    requires d > 0
    ensures t >= 0 ==> 0 <= r < d && r == t % d
    ensures t < 0 ==> -d < r <= 0
    ensures t < 0 ==> r == (if t % d == 0 then 0 else t % d - d)
  {
    if t >= 0 then t % d
    else
      NegativeRemainder(t, d);
      -((-t) % d)
  }

  /** Truncating the remainder of a negative dividend differs from the Euclidean one
      by exactly one divisor, unless the divisor goes in evenly. */
  lemma NegativeRemainder(t: int, d: int)
    requires d > 0 && t < 0
    ensures -((-t) % d) == (if t % d == 0 then 0 else t % d - d)
  {
    var q, m := (-t) / d, (-t) % d;
    assert t == (-q) * d - m;
    if m == 0 {
      EuclidUnique(t, d, -q, 0);
    } else {
      EuclidUnique(t, d, -q - 1, d - m);
    }
  }

  /** Quotient and remainder are the only pair with `t == k * d + m` and `0 <= m < d`. */
  lemma EuclidUnique(t: int, d: int, k: int, m: int)
    requires d > 0 && 0 <= m < d && t == k * d + m
    ensures t % d == m && t / d == k
  {
    var q, r := t / d, t % d;
    assert (q - k) * d == m - r;
    if q > k {
      AtLeastDivisor(q - k, d);
    } else if q < k {
      AtLeastDivisor(k - q, d);
    }
  }

  /** A positive multiple of `d` is at least `d`. */
  lemma AtLeastDivisor(x: int, d: int)
    requires x >= 1 && d > 0
    ensures x * d >= d
  {
    assert x * d == (x - 1) * d + d;
    assert (x - 1) * d >= 0;
  }

  /** Two decimal digits for a number below 100, with a leading zero when needed. */
  function TwoDigits(n: nat): (r: string)
    requires n < 100
    ensures |r| == 2 && Text.IsDigit(r[0]) && Text.IsDigit(r[1])
    ensures 10 * Text.DigitValue(r[0]) + Text.DigitValue(r[1]) == n
  {
    [Text.DigitChar(n / 10), Text.DigitChar(n % 10)]
  }

  /** The label for `t` seconds. `Math.floor(t / 60)` is Dafny's `t / 60`, since
      division by a positive number rounds down. For a non-negative time it is the
      whole minutes, a colon, and the seconds past the minute as two digits. */
  function Format(t: int): (r: string)
    ensures t >= 0 ==> r == Text.NatToString(t / 60) + ":" + TwoDigits(t % 60)
  {
    var f := Text.PadStart(Text.IntToString(JsRem(t, 60)), 2, '0');
    assert t >= 0 ==> f == TwoDigits(t % 60) by {
      if t >= 0 {
        SecondsField(t);
      }
    }
    Text.IntToString(t / 60) + ":" + f
  }

  /** For `t >= 0` the padded seconds are the two digits of `t % 60`. */
  lemma SecondsField(t: int)
    requires t >= 0
    ensures Text.PadStart(Text.IntToString(JsRem(t, 60)), 2, '0') == TwoDigits(t % 60)
  {
    var n := t % 60;
    assert JsRem(t, 60) == n;
    PaddedDigits(n);
  }

  lemma PaddedDigits(n: nat)
    requires n < 60
    ensures Text.PadStart(Text.IntToString(n), 2, '0') == TwoDigits(n)
  {
    assert Text.IntToString(n) == Text.NatToString(n);
    if n < 10 {
      PaddedOneDigit(n);
    } else {
      PaddedTwoDigits(n);
    }
  }

  lemma PaddedOneDigit(n: nat)
    requires n < 10
    ensures Text.PadStart(Text.NatToString(n), 2, '0') == TwoDigits(n)
  {
    var c := Text.DigitChar(n);
    assert Text.NatToString(n) == [c];
    assert Text.PadStart([c], 2, '0') == Text.PadStart(['0', c], 2, '0');
    assert TwoDigits(n) == [Text.DigitChar(0), c];
  }

  lemma PaddedTwoDigits(n: nat)
    requires 10 <= n < 100
    ensures Text.PadStart(Text.NatToString(n), 2, '0') == TwoDigits(n)
  {
    var hi := n / 10;
    assert Text.NatToString(hi) == [Text.DigitChar(hi)];
    assert Text.NatToString(n) == [Text.DigitChar(hi)] + [Text.DigitChar(n % 10)];
  }

  /** Where the parts of `m:ss` sit once joined: the minutes in decimal before a colon
      three places from the end, then two digits holding the seconds. */
  lemma LabelFields(m: nat, sec: nat)
    requires sec < 100
    ensures var r := Text.NatToString(m) + ":" + TwoDigits(sec);
            && |r| >= 4 && r[|r| - 3] == ':' && r[..|r| - 3] == Text.NatToString(m)
            && (forall i :: 0 <= i < |r| - 3 ==> Text.IsDigit(r[i]))
            && Text.IsDigit(r[|r| - 2]) && Text.IsDigit(r[|r| - 1])
            && 10 * Text.DigitValue(r[|r| - 2]) + Text.DigitValue(r[|r| - 1]) == sec
  {
    var ms := Text.NatToString(m);
    var f := TwoDigits(sec);
    var r := ms + ":" + f;
    assert r[..|r| - 3] == ms;
    assert r[|r| - 2] == f[0] && r[|r| - 1] == f[1];
    forall i | 0 <= i < |r| - 3 ensures Text.IsDigit(r[i]) {
      assert r[i] == ms[i];
    }
  }

  /** The fields of a label for a non-negative time: the minutes in decimal before a
      colon three places from the end, then two digits whose value is the seconds past
      the minute. */
  lemma FormatFields(t: int)
    requires t >= 0
    ensures var r := Format(t);
            && |r| >= 4 && r[|r| - 3] == ':' && r[..|r| - 3] == Text.NatToString(t / 60)
            && Text.IsDigit(r[|r| - 2]) && Text.IsDigit(r[|r| - 1])
            && 10 * Text.DigitValue(r[|r| - 2]) + Text.DigitValue(r[|r| - 1]) == t % 60
  {
    LabelFields(t / 60, t % 60);
  }

  /** Reads an `M:SS` label back as seconds: the digits before the colon are minutes
      and the two after it seconds. */
  function Parse(s: string): (r: Option<int>)
    ensures r.Some? ==> r.value >= 0
  {
    if |s| >= 4 && s[|s| - 3] == ':'
       && (forall i :: 0 <= i < |s| - 3 ==> Text.IsDigit(s[i]))
       && Text.IsDigit(s[|s| - 2]) && Text.IsDigit(s[|s| - 1])
    then Some(Text.ParseDigits(s[..|s| - 3]) * 60
              + 10 * Text.DigitValue(s[|s| - 2]) + Text.DigitValue(s[|s| - 1]))
    else None
  }

  /** Reading back a label made of `m` minutes and `sec` seconds. */
  lemma ParseLabel(m: nat, sec: nat)
    requires sec < 60
    ensures Parse(Text.NatToString(m) + ":" + TwoDigits(sec)) == Some(m * 60 + sec)
  {
    LabelFields(m, sec);
    Text.ParseNatToString(m);
  }

  /** Reading the label back gives the time it was made from. */
  lemma FormatRoundTrip(t: int)
    requires t >= 0
    ensures Parse(Format(t)) == Some(t)
  {
    var m := t / 60;
    var sec := t % 60;
    MinutesAndSeconds(t, m, sec);
    var shown := Text.NatToString(m) + ":" + TwoDigits(sec);
    ParseLabel(m, sec);
    assert Parse(shown) == Some(t);
    assert Format(t) == shown;
  }

  /** Whole minutes and leftover seconds add back up to the time. */
  lemma MinutesAndSeconds(t: int, m: int, sec: int)
    requires t >= 0 && m == t / 60 && sec == t % 60
    ensures m >= 0 && 0 <= sec < 60 && m * 60 + sec == t
  {
  }

  /** A negative time follows JavaScript: floor for the minutes, a negative
      remainder, and no padding once the minus sign makes two characters. */
  lemma NegativeTime()
    ensures Format(-5) == "-1:-5"
  {
    assert Text.IntToString(-1) == "-1" by {
      assert Text.NatToString(1) == "1";
    }
    assert JsRem(-5, 60) == -5;
    assert Text.IntToString(-5) == "-5" by {
      assert Text.NatToString(5) == "5";
    }
    assert Text.PadStart("-5", 2, '0') == "-5";
    assert -5 / 60 == -1;
  }
}
