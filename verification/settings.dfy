/** The small pure helpers around the engine: choosing the grid from the
    difficulty menu, the mm:ss clock text, and stepping through the photo
    list. */
module Settings {
  import opened Grid

  // ---------------------------------------------------------------------
  // Decimal text

  predicate IsDigit(c: char) {
    '0' <= c <= '9'
  }

  predicate AllDigits(s: string) {
    forall i :: 0 <= i < |s| ==> IsDigit(s[i])
  }

  function Digit(d: nat): (c: char)
    requires d < 10
    ensures IsDigit(c) && DigitValue(c) == d
  {
    "0123456789"[d]
  }

  function DigitValue(c: char): (d: nat)
    requires IsDigit(c)
    ensures d < 10
  {
    (c as int - '0' as int) as nat
  }

  /** String(n): the decimal digits of n, most significant first, with no
      leading zero. */
  function Decimal(n: nat): (s: string)
    ensures 1 <= |s| && AllDigits(s)
    ensures n < 10 <==> |s| == 1
    ensures s[0] == '0' <==> n == 0
    ensures |s| > 1 ==> s[0] != '0'
  {
    if n < 10 then [Digit(n)] else Decimal(n / 10) + [Digit(n % 10)]
  }

  /** The value of a string of decimal digits; the empty string reads as
      zero. */
  function ParseDecimal(s: string): (n: nat)
    requires AllDigits(s)
  {
    if |s| == 0 then 0 else ParseDecimal(s[..|s| - 1]) * 10 + DigitValue(s[|s| - 1])
  }

  /** Reading the digits back gives the number. */
  lemma {:induction false} ParseDecimalOf(n: nat)
    ensures ParseDecimal(Decimal(n)) == n
    decreases n
  {
    var s := Decimal(n);
    if n >= 10 {
      ParseDecimalOf(n / 10);
      assert s[..|s| - 1] == Decimal(n / 10);
    }
  }

  /** Leading zeros do not change the value. */
  lemma {:induction false} LeadingZero(s: string)
    requires AllDigits(s)
    ensures AllDigits("0" + s) && ParseDecimal("0" + s) == ParseDecimal(s)
    decreases |s|
  {
    var z := "0" + s;
    assert AllDigits(z);
    if |s| > 0 {
      LeadingZero(s[..|s| - 1]);
      assert z[..|z| - 1] == "0" + s[..|s| - 1];
    }
  }

  /** String(x).padStart(2, "0") on the digits of a number: a single digit
      gets one leading zero; longer strings are left alone. */
  function PadStart2(s: string): (r: string)
    requires 1 <= |s| && AllDigits(s)
    ensures |r| == if |s| < 2 then 2 else |s|
    ensures AllDigits(r) && ParseDecimal(r) == ParseDecimal(s)
  {
    if |s| < 2 then
      LeadingZero(s);
      "0" + s
    else s
  }

  // ---------------------------------------------------------------------
  // formatTime

  /** formatTime: elapsed milliseconds as minutes and seconds, each padded
      to two digits. Read back, the text gives the whole seconds elapsed,
      the seconds field stays below 60, below 100 minutes the text is
      exactly five characters, and from 100 minutes on the minutes carry no
      leading zero. */
  function FormatTime(ms: nat): (r: string)
    ensures 5 <= |r| && r[|r| - 3] == ':'
    ensures AllDigits(r[..|r| - 3]) && AllDigits(r[|r| - 2..])
    ensures ParseDecimal(r[|r| - 2..]) < 60
    ensures ParseDecimal(r[..|r| - 3]) * 60 + ParseDecimal(r[|r| - 2..]) == ms / 1000
    ensures ms < 6_000_000 <==> |r| == 5
    ensures |r| > 5 ==> r[0] != '0'
  {
    var total := ms / 1000;
    var min := total / 60;
    var sec := total % 60;
    var m := PadStart2(Decimal(min));
    var s := PadStart2(Decimal(sec));
    ParseDecimalOf(min);
    ParseDecimalOf(sec);
    var r := m + ":" + s;
    assert r[..|r| - 3] == m && r[|r| - 2..] == s;
    assert ms < 6_000_000 <==> min < 100 by {
      assert total == min * 60 + sec;
    }
    assert min < 100 <==> |Decimal(min)| <= 2 by {
      if min >= 10 {
        assert |Decimal(min)| == |Decimal(min / 10)| + 1;
      }
    }
    r
  }

  // ---------------------------------------------------------------------
  // setDifficulty

  /** The difficulty menu: four square grids. */
  predicate IsDifficultyKey(value: string) {
    value == "3x3" || value == "4x4" || value == "5x5" || value == "6x6"
  }

  /** setDifficulty: the grid named by the menu value, 4x4 for anything
      else. */
  function SetDifficulty(value: string): (g: Grid)
    ensures g.Valid() && g.rows == g.cols && 3 <= g.rows <= 6
    ensures !IsDifficultyKey(value) ==> g == Grid(4, 4)
  {
    if value == "3x3" then Grid(3, 3)
    else if value == "4x4" then Grid(4, 4)
    else if value == "5x5" then Grid(5, 5)
    else if value == "6x6" then Grid(6, 6)
    else Grid(4, 4)
  }

  /** difficultyKey: the text rows + "x" + cols. */
  function DifficultyKey(g: Grid): (key: string)
    ensures 'x' in key
  {
    Decimal(g.rows) + "x" + Decimal(g.cols)
  }

  /** A menu value names the grid whose key it is, and the key of the
      chosen grid chooses it again. */
  lemma DifficultyRoundTrip(value: string)
    ensures IsDifficultyKey(value) ==> DifficultyKey(SetDifficulty(value)) == value
    ensures IsDifficultyKey(DifficultyKey(SetDifficulty(value)))
    ensures SetDifficulty(DifficultyKey(SetDifficulty(value))) == SetDifficulty(value)
  {
    var g := SetDifficulty(value);
    assert Decimal(g.rows) == [Digit(g.rows)];
  }

  // ---------------------------------------------------------------------
  // stepPhoto

  /** The number of photos in the built-in list. */
  const PhotoCount: nat := 22

  /** The remainder of x by t is the r of any x == q * t + r with
      0 <= r < t. */
  lemma ModUnique(x: int, t: nat, q: int, r: int)
    requires t > 0 && 0 <= r < t && x == q * t + r
    ensures x % t == r
  {
    var q', r' := x / t, x % t;
    assert q' * t + r' == x;
    assert (q - q') * t == r' - r;
    if q > q' {
      MulMonotone(1, (q - q') as nat, t);
    } else if q < q' {
      MulMonotone(1, (q' - q) as nat, t);
    }
  }

  /** Taking the remainder of x away from x leaves a multiple of t, also
      when x is negated. */
  lemma RemainderRemoved(x: int, t: nat)
    requires t > 0
    ensures (x - x % t) % t == 0 && (-x + x % t) % t == 0
  {
    var q, m := x / t, x % t;
    assert x == q * t + m;
    ModUnique(x - m, t, q, 0);
    assert -x + m == (-q) * t + 0;
    ModUnique(-x + m, t, -q, 0);
  }

  /** JavaScript's %: the remainder takes the sign of the dividend, and
      agrees with the mathematical remainder on non-negative dividends. */
  function JsRem(a: int, b: nat): (r: int)
    requires b > 0
    ensures -(b as int) < r < b
    ensures a >= 0 ==> r >= 0
    ensures a <= 0 ==> r <= 0
    ensures a >= 0 ==> r == a % b
    ensures (a - r) % b == 0
  {
    if a >= 0 then
      RemainderRemoved(a, b);
      a % b
    else
      RemainderRemoved(-a, b);
      -((-a) % b)
  }

  /** The contract of JsRem pins its value: the sign, the size bound and
      the divisibility leave only one candidate. */
  lemma JsRemUnique(a: int, b: nat, r: int)
    requires b > 0 && -(b as int) < r < b
    requires (a >= 0 ==> r >= 0) && (a <= 0 ==> r <= 0)
    requires (a - r) % b == 0
    ensures r == JsRem(a, b)
  {
    var j := JsRem(a, b);
    var p, q := (a - r) / b, (a - j) / b;
    assert a - r == p * b && a - j == q * b;
    assert j - r == (p - q) * b;
    if p > q {
      MulMonotone(1, (p - q) as nat, b);
    } else if p < q {
      MulMonotone(1, (q - p) as nat, b);
    }
  }

  /** stepPhoto: the photo delta places on, wrapping around a list of
      total photos; an empty list leaves the index alone. */
  function StepPhoto(photoIndex: int, delta: int, total: nat): (next: int)
    ensures total == 0 ==> next == photoIndex
    ensures total > 0 && photoIndex + delta + total >= 0 ==> 0 <= next < total
  {
    if total == 0 then photoIndex else JsRem(photoIndex + delta + total, total)
  }

  /** Whenever the shifted index is not below -total, stepping is
      addition modulo the list length. */
  lemma StepPhotoIsMod(photoIndex: int, delta: int, total: nat)
    requires total > 0 && photoIndex + delta + total >= 0
    ensures StepPhoto(photoIndex, delta, total) == (photoIndex + delta) % total
  {
    var x := photoIndex + delta;
    ModUnique(x + total, total, x / total + 1, x % total);
  }

  /** The previous and next buttons keep the index in range, and going one
      forward then one back returns to the same photo. */
  lemma StepPhotoBackAndForth(photoIndex: int, total: nat)
    requires 0 <= photoIndex < total
    ensures StepPhoto(photoIndex, 1, total) == if photoIndex + 1 == total then 0 else photoIndex + 1
    ensures StepPhoto(photoIndex, -1, total) == if photoIndex == 0 then total - 1 else photoIndex - 1
    ensures StepPhoto(StepPhoto(photoIndex, 1, total), -1, total) == photoIndex
    ensures StepPhoto(StepPhoto(photoIndex, -1, total), 1, total) == photoIndex
  {
    Wrap(photoIndex, 1, total);
    Wrap(photoIndex, -1, total);
    var up := StepPhoto(photoIndex, 1, total);
    var down := StepPhoto(photoIndex, -1, total);
    Wrap(up, -1, total);
    Wrap(down, 1, total);
  }

  /** One step from an index in range. */
  lemma Wrap(photoIndex: int, delta: int, total: nat)
    requires 0 <= photoIndex < total && (delta == 1 || delta == -1)
    ensures StepPhoto(photoIndex, delta, total) ==
              if photoIndex + delta == total then 0
              else if photoIndex + delta < 0 then total - 1
              else photoIndex + delta
  {
    var y := photoIndex + delta + total;
    if photoIndex + delta == total {
      ModUnique(y, total, 2, 0);
    } else if photoIndex + delta < 0 {
      ModUnique(y, total, 0, total - 1);
    } else {
      ModUnique(y, total, 1, photoIndex + delta);
    }
  }

  /** With the built-in list, stepping back from the first photo reaches
      the last one. */
  lemma StepBackFromFirst()
    ensures StepPhoto(0, -1, PhotoCount) == PhotoCount - 1
  {
  }
}
