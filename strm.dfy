/** Fixed-point decimal arithmetic on numbers written as text. A number is
    an integer value `r` with a power-of-ten scale `f`, standing for r/f:
    "12.34" is (1234, 100). Go's `int64` and `int` are modelled by
    unbounded integers. */
module Strm {
  import opened Bytes

  const Dot: byte := 46
  const Minus: byte := 45
  const Zero: byte := 48

  /** Go's `s[p] - '0'` on bytes, which wraps modulo 256 for a byte below
      '0'. */
  function DigitOf(b: byte): (v: nat)
    ensures v < 256
    ensures IsDigit(b) ==> v == b as int - 48
  {
    (b as int - 48) % 256
  }

  // ---- operand ----

  /** The state of `operand`'s loop after the bytes `t` (the text after an
      optional leading '-'): the value of every byte but the points, and the
      scale, which a point resets to 1 and every later byte multiplies by
      ten (0 while no point has been read). */
  function Scan(t: seq<byte>): (o: (int, int))
    ensures o.1 >= 0
  {
    if t == [] then (0, 0)
    else
      var o := Scan(t[..|t| - 1]);
      if t[|t| - 1] == Dot then (o.0, 1) else (o.0 * 10 + DigitOf(t[|t| - 1]), o.1 * 10)
  }

  /** The index of the last point in `t`. */
  function LastDot(t: seq<byte>): (i: nat)
    requires Dot in t
    ensures i < |t| && t[i] == Dot && Dot !in t[i + 1..]
  {
    if t[|t| - 1] == Dot then |t| - 1
    else
      assert Dot in t[..|t| - 1] by {
        var j :| 0 <= j < |t| && t[j] == Dot;
        assert t[..|t| - 1][j] == Dot;
      }
      var i := LastDot(t[..|t| - 1]);
      assert t[i + 1..] == t[..|t| - 1][i + 1..] + [t[|t| - 1]];
      i
  }

  /** The number of bytes after the last point, none without a point. */
  function Places(t: seq<byte>): nat
  {
    if Dot in t then |t| - 1 - LastDot(t) else 0
  }

  /** The text `operand` reads the digits from: `s` without a leading '-'. */
  function Body(s: seq<byte>): seq<byte>
  {
    if |s| >= 1 && s[0] == Minus then s[1..] else s
  }

  /** The last point is the one no point follows. */
  lemma LastDotIs(t: seq<byte>, i: nat)
    requires i < |t| && t[i] == Dot && Dot !in t[i + 1..]
    ensures LastDot(t) == i
  {
    var k := LastDot(t);
    if k < i {
      assert false;
    } else if k > i {
      assert false;
    }
  }

  lemma {:induction false} ScanScale(t: seq<byte>)
    ensures Scan(t).1 == if Dot in t then Pow10(Places(t)) else 0
  {
    if t != [] {
      var u := t[..|t| - 1];
      ScanScale(u);
      assert t == u + [t[|t| - 1]];
      if t[|t| - 1] != Dot {
        assert Dot in t <==> Dot in u;
        if Dot in u {
          var i := LastDot(u);
          assert t[i] == Dot && Dot !in t[i + 1..] by {
            assert t[i + 1..] == u[i + 1..] + [t[|t| - 1]];
          }
          LastDotIs(t, i);
        }
      }
    }
  }

  /** `operand(s)`: the signed value and the scale of `s`; the empty string
      is (0, 1). The scale is ten to the number of bytes after the last
      point, 1 without a point. */
  function OperandOf(s: seq<byte>): (o: (int, int))
    ensures o.1 == Pow10(Places(Body(s)))
  {
    if |s| < 1 then (0, 1)
    else
      var sig := s[0] == Minus;
      var o := Scan(Body(s));
      ScanScale(Body(s));
      (if sig then -o.0 else o.0, if o.1 == 0 then 1 else o.1)
  }

  method Operand(s: seq<byte>) returns (r: int, f: int)
    ensures (r, f) == OperandOf(s)
  {
    r, f := 0, 0;
    if |s| < 1 {
      return 0, 1;
    }
    var sig := s[0] == Minus;
    var p := 0;
    if sig {
      p := p + 1;
    }
    ghost var start := p;
    assert s[start..] == Body(s);
    while p < |s|
      invariant start <= p <= |s|
      invariant (r, f) == Scan(s[start..p])
    {
      assert s[start..p + 1][..p - start] == s[start..p];
      if s[p] == Dot {
        f := 1;
      } else {
        f := f * 10;
        r := r * 10;
        r := r + DigitOf(s[p]);
      }
      p := p + 1;
    }
    assert s[start..p] == Body(s);
    if sig {
      r := -r;
    }
    if f == 0 {
      f := 1;
    }
  }

  // ---- Int64 and twop ----

  /** The loop `for fa < g { fa *= 10; ra *= 10 }` shared by `Int64` and
      `twop`. */
  function Raise(r: int, f: int, g: int): (o: (int, int))
    requires f >= 1
    ensures o.1 >= f && o.1 >= g
    decreases g - f
  {
    if f < g then Raise(r * 10, f * 10, g) else (r, f)
  }

  lemma {:induction false} Pow10Split(i: nat, n: nat)
    ensures Pow10(i + n) == Pow10(i) * Pow10(n)
  {
    if n > 0 {
      Pow10Split(i, n - 1);
      assert Pow10(i + n) == 10 * Pow10(i + n - 1);
    }
  }

  lemma Pow10Grows(i: nat, k: nat)
    ensures i <= k <==> Pow10(i) <= Pow10(k)
    ensures i <= k ==> Pow10(k) == Pow10(i) * Pow10(k - i)
  {
    if i <= k {
      Pow10Split(i, k - i);
    } else {
      Pow10Split(k, i - k);
      assert Pow10(i - k) >= 10;
    }
  }

  /** On power-of-ten scales the loop lifts the value to the larger scale
      exactly. */
  lemma {:induction false} RaiseLifts(r: int, i: nat, k: nat)
    ensures Raise(r, Pow10(i), Pow10(k)) ==
            if i < k then (Lift(r, k - i), Pow10(k)) else (r, Pow10(i))
    decreases k - i
  {
    Pow10Grows(i, k);
    if i < k {
      assert Pow10(i) * 10 == Pow10(i + 1);
      RaiseLifts(r * 10, i + 1, k);
      LiftShift(r, k - (i + 1));
    }
  }

  /** `r` followed by `n` zero digits. */
  function Lift(r: int, n: nat): int
  {
    if n == 0 then r else 10 * Lift(r, n - 1)
  }

  lemma {:induction false} LiftShift(r: int, n: nat)
    ensures Lift(r * 10, n) == Lift(r, n + 1)
  {
    if n > 0 {
      LiftShift(r, n - 1);
    }
  }

  /** `Lift(r, n)` is r * 10^n. */
  lemma {:induction false} LiftIsMul(r: int, n: nat)
    ensures Lift(r, n) == r * Pow10(n)
  {
    if n > 0 {
      LiftIsMul(r, n - 1);
      assert r * (10 * Pow10(n - 1)) == 10 * (r * Pow10(n - 1));
    }
  }

  /** Go's integer division, which truncates toward zero. */
  function Trunc(a: int, b: int): (q: int)
    requires b != 0
    ensures b > 0 && a >= 0 ==> q == a / b
    ensures b > 0 && a < 0 ==> q == -((-a) / b)
  {
    var m := (if a < 0 then -a else a) / (if b < 0 then -b else b);
    if (a < 0) != (b < 0) then -m else m
  }

  /** `Int64(s, f)`: the value of `s` at scale `f`, cut toward zero. A
      divisor of 0 (`f` is 0, or larger than the raised scale) panics. */
  function Int64Of(s: seq<byte>, f: int): Res<int>
  {
    var o := OperandOf(s);
    var l := Raise(o.0, o.1, f);
    if f == 0 then Panic
    else
      var d := Trunc(l.1, f);
      if d == 0 then Panic else Ok(Trunc(l.0, d))
  }

  method Int64(s: seq<byte>, f: int) returns (r: Res<int>)
    ensures r == Int64Of(s, f)
  {
    var ra, fa := Operand(s);
    while fa < f
      invariant fa >= 1
      invariant Raise(ra, fa, f) == Raise(OperandOf(s).0, OperandOf(s).1, f)
      decreases f - fa
    {
      fa := fa * 10;
      ra := ra * 10;
    }
    if f == 0 {
      return Panic;
    }
    var d := Trunc(fa, f);
    if d == 0 {
      return Panic;
    }
    return Ok(Trunc(ra, d));
  }

  lemma MulLe(a: int, b: int, d: nat)
    requires a <= b
    ensures a * d <= b * d
  {
    assert b * d - a * d == (b - a) * d;
  }

  lemma DivUnique(n: int, d: int, q: int, m: int)
    requires d >= 1 && 0 <= m < d && n == q * d + m
    ensures n / d == q
  {
    var q' := n / d;
    assert n == q' * d + n % d;
    if q' < q {
      MulLe(q' + 1, q, d);
    } else if q < q' {
      MulLe(q + 1, q', d);
    }
  }

  lemma MulSplit(q: int, b: int, m: int, c: int)
    ensures (q * b + m) * c == q * (b * c) + m * c
  {
  }

  lemma DivCancel(x: nat, b: nat, c: nat)
    requires b >= 1 && c >= 1
    ensures (x * c) / (b * c) == x / b
  {
    var q, m := x / b, x % b;
    MulSplit(q, b, m, c);
    MulLe(m + 1, b, c);
    DivUnique(x * c, b * c, q, m * c);
  }

  /** Truncating division by a positive number cancels a common positive
      factor. */
  lemma TruncCancel(x: int, b: nat, c: nat)
    requires b >= 1 && c >= 1
    ensures Trunc(x * c, b * c) == Trunc(x, b)
  {
    if x >= 0 {
      DivCancel(x, b, c);
    } else {
      DivCancel(-x, b, c);
      assert -(x * c) == (-x) * c;
    }
  }

  lemma TruncChain(x: int, d: nat, p: nat, q: nat)
    requires d >= 1 && p >= 1 && q == p * d
    ensures Trunc(q, p) == d && Trunc(x, d) == Trunc(x * p, q)
  {
    TruncCancel(d, 1, p);
    TruncCancel(x, d, p);
  }

  /** `Int64(s, 10^k)` of a number with `i` places: the value at scale
      10^k, exact when the scale grows and cut toward zero when it shrinks
      (`Int64("12.34", 1)` is 12, `Int64("-12.34", 1)` is -12). */
  lemma Int64Rescales(s: seq<byte>, k: nat)
    ensures Int64Of(s, Pow10(k)) == Ok(Trunc(OperandOf(s).0 * Pow10(k), Pow10(Places(Body(s)))))
  {
    var x, i := OperandOf(s).0, Places(Body(s));
    RaiseLifts(x, i, k);
    if i < k {
      LiftIsMul(x, k - i);
    }
    Pow10Grows(i, k);
    Pow10Grows(k, i);
    if i < k {
      Int64Grows(x, i, k);
    } else {
      Int64Shrinks(x, i, k);
    }
  }

  lemma Int64Grows(x: int, i: nat, k: nat)
    requires i < k
    ensures Trunc(x * Pow10(k - i), Trunc(Pow10(k), Pow10(k))) == Trunc(x * Pow10(k), Pow10(i))
  {
    Pow10Grows(i, k);
    TruncCancel(x * Pow10(k - i), 1, Pow10(i));
    assert x * Pow10(k - i) * Pow10(i) == x * Pow10(k);
  }

  lemma Int64Shrinks(x: int, i: nat, k: nat)
    requires k <= i
    ensures Trunc(Pow10(i), Pow10(k)) != 0
    ensures Trunc(x, Trunc(Pow10(i), Pow10(k))) == Trunc(x * Pow10(k), Pow10(i))
  {
    var j: nat := i - k;
    Pow10Split(k, j);
    TruncChain(x, Pow10(j), Pow10(k), Pow10(i));
  }

  lemma Int64Example()
    ensures Int64Of(Str("12.34"), 1) == Ok(12)
  {
    var s := Str("12.34");
    assert s == [49, 50, 46, 51, 52];
    assert Scan(s[..1]) == (1, 0);
    assert s[..2][..1] == s[..1];
    assert Scan(s[..2]) == (12, 0);
    assert s[..3][..2] == s[..2];
    assert Scan(s[..3]) == (12, 1);
    assert s[..4][..3] == s[..3];
    assert Scan(s[..4]) == (123, 10);
    assert s[..5][..4] == s[..4];
    assert Scan(s[..5]) == (1234, 100);
    assert s[..5] == s;
  }

  /** `twop(a, b)`: both operands at the larger of their two scales. */
  function TwopOf(a: seq<byte>, b: seq<byte>): (int, int, int)
  {
    var oa := OperandOf(a);
    var ob := OperandOf(b);
    var lb := Raise(ob.0, ob.1, oa.1);
    var la := Raise(oa.0, oa.1, lb.1);
    (la.0, lb.0, la.1)
  }

  method Twop(a: seq<byte>, b: seq<byte>) returns (ra: int, rb: int, f: int)
    ensures (ra, rb, f) == TwopOf(a, b)
  {
    ra, f := Operand(a);
    var fb;
    rb, fb := Operand(b);
    ghost var rb0, fb0 := rb, fb;
    while fb < f
      invariant fb >= 1
      invariant Raise(rb, fb, f) == Raise(rb0, fb0, f)
      decreases f - fb
    {
      fb := fb * 10;
      rb := rb * 10;
    }
    ghost var ra0, f0 := ra, f;
    while f < fb
      invariant f >= 1
      invariant Raise(ra, f, fb) == Raise(ra0, f0, fb)
      decreases fb - f
    {
      f := f * 10;
      ra := ra * 10;
    }
  }

  /** The larger of the two operands' numbers of places. */
  function Common(a: seq<byte>, b: seq<byte>): nat
  {
    var i, j := Places(Body(a)), Places(Body(b));
    if i < j then j else i
  }

  /** The common scale is the larger of the two, and each value is lifted
      to it exactly. */
  lemma TwopAligns(a: seq<byte>, b: seq<byte>)
    ensures TwopOf(a, b) ==
            (Lift(OperandOf(a).0, Common(a, b) - Places(Body(a))),
             Lift(OperandOf(b).0, Common(a, b) - Places(Body(b))),
             Pow10(Common(a, b)))
  {
    var i, j := Places(Body(a)), Places(Body(b));
    RaiseLifts(OperandOf(b).0, j, i);
    RaiseLifts(OperandOf(a).0, i, if j < i then i else j);
  }

  lemma TwopScale(a: seq<byte>, b: seq<byte>)
    ensures TwopOf(a, b).2 == Pow10(Common(a, b))
  {
    TwopAligns(a, b);
  }

  // ---- String ----

  /** What the closure `fu` prints for `c` when the shared `step` is `s`
      on entry: first the higher digits (while `c` has more, or the scale
      `f` asks for more places), then the last digit of `c`, then the point
      when `s` is the scale and the scale is not 1. */
  function Digits(c: nat, s: nat, f: int): (t: seq<byte>)
    requires s >= 1
    ensures |t| >= 1 && Zero <= t[0] <= Zero + 9
    decreases c, f - s
  {
    (if c > 9 || s * 10 <= f then Digits(c / 10, s * 10, f) else []) +
    ([(48 + c % 10) as byte] + (if f == s && f != 1 then [Dot] else []))
  }

  /** The text `String(a, f)` builds: a '-' for a negative `a`, then the
      digits of its magnitude. */
  function Rendered(a: int, f: int): seq<byte>
  {
    if a < 0 then [Minus] + Digits(-a, 1, f) else Digits(a, 1, f)
  }

  /** `String(a, f)`, whose buffer holds 128 bytes: a longer text panics. */
  function StringOf(a: int, f: int): Res<seq<byte>>
  {
    if |Rendered(a, f)| <= 128 then Ok(Rendered(a, f)) else Panic
  }

  /** The closure `fu`: writes the digits of `c` into `buf` from `p0` on,
      with the shared step `step` on entry; fails where the buffer ends. */
  method Fu(buf: array<byte>, p0: nat, step: nat, f: int, c: nat) returns (ok: bool, p: nat)
    requires p0 <= buf.Length && step >= 1
    modifies buf
    ensures ok <==> p0 + |Digits(c, step, f)| <= buf.Length
    ensures ok ==> p == p0 + |Digits(c, step, f)| && buf[..p] == old(buf[..p0]) + Digits(c, step, f)
    decreases c, f - step
  {
    var s := step;
    p := p0;
    if c > 9 || step * 10 <= f {
      ok, p := Fu(buf, p, step * 10, f, c / 10);
      if !ok {
        return;
      }
    }
    if p >= buf.Length {
      return false, p;
    }
    buf[p] := (48 + c % 10) as byte;
    p := p + 1;
    if f == s && f != 1 {
      if p >= buf.Length {
        return false, p;
      }
      buf[p] := Dot;
      p := p + 1;
    }
    ok := true;
  }

  method String(a: int, f: int) returns (r: Res<seq<byte>>)
    ensures r == StringOf(a, f)
  {
    var buf := new byte[128];
    var p := 0;
    var c := a;
    if c < 0 {
      buf[p] := Minus;
      p := p + 1;
      c := -c;
    }
    ghost var sign := buf[..p];
    assert sign == if a < 0 then [Minus] else [];
    assert Rendered(a, f) == sign + Digits(c, 1, f);
    var ok;
    ok, p := Fu(buf, p, 1, f, c);
    if !ok {
      return Panic;
    }
    return Ok(buf[..p]);
  }

  /** Reading one more byte. */
  lemma ScanPush(t: seq<byte>, b: byte)
    ensures Scan(t + [b]) == if b == Dot then (Scan(t).0, 1) else (Scan(t).0 * 10 + DigitOf(b), Scan(t).1 * 10)
  {
    assert (t + [b])[..|t|] == t;
  }

  /** Reading the digit that follows `up`, and then possibly a point,
      appends that digit to the value. */
  lemma Assemble(up: seq<byte>, digit: byte, pt: seq<byte>, c: nat, g: int)
    requires digit != Dot && DigitOf(digit) == c % 10 && (pt == [] || pt == [Dot])
    requires Scan(up) == (c / 10, g)
    ensures Scan(up + ([digit] + pt)) == (c, if pt == [] then g * 10 else 1)
  {
    assert up + ([digit] + pt) == up + [digit] + pt;
    ScanPush(up, digit);
    if pt != [] {
      ScanPush(up + [digit], Dot);
    } else {
      assert up + [digit] + pt == up + [digit];
    }
  }

  /** Whether `fu` started at level `i` prints the point for scale 10^k. */
  predicate Point(i: nat, k: nat)
  {
    1 <= k && i <= k
  }

  /** Reading back the digits `fu` prints at level `i` for scale 10^k: the
      value is `c`, and the scale is 10^(k-i) when the point was printed,
      0 otherwise. */
  ghost predicate ReadsBack(c: nat, i: nat, k: nat)
  {
    Scan(Digits(c, Pow10(i), Pow10(k))) == (c, if Point(i, k) then Pow10(k - i) else 0)
  }

  lemma {:induction false} ScanDigits(c: nat, i: nat, k: nat)
    ensures ReadsBack(c, i, k)
    decreases c, k - i
  {
    if c > 9 || i + 1 <= k {
      ScanDigits(c / 10, i + 1, k);
      DigitsStep(c, i, k, Digits(c / 10, Pow10(i + 1), Pow10(k)));
    } else {
      DigitsStep(c, i, k, []);
    }
  }

  /** One level of `fu`: the higher digits `up` read back, then this
      level's digit and point. */
  lemma DigitsStep(c: nat, i: nat, k: nat, up: seq<byte>)
    requires up == if c > 9 || i + 1 <= k then Digits(c / 10, Pow10(i + 1), Pow10(k)) else []
    requires c > 9 || i + 1 <= k ==> ReadsBack(c / 10, i + 1, k)
    ensures ReadsBack(c, i, k)
  {
    DigitsSplit(c, i, k);
    var pt := if i == k && 1 <= k then [Dot] else [];
    Assemble(up, (48 + c % 10) as byte, pt, c, Scan(up).1);
    if Point(i + 1, k) {
      assert Pow10(k - i) == 10 * Pow10(k - (i + 1));
    }
  }

  /** `fu` at level `i` in terms of levels: the higher digits while `c`
      has more or the scale asks for more places, the last digit, and the
      point at level `k`. */
  lemma DigitsSplit(c: nat, i: nat, k: nat)
    ensures Digits(c, Pow10(i), Pow10(k)) ==
            (if c > 9 || i + 1 <= k then Digits(c / 10, Pow10(i + 1), Pow10(k)) else []) +
            ([(48 + c % 10) as byte] + (if i == k && 1 <= k then [Dot] else []))
  {
    Pow10Grows(i + 1, k);
    Pow10Grows(i, k);
    Pow10Grows(k, i);
    assert Pow10(i) * 10 == Pow10(i + 1);
  }

  /** Round trip: `operand(String(a, 10^k)) == (a, 10^k)`. */
  lemma RoundTrip(a: int, k: nat)
    ensures OperandOf(Rendered(a, Pow10(k))) == (a, Pow10(k))
  {
    var c := if a < 0 then -a else a;
    var d := Digits(c, 1, Pow10(k));
    ScanOfDigits(c, k);
    if a < 0 {
      assert ([Minus] + d)[1..] == d;
    }
  }

  /** The digits `String` prints for a magnitude read back as that
      magnitude, with scale 10^k once there is a point. */
  lemma ScanOfDigits(c: nat, k: nat)
    ensures Scan(Digits(c, 1, Pow10(k))) == (c, if 1 <= k then Pow10(k) else 0)
  {
    ScanDigits(c, 0, k);
  }

  /** A text `String` produced reads back as the pair it printed. */
  lemma StringRoundTrip(a: int, k: nat)
    requires StringOf(a, Pow10(k)).Ok?
    ensures OperandOf(StringOf(a, Pow10(k)).value) == (a, Pow10(k))
  {
    RoundTrip(a, k);
  }


  lemma StringExample()
    ensures StringOf(5, 100) == Ok(Str("0.05"))
  {
    assert Digits(0, 100, 100) == [Zero, Dot];
    assert Digits(0, 10, 100) == [Zero, Dot, Zero];
    assert Digits(5, 1, 100) == [Zero, Dot, Zero, 53];
    assert Str("0.05") == [Zero, Dot, Zero, 53];
  }

  // ---- Add, Sub, Neg ----


  /** `Add(a, b)`: the sum printed at the common scale. */
  function AddOf(a: seq<byte>, b: seq<byte>): Res<seq<byte>>
  {
    var t := TwopOf(a, b);
    StringOf(t.0 + t.1, t.2)
  }

  /** `Sub(a, b)`: the difference printed at the common scale. */
  function SubOf(a: seq<byte>, b: seq<byte>): Res<seq<byte>>
  {
    var t := TwopOf(a, b);
    StringOf(t.0 - t.1, t.2)
  }

  /** The sum reads back exactly: both values lifted to the common scale
      and added. */
  lemma AddExact(a: seq<byte>, b: seq<byte>)
    requires AddOf(a, b).Ok?
    ensures OperandOf(AddOf(a, b).value) ==
            (Lift(OperandOf(a).0, Common(a, b) - Places(Body(a))) + Lift(OperandOf(b).0, Common(a, b) - Places(Body(b))),
             Pow10(Common(a, b)))
  {
    AddReads(a, b);
    TwopAligns(a, b);
  }

  lemma AddReads(a: seq<byte>, b: seq<byte>)
    requires AddOf(a, b).Ok?
    ensures OperandOf(AddOf(a, b).value) == (TwopOf(a, b).0 + TwopOf(a, b).1, Pow10(Common(a, b)))
  {
    var v, k := TwopOf(a, b).0 + TwopOf(a, b).1, Common(a, b);
    AddPrints(a, b);
    StringRoundTrip(v, k);
  }

  lemma AddPrints(a: seq<byte>, b: seq<byte>)
    ensures AddOf(a, b) == StringOf(TwopOf(a, b).0 + TwopOf(a, b).1, Pow10(Common(a, b)))
  {
    TwopScale(a, b);
  }

  /** The difference reads back exactly at the common scale. */
  lemma SubExact(a: seq<byte>, b: seq<byte>)
    requires SubOf(a, b).Ok?
    ensures OperandOf(SubOf(a, b).value) ==
            (Lift(OperandOf(a).0, Common(a, b) - Places(Body(a))) - Lift(OperandOf(b).0, Common(a, b) - Places(Body(b))),
             Pow10(Common(a, b)))
  {
    SubReads(a, b);
    TwopAligns(a, b);
  }

  lemma SubReads(a: seq<byte>, b: seq<byte>)
    requires SubOf(a, b).Ok?
    ensures OperandOf(SubOf(a, b).value) == (TwopOf(a, b).0 - TwopOf(a, b).1, Pow10(Common(a, b)))
  {
    var v, k := TwopOf(a, b).0 - TwopOf(a, b).1, Common(a, b);
    SubPrints(a, b);
    StringRoundTrip(v, k);
  }

  lemma SubPrints(a: seq<byte>, b: seq<byte>)
    ensures SubOf(a, b) == StringOf(TwopOf(a, b).0 - TwopOf(a, b).1, Pow10(Common(a, b)))
  {
    TwopScale(a, b);
  }

  /** `Neg(a)`: drops a leading '-', and otherwise prints the negated
      value at the same scale. An empty `a` panics (`a[0]`). */
  function NegOf(a: seq<byte>): Res<seq<byte>>
  {
    if |a| == 0 then Panic
    else if a[0] == Minus then Ok(a[1..])
    else StringOf(-OperandOf(a).0, OperandOf(a).1)
  }

  /** Negating a printed number reads back as the negated pair, as long as
      a '-' still fits the buffer. */
  lemma NegNegates(x: int, k: nat)
    requires |Rendered(x, Pow10(k))| < 128
    ensures NegOf(Rendered(x, Pow10(k))).Ok?
    ensures OperandOf(NegOf(Rendered(x, Pow10(k))).value) == (-x, Pow10(k))
  {
    if x < 0 {
      NegDropsSign(x, k);
    } else {
      var y: nat := x;
      assert Rendered(x, Pow10(k)) == Digits(y, 1, Pow10(k));
      NegPrints(y, k);
    }
  }

  /** A printed negative number loses its '-'. */
  lemma NegDropsSign(x: int, k: nat)
    requires x < 0
    ensures NegOf(Rendered(x, Pow10(k))).Ok?
    ensures OperandOf(NegOf(Rendered(x, Pow10(k))).value) == (-x, Pow10(k))
  {
    var y: nat := -x;
    assert Rendered(x, Pow10(k)) == [Minus] + Digits(y, 1, Pow10(k));
    NegMinus(y, k);
  }

  lemma NegMinus(y: nat, k: nat)
    ensures NegOf([Minus] + Digits(y, 1, Pow10(k))) == Ok(Digits(y, 1, Pow10(k)))
    ensures OperandOf(Digits(y, 1, Pow10(k))) == (y, Pow10(k))
  {
    var d := Digits(y, 1, Pow10(k));
    assert ([Minus] + d)[1..] == d;
    RoundTrip(y, k);
  }

  /** A printed non-negative number is read and printed negated. */
  lemma NegPrints(y: nat, k: nat)
    requires |Digits(y, 1, Pow10(k))| < 128
    ensures NegOf(Digits(y, 1, Pow10(k))).Ok?
    ensures OperandOf(NegOf(Digits(y, 1, Pow10(k))).value) == (-(y as int), Pow10(k))
  {
    var d := Digits(y, 1, Pow10(k));
    var v: int := -(y as int);
    RoundTrip(y, k);
    assert NegOf(d) == StringOf(v, Pow10(k));
    if y == 0 {
      assert Rendered(0, Pow10(k)) == d;
    } else {
      assert Rendered(v, Pow10(k)) == [Minus] + d;
      RoundTrip(v, k);
    }
  }

  /** A zero value gets no sign: `Neg("0")` is "0". */
  lemma NegZero()
    ensures NegOf(Str("0")) == Ok(Str("0"))
  {
    assert Str("0") == [Zero];
    assert Scan([Zero]) == (0, 0) by {
      assert [Zero][..0] == [];
    }
    assert Digits(0, 1, 1) == [Zero];
  }

  // ---- Percent ----

  /** The state of `Percent`'s copy loop after the bytes `c`: the bytes
      written, and the position of the last point (-111 while none has
      been seen). A point is dropped, and written back two bytes later. */
  function Shift(c: seq<byte>): (o: (seq<byte>, int))
    ensures o.1 == -111 || 0 <= o.1 < |c|
    ensures o.1 == -111 ==> o.0 == c
    ensures o.1 >= 0 ==> c[o.1] == Dot && |o.0| >= |c| - 1 - o.1
    ensures |o.0| <= |c| - (if o.1 >= 0 && |c| <= o.1 + 3 then 1 else 0)
  {
    if c == [] then ([], -111)
    else
      var o := Shift(c[..|c| - 1]);
      var p := |c| - 1;
      var r := if o.1 == p - 3 then o.0 + [Dot] else o.0;
      if c[p] == Dot then (r, p) else (r + [c[p]], o.1)
  }

  /** The copy followed by the zeros `Percent` appends: two without a
      point or after a final point, one after a single decimal. */
  function Padded(c: seq<byte>): (r: seq<byte>)
    ensures 2 <= |r| <= |c| + 2
  {
    PadTail(Shift(c), |c|)
  }

  /** The zeros appended to the copy `o.0` of an input of `n` bytes whose
      last point is at `o.1`. */
  function PadTail(o: (seq<byte>, int), n: nat): seq<byte>
  {
    var r := if o.1 == -111 || o.1 == n - 1 then o.0 + [Zero, Zero] else o.0;
    if o.1 == n - 2 then r + [Zero] else r
  }

  /** Leading zeros removed, keeping at least one byte. */
  function StripZeros(r: seq<byte>): (t: seq<byte>)
    ensures |t| <= |r| && (|r| >= 1 ==> |t| >= 1)
    ensures |t| >= 1 && t[0] == Zero ==> |t| == 1
    ensures t == r[|r| - |t|..]
  {
    if |r| > 1 && r[0] == Zero then StripZeros(r[1..]) else r
  }

  /** `Percent`'s result: never empty, at most two bytes longer than its
      input, and without a leading zero unless it is "0". */
  function PercentOf(c: seq<byte>): (s: seq<byte>)
    ensures 1 <= |s| <= |c| + 2 && (s[0] == Zero ==> |s| == 1)
  {
    StripZeros(Padded(c))
  }

  /** `Percent(c)`: a fraction 0..1 written in decimal, as a percentage:
      the point moves two places right. */
  method Percent(c: seq<byte>) returns (s: seq<byte>)
    ensures s == PercentOf(c)
  {
    var t := PadShifted(c);
    var p := 0;
    while p < |t| - 1 && t[p] == Zero
      invariant 0 <= p <= |t|
      invariant StripZeros(t[p..]) == PercentOf(c)
    {
      assert t[p..][1..] == t[p + 1..];
      p := p + 1;
    }
    assert StripZeros(t[p..]) == t[p..];
    s := t[p..];
  }

  /** The first half of `Percent`: the copy loop into a buffer two bytes
      longer than `c`, then the zeros appended after it. */
  method PadShifted(c: seq<byte>) returns (t: seq<byte>)
    ensures t == Padded(c)
  {
    var r := new byte[|c| + 2];
    var q, d := CopyShifted(c, r);
    var p := |c|;
    ghost var w := r[..q];
    if d == -111 || d == p - 1 {
      r[q] := Zero;
      r[q + 1] := Zero;
      assert r[..q + 2] == w + [Zero, Zero];
      q := q + 2;
    }
    if d == p - 2 {
      r[q] := Zero;
      assert r[..q + 1] == w + [Zero];
      q := q + 1;
    }
    t := r[..q];
  }

  /** `Percent`'s copy loop: writes `c` into `r` with its point moved,
      returning the bytes written and the position of the last point. */
  method CopyShifted(c: seq<byte>, r: array<byte>) returns (q: nat, d: int)
    requires r.Length == |c| + 2
    modifies r
    ensures q <= |c| && (r[..q], d) == Shift(c)
  {
    var p := 0;
    d := -111;
    q := 0;
    while p < |c|
      invariant 0 <= p <= |c| && q <= p
      invariant (r[..q], d) == Shift(c[..p])
    {
      q, d := ShiftByte(c, p, r, q, d);
      p := p + 1;
    }
    assert c[..p] == c;
  }

  /** The body of the copy loop: the point two bytes late, then the byte
      itself unless it is a point. */
  method ShiftByte(c: seq<byte>, p: nat, r: array<byte>, q: nat, d: int) returns (q': nat, d': int)
    requires p < |c| && r.Length == |c| + 2 && q <= p && (r[..q], d) == Shift(c[..p])
    modifies r
    ensures q' <= p + 1 && (r[..q'], d') == Shift(c[..p + 1])
  {
    ghost var w := r[..q];
    ShiftNext(c, p, w, d);
    q' := q;
    d' := d;
    if d == p - 3 {
      r[q'] := Dot;
      assert r[..q' + 1] == w + [Dot];
      q' := q' + 1;
    }
    ghost var w' := r[..q'];
    if c[p] == Dot {
      d' := p;
    } else {
      r[q'] := c[p];
      assert r[..q' + 1] == w' + [c[p]];
      q' := q' + 1;
    }
  }

  /** One step of the copy loop. */
  lemma ShiftNext(c: seq<byte>, p: nat, w: seq<byte>, d: int)
    requires p < |c| && Shift(c[..p]) == (w, d)
    ensures var w' := if d == p - 3 then w + [Dot] else w;
            Shift(c[..p + 1]) == if c[p] == Dot then (w', p) else (w' + [c[p]], d)
  {
    assert c[..p + 1][..p] == c[..p];
  }

  /** Without a point, `Percent` appends "00". */
  lemma PercentWhole(c: seq<byte>)
    requires Dot !in c
    ensures PercentOf(c) == StripZeros(c + [Zero, Zero])
  {
    NoPointShift(c);
  }

  lemma {:induction false} NoPointShift(c: seq<byte>)
    requires Dot !in c
    ensures Shift(c) == (c, -111)
  {
    if c != [] {
      NoPointShift(c[..|c| - 1]);
    }
  }

  /** With one point, `Percent` moves it two places right, padding with
      zeros when fewer than two decimals follow it. */
  lemma PercentPoint(w: seq<byte>, x: seq<byte>)
    requires Dot !in w && Dot !in x
    ensures PercentOf(w + [Dot] + x) ==
            StripZeros(if |x| <= 2 then w + x + ZeroDigits(2 - |x|) else w + x[..2] + [Dot] + x[2..])
  {
    PaddedPoint(w, x);
  }

  lemma ShiftPoint(w: seq<byte>, x: seq<byte>)
    requires Dot !in w && Dot !in x
    ensures Shift(w + [Dot] + x) ==
            (if |x| <= 2 then w + x else w + x[..2] + [Dot] + x[2..], |w|)
  {
    var c := w + [Dot] + x;
    ShiftAfterPoint(w, x, |x|);
    assert c[..|w| + 1 + |x|] == c;
    assert x[..|x|] == x;
  }

  lemma PadTailPoint(a: seq<byte>, d: nat, n: nat)
    ensures PadTail((a, d), d + 1 + n) ==
            a + ZeroDigits(if n <= 2 then 2 - n else 0)
  {
    if n == 0 {
      assert ZeroDigits(2) == [Zero, Zero];
    } else if n == 1 {
      assert ZeroDigits(1) == [Zero];
    } else {
      assert a + ZeroDigits(0) == a;
    }
  }

  lemma PaddedPoint(w: seq<byte>, x: seq<byte>)
    requires Dot !in w && Dot !in x
    ensures Padded(w + [Dot] + x) ==
            if |x| <= 2 then w + x + ZeroDigits(2 - |x|) else w + x[..2] + [Dot] + x[2..]
  {
    var n := |x|;
    ShiftPoint(w, x);
    var a := if n <= 2 then w + x else w + x[..2] + [Dot] + x[2..];
    assert Padded(w + [Dot] + x) == PadTail((a, |w|), |w| + 1 + n);
    PadTailPoint(a, |w|, n);
    if n > 2 {
      assert a + ZeroDigits(0) == a;
    }
  }

  function ZeroDigits(n: nat): (z: seq<byte>)
    ensures |z| == n && forall i | 0 <= i < n :: z[i] == Zero
  {
    if n == 0 then [] else [Zero] + ZeroDigits(n - 1)
  }

  /** The copy of a text with one point, after the point and `n` of the
      bytes following it: the point comes back once two bytes are past. */
  ghost function AfterPoint(w: seq<byte>, x: seq<byte>, n: nat): seq<byte>
    requires n <= |x|
  {
    if n <= 2 then w + x[..n] else w + x[..2] + [Dot] + x[2..n]
  }

  lemma {:induction false} ShiftAfterPoint(w: seq<byte>, x: seq<byte>, n: nat)
    requires Dot !in w && Dot !in x && n <= |x|
    ensures Shift((w + [Dot] + x)[..|w| + 1 + n]) == (AfterPoint(w, x, n), |w|)
  {
    var c := w + [Dot] + x;
    if n == 0 {
      assert c[..|w|] == w;
      NoPointShift(w);
      ShiftNext(c, |w|, w, -111);
      assert c[|w|] == Dot;
      assert x[..0] == [] && AfterPoint(w, x, 0) == w;
    } else {
      ShiftAfterPoint(w, x, n - 1);
      AfterPointStep(w, x, n);
    }
  }

  lemma AfterPointStep(w: seq<byte>, x: seq<byte>, n: nat)
    requires Dot !in x && 1 <= n <= |x|
    requires Shift((w + [Dot] + x)[..|w| + n]) == (AfterPoint(w, x, n - 1), |w|)
    ensures Shift((w + [Dot] + x)[..|w| + 1 + n]) == (AfterPoint(w, x, n), |w|)
  {
    var c := w + [Dot] + x;
    var p := |w| + n;
    var prev := AfterPoint(w, x, n - 1);
    ShiftNext(c, p, prev, |w|);
    DecimalAt(w, x, n - 1);
    AfterPointGrows(w, x, n);
    var next := if n == 3 then prev + [Dot] else prev;
    calc {
      Shift(c[..|w| + 1 + n]);
      { assert |w| + 1 + n == p + 1; }
      Shift(c[..p + 1]);
      (next + [x[n - 1]], |w|);
    }
  }

  lemma DecimalAt(w: seq<byte>, x: seq<byte>, i: nat)
    requires i < |x|
    ensures (w + [Dot] + x)[|w| + 1 + i] == x[i]
  {
  }

  /** One more decimal after the point: appended, after a point written
      back once two decimals are there. */
  lemma AfterPointGrows(w: seq<byte>, x: seq<byte>, n: nat)
    requires 1 <= n <= |x|
    ensures AfterPoint(w, x, n) ==
            (if n == 3 then AfterPoint(w, x, n - 1) + [Dot] else AfterPoint(w, x, n - 1)) + [x[n - 1]]
  {
    assert x[..n] == x[..n - 1] + [x[n - 1]];
    if n == 3 {
      assert x[2..n] == [x[2]];
    } else if n > 3 {
      assert x[2..n] == x[2..n - 1] + [x[n - 1]];
    }
  }


}
