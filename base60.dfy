/**
 * The base-60 rendering of package moment (moment/moment.go): toBase60, which writes a
 * signed integer with the digits of moment-timezone.js, and packMinutes, which writes a
 * number of seconds as base-60 minutes with an optional one-digit fraction.
 */
module Base60 {
  import opened GoInt

  /** The alphabet `digits`; base 60 uses its first 60 characters. */
  const Digits: string := "0123456789" + "abcdefghijklmnopqrstuvwxyz" + "ABCDEFGHIJKLMNOPQRSTUVWXYZ"

  /** Digit d of the alphabet, computed: 0-9, then a-z, then A-Z. */
  function Digit(d: nat): (c: char)
    requires d < 62
  {
    if d < 10 then (('0' as int) + d) as char
    else if d < 36 then (('a' as int) + (d - 10)) as char
    else (('A' as int) + (d - 36)) as char
  }

  /** The alphabet is 0-9, a-z, A-Z in order. */
  lemma DigitAt(d: nat)
    requires d < 62
    ensures Digits[d] == Digit(d)
  {
    if d < 10 {
    } else if d < 36 {
    } else {
    }
  }

  /** The value of a digit character, or -1 for a character outside the alphabet. */
  function DigitValue(c: char): (v: int)
    ensures -1 <= v < 62
  {
    if '0' <= c <= '9' then c as int - '0' as int
    else if 'a' <= c <= 'z' then c as int - 'a' as int + 10
    else if 'A' <= c <= 'Z' then c as int - 'A' as int + 36
    else -1
  }

  /** Each digit character reads back as its own value. */
  lemma DigitValueOfDigit(d: nat)
    requires d < 62
    ensures DigitValue(Digit(d)) == d
  {
  }

  /** The base-60 digits of u, most significant first, without a leading zero. */
  function Base60(u: nat): (s: string)
    ensures |s| >= 1
    ensures |s| == 1 <==> u < 60
    decreases u
  {
    if u < 60 then [Digit(u)] else Base60(u / 60) + [Digit(u % 60)]
  }

  /** Reference reader: the value of a string of base-60 digits. */
  function FromBase60(s: string): int
  {
    if s == [] then 0 else FromBase60(s[..|s| - 1]) * 60 + DigitValue(s[|s| - 1])
  }

  /** The rendering of an integer: a '-' for a negative one, then its magnitude. */
  function SignedBase60(n: int): (s: string)
    ensures |s| >= 1
    ensures s[0] == '-' <==> n < 0
  {
    if n < 0 then "-" + Base60(-n)
    else
      Base60Plain(n);
      assert Base60(n)[0] in Base60(n);
      Base60(n)
  }

  /** The reader of SignedBase60. */
  function FromSignedBase60(s: string): int
  {
    if |s| > 0 && s[0] == '-' then -FromBase60(s[1..]) else FromBase60(s)
  }

  /** 60 to the power k. */
  function Pow60(k: nat): (p: nat)
    ensures p >= 1
  {
    if k == 0 then 1 else 60 * Pow60(k - 1)
  }

  /** A number below 60^k has at most k base-60 digits. */
  lemma {:induction false} Base60Length(u: nat, k: nat)
    requires 1 <= k && u < Pow60(k)
    ensures |Base60(u)| <= k
    decreases k
  {
    if u >= 60 {
      assert k != 1;
      assert 60 * (u / 60) <= u;
      Base60Length(u / 60, k - 1);
    }
  }

  /** 60^11, which exceeds 2^63. */
  lemma Pow60Eleven()
    ensures Pow60(11) == 36_279_705_600_000_000_000
  {
    assert Pow60(1) == 60;
    assert Pow60(2) == 3_600;
    assert Pow60(3) == 216_000;
    assert Pow60(4) == 12_960_000;
    assert Pow60(5) == 777_600_000;
    assert Pow60(6) == 46_656_000_000;
    assert Pow60(7) == 2_799_360_000_000;
    assert Pow60(8) == 167_961_600_000_000;
    assert Pow60(9) == 10_077_696_000_000_000;
    assert Pow60(10) == 604_661_760_000_000_000;
  }

  /** The magnitude of an int64, at most 2^63, has at most 11 base-60 digits. */
  lemma Base60OfInt64(u: nat)
    requires u <= 0x8000_0000_0000_0000
    ensures |Base60(u)| <= 11
  {
    Pow60Eleven();
    Base60Length(u, 11);
  }

  /** Every character of Base60(u) is one of the first 60 digits. */
  lemma {:induction false} Base60Digits(u: nat)
    ensures forall i :: 0 <= i < |Base60(u)| ==> 0 <= DigitValue(Base60(u)[i]) < 60
    decreases u
  {
    if u >= 60 {
      Base60Digits(u / 60);
      DigitValueOfDigit(u % 60);
    } else {
      DigitValueOfDigit(u);
    }
  }

  /** Base60(u) begins with '0' only when it is "0". */
  lemma {:induction false} Base60NoLeadingZero(u: nat)
    ensures Base60(u)[0] == '0' <==> u == 0
    ensures Base60(u) == "0" <==> u == 0
    decreases u
  {
    if u >= 60 {
      Base60NoLeadingZero(u / 60);
      assert Base60(u)[0] == Base60(u / 60)[0];
    } else {
      DigitValueOfDigit(u);
    }
  }

  /** Reading Base60(u) back gives u. */
  lemma {:induction false} FromBase60OfBase60(u: nat)
    ensures FromBase60(Base60(u)) == u
    decreases u
  {
    if u < 60 {
      DigitValueOfDigit(u);
      assert Base60(u)[..0] == [];
    } else {
      var s := Base60(u);
      assert s[..|s| - 1] == Base60(u / 60);
      FromBase60OfBase60(u / 60);
      DigitValueOfDigit(u % 60);
    }
  }

  /** Base60(u) is a single character exactly when u < 60, and then it is digit u. */
  lemma {:induction false} Base60SingleDigit(u: nat)
    ensures |Base60(u)| == 1 <==> u < 60
    ensures u < 60 ==> Base60(u) == [Digit(u)]
  {
  }

  /** Base-60 digits hold no '.' and no '-'. */
  lemma Base60Plain(u: nat)
    ensures '.' !in Base60(u) && '-' !in Base60(u)
  {
    Base60Digits(u);
    assert DigitValue('.') == -1 && DigitValue('-') == -1;
  }

  /** toBase60's contract: a '-' exactly for negative n, and the rendering reads back as n. */
  lemma SignedBase60Properties(n: int)
    ensures |SignedBase60(n)| >= 1
    ensures SignedBase60(n)[0] == '-' <==> n < 0
    ensures FromSignedBase60(SignedBase60(n)) == n
    ensures 0 <= n < 60 ==> SignedBase60(n) == [Digit(n)]
  {
    var m := if n < 0 then -n else n;
    Base60Plain(m);
    assert Base60(m)[0] in Base60(m);
    FromBase60OfBase60(m);
    if n < 0 {
      assert SignedBase60(n)[1..] == Base60(m);
    }
  }

  /**
   * toBase60: fills a 14-character buffer from the end with the base-60 digits of |n|,
   * then prefixes a '-' when n is negative. |MinInt64| = 2^63 is written correctly,
   * since Go converts the negated (wrapped) value to uint64.
   */
  method ToBase60(n: int64) returns (s: string)
    ensures s == SignedBase60(n)
  {
    var m: nat := if n < 0 then -(n as int) else n as int;
    s := if n < 0 then "-" else "";
    Base60OfInt64(m);
    var u: nat := m;
    var a := new char[14];
    var i := a.Length;
    ghost var written: string := [];
    while u >= 60
      invariant 0 <= i <= a.Length
      invariant a[i..] == written
      invariant Base60(u) + written == Base60(m)
      invariant |Base60(u)| + (a.Length - i) == |Base60(m)|
      decreases u
    {
      i := i - 1;
      var q := u / 60;
      var d := u - q * 60;
      Base60Step(u, q, d);
      DigitAt(d);
      a[i] := Digits[d];
      assert a[i..] == [a[i]] + a[i + 1..];
      assert Base60(q) + ([a[i]] + written) == Base60(u) + written;
      written := [a[i]] + written;
      u := q;
    }
    i := i - 1;
    DigitAt(u);
    a[i] := Digits[u];
    assert a[i..] == [a[i]] + a[i + 1..];
    assert a[i..] == Base60(m);
    SignedBase60Of(n, m);
    s := s + a[i..];
  }

  /** The sign, then the digits of the magnitude, is SignedBase60(n). */
  lemma SignedBase60Of(n: int, m: nat)
    requires m == if n < 0 then -n else n
    ensures (if n < 0 then "-" else "") + Base60(m) == SignedBase60(n)
  {
  }

  /** One step of toBase60's loop: u is the digits of q = u / 60, then digit d = u - 60q. */
  lemma Base60Step(u: nat, q: nat, d: int)
    requires u >= 60 && q == u / 60 && d == u - q * 60
    ensures 0 <= d < 60 && q < u
    ensures Base60(u) == Base60(q) + [Digit(d)]
  {
    assert d == u % 60;
  }

  /** Go's `/` on integers: the quotient truncated toward zero. */
  function Quot(a: int, b: int): (q: int)
    requires b > 0
    ensures a >= 0 ==> 0 <= q && 0 <= a - q * b < b
    ensures a < 0 ==> q <= 0 && -b < a - q * b <= 0
  {
    if a >= 0 then a / b else -((-a) / b)
  }

  /** packMinutes: whole minutes in base 60 (left out when zero and there is a fraction), then '.' and the leftover seconds as one digit. */
  function PackMinutes(sec: int64): (s: string)
    ensures |s| >= 1
    ensures '.' in s <==> sec % 60 != 0
    ensures s[0] == '.' <==> -60 < sec < 60 && sec != 0
    ensures s[0] == '-' <==> sec <= -60
  {
    var mins := Quot(sec, 60);
    var fraction := if sec - mins * 60 < 0 then -(sec - mins * 60) else sec - mins * 60;
    PackMinutesShape(sec, mins, fraction);
    (if mins != 0 || fraction == 0 then SignedBase60(mins) else "")
      + (if fraction != 0 then "." + SignedBase60(fraction) else "")
  }

  /** The fields of packMinutes: where '.', '-' and the minutes appear. */
  lemma PackMinutesShape(sec: int64, mins: int, fraction: int)
    requires mins == Quot(sec, 60)
    requires fraction == if sec - mins * 60 < 0 then -(sec - mins * 60) else sec - mins * 60
    ensures 0 <= fraction < 60 && (fraction != 0 <==> sec % 60 != 0)
    ensures mins == 0 <==> -60 < sec < 60
    ensures mins < 0 <==> sec <= -60
    ensures var s := (if mins != 0 || fraction == 0 then SignedBase60(mins) else "")
      + (if fraction != 0 then "." + SignedBase60(fraction) else "");
      && |s| >= 1
      && ('.' in s <==> fraction != 0)
      && (s[0] == '.' <==> mins == 0 && fraction != 0)
      && (s[0] == '-' <==> mins < 0)
  {
    PackMinutesParts(sec);
    var m := if mins < 0 then -mins else mins;
    Base60Plain(m);
    SignedBase60Properties(mins);
    var head := if mins != 0 || fraction == 0 then SignedBase60(mins) else "";
    assert '.' !in head by {
      if mins < 0 {
        assert SignedBase60(mins) == "-" + Base60(m);
      }
    }
    if fraction != 0 {
      SignedBase60Properties(fraction);
      var tail := "." + SignedBase60(fraction);
      assert '.' in head + tail by {
        assert (head + tail)[|head|] == '.';
      }
      if head != "" {
        assert (head + tail)[0] == head[0];
      }
    } else {
      assert head + "" == head;
    }
  }

  /** The leftover seconds lie in [0, 59] and the minutes keep the sign of sec. */
  lemma PackMinutesParts(sec: int64)
    ensures
      var mins := Quot(sec, 60);
      var f := sec - mins * 60;
      && -60 < f < 60
      && (sec >= 0 ==> 0 <= f && mins >= 0)
      && (sec < 0 ==> f <= 0 && mins <= 0)
      && sec == 60 * mins + f
  {
  }

  /** Reads unsigned base-60 minutes, optionally followed by '.' and one digit of seconds. */
  function UnpackUnsigned(body: string): int
  {
    if |body| >= 2 && body[|body| - 2] == '.' then
      60 * FromBase60(body[..|body| - 2]) + DigitValue(body[|body| - 1])
    else 60 * FromBase60(body)
  }

  /**
   * Reference reader for packMinutes: an optional '-', then base-60 minutes (possibly
   * none) and an optional '.' with one digit of seconds; the sign applies to both parts.
   */
  function UnpackSeconds(s: string): int
  {
    if |s| > 0 && s[0] == '-' then -UnpackUnsigned(s[1..]) else UnpackUnsigned(s)
  }

  /** A rendering without a fraction reads back as that many minutes. */
  lemma UnpackMinutesOnly(m: nat)
    ensures UnpackUnsigned(Base60(m)) == 60 * m
  {
    Base60Plain(m);
    FromBase60OfBase60(m);
    var body := Base60(m);
    if |body| >= 2 {
      assert body[|body| - 2] in body;
    }
  }

  /** Minutes followed by a one-digit fraction read back as both. */
  lemma UnpackWithFraction(m: nat, f: nat)
    requires 0 < f < 60
    ensures UnpackUnsigned(Base60(m) + ("." + [Digit(f)])) == 60 * m + f
  {
    FromBase60OfBase60(m);
    DigitValueOfDigit(f);
    var body := Base60(m) + ("." + [Digit(f)]);
    assert body[..|body| - 2] == Base60(m);
  }

  /** A bare fraction reads back as that many seconds. */
  lemma UnpackFractionOnly(f: nat)
    requires 0 < f < 60
    ensures UnpackSeconds("." + [Digit(f)]) == f
  {
    DigitValueOfDigit(f);
    assert ("." + [Digit(f)])[..0] == [];
  }

  /** The sign of a rendering is read from its first character. */
  lemma UnpackSigned(mins: int, tail: string)
    requires '-' !in tail
    ensures var m := if mins < 0 then -mins else mins;
      UnpackSeconds(SignedBase60(mins) + tail)
        == if mins < 0 then -UnpackUnsigned(Base60(m) + tail) else UnpackUnsigned(Base60(m) + tail)
  {
    var m := if mins < 0 then -mins else mins;
    Base60Plain(m);
    if mins < 0 {
      assert ("-" + Base60(m) + tail)[1..] == Base60(m) + tail;
    } else {
      assert (Base60(m) + tail)[0] == Base60(m)[0];
      assert Base60(m)[0] in Base60(m);
    }
  }

  /**
   * packMinutes round-trips through the reader, except that seconds in (-60, 0) come
   * back positive: their minutes field is left out and the sign with it.
   */
  lemma UnpackPackMinutes(sec: int64)
    ensures UnpackSeconds(PackMinutes(sec)) == if -60 < sec < 0 then -sec else sec
  {
    PackMinutesParts(sec);
    var mins := Quot(sec, 60);
    var f := sec - mins * 60;
    var fraction := if f < 0 then -f else f;
    var m := if mins < 0 then -mins else mins;
    if fraction == 0 {
      assert PackMinutes(sec) == SignedBase60(mins) + "";
      assert Base60(m) + "" == Base60(m);
      UnpackMinutesOnly(m);
      UnpackSigned(mins, "");
    } else {
      var tail := "." + [Digit(fraction)];
      assert SignedBase60(fraction) == [Digit(fraction)];
      if mins != 0 {
        assert PackMinutes(sec) == SignedBase60(mins) + tail;
        DigitValueOfDigit(fraction);
        assert '-' !in tail;
        UnpackWithFraction(m, fraction);
        UnpackSigned(mins, tail);
      } else {
        assert PackMinutes(sec) == tail;
        UnpackFractionOnly(fraction);
      }
    }
  }

  /** toBase60 writes only characters of the alphabet, and '-'. */
  lemma SignedBase60Avoids(n: int, c: char)
    requires DigitValue(c) == -1 && c != '-'
    ensures c !in SignedBase60(n)
  {
    var m := if n < 0 then -n else n;
    Base60Digits(m);
    if n < 0 {
      assert SignedBase60(n) == "-" + Base60(m);
    }
  }

  /** packMinutes writes only characters of the alphabet, '-' and '.'. */
  lemma PackMinutesAvoids(sec: int64, c: char)
    requires DigitValue(c) == -1 && c != '-' && c != '.'
    ensures c !in PackMinutes(sec)
  {
    var mins := Quot(sec, 60);
    var f := sec - mins * 60;
    SignedBase60Avoids(mins, c);
    SignedBase60Avoids(if f < 0 then -f else f, c);
  }

  /** Thirty seconds either side of zero pack to the same text. */
  lemma PackMinutesSignLoss()
    ensures PackMinutes(-30) == PackMinutes(30) == ".u"
  {
    assert Digit(30) == 'u';
  }
}
