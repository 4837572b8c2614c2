/** UTC timestamps in the fixed-width text form `YYYY-MM-DDTHH:MM:SSZ` that the
    commit source delivers and that `strftime('%Y-%m-%dT%H:%M:%SZ')` produces
    (the `date-time` production of section 5.6 of RFC 3339, restricted to the
    `Z` offset and no fractional seconds). */
module Timestamps {
  import opened Common
  import opened Text

  datatype Timestamp = Timestamp(year: nat, month: nat, day: nat, hour: nat, minute: nat, second: nat)

  predicate IsLeapYear(year: nat) {
    year % 4 == 0 && (year % 100 != 0 || year % 400 == 0)
  }

  function DaysInMonth(year: nat, month: nat): nat
    requires 1 <= month <= 12
  {
    if month == 2 then (if IsLeapYear(year) then 29 else 28)
    else if month in {4, 6, 9, 11} then 30
    else 31
  }

  /** The field ranges that `datetime` accepts. */
  predicate Valid(t: Timestamp) {
    1 <= t.year <= 9999 && 1 <= t.month <= 12 && 1 <= t.day <= DaysInMonth(t.year, t.month)
    && t.hour < 24 && t.minute < 60 && t.second < 60
  }

  function Fields(t: Timestamp): seq<nat> {
    [t.year, t.month, t.day, t.hour, t.minute, t.second]
  }

  /** Lexicographic order on number sequences of equal length. */
  predicate NatsLe(xs: seq<nat>, ys: seq<nat>)
    requires |xs| == |ys|
  {
    xs == [] || xs[0] < ys[0] || (xs[0] == ys[0] && NatsLe(xs[1..], ys[1..]))
  }

  /** Chronological order: `a` is not later than `b`. For valid timestamps
      this is the order of (year, month, day, hour, minute, second). */
  predicate ChronoLe(a: Timestamp, b: Timestamp) {
    NatsLe(Fields(a), Fields(b))
  }

  /** `n` as exactly two digits, zero-padded. */
  function Pad2(n: nat): (s: string)
    requires n < 100
    ensures |s| == 2 && IsDigit(s[0]) && IsDigit(s[1])
  {
    [DigitChar(n / 10), DigitChar(n % 10)]
  }

  /** `n` as exactly four digits, zero-padded. */
  function Pad4(n: nat): (s: string)
    requires n < 10000
    ensures |s| == 4
  {
    Pad2(n / 100) + Pad2(n % 100)
  }

  /** The text of each field followed by the separator after it. */
  function Pieces(t: Timestamp): (ps: seq<string>)
    requires Valid(t)
    ensures |ps| == 6
  {
    [Pad4(t.year) + "-", Pad2(t.month) + "-", Pad2(t.day) + "T",
     Pad2(t.hour) + ":", Pad2(t.minute) + ":", Pad2(t.second) + "Z"]
  }

  function Concat(ps: seq<string>): string {
    if ps == [] then [] else ps[0] + Concat(ps[1..])
  }

  /** `strftime('%Y-%m-%dT%H:%M:%SZ')`. */
  function Render(t: Timestamp): (s: string)
    requires Valid(t)
  {
    Concat(Pieces(t))
  }

  function TwoDigits(s: string, i: nat): (n: nat)
    requires i + 2 <= |s| && IsDigit(s[i]) && IsDigit(s[i + 1])
    ensures n < 100
  {
    10 * DigitValue(s[i]) + DigitValue(s[i + 1])
  }

  function FourDigits(s: string, i: nat): (n: nat)
    requires i + 4 <= |s| && forall k :: i <= k < i + 4 ==> IsDigit(s[k])
    ensures n < 10000
  {
    100 * TwoDigits(s, i) + TwoDigits(s, i + 2)
  }

  /** The character positions of the fixed layout that hold digits. */
  predicate DigitPosition(k: nat) {
    k < 19 && k !in {4, 7, 10, 13, 16}
  }

  predicate Layout(s: string) {
    |s| == 20 && s[4] == '-' && s[7] == '-' && s[10] == 'T' && s[13] == ':' && s[16] == ':' && s[19] == 'Z'
    && forall k :: 0 <= k < 20 && DigitPosition(k) ==> IsDigit(s[k])
  }

  /** `datetime.strptime(s, '%Y-%m-%dT%H:%M:%SZ')` on the strings `strftime`
      writes with that format: `None` where it raises `ValueError`. It
      accepts exactly the zero-padded, upper-case, ASCII-digit form, which is
      the form `Render` produces (see `RenderParse`). */
  function Parse(s: string): (r: Option<Timestamp>)
    ensures r.Some? ==> Valid(r.value)
  {
    if Layout(s) then
      var t := Timestamp(FourDigits(s, 0), TwoDigits(s, 5), TwoDigits(s, 8),
                         TwoDigits(s, 11), TwoDigits(s, 14), TwoDigits(s, 17));
      if Valid(t) then Some(t) else None
    else None
  }

  lemma Pad2Digits(n: nat)
    requires n < 100
    ensures TwoDigits(Pad2(n), 0) == n
  {
    DigitValueOfChar(n / 10);
    DigitValueOfChar(n % 10);
  }

  lemma Pad4Digits(n: nat)
    requires n < 10000
    ensures FourDigits(Pad4(n), 0) == n
  {
    var s := Pad4(n);
    Pad2Digits(n / 100);
    Pad2Digits(n % 100);
    assert s[2..] == Pad2(n % 100);
    assert TwoDigits(s, 2) == TwoDigits(s[2..], 0);
  }

  /** The rendered text is the six pieces joined. */
  lemma RenderJoined(t: Timestamp)
    requires Valid(t)
    ensures var ps := Pieces(t);
      Render(t) == ps[0] + (ps[1] + (ps[2] + (ps[3] + (ps[4] + ps[5]))))
  {
    var ps := Pieces(t);
    assert Concat(ps[5..]) == ps[5] by { assert ps[5..][1..] == []; }
    assert Concat(ps[4..]) == ps[4] + ps[5] by { assert ps[4..][1..] == ps[5..]; }
    assert Concat(ps[3..]) == ps[3] + (ps[4] + ps[5]) by { assert ps[3..][1..] == ps[4..]; }
    assert Concat(ps[2..]) == ps[2] + (ps[3] + (ps[4] + ps[5])) by { assert ps[2..][1..] == ps[3..]; }
    assert Concat(ps[1..]) == ps[1] + (ps[2] + (ps[3] + (ps[4] + ps[5]))) by { assert ps[1..][1..] == ps[2..]; }
  }

  /** Where each piece lies in a join of a five-character piece and five
      three-character pieces. */
  lemma JoinedSlices(p0: string, p1: string, p2: string, p3: string, p4: string, p5: string)
    requires |p0| == 5 && |p1| == 3 && |p2| == 3 && |p3| == 3 && |p4| == 3 && |p5| == 3
    ensures var s := p0 + (p1 + (p2 + (p3 + (p4 + p5))));
      |s| == 20 && s[..5] == p0 && s[5..8] == p1 && s[8..11] == p2
      && s[11..14] == p3 && s[14..17] == p4 && s[17..] == p5
  {
    var s5 := p4 + p5;
    var s4 := p3 + s5;
    var s3 := p2 + s4;
    var s2 := p1 + s3;
    var s := p0 + s2;
    assert s[5..] == s2;
    assert s2[3..] == s3;
    assert s3[3..] == s4;
    assert s4[3..] == s5;
    assert s[8..] == s3 && s[11..] == s4 && s[14..] == s5;
  }

  /** The rendered text spelled out piece by piece. */
  lemma RenderLayout(t: Timestamp)
    requires Valid(t)
    ensures var s := Render(t);
      |s| == 20 && s[..4] == Pad4(t.year) && s[4] == '-'
      && s[5..7] == Pad2(t.month) && s[7] == '-'
      && s[8..10] == Pad2(t.day) && s[10] == 'T'
      && s[11..13] == Pad2(t.hour) && s[13] == ':'
      && s[14..16] == Pad2(t.minute) && s[16] == ':'
      && s[17..19] == Pad2(t.second) && s[19] == 'Z'
  {
    var ps := Pieces(t);
    RenderJoined(t);
    JoinedSlices(ps[0], ps[1], ps[2], ps[3], ps[4], ps[5]);
    var s := Render(t);
    assert s[..4] == s[..5][..4] && s[4] == s[..5][4];
    assert s[5..7] == s[5..8][..2] && s[7] == s[5..8][2];
    assert s[8..10] == s[8..11][..2] && s[10] == s[8..11][2];
    assert s[11..13] == s[11..14][..2] && s[13] == s[11..14][2];
    assert s[14..16] == s[14..17][..2] && s[16] == s[14..17][2];
    assert s[17..19] == s[17..][..2] && s[19] == s[17..][2];
  }

  /** `strptime` reads back exactly the timestamp that `strftime` wrote. */
  lemma ParseRender(t: Timestamp)
    requires Valid(t)
    ensures Parse(Render(t)) == Some(t)
  {
    var s := Render(t);
    RenderLayout(t);
    assert Layout(s);
    Pad4Digits(t.year);
    assert FourDigits(s, 0) == FourDigits(s[..4], 0);
    Pad2Digits(t.month);
    assert TwoDigits(s, 5) == TwoDigits(s[5..7], 0);
    Pad2Digits(t.day);
    assert TwoDigits(s, 8) == TwoDigits(s[8..10], 0);
    Pad2Digits(t.hour);
    assert TwoDigits(s, 11) == TwoDigits(s[11..13], 0);
    Pad2Digits(t.minute);
    assert TwoDigits(s, 14) == TwoDigits(s[14..16], 0);
    Pad2Digits(t.second);
    assert TwoDigits(s, 17) == TwoDigits(s[17..19], 0);
  }

  lemma Pad2OfDigits(s: string, i: nat)
    requires i + 2 <= |s| && IsDigit(s[i]) && IsDigit(s[i + 1])
    ensures Pad2(TwoDigits(s, i)) == s[i..i + 2]
  {
  }

  /** Conversely, a string that `strptime` accepts is the `strftime` text of
      what it parsed to: the fixed-width form has one spelling per instant. */
  lemma RenderParse(s: string)
    requires Parse(s).Some?
    ensures Render(Parse(s).value) == s
  {
    var t := Parse(s).value;
    RenderLayout(t);
    var r := Render(t);
    Pad2OfDigits(s, 0);
    Pad2OfDigits(s, 2);
    Pad2OfDigits(s, 5);
    Pad2OfDigits(s, 8);
    Pad2OfDigits(s, 11);
    Pad2OfDigits(s, 14);
    Pad2OfDigits(s, 17);
    assert r[..4] == s[..4] by {
      assert FourDigits(s, 0) / 100 == TwoDigits(s, 0);
      assert FourDigits(s, 0) % 100 == TwoDigits(s, 2);
      assert s[..4] == s[0..2] + s[2..4];
    }
    forall k | 0 <= k < 20 ensures r[k] == s[k] {
      if k < 4 { assert r[k] == r[..4][k]; }
      else if 5 <= k < 7 { assert r[k] == r[5..7][k - 5]; }
      else if 8 <= k < 10 { assert r[k] == r[8..10][k - 8]; }
      else if 11 <= k < 13 { assert r[k] == r[11..13][k - 11]; }
      else if 14 <= k < 16 { assert r[k] == r[14..16][k - 14]; }
      else if 17 <= k < 19 { assert r[k] == r[17..19][k - 17]; }
    }
  }

  lemma Pad2Order(n: nat, m: nat)
    requires n < 100 && m < 100
    ensures Pad2(n) == Pad2(m) <==> n == m
    ensures LexLe(Pad2(n), Pad2(m)) <==> n <= m
  {
    DigitCharOrder(n / 10, m / 10);
    DigitCharOrder(n % 10, m % 10);
    var p, q := Pad2(n), Pad2(m);
    assert p[1..][1..] == [] && q[1..][1..] == [];
    assert p == q <==> p[0] == q[0] && p[1] == q[1];
    assert LexLe(p[1..], q[1..]) <==> p[1] <= q[1];
    assert n <= m <==> n / 10 < m / 10 || (n / 10 == m / 10 && n % 10 <= m % 10);
    assert n == m <==> n / 10 == m / 10 && n % 10 == m % 10;
  }

  lemma Pad4Order(n: nat, m: nat)
    requires n < 10000 && m < 10000
    ensures Pad4(n) == Pad4(m) <==> n == m
    ensures LexLe(Pad4(n), Pad4(m)) <==> n <= m
  {
    Pad2Order(n / 100, m / 100);
    Pad2Order(n % 100, m % 100);
    LexLeConcat(Pad2(n / 100), Pad2(n % 100), Pad2(m / 100), Pad2(m % 100));
    var p, q := Pad4(n), Pad4(m);
    assert p == q ==> p[..2] == q[..2] && p[2..] == q[2..];
    assert p[..2] == Pad2(n / 100) && p[2..] == Pad2(n % 100);
    assert q[..2] == Pad2(m / 100) && q[2..] == Pad2(m % 100);
  }

  /** A field's text followed by a separator compares like the field. */
  lemma PieceOrder(p: string, q: string, sep: string, n: nat, m: nat)
    requires |p| == |q|
    requires p == q <==> n == m
    requires LexLe(p, q) <==> n <= m
    ensures p + sep == q + sep <==> n == m
    ensures LexLe(p + sep, q + sep) <==> n <= m
  {
    LexLeConcat(p, sep, q, sep);
    LexLeReflexive(sep);
    assert p + sep == q + sep ==> p == (p + sep)[..|p|] == (q + sep)[..|q|] == q;
  }

  /** Two rendered pieces have the same length, are equal exactly when the
      numbers they stand for are, and compare like those numbers. */
  predicate PieceMatches(p: string, q: string, n: nat, m: nat) {
    |p| == |q| && (p == q <==> n == m) && (LexLe(p, q) <==> n <= m)
  }

  /** Concatenations of pieces of matching lengths compare like the
      sequences of numbers the pieces stand for. */
  lemma {:induction false} ConcatOrder(ps: seq<string>, qs: seq<string>, ns: seq<nat>, ms: seq<nat>)
    requires |ps| == |qs| == |ns| == |ms|
    requires forall i :: 0 <= i < |ps| ==> PieceMatches(ps[i], qs[i], ns[i], ms[i])
    ensures LexLe(Concat(ps), Concat(qs)) <==> NatsLe(ns, ms)
  {
    if ps != [] {
      LexLeConcat(ps[0], Concat(ps[1..]), qs[0], Concat(qs[1..]));
      ConcatOrder(ps[1..], qs[1..], ns[1..], ms[1..]);
    }
  }

  /** A two-digit field followed by a separator compares like the field. */
  lemma Pad2PieceOrder(n: nat, m: nat, sep: string)
    requires n < 100 && m < 100
    ensures PieceMatches(Pad2(n) + sep, Pad2(m) + sep, n, m)
  {
    Pad2Order(n, m);
    PieceOrder(Pad2(n), Pad2(m), sep, n, m);
  }

  /** The four-digit year followed by its separator compares like the year. */
  lemma Pad4PieceOrder(n: nat, m: nat, sep: string)
    requires n < 10000 && m < 10000
    ensures PieceMatches(Pad4(n) + sep, Pad4(m) + sep, n, m)
  {
    Pad4Order(n, m);
    PieceOrder(Pad4(n), Pad4(m), sep, n, m);
  }

  /** Section 5.1 of RFC 3339: for timestamps in this fixed-width form,
      comparing the texts as strings gives the chronological order. This is
      what makes `min`/`max` over the raw date strings pick the earliest and
      latest commit. */
  lemma RenderOrder(a: Timestamp, b: Timestamp)
    requires Valid(a) && Valid(b)
    ensures LexLe(Render(a), Render(b)) <==> ChronoLe(a, b)
  {
    var pa, pb, fa, fb := Pieces(a), Pieces(b), Fields(a), Fields(b);
    Pad4PieceOrder(a.year, b.year, "-");
    Pad2PieceOrder(a.month, b.month, "-");
    Pad2PieceOrder(a.day, b.day, "T");
    Pad2PieceOrder(a.hour, b.hour, ":");
    Pad2PieceOrder(a.minute, b.minute, ":");
    Pad2PieceOrder(a.second, b.second, "Z");
    forall i | 0 <= i < 6 ensures PieceMatches(pa[i], pb[i], fa[i], fb[i]) {
      // one branch per field, so that each index meets the fact stated for it above
      if i == 0 {
      } else if i == 1 {
      } else if i == 2 {
      } else if i == 3 {
      } else if i == 4 {
      } else {
      }
    }
    ConcatOrder(pa, pb, fa, fb);
  }

}
