/**
 `job_scheduling_policy` and `date_time`: date-times printed in, and read from, the extended format of ISO 8601:2004
 section 4.3.2, with the conversions that `snprintf` and `sscanf` make.
 */
module Iso8601 {
  import opened Prelude
  import G = Gregorian

  type Word = w: int | 0 <= w < 0x1_0000_0000

  datatype Status = Ok | BadValue

  /** The fields of `date_time`, within the widths of its bit fields. */
  datatype Stamp = Stamp(year: int, month: int, day: int, hour: int, min: int, sec: int)
  {
    predicate Fits() {
      0 <= year < 0x1_0000 && 0 <= month < 16 && 0 <= day < 32 && 0 <= hour < 32 && 0 <= min < 64 && 0 <= sec < 64
    }

    /** `is_valid` */
    predicate IsValid() { Fits() && G.CheckDate(year, month, day) && G.CheckTime(hour, min, sec) }

    function AsTm(): G.Tm { G.Tm(year - 1900, month - 1, day, hour, min, sec, 0) }

    predicate LessThan(rhs: Stamp) {
      if year != rhs.year then year < rhs.year
      else if month != rhs.month then month < rhs.month
      else if day != rhs.day then day < rhs.day
      else if hour != rhs.hour then hour < rhs.hour
      else if min != rhs.min then min < rhs.min
      else sec < rhs.sec
    }
  }

  /** The order of the fields is the order in time, and nothing else is equal. */
  lemma OrderIsTime(a: Stamp, b: Stamp)
    requires a.IsValid() && b.IsValid()
    ensures a.LessThan(b) <==> G.Mktime(a.AsTm()) < G.Mktime(b.AsTm())
    ensures a == b <==> G.Mktime(a.AsTm()) == G.Mktime(b.AsTm())
  {
    hide G.Mktime;
    ValidIsDate(a);
    ValidIsDate(b);
    G.LessThanIsEarlier(a.AsTm(), b.AsTm());
  }

  lemma ValidIsDate(a: Stamp)
    requires a.IsValid()
    ensures a.AsTm().IsDate()
  {
  }

  // ---------- snprintf ----------

  function Digit(n: int): char
    requires 0 <= n < 10
  {
    ('0' as int + n) as char
  }

  /** `%0wu` */
  function Padded(n: nat, w: nat): string
    decreases n, w
  {
    (if n < 10 && w <= 1 then "" else Padded(n / 10, if w > 0 then w - 1 else 0)) + [Digit(n % 10)]
  }

  function Text(d: Stamp): string
    requires d.Fits()
  {
    Padded(d.year, 4) + "-" + Padded(d.month, 2) + "-" + Padded(d.day, 2) + "T" +
    Padded(d.hour, 2) + ":" + Padded(d.min, 2) + ":" + Padded(d.sec, 2)
  }

  // ---------- sscanf ----------

  predicate IsDigit(c: char) { '0' <= c <= '9' }

  predicate IsSpace(c: char) { c == ' ' || 9 <= c as int <= 13 }

  /** Blanks, tabs, line ends and page ends are skipped. */
  lemma SpaceIsBlank(c: char)
    ensures IsSpace(c) <==> c in " \t\n\r" || c as int in {0x0b, 0x0c}
  {
  }

  function SkipSpace(s: string): string {
    if s != "" && IsSpace(s[0]) then SkipSpace(s[1..]) else s
  }

  /** The number of digits in front, at most w. */
  function Run(s: string, w: nat): (n: nat)
    ensures n <= w && n <= |s| && forall i | 0 <= i < n :: IsDigit(s[i])
  {
    if w == 0 || s == "" || !IsDigit(s[0]) then 0 else 1 + Run(s[1..], w - 1)
  }

  function Number(s: string): nat
    requires forall i | 0 <= i < |s| :: IsDigit(s[i])
  {
    if s == "" then 0
    else
      assert IsDigit(s[|s| - 1]);
      10 * Number(s[..|s| - 1]) + (s[|s| - 1] as int - '0' as int)
  }

  /** `%0wd` into an unsigned: leading space, and a sign that counts against the width, are taken, too. */
  function ScanInt(s: string, w: nat): Option<(Word, string)>
    requires w > 0
  {
    ScanSigned(SkipSpace(s), w)
  }

  predicate IsSigned(t: string) { t != "" && (t[0] == '-' || t[0] == '+') }

  function ScanSigned(t: string, w: nat): Option<(Word, string)>
    requires w > 0
  {
    var u := if IsSigned(t) then t[1..] else t;
    var n := Run(u, if IsSigned(t) then w - 1 else w);
    if n == 0 then None else Some((Signed(IsSigned(t) && t[0] == '-', Number(u[..n])), u[n..]))
  }

  function Signed(negative: bool, n: nat): Word {
    var v := n % 0x1_0000_0000;
    if negative then (0x1_0000_0000 - v) % 0x1_0000_0000 else v
  }

  /** A number and the character after it. */
  function ScanThen(s: string, w: nat, c: char): Option<(Word, string)>
    requires w > 0
  {
    match ScanInt(s, w)
    case None => None
    case Some((v, rest)) => if rest != "" && rest[0] == c then Some((v, rest[1..])) else None
  }

  datatype Scanned = Scanned(y: Word, mo: Word, d: Word, h: Word, mi: Word, s: Word)

  function ScanAll(text: string): Option<Scanned> {
    match ScanThen(text, 4, '-')
    case None => None
    case Some((y, a)) =>
      match ScanThen(a, 2, '-')
      case None => None
      case Some((mo, b)) =>
        match ScanThen(b, 2, 'T')
        case None => None
        case Some((d, c)) =>
          match ScanThen(c, 2, ':')
          case None => None
          case Some((h, e)) =>
            match ScanThen(e, 2, ':')
            case None => None
            case Some((mi, f)) =>
              match ScanInt(f, 2)
              case None => None
              case Some((s, rest)) => Some(Scanned(y, mo, d, h, mi, s))
  }

  /** `set_date_time`: the numbers are checked before the year is cut to 16 bits. */
  function Checked(v: Scanned): Option<Stamp> {
    if G.CheckDate(v.y, v.mo, v.d) && G.CheckTime(v.h, v.mi, v.s) then
      Some(Stamp(v.y % 0x1_0000, v.mo, v.d, v.h, v.mi, v.s))
    else None
  }

  function Parse(text: string): Option<Stamp> {
    match ScanAll(text)
    case None => None
    case Some(v) => Checked(v)
  }

  // ---------- reading what was printed ----------

  function Two(n: nat): string
    requires n < 100
  {
    [Digit(n / 10), Digit(n % 10)]
  }

  function Four(n: nat): string
    requires n < 10000
  {
    Two(n / 100) + Two(n % 100)
  }

  lemma PaddedTwo(n: nat)
    requires n < 100
    ensures Padded(n, 2) == Two(n)
  {
  }

  lemma PaddedFour(n: nat)
    requires n < 10000
    ensures Padded(n, 4) == Four(n)
  {
    var m := n / 10;
    assert m / 10 == n / 100 && m % 10 == n % 100 / 10;
    PaddedTwo(n / 100);
    assert Padded(m, 3) == Two(n / 100) + [Digit(m % 10)];
  }

  lemma PaddedFive(n: nat)
    requires 10000 <= n < 100000
    ensures Padded(n, 4) == Two(n / 1000) + [Digit(n / 100 % 10)] + Two(n % 100)
  {
    var m, l := n / 10, n / 100;
    assert m / 10 == l && m % 10 == n % 100 / 10;
    assert l / 10 == n / 1000;
    PaddedDown(n / 1000);
    assert Padded(l, 2) == Two(n / 1000) + [Digit(l % 10)];
    assert Padded(m, 3) == Padded(l, 2) + [Digit(m % 10)];
  }

  lemma PaddedDown(n: nat)
    requires 10 <= n < 100
    ensures Padded(n, 1) == Two(n)
  {
  }

  lemma ScanTwo(n: nat, rest: string)
    requires n < 100
    ensures ScanInt(Two(n) + rest, 2) == Some((n, rest))
  {
    var u := Two(n) + rest;
    assert !IsSpace(u[0]) && IsDigit(u[0]) && IsDigit(u[1]);
    assert Run(u, 2) == 2 by { assert Run(u[1..], 1) == 1; }
    assert u[..2] == Two(n) && u[2..] == rest;
    NumberTwo(n);
  }

  lemma NumberTwo(n: nat)
    requires n < 100
    ensures Number(Two(n)) == n
  {
    var s := Two(n);
    assert s[..1] == [Digit(n / 10)];
    assert Number(s[..1]) == n / 10 by { assert s[..1][..0] == ""; }
  }

  lemma ScanFour(n: nat, rest: string)
    requires n < 10000
    ensures ScanInt(Four(n) + rest, 4) == Some((n, rest))
  {
    var u := Four(n) + rest;
    assert !IsSpace(u[0]) && IsDigit(u[0]) && IsDigit(u[1]) && IsDigit(u[2]) && IsDigit(u[3]);
    RunFour(u);
    assert u[..4] == Four(n) && u[4..] == rest;
    NumberFour(n);
  }

  lemma RunFour(u: string)
    requires |u| >= 4 && IsDigit(u[0]) && IsDigit(u[1]) && IsDigit(u[2]) && IsDigit(u[3])
    ensures Run(u, 4) == 4
  {
    var a, b, c := u[1..], u[2..], u[3..];
    assert a[1..] == b && b[1..] == c;
    assert Run(c, 1) == 1;
    assert Run(b, 2) == 2;
    assert Run(a, 3) == 3;
  }

  lemma NumberFour(n: nat)
    requires n < 10000
    ensures Number(Four(n)) == n
  {
    var s, hi, lo := Four(n), n / 100, n % 100;
    NumberTwo(hi);
    assert s[..3][..2] == Two(hi);
    assert s[..3][2] == Digit(lo / 10) && s[3] == Digit(lo % 10);
    assert Number(s[..3]) == 10 * hi + lo / 10;
  }

  /** The extended format, for numbers that fit it. */
  function Canonical(y: nat, mo: nat, d: nat, h: nat, mi: nat, s: nat): string
    requires y < 10000 && mo < 100 && d < 100 && h < 100 && mi < 100 && s < 100
  {
    Four(y) + ("-" + Rest(mo, d, h, mi, s))
  }

  function Rest(mo: nat, d: nat, h: nat, mi: nat, s: nat): string
    requires mo < 100 && d < 100 && h < 100 && mi < 100 && s < 100
  {
    Two(mo) + ("-" + (Two(d) + ("T" + (Two(h) + (":" + (Two(mi) + (":" + Two(s))))))))
  }

  /** Whatever year was read, the rest of the format is read to the numbers in it. */
  lemma ScanRest(text: string, y: Word, mo: nat, d: nat, h: nat, mi: nat, s: nat)
    requires mo < 100 && d < 100 && h < 100 && mi < 100 && s < 100
    requires ScanThen(text, 4, '-') == Some((y, Rest(mo, d, h, mi, s)))
    ensures ScanAll(text) == Some(Scanned(y, mo, d, h, mi, s))
  {
    hide ScanInt, Two;
    var e := Two(mi) + (":" + Two(s));
    var c := Two(h) + (":" + e);
    var b := Two(d) + ("T" + c);
    ScanTwo(mo, "-" + b);
    ScanTwo(d, "T" + c);
    ScanTwo(h, ":" + e);
    ScanTwo(mi, ":" + Two(s));
    ScanTwo(s, "");
    assert Two(s) + "" == Two(s);
  }

  lemma ScanCanonical(y: nat, mo: nat, d: nat, h: nat, mi: nat, s: nat)
    requires y < 10000 && mo < 100 && d < 100 && h < 100 && mi < 100 && s < 100
    ensures ScanAll(Canonical(y, mo, d, h, mi, s)) == Some(Scanned(y, mo, d, h, mi, s))
  {
    hide ScanInt, Two, Rest, Four;
    ScanFour(y, "-" + Rest(mo, d, h, mi, s));
    ScanRest(Canonical(y, mo, d, h, mi, s), y, mo, d, h, mi, s);
  }

  lemma TextParts(d: Stamp)
    requires d.Fits()
    ensures Text(d) == Padded(d.year, 4) + ("-" + Rest(d.month, d.day, d.hour, d.min, d.sec))
    ensures d.year < 10000 ==> Text(d) == Canonical(d.year, d.month, d.day, d.hour, d.min, d.sec)
  {
    hide Padded, Two, Four;
    PaddedTwo(d.month);
    PaddedTwo(d.day);
    PaddedTwo(d.hour);
    PaddedTwo(d.min);
    PaddedTwo(d.sec);
    if d.year < 10000 { PaddedFour(d.year); }
  }

  /** Where each digit of a printed date-time is, and what stands between them. */
  lemma PrintedDigits(d: Stamp)
    requires d.Fits() && d.year <= 9999
    ensures var text := Text(d);
            && |text| == 19 && text[4] == text[7] == '-' && text[10] == 'T' && text[13] == text[16] == ':'
            && text[0] as int == 0x30 + d.year / 1000 && text[1] as int == 0x30 + d.year / 100 % 10
            && text[2] as int == 0x30 + d.year / 10 % 10 && text[3] as int == 0x30 + d.year % 10
            && text[5] as int == 0x30 + d.month / 10 && text[6] as int == 0x30 + d.month % 10
            && text[8] as int == 0x30 + d.day / 10 && text[9] as int == 0x30 + d.day % 10
            && text[11] as int == 0x30 + d.hour / 10 && text[12] as int == 0x30 + d.hour % 10
            && text[14] as int == 0x30 + d.min / 10 && text[15] as int == 0x30 + d.min % 10
            && text[17] as int == 0x30 + d.sec / 10 && text[18] as int == 0x30 + d.sec % 10
  {
    TextParts(d);
    FourDigits(d.year);
    hide Text, Padded;
  }

  lemma FourDigits(n: nat)
    requires n < 10000
    ensures var y := Four(n);
            && |y| == 4 && y[0] as int == 0x30 + n / 1000 && y[1] as int == 0x30 + n / 100 % 10
            && y[2] as int == 0x30 + n / 10 % 10 && y[3] as int == 0x30 + n % 10
  {
    FourParts(n);
    hide Digit;
  }

  lemma FourParts(n: nat)
    requires n < 10000
    ensures n / 100 / 10 == n / 1000 && n % 100 / 10 == n / 10 % 10 && n % 100 % 10 == n % 10
    ensures forall d: nat | d < 10 :: Digit(d) as int == 0x30 + d
  {
  }

  /** Printing and reading is the identity exactly up to the year 9999; later years are refused. */
  lemma RoundTripIff(d: Stamp)
    requires d.IsValid()
    ensures Parse(Text(d)) == if d.year <= 9999 then Some(d) else None
  {
    hide ScanAll, ScanThen, Text, Padded, Rest, Canonical;
    TextParts(d);
    if d.year <= 9999 {
      ScanCanonical(d.year, d.month, d.day, d.hour, d.min, d.sec);
    } else {
      LaterRefused(d.year, "-" + Rest(d.month, d.day, d.hour, d.min, d.sec));
    }
  }

  lemma LaterRefused(n: nat, rest: string)
    requires 10000 <= n < 100000
    ensures ScanAll(Padded(n, 4) + rest) == None
  {
    hide Padded, ScanThen;
    FiveDigitsRefused(n, rest);
  }

  lemma FiveDigitsRefused(n: nat, rest: string)
    requires 10000 <= n < 100000
    ensures ScanThen(Padded(n, 4) + rest, 4, '-') == None
  {
    PaddedFive(n);
    hide Padded;
    var u := Padded(n, 4) + rest;
    var last := Digit(n % 10);
    assert u[4] == last && IsDigit(last);
    assert !IsSpace(u[0]) && IsDigit(u[0]) && IsDigit(u[1]) && IsDigit(u[2]) && IsDigit(u[3]);
    RunFour(u);
    assert u[4..][0] == last;
  }

  /** A text in the extended format is read exactly if it names a date and a time, and printing gives the text back. */
  lemma PrintParsed(y: nat, mo: nat, d: nat, h: nat, mi: nat, s: nat)
    requires y < 10000 && mo < 100 && d < 100 && h < 100 && mi < 100 && s < 100
    ensures var text := Canonical(y, mo, d, h, mi, s);
            match Parse(text)
            case Some(stamp) => stamp.IsValid() && Text(stamp) == text && stamp == Stamp(y, mo, d, h, mi, s)
            case None => !(G.CheckDate(y, mo, d) && G.CheckTime(h, mi, s))
  {
    hide ScanAll, Text, Canonical, Padded, Rest, Four, Two, ScanInt;
    ScanCanonical(y, mo, d, h, mi, s);
    if G.CheckDate(y, mo, d) && G.CheckTime(h, mi, s) {
      TextParts(Stamp(y, mo, d, h, mi, s));
    }
  }

  /** Of all texts, just those of valid date-times up to the year 9999 are read to what prints as the text itself. */
  lemma PrintsAsReadIff(text: string)
    ensures (Parse(text).Some? && Parse(text).value.Fits() && Text(Parse(text).value) == text) <==>
              exists d: Stamp :: d.IsValid() && d.year <= 9999 && text == Text(d)
  {
    hide ScanAll, Text, Padded, Rest, Canonical, G.CheckDate, G.CheckTime;
    if d: Stamp :| d.IsValid() && d.year <= 9999 && text == Text(d) {
      RoundTripIff(d);
    }
    if Parse(text).Some? && Parse(text).value.Fits() && Text(Parse(text).value) == text {
      var d := Parse(text).value;
      TextParts(d);
      if d.year > 9999 {
        LaterRefused(d.year, "-" + Rest(d.month, d.day, d.hour, d.min, d.sec));
      } else {
        ScanCanonical(d.year, d.month, d.day, d.hour, d.min, d.sec);
      }
    }
  }

  // ---------- everything that is read ----------

  /** How a number may be written: space, a sign and digits. */
  datatype Field = Field(space: string, sign: string, digits: string)
  {
    function Written(): string { space + sign + digits }

    /** The sign counts against the width, the space does not. */
    predicate Fits(w: nat) {
      && (forall i | 0 <= i < |space| :: IsSpace(space[i])) && sign in {"", "+", "-"}
      && (forall i | 0 <= i < |digits| :: IsDigit(digits[i])) && 1 <= |digits| <= w - |sign|
    }

    predicate Full(w: nat) { |digits| == w - |sign| }

    function Value(): Word
      requires forall i | 0 <= i < |digits| :: IsDigit(digits[i])
    {
      Signed(sign == "-", Number(digits))
    }
  }

  lemma {:induction false} SkipsSpace(space: string, t: string)
    requires (forall i | 0 <= i < |space| :: IsSpace(space[i])) && t != "" && !IsSpace(t[0])
    ensures SkipSpace(space + t) == t
  {
    if space == "" {
      assert space + t == t;
    } else {
      assert (space + t)[1..] == space[1..] + t;
      SkipsSpace(space[1..], t);
    }
  }

  lemma {:induction false} SpaceSkipped(s: string) returns (space: string)
    ensures s == space + SkipSpace(s) && forall i | 0 <= i < |space| :: IsSpace(space[i])
    ensures SkipSpace(s) == "" || !IsSpace(SkipSpace(s)[0])
  {
    if s != "" && IsSpace(s[0]) {
      var rest := SpaceSkipped(s[1..]);
      space := [s[0]] + rest;
      assert s == [s[0]] + s[1..];
    } else {
      space := "";
    }
  }

  lemma {:induction false} RunOf(digits: string, rest: string, w: nat)
    requires (forall i | 0 <= i < |digits| :: IsDigit(digits[i])) && |digits| <= w
    requires |digits| == w || rest == "" || !IsDigit(rest[0])
    ensures Run(digits + rest, w) == |digits|
  {
    if digits == "" {
      assert digits + rest == rest;
    } else {
      assert (digits + rest)[1..] == digits[1..] + rest;
      RunOf(digits[1..], rest, w - 1);
    }
  }

  lemma {:induction false} RunEnds(s: string, w: nat)
    ensures var n := Run(s, w); n == w || s[n..] == "" || !IsDigit(s[n..][0])
  {
    if w > 0 && s != "" && IsDigit(s[0]) {
      RunEnds(s[1..], w - 1);
      assert s[1..][Run(s[1..], w - 1)..] == s[Run(s, w)..];
    }
  }

  /** A field is scanned as such, up to what can still belong to it. */
  lemma FieldScans(f: Field, w: nat, rest: string)
    requires w > 0 && f.Fits(w) && (f.Full(w) || rest == "" || !IsDigit(rest[0]))
    ensures ScanInt(f.Written() + rest, w) == Some((f.Value(), rest))
  {
    hide Run, Number, Signed, SkipSpace, ScanSigned;
    var t := f.sign + (f.digits + rest);
    assert f.Written() + rest == f.space + t;
    assert IsDigit(f.digits[0]);
    SkipsSpace(f.space, t);
    SignedScans(f, w, rest);
  }

  lemma SignedScans(f: Field, w: nat, rest: string)
    requires w > 0 && f.Fits(w) && (f.Full(w) || rest == "" || !IsDigit(rest[0]))
    ensures ScanSigned(f.sign + (f.digits + rest), w) == Some((f.Value(), rest))
  {
    hide Run, Number, Signed;
    var t, u := f.sign + (f.digits + rest), f.digits + rest;
    assert IsDigit(f.digits[0]);
    assert IsSigned(t) <==> f.sign != "";
    assert t[|f.sign|..] == u;
    RunOf(f.digits, rest, w - |f.sign|);
    assert u[..|f.digits|] == f.digits && u[|f.digits|..] == rest;
  }

  /** What is scanned is a field. */
  lemma ScannedField(s: string, w: nat) returns (f: Field)
    requires w > 0 && ScanInt(s, w).Some?
    ensures var (v, rest) := ScanInt(s, w).value;
            f.Fits(w) && f.Value() == v && s == f.Written() + rest && (f.Full(w) || rest == "" || !IsDigit(rest[0]))
  {
    hide Run, Number, Signed, SkipSpace, ScanSigned;
    var space := SpaceSkipped(s);
    f := SignedField(SkipSpace(s), w);
    f := f.(space := space);
  }

  lemma SignedField(t: string, w: nat) returns (f: Field)
    requires w > 0 && ScanSigned(t, w).Some?
    ensures var (v, rest) := ScanSigned(t, w).value;
            && f.space == "" && f.Fits(w) && f.Value() == v && t == f.sign + f.digits + rest
            && (f.Full(w) || rest == "" || !IsDigit(rest[0]))
  {
    hide Run, Number, Signed, IsSigned;
    var sign := SignOf(t);
    var u := if IsSigned(t) then t[1..] else t;
    var n := Run(u, w - |sign|);
    RunEnds(u, w - |sign|);
    f := Field("", sign, u[..n]);
    Joined(sign, u, n);
  }

  lemma SignOf(t: string) returns (sign: string)
    ensures sign in {"", "+", "-"} && t == sign + (if IsSigned(t) then t[1..] else t)
    ensures |sign| == (if IsSigned(t) then 1 else 0) && (sign == "-" <==> IsSigned(t) && t[0] == '-')
  {
    sign := if !IsSigned(t) then "" else if t[0] == '-' then "-" else "+";
  }

  lemma Joined(sign: string, u: string, n: nat)
    requires n <= |u|
    ensures sign + u == sign + u[..n] + u[n..]
  {
  }

  /** The text is six fields with their separators, and anything after that does not go on with the last number. */
  predicate Spells(text: string, y: Field, mo: Field, d: Field, h: Field, mi: Field, s: Field, tail: string) {
    && y.Fits(4) && mo.Fits(2) && d.Fits(2) && h.Fits(2) && mi.Fits(2) && s.Fits(2)
    && (s.Full(2) || tail == "" || !IsDigit(tail[0]))
    && text == y.Written() + ("-" + (mo.Written() + ("-" + (d.Written() + ("T" +
                 (h.Written() + (":" + (mi.Written() + (":" + (s.Written() + tail))))))))))
  }

  lemma FieldThen(f: Field, w: nat, c: char, rest: string)
    requires w > 0 && f.Fits(w) && !IsDigit(c)
    ensures ScanThen(f.Written() + ([c] + rest), w, c) == Some((f.Value(), rest))
  {
    hide ScanInt;
    FieldScans(f, w, [c] + rest);
  }

  lemma ScannedThen(s: string, w: nat, c: char) returns (f: Field)
    requires w > 0 && ScanThen(s, w, c).Some?
    ensures var (v, rest) := ScanThen(s, w, c).value; f.Fits(w) && f.Value() == v && s == f.Written() + ([c] + rest)
  {
    f := ScannedField(s, w);
    var (v, more) := ScanInt(s, w).value;
    assert more == [c] + more[1..];
  }

  lemma SpelledIsScanned(text: string, y: Field, mo: Field, d: Field, h: Field, mi: Field, s: Field, tail: string)
    requires Spells(text, y, mo, d, h, mi, s, tail)
    ensures ScanAll(text) == Some(Scanned(y.Value(), mo.Value(), d.Value(), h.Value(), mi.Value(), s.Value()))
  {
    hide ScanThen, ScanInt, Field.Written, Field.Value;
    var f := s.Written() + tail;
    var e := mi.Written() + (":" + f);
    var c := h.Written() + (":" + e);
    var b := d.Written() + ("T" + c);
    var a := mo.Written() + ("-" + b);
    FieldThen(y, 4, '-', a);
    FieldThen(mo, 2, '-', b);
    FieldThen(d, 2, 'T', c);
    FieldThen(h, 2, ':', e);
    FieldThen(mi, 2, ':', f);
    FieldScans(s, 2, tail);
  }

  lemma ScannedIsSpelled(text: string)
    returns (y: Field, mo: Field, d: Field, h: Field, mi: Field, s: Field, tail: string)
    requires ScanAll(text).Some?
    ensures Spells(text, y, mo, d, h, mi, s, tail)
    ensures ScanAll(text) == Some(Scanned(y.Value(), mo.Value(), d.Value(), h.Value(), mi.Value(), s.Value()))
  {
    hide ScanThen, ScanInt, Field.Written, Field.Value, Field.Fits;
    y := ScannedThen(text, 4, '-');
    var a := ScanThen(text, 4, '-').value.1;
    mo := ScannedThen(a, 2, '-');
    var b := ScanThen(a, 2, '-').value.1;
    d := ScannedThen(b, 2, 'T');
    var c := ScanThen(b, 2, 'T').value.1;
    h := ScannedThen(c, 2, ':');
    var e := ScanThen(c, 2, ':').value.1;
    mi := ScannedThen(e, 2, ':');
    var f := ScanThen(e, 2, ':').value.1;
    s := ScannedField(f, 2);
    tail := ScanInt(f, 2).value.1;
  }

  /**
   Exactly the texts that are read, and to what: signs, leading space, fewer digits and whatever follows are taken.
   */
  lemma ReadIff(text: string, stamp: Stamp)
    ensures Parse(text) == Some(stamp) <==>
              exists y, mo, d, h, mi, s, tail ::
                && Spells(text, y, mo, d, h, mi, s, tail)
                && Checked(Scanned(y.Value(), mo.Value(), d.Value(), h.Value(), mi.Value(), s.Value())) == Some(stamp)
  {
    hide ScanAll, Checked, Field.Value;
    if Parse(text) == Some(stamp) {
      var y, mo, d, h, mi, s, tail := ScannedIsSpelled(text);
      assert Spells(text, y, mo, d, h, mi, s, tail);
    }
    if y, mo, d, h, mi, s, tail :|
      && Spells(text, y, mo, d, h, mi, s, tail)
      && Checked(Scanned(y.Value(), mo.Value(), d.Value(), h.Value(), mi.Value(), s.Value())) == Some(stamp)
    {
      SpelledIsScanned(text, y, mo, d, h, mi, s, tail);
    }
  }

  /** A sign is read as part of the year: a negative year of three digits is checked and stored modulo powers of two. */
  lemma NegativeYear(k: nat, mo: nat, d: nat, h: nat, mi: nat, s: nat)
    requires 1 <= k < 1000 && mo < 100 && d < 100 && h < 100 && mi < 100 && s < 100
    ensures var text := "-" + ([Digit(k / 100)] + Two(k % 100)) + ("-" + Rest(mo, d, h, mi, s));
            Parse(text) == if G.CheckDate(0x1_0000_0000 - k, mo, d) && G.CheckTime(h, mi, s)
                           then Some(Stamp(0x1_0000 - k, mo, d, h, mi, s)) else None
  {
    hide ScanThen, ScanInt, ScanAll, Rest, Two;
    ScanNegative(k, Rest(mo, d, h, mi, s));
    ScanRest("-" + ([Digit(k / 100)] + Two(k % 100)) + ("-" + Rest(mo, d, h, mi, s)), 0x1_0000_0000 - k,
             mo, d, h, mi, s);
  }

  lemma ScanNegative(k: nat, rest: string)
    requires 1 <= k < 1000
    ensures ScanThen("-" + ([Digit(k / 100)] + Two(k % 100)) + ("-" + rest), 4, '-') == Some((0x1_0000_0000 - k, rest))
  {
    hide Number, Run;
    var three := [Digit(k / 100)] + Two(k % 100);
    assert |three| == 3 && forall i | 0 <= i < 3 :: IsDigit(three[i]);
    hide Two, Digit;
    var text := "-" + three + ("-" + rest);
    var u := text[1..];
    assert u == three + ("-" + rest);
    RunThree(u);
    assert u[..3] == three && u[3..] == "-" + rest;
    NumberThree(k);
  }

  lemma RunThree(u: string)
    requires |u| >= 3 && IsDigit(u[0]) && IsDigit(u[1]) && IsDigit(u[2])
    ensures Run(u, 3) == 3
  {
    var a, b := u[1..], u[2..];
    assert a[1..] == b;
    assert Run(b, 1) == 1;
    assert Run(a, 2) == 2;
  }

  lemma NumberThree(k: nat)
    requires k < 1000
    ensures Number([Digit(k / 100)] + Two(k % 100)) == k
  {
    var s, lo := [Digit(k / 100)] + Two(k % 100), k % 100;
    assert s[..2][..1] == [Digit(k / 100)];
    assert Number([Digit(k / 100)]) == k / 100 by { assert [Digit(k / 100)][..0] == ""; }
    assert Number(s[..2]) == 10 * (k / 100) + lo / 10;
  }

  // ---------- the conversions ----------

  class DateTime {
    var year: int
    var month: int
    var day: int
    var hour: int
    var min: int
    var sec: int

    ghost function View(): Stamp
      reads this
    {
      Stamp(year, month, day, hour, min, sec)
    }

    constructor ()
      ensures View() == Stamp(1970, 1, 1, 0, 0, 0)
    {
      year, month, day, hour, min, sec := 1970, 1, 1, 0, 0, 0;
    }

    method SetDateTime(y: Word, mo: Word, d: Word, h: Word, mi: Word, s: Word) returns (status: Status)
      modifies this
      ensures match Checked(Scanned(y, mo, d, h, mi, s))
              case Some(stamp) => status == Ok && View() == stamp
              case None => status == BadValue && View() == old(View())
    {
      if !G.CheckDate(y, mo, d) || !G.CheckTime(h, mi, s) { return BadValue; }
      year, month, day := y % 0x1_0000, mo, d;
      hour, min, sec := h, mi, s;
      status := Ok;
    }
  }

  method ConvertDatetimeIntoIso8601Format(d: DateTime) returns (date: string)
    requires d.View().Fits()
    ensures date == Text(d.View())
  {
    date := Padded(d.year, 4) + "-" + Padded(d.month, 2) + "-" + Padded(d.day, 2);
    date := date + "T" + Padded(d.hour, 2) + ":" + Padded(d.min, 2) + ":" + Padded(d.sec, 2);
  }

  method ConvertIso8601FormatIntoDatetime(date: string, dt: DateTime) returns (status: Status)
    modifies dt
    ensures match Parse(date)
            case Some(stamp) => status == Ok && dt.View() == stamp
            case None => status == BadValue && dt.View() == old(dt.View())
  {
    hide ScanAll;
    var scanned := ScanAll(date);
    if scanned.None? { return BadValue; }
    var v := scanned.value;
    status := dt.SetDateTime(v.y, v.mo, v.d, v.h, v.mi, v.s);
  }
}
