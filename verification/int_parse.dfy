/** `std::stoi` as used on the answer column of the question file
    (main.cpp:57): base 10, leading white space skipped, an optional sign,
    at least one digit, trailing characters ignored. A missing number and a
    value outside the 32-bit `int` range both throw, and the loader catches
    either, so both are `None` here. */
module IntParse {
  import opened Optional

  const IntMin: int := -0x8000_0000
  const IntMax: int := 0x7FFF_FFFF

  /** `isspace` in the C locale: space, tab, newline, vertical tab, form feed
      and carriage return. */
  predicate IsSpace(ch: char) {
    ch == ' ' || 9 <= ch as int <= 13
  }

  predicate IsDigit(ch: char) {
    '0' <= ch <= '9'
  }

  predicate AllDigits(s: string) {
    forall i :: 0 <= i < |s| ==> IsDigit(s[i])
  }

  function DigitValue(ch: char): nat
    requires IsDigit(ch)
  {
    ch as int - '0' as int
  }

  function DigitChar(d: nat): (ch: char)
    requires d < 10
    ensures IsDigit(ch) && DigitValue(ch) == d
  {
    ('0' as int + d) as char
  }

  /** Length of the leading run of white space. */
  function SpaceRun(s: string): (n: nat)
    ensures n <= |s|
    ensures forall i :: 0 <= i < n ==> IsSpace(s[i])
    ensures n < |s| ==> !IsSpace(s[n])
  {
    if |s| > 0 && IsSpace(s[0]) then 1 + SpaceRun(s[1..]) else 0
  }

  /** Length of the leading run of decimal digits. */
  function DigitRun(s: string): (n: nat)
    ensures n <= |s|
    ensures AllDigits(s[..n])
    ensures n < |s| ==> !IsDigit(s[n])
  {
    if |s| > 0 && IsDigit(s[0]) then 1 + DigitRun(s[1..]) else 0
  }

  /** The number a string of decimal digits denotes. */
  function Value(ds: string): nat
    requires AllDigits(ds)
  {
    if |ds| == 0 then 0 else Value(ds[..|ds| - 1]) * 10 + DigitValue(ds[|ds| - 1])
  }

  /** The number spelled by the leading digits, if there is at least one. */
  function LeadingNumber(s: string): (r: Option<nat>)
    ensures r.None? <==> |s| == 0 || !IsDigit(s[0])
  {
    var n := DigitRun(s);
    if n == 0 then None else Some(Value(s[..n]))
  }

  /** The conversion after the white space: optional sign, then digits. */
  function SignedNumber(s: string): (r: Option<int>)
  {
    if |s| > 0 && s[0] == '-' then
      match LeadingNumber(s[1..])
      case None => None
      case Some(m) => Some(-(m as int))
    else if |s| > 0 && s[0] == '+' then LeadingNumber(s[1..])
    else LeadingNumber(s)
  }

  /** The conversion; `None` stands for either exception. */
  function Stoi(s: string): (r: Option<int>)
    ensures r.Some? ==> IntMin <= r.value <= IntMax
    ensures (forall i :: 0 <= i < |s| ==> !IsDigit(s[i])) ==> r.None?
  {
    match SignedNumber(s[SpaceRun(s)..])
    case None => None
    case Some(v) => if IntMin <= v <= IntMax then Some(v) else None
  }

  /** Decimal digits of a natural number, most significant first. */
  function Digits(n: nat): (ds: string)
    ensures |ds| > 0 && AllDigits(ds)
  {
    if n < 10 then [DigitChar(n)] else Digits(n / 10) + [DigitChar(n % 10)]
  }

  /** The usual decimal text of an integer, as `std::to_string` writes it. */
  function Show(n: int): (s: string)
    ensures |s| > 0 && s[|s| - 1] != ','
  {
    if n < 0 then "-" + Digits(-n) else Digits(n)
  }

  lemma {:induction false} ValueOfDigits(n: nat)
    ensures Value(Digits(n)) == n
  {
    if n >= 10 {
      var ds := Digits(n);
      assert ds[..|ds| - 1] == Digits(n / 10);
      ValueOfDigits(n / 10);
    }
  }

  lemma {:induction false} DigitRunStopsAtNonDigit(ds: string, tail: string)
    requires AllDigits(ds)
    requires |tail| == 0 || !IsDigit(tail[0])
    ensures DigitRun(ds + tail) == |ds|
  {
    if |ds| > 0 {
      assert (ds + tail)[1..] == ds[1..] + tail;
      DigitRunStopsAtNonDigit(ds[1..], tail);
    } else {
      assert ds + tail == tail;
    }
  }

  lemma {:induction false} SpaceRunStopsAtNonSpace(pad: string, s: string)
    requires forall i :: 0 <= i < |pad| ==> IsSpace(pad[i])
    requires |s| == 0 || !IsSpace(s[0])
    ensures SpaceRun(pad + s) == |pad|
  {
    if |pad| > 0 {
      assert (pad + s)[1..] == pad[1..] + s;
      SpaceRunStopsAtNonSpace(pad[1..], s);
    } else {
      assert pad + s == s;
    }
  }

  predicate AllSpaces(s: string) {
    forall i :: 0 <= i < |s| ==> IsSpace(s[i])
  }

  /** The sign `strtol` accepts before the digits. */
  datatype Sign = NoSign | Plus | Minus

  function SignText(sg: Sign): string {
    match sg
    case NoSign => ""
    case Plus => "+"
    case Minus => "-"
  }

  /** Text that may follow the digits: empty or starting with a non-digit. */
  predicate EndsNumber(tail: string) {
    |tail| == 0 || !IsDigit(tail[0])
  }

  function Signed(sg: Sign, m: nat): int {
    if sg == Minus then -(m as int) else m
  }

  lemma {:induction false} LeadingNumberOf(ds: string, tail: string)
    requires |ds| > 0 && AllDigits(ds) && EndsNumber(tail)
    ensures LeadingNumber(ds + tail) == Some(Value(ds))
  {
    DigitRunStopsAtNonDigit(ds, tail);
    assert (ds + tail)[..|ds|] == ds;
  }

  lemma {:induction false} SignedNumberUnsigned(x: string, m: nat)
    requires LeadingNumber(x) == Some(m)
    ensures SignedNumber(x) == Some(m)
  {
    assert IsDigit(x[0]);
  }

  lemma {:induction false} SignedNumberPlus(x: string, m: nat)
    requires LeadingNumber(x) == Some(m)
    ensures SignedNumber("+" + x) == Some(m)
  {
    var body := "+" + x;
    assert body[0] == '+' && body[1..] == x;
  }

  lemma {:induction false} SignedNumberMinus(x: string, m: nat)
    requires LeadingNumber(x) == Some(m)
    ensures SignedNumber("-" + x) == Some(-(m as int))
  {
    var body := "-" + x;
    assert body[0] == '-' && body[1..] == x;
  }

  lemma {:induction false} SignedNumberReads(sg: Sign, ds: string, tail: string)
    requires |ds| > 0 && AllDigits(ds) && EndsNumber(tail)
    ensures SignedNumber(SignText(sg) + (ds + tail)) == Some(Signed(sg, Value(ds)))
  {
    LeadingNumberOf(ds, tail);
    var m := Value(ds);
    match sg
    case NoSign =>
      assert SignText(sg) + (ds + tail) == ds + tail;
      SignedNumberUnsigned(ds + tail, m);
    case Plus =>
      SignedNumberPlus(ds + tail, m);
    case Minus =>
      SignedNumberMinus(ds + tail, m);
  }

  /** Every text `stoi` reads: white space, an optional sign, at least one
      digit, then anything not starting with a digit. The value is the
      signed number the digits spell, when it fits in an `int`. */
  lemma {:induction false} StoiReads(pad: string, sg: Sign, ds: string, tail: string)
    requires AllSpaces(pad) && |ds| > 0 && AllDigits(ds) && EndsNumber(tail)
    ensures Stoi(pad + (SignText(sg) + (ds + tail)))
      == (var v := Signed(sg, Value(ds)); if IntMin <= v <= IntMax then Some(v) else None)
  {
    var body := SignText(sg) + (ds + tail);
    assert !IsSpace(body[0]) by {
      if sg == NoSign {
        assert body[0] == ds[0];
      } else {
        assert body[0] == SignText(sg)[0];
      }
    }
    SpaceRunStopsAtNonSpace(pad, body);
    assert (pad + body)[|pad|..] == body;
    SignedNumberReads(sg, ds, tail);
  }

  /** Cuts a text with a leading number into its digits and the rest. */
  lemma {:induction false} SplitLeading(body: string) returns (ds: string, tail: string)
    requires LeadingNumber(body).Some?
    ensures body == ds + tail
    ensures |ds| > 0 && AllDigits(ds) && EndsNumber(tail)
  {
    var k := DigitRun(body);
    ds := body[..k];
    tail := body[k..];
    assert body == ds + tail;
  }

  /** Cuts a signed number into its sign, digits and the rest. */
  lemma {:induction false} SplitSigned(rest: string) returns (sg: Sign, ds: string, tail: string)
    requires SignedNumber(rest).Some?
    ensures rest == SignText(sg) + (ds + tail)
    ensures |ds| > 0 && AllDigits(ds) && EndsNumber(tail)
  {
    if |rest| > 0 && rest[0] == '-' {
      sg := Minus;
      assert LeadingNumber(rest[1..]).Some?;
      ds, tail := SplitLeading(rest[1..]);
      assert rest == "-" + rest[1..];
    } else if |rest| > 0 && rest[0] == '+' {
      sg := Plus;
      ds, tail := SplitLeading(rest[1..]);
      assert rest == "+" + rest[1..];
    } else {
      sg := NoSign;
      ds, tail := SplitLeading(rest);
      assert rest == "" + rest;
    }
  }

  /** Cuts a text `stoi` accepts into white space, sign, digits and tail. */
  lemma {:induction false} SplitNumber(s: string) returns (pad: string, sg: Sign, ds: string, tail: string)
    requires Stoi(s).Some?
    ensures s == pad + (SignText(sg) + (ds + tail))
    ensures AllSpaces(pad) && |ds| > 0 && AllDigits(ds) && EndsNumber(tail)
  {
    var n := SpaceRun(s);
    pad := s[..n];
    assert SignedNumber(s[n..]).Some?;
    sg, ds, tail := SplitSigned(s[n..]);
    assert s == pad + s[n..];
  }

  /** Only such texts are read: whenever `stoi` gives a value, the text is
      white space, an optional sign, digits and a tail not starting with a
      digit, and the value is the one the sign and digits spell. So a text
      whose first non-blank character is neither a sign nor a digit, or
      whose sign is not followed by a digit, is rejected. */
  lemma {:induction false} StoiAccepts(s: string)
    requires Stoi(s).Some?
    ensures exists pad, sg, ds, tail ::
      && s == pad + (SignText(sg) + (ds + tail))
      && AllSpaces(pad) && |ds| > 0 && AllDigits(ds) && EndsNumber(tail)
      && Stoi(s).value == Signed(sg, Value(ds))
  {
    var pad, sg, ds, tail := SplitNumber(s);
    StoiReads(pad, sg, ds, tail);
    assert Stoi(s).value == Signed(sg, Value(ds));
  }

  /** A written number is its sign followed by its digits. */
  lemma {:induction false} ShowSigned(n: int) returns (sg: Sign, m: nat)
    ensures Show(n) == SignText(sg) + Digits(m)
    ensures Signed(sg, Value(Digits(m))) == n
  {
    m := if n < 0 then -n else n;
    sg := if n < 0 then Minus else NoSign;
    ValueOfDigits(m);
    if n >= 0 {
      assert Show(n) == "" + Digits(m);
    }
  }

  /** Reading back a written number: leading white space and any trailing
      text that does not start with a digit are ignored, and the number is
      recovered exactly when it fits in an `int`. */
  lemma {:induction false} StoiShow(pad: string, n: int, tail: string)
    requires AllSpaces(pad)
    requires EndsNumber(tail)
    ensures Stoi(pad + Show(n) + tail) == if IntMin <= n <= IntMax then Some(n) else None
  {
    var sg, m := ShowSigned(n);
    var ds := Digits(m);
    assert pad + Show(n) + tail == pad + (SignText(sg) + (ds + tail));
    StoiReads(pad, sg, ds, tail);
  }
}
