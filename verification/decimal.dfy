/** Decimal rendering of unsigned integers, as `format!("{}", n)` writes a `usize`, and the
    parsing a reader of the `Content-Length` header applies to it. */
module Decimal {
  import opened Wrappers

  predicate IsDigit(c: char) { '0' <= c <= '9' }

  predicate AllDigits(s: string) {
    forall i :: 0 <= i < |s| ==> IsDigit(s[i])
  }

  /** The form `{}` gives a number: at least one digit and no leading zero. */
  predicate IsCanonical(s: string) {
    |s| >= 1 && AllDigits(s) && (|s| > 1 ==> s[0] != '0')
  }

  function DigitChar(d: nat): (c: char)
    requires d < 10
    ensures IsDigit(c) && c as int - '0' as int == d
  {
    ('0' as int + d) as char
  }

  function DigitValue(c: char): (d: nat)
    requires IsDigit(c)
    ensures d < 10 && DigitChar(d) == c
  {
    c as int - '0' as int
  }

  /** The decimal digits of `n`, most significant first. */
  function Render(n: nat): (s: string)
    ensures IsCanonical(s)
    decreases n
  {
    if n < 10 then [DigitChar(n)]
    else
      var s := Render(n / 10) + [DigitChar(n % 10)];
      assert s[0] == Render(n / 10)[0];
      s
  }

  /** The value of a string of digits, most significant first. */
  function Value(s: string): nat
    requires AllDigits(s)
    decreases |s|
  {
    if s == [] then 0 else Value(s[..|s| - 1]) * 10 + DigitValue(s[|s| - 1])
  }

  /** Reading a number back: any non-empty run of digits, nothing else. */
  function Parse(s: string): (r: Option<nat>)
    ensures r.Some? <==> |s| >= 1 && AllDigits(s)
  {
    if |s| >= 1 && AllDigits(s) then Some(Value(s)) else None
  }

  lemma {:induction false} ValueRender(n: nat)
    ensures Value(Render(n)) == n
    decreases n
  {
    if n >= 10 {
      var s := Render(n);
      assert s[..|s| - 1] == Render(n / 10);
      ValueRender(n / 10);
    }
  }

  /** Parsing what `Render` writes gives back the number. */
  lemma ParseRender(n: nat)
    ensures Parse(Render(n)) == Some(n)
  {
    ValueRender(n);
  }

  /** A digit string with a non-zero first digit has a positive value. */
  lemma {:induction false} ValuePositive(s: string)
    requires |s| >= 1 && AllDigits(s) && s[0] != '0'
    ensures Value(s) >= 1
    decreases |s|
  {
    if |s| > 1 {
      ValuePositive(s[..|s| - 1]);
    }
  }

  /** Rendering the value of a canonical digit string gives back that string, so `Render`
      and `Parse` are inverse on canonical strings. */
  lemma {:induction false} RenderValue(s: string)
    requires IsCanonical(s)
    ensures Render(Value(s)) == s
    decreases |s|
  {
    var t := s[..|s| - 1];
    var d := DigitValue(s[|s| - 1]);
    if |s| == 1 {
      assert s == [DigitChar(d)];
    } else {
      ValuePositive(t);
      RenderValue(t);
      var n := Value(s);
      assert n == Value(t) * 10 + d;
      assert n / 10 == Value(t) && n % 10 == d;
      assert s == t + [s[|s| - 1]];
    }
  }

  /** Parsing is injective on the rendered form: `Render(n)` is the only canonical string
      that parses to `n`. */
  lemma RenderParse(s: string)
    requires IsCanonical(s)
    ensures Parse(s).Some? && Render(Parse(s).value) == s
  {
    RenderValue(s);
  }
}
