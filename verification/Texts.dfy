/** Text helpers shared by the component models: ASCII white space, as strip() removes it, and decimals. */
module Texts {
  predicate IsSpace(c: char) {
    c == ' ' || c == '\t' || c == '\n' || c == '\r' || c as int == 11 || c as int == 12
  }

  predicate IsBlank(text: string) {
    forall c <- text :: IsSpace(c)
  }

  function Strip(text: string): string {
    if text != "" && IsSpace(text[0]) then Strip(text[1..])
    else if text != "" && IsSpace(text[|text| - 1]) then Strip(text[..|text| - 1])
    else text
  }

  /** Only white space at both ends goes, and all of it. */
  lemma {:induction false} StripExactly(text: string) returns (front: string, back: string)
    ensures text == front + Strip(text) + back && IsBlank(front) && IsBlank(back)
    ensures Strip(text) != "" ==> !IsSpace(Strip(text)[0]) && !IsSpace(Strip(text)[|Strip(text)| - 1])
    ensures IsBlank(text) <==> Strip(text) == ""
    decreases |text|
  {
    if text != "" && IsSpace(text[0]) {
      front, back := StripExactly(text[1..]);
      front := [text[0]] + front;
    } else if text != "" && IsSpace(text[|text| - 1]) {
      front, back := StripExactly(text[..|text| - 1]);
      back := back + [text[|text| - 1]];
    } else {
      front, back := "", "";
    }
  }

  /** The pieces, separated by commas. */
  function Join(pieces: seq<string>): string {
    if pieces == [] then ""
    else if |pieces| == 1 then pieces[0]
    else Join(pieces[..|pieces| - 1]) + "," + pieces[|pieces| - 1]
  }

  function Digit(n: nat): char
    requires n < 10
  {
    "0123456789"[n]
  }

  function Decimal(n: nat): string {
    if n < 10 then [Digit(n)] else Decimal(n / 10) + [Digit(n % 10)]
  }

  lemma {:induction false} DecimalIsInjective(m: nat, n: nat)
    requires Decimal(m) == Decimal(n)
    ensures m == n
  {
    var a, b := Decimal(m), Decimal(n);
    assert Digit(m % 10) == a[|a| - 1] == b[|b| - 1] == Digit(n % 10);
    if m >= 10 && n >= 10 {
      assert Decimal(m / 10) == a[..|a| - 1] == b[..|b| - 1] == Decimal(n / 10);
      DecimalIsInjective(m / 10, n / 10);
    }
  }
}
