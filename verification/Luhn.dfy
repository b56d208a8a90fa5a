/** The checksum of bank card numbers (Annex B of ISO/IEC 7812-1) and what it detects. */
module Luhn {
  import opened Identity
  import opened Models

  type Figure = d: int | 0 <= d <= 9

  /** A doubled digit, cut back to one digit. */
  function Doubled(d: Figure): Figure { if 2 * d > 9 then 2 * d - 9 else 2 * d }

  function Term(d: Figure, doubled: bool): Figure { if doubled then Doubled(d) else d }

  /** Every second digit from the right is doubled, not counting the last. */
  function Total(ds: seq<Figure>): nat {
    if ds == [] then 0 else Term(ds[0], |ds| % 2 == 0) + Total(ds[1..])
  }

  predicate Valid(ds: seq<Figure>) { Total(ds) % 10 == 0 }

  /** The loop over the digits, the same in all four functions of the two services. */
  method SumDigits(ds: seq<Figure>) returns (total: nat)
    ensures total == Total(ds)
  {
    total := 0;
    var parity := |ds| % 2;
    for i := 0 to |ds|
      invariant total + Total(ds[i..]) == Total(ds)
    {
      var d: int := ds[i];
      assert ds[i..][1..] == ds[i + 1..];
      if i % 2 == parity {
        d := d * 2;
        if d > 9 {
          d := d - 9;
        }
      }
      total := total + d;
    }
  }

  function FigureOf(c: char): Figure
    requires IsDigit(c)
  {
    (c - '0') as int
  }

  predicate AllDigits(s: string) { forall k :: 0 <= k < |s| ==> IsDigit(s[k]) }

  function Figures(s: string): (r: seq<Figure>)
    requires AllDigits(s)
    ensures |r| == |s|
  {
    seq(|s|, k requires 0 <= k < |s| => FigureOf(s[k]))
  }

  /** Any character that `str.isdigit` accepts may come in; `valueOf` is what `int` makes of it,
      None where it raises (a superscript is a digit without a decimal value). */
  predicate AllValued(s: string, valueOf: char -> Option<Figure>) {
    forall k :: 0 <= k < |s| ==> valueOf(s[k]).Some?
  }

  function Values(s: string, valueOf: char -> Option<Figure>): (r: seq<Figure>)
    requires AllValued(s, valueOf)
    ensures |r| == |s|
  {
    seq(|s|, k requires 0 <= k < |s| => valueOf(s[k]).value)
  }

  /** None is the exception. */
  method LuhnValid(s: string, isDigit: char -> bool, valueOf: char -> Option<Figure>) returns (valid: Option<bool>)
    ensures (s == "" || exists k :: 0 <= k < |s| && !isDigit(s[k])) ==> valid == Some(false)
    ensures s != "" && (forall k :: 0 <= k < |s| ==> isDigit(s[k])) ==>
              valid == if AllValued(s, valueOf) then Some(Valid(Values(s, valueOf))) else None
  {
    if s == "" || exists k :: 0 <= k < |s| && !isDigit(s[k]) {
      return Some(false);
    }
    if !AllValued(s, valueOf) {
      return None;
    }
    var total := SumDigits(Values(s, valueOf));
    valid := Some(total % 10 == 0);
  }

  function DigitsIn(s: string): (r: string)
    ensures AllDigits(r)
  {
    if s == "" then ""
    else DigitsIn(s[..|s| - 1]) + (if IsDigit(s[|s| - 1]) then [s[|s| - 1]] else "")
  }

  /** The Go service skips separators and insists on the length of a card number. */
  method GoLuhnValid(s: string) returns (valid: bool)
    ensures valid <==> 13 <= |DigitsIn(s)| <= 19 && Valid(Figures(DigitsIn(s)))
  {
    var digits := "";
    for i := 0 to |s|
      invariant AllDigits(digits) && digits == DigitsIn(s[..i])
    {
      assert s[..i + 1][..i] == s[..i];
      if IsDigit(s[i]) {
        digits := digits + [s[i]];
      }
    }
    assert s[..|s|] == s;
    if |digits| < 13 || |digits| > 19 {
      return false;
    }
    var sum := SumDigits(Figures(digits));
    valid := sum % 10 == 0;
  }

  // The check digit.

  method CheckDigit(prefix: seq<Figure>) returns (c: Figure)
    ensures forall d: Figure :: Valid(prefix + [d]) <==> d == c
  {
    var total: int := SumDigits(prefix + [0]);
    c := (-total) % 10;
    OneCheckDigit(prefix, c);
  }

  method GoCheckDigit(prefix: seq<Figure>) returns (c: Figure)
    ensures forall d: Figure :: Valid(prefix + [d]) <==> d == c
  {
    var sum := SumDigits(prefix + [0]);
    c := (10 - sum % 10) % 10;
    OneCheckDigit(prefix, c);
  }

  /** The last digit is not doubled: it adds itself to the total. */
  lemma {:induction false} TotalOfLast(prefix: seq<Figure>, d: Figure)
    ensures Total(prefix + [d]) == Total(prefix + [0]) + d
  {
    if prefix == [] {
      assert [d][1..] == [] && [0][1..] == [];
    } else {
      assert (prefix + [d])[1..] == prefix[1..] + [d];
      assert (prefix + [0])[1..] == prefix[1..] + [0];
      TotalOfLast(prefix[1..], d);
    }
  }

  /** Exactly one digit makes a number of any length valid. */
  lemma {:induction false} OneCheckDigit(prefix: seq<Figure>, c: Figure)
    requires (Total(prefix + [0]) + c) % 10 == 0
    ensures forall d: Figure :: Valid(prefix + [d]) <==> d == c
  {
    forall d: Figure ensures Valid(prefix + [d]) <==> d == c {
      TotalOfLast(prefix, d);
      TotalOfLast(prefix, c);
    }
  }

  // What a change does to the total.

  lemma {:induction false} TotalAfterChange(ds: seq<Figure>, i: nat, x: Figure)
    requires i < |ds|
    ensures var doubled := (|ds| - i) % 2 == 0;
            Total(ds[i := x]) - Term(x, doubled) == Total(ds) - Term(ds[i], doubled)
  {
    if i > 0 {
      assert ds[i := x][1..] == ds[1..][i - 1 := x];
      TotalAfterChange(ds[1..], i - 1, x);
    } else {
      assert ds[0 := x][1..] == ds[1..];
    }
  }

  /** Any change of a single digit breaks validity, at any length. */
  lemma {:induction false} SingleChangeDetected(ds: seq<Figure>, i: nat, x: Figure)
    requires Valid(ds) && i < |ds| && x != ds[i]
    ensures !Valid(ds[i := x])
  {
    hide Total;
    TotalAfterChange(ds, i, x);
  }

  /** Swapping two neighbours breaks validity except for equal digits and for 0 with 9. */
  lemma {:induction false} SwapDetected(ds: seq<Figure>, i: nat)
    requires Valid(ds) && i + 1 < |ds|
    ensures var a, b := ds[i], ds[i + 1];
            Valid(ds[i := b][i + 1 := a]) <==> a == b || {a, b} == {0, 9}
  {
    hide Total;
    var a, b := ds[i], ds[i + 1];
    TotalAfterChange(ds, i, b);
    TotalAfterChange(ds[i := b], i + 1, a);
    var p := (|ds| - i) % 2 == 0;
    SwapOfTwo(a, b);
    Shifted(Total(ds), Term(b, p) + Term(a, !p) - Term(a, p) - Term(b, !p));
  }

  lemma {:induction false} Shifted(total: int, delta: int)
    requires total % 10 == 0
    ensures (total + delta) % 10 == 0 <==> delta % 10 == 0
  {
  }

  lemma {:induction false} SwapOfTwo(a: Figure, b: Figure)
    ensures forall p :: (Term(b, p) + Term(a, !p) - Term(a, p) - Term(b, !p)) % 10 == 0 <==> a == b || {a, b} == {0, 9}
  {
    assert 0 in {a, b} && 9 in {a, b} ==> {a, b} == {0, 9};
    assert {a, b} == {0, 9} ==> 0 in {a, b} && 9 in {a, b};
  }
}
