/** The amounts of a split: what the editor accepts, what is saved, and what is staged from it.
    Amounts are exact reals; the program's binary floating point is not modelled. */
module SplitAmounts {
  import opened Sequences

  /** A line of the editor: the entered amount (0 if it is no number) and whether it has a category. */
  datatype Line = Line(amount: real, categorized: bool)

  function Abs(x: real): real { if x < 0.0 then -x else x }

  /** `Math.round`: halves go up. */
  function Round(x: real): int { (x + 0.5).Floor }

  function Sum(lines: seq<Line>): real {
    if lines == [] then 0.0 else Sum(lines[..|lines| - 1]) + lines[|lines| - 1].amount
  }

  /** The editor's acceptance test; `validTax` is its verdict on the tax codes. */
  predicate Valid(total: real, lines: seq<Line>, validTax: bool) {
    && Abs(total - Sum(lines)) < 0.005
    && (forall i :: 0 <= i < |lines| ==> lines[i].categorized && lines[i].amount > 0.0)
    && validTax
  }

  /** What is accepted: a remainder of less than half a cent either way, and only lines with a category
      and a positive amount; so every saved line is its amount to within half a cent, and not negative. */
  lemma AcceptedMeans(total: real, lines: seq<Line>, validTax: bool)
    ensures Valid(total, lines, validTax) <==>
              && total - 0.005 < Sum(lines) < total + 0.005 && validTax
              && forall l :: l in lines ==> l.categorized && l.amount > 0.0
    ensures Valid(total, lines, validTax) ==>
              forall l :: l in lines ==> Cents(l) >= 0 && -0.5 <= Cents(l) as real - l.amount * 100.0 <= 0.5
  {
    if Valid(total, lines, validTax) {
      forall l | l in lines ensures Cents(l) >= 0 && -0.5 <= Cents(l) as real - l.amount * 100.0 <= 0.5 {
        var x := l.amount * 100.0;
        assert x > 0.0;
      }
    }
  }

  /** The cents `saveSplit` keeps of an amount. */
  function Cents(l: Line): int { Round(l.amount * 100.0) }

  function SavedCents(lines: seq<Line>): int {
    if lines == [] then 0 else SavedCents(lines[..|lines| - 1]) + Cents(lines[|lines| - 1])
  }

  lemma {:induction false} RoundingDrift(lines: seq<Line>)
    ensures Abs(SavedCents(lines) as real - Sum(lines) * 100.0) <= |lines| as real / 2.0
  {
    if lines != [] {
      RoundingDrift(lines[..|lines| - 1]);
    }
  }

  /** Over any number of accepted lines the saved cents miss the total by less than (n + 1) / 2. */
  lemma SavedIsClose(total: real, lines: seq<Line>, validTax: bool)
    requires Valid(total, lines, validTax)
    ensures Abs(SavedCents(lines) as real - total * 100.0) < (|lines| + 1) as real / 2.0
  {
    RoundingDrift(lines);
  }

  predicate WholeCents(x: real) { (x * 100.0).Floor as real == x * 100.0 }

  lemma WholeCentsRound(x: real)
    requires WholeCents(x)
    ensures Round(x * 100.0) as real == x * 100.0
  {
    var k := (x * 100.0).Floor;
    assert (k as real + 0.5).Floor == k;
  }

  lemma {:induction false} WholeCentsAddUp(lines: seq<Line>)
    requires forall i :: 0 <= i < |lines| ==> WholeCents(lines[i].amount)
    ensures SavedCents(lines) as real == Sum(lines) * 100.0
  {
    if lines != [] {
      WholeCentsAddUp(lines[..|lines| - 1]);
      WholeCentsRound(lines[|lines| - 1].amount);
      hide WholeCents, Round;
    }
  }

  /** With a total and amounts in whole cents nothing is missed. */
  lemma SavedIsExact(total: real, lines: seq<Line>, validTax: bool)
    requires Valid(total, lines, validTax)
    requires WholeCents(total) && forall i :: 0 <= i < |lines| ==> WholeCents(lines[i].amount)
    ensures SavedCents(lines) as real == total * 100.0
  {
    WholeCentsAddUp(lines);
    var difference := SavedCents(lines) - (total * 100.0).Floor;
    assert Abs(difference as real) < 0.5;
  }

  function HalfCents(n: nat): seq<Line> { seq(n, _ => Line(0.005, true)) }

  lemma {:induction false} HalfCentsRoundUp(n: nat)
    ensures SavedCents(HalfCents(n)) == n && Sum(HalfCents(n)) == n as real * 0.005
  {
    if n > 0 {
      assert HalfCents(n)[..n - 1] == HalfCents(n - 1);
      HalfCentsRoundUp(n - 1);
    }
  }

  /** The bound cannot be lowered: for every number of lines some accepted split comes as close to it
      as one likes. */
  lemma BoundIsSharp(n: nat, margin: real) returns (total: real, lines: seq<Line>)
    requires n > 0 && 0.0 < margin <= 0.5
    ensures |lines| == n && Valid(total, lines, true)
    ensures Abs(SavedCents(lines) as real - total * 100.0) >= (n + 1) as real / 2.0 - margin
  {
    lines := HalfCents(n);
    HalfCentsRoundUp(n);
    total := n as real * 0.005 - 0.005 + margin / 100.0;
  }

  /** A total in whole cents is missed by at most half as many cents as there are lines, */
  lemma WholeTotalIsClose(total: real, lines: seq<Line>, validTax: bool)
    requires Valid(total, lines, validTax) && WholeCents(total)
    ensures -(|lines| / 2) <= SavedCents(lines) - (total * 100.0).Floor <= |lines| / 2
  {
    SavedIsClose(total, lines, validTax);
    var missed := SavedCents(lines) - (total * 100.0).Floor;
    assert Abs((2 * missed) as real) < (|lines| + 1) as real;
  }

  /** and by as many for some accepted split of any number of lines. */
  lemma WholeTotalBoundIsReached(n: nat) returns (total: real, lines: seq<Line>)
    ensures |lines| == n && Valid(total, lines, true) && WholeCents(total)
    ensures SavedCents(lines) - (total * 100.0).Floor == n / 2
  {
    var h := n / 2;
    HalfCentsRoundUp(2 * h);
    lines := HalfCents(2 * h);
    if n % 2 == 1 {
      lines := lines + [Line(0.01, true)];
      assert lines[..2 * h] == HalfCents(2 * h);
      OneCentLine();
    }
    total := InDollars(n - h);
    hide Cents, HalfCents, Round;
  }

  lemma OneCentLine()
    ensures Cents(Line(0.01, true)) == 1
  {
    assert Round(1.0) == 1;
  }

  lemma InDollars(cents: int) returns (x: real)
    ensures x == cents as real / 100.0 && x * 100.0 == cents as real && WholeCents(x)
  {
    x := cents as real / 100.0;
  }

  // ---------------------------------------------------------------- from saved to staged

  /** A saved amount: whole cents with the sign of the transaction. */
  function SavedAmount(l: Line, negative: bool): real {
    Cents(l) as real / 100.0 * if negative then -1.0 else 1.0
  }

  /** `exactCents`, without its bound on safe integers. */
  function ExactCents(value: real): Option<int> {
    var cents := Round(value * 100.0);
    if Abs(value * 100.0 - cents as real) < 0.000001 then Some(cents) else None
  }

  /** Staging a saved line recovers exactly its cents, so what is staged adds up to what was saved. */
  lemma StagedIsSaved(l: Line, negative: bool)
    ensures ExactCents(SavedAmount(l, negative)) == Some(if negative then -Cents(l) else Cents(l))
  {
    var c := if negative then -Cents(l) else Cents(l);
    assert SavedAmount(l, negative) * 100.0 == c as real;
    assert (c as real + 0.5).Floor == c;
  }

  function StagedCents(lines: seq<Line>, negative: bool): int {
    if lines == [] then 0
    else
      var staged := ExactCents(SavedAmount(lines[|lines| - 1], negative));
      StagedCents(lines[..|lines| - 1], negative) + if staged.None? then 0 else staged.value
  }

  /** What is staged adds up to the saved cents, with the sign of the transaction. */
  lemma {:induction false} StagedBalances(lines: seq<Line>, negative: bool)
    ensures StagedCents(lines, negative) == if negative then -SavedCents(lines) else SavedCents(lines)
  {
    if lines != [] {
      StagedBalances(lines[..|lines| - 1], negative);
      StagedIsSaved(lines[|lines| - 1], negative);
    }
  }
}
