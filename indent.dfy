/**
  Indentation detection: before re-encoding, the tool reads the original text and
  infers how many spaces make one level, so that the output can keep the input's
  style. The width is the greatest common divisor of the leading-space runs of the
  lines that qualify, and 2 when none does.
 */
module Indentation {
  import opened Text

  newtype byte = x: int | 0 <= x < 256

  const Newline: byte := 10
  const Tab: byte := 9
  const Space: byte := 32

  /** The width used when no line tells anything about the indentation. */
  const DefaultWidth := 2

  function Abs(x: int): nat {
    if x < 0 then -x else x
  }

  /** `d` divides `n`; only 0 is divisible by 0. */
  predicate Divides(d: nat, n: nat) {
    if d == 0 then n == 0 else n % d == 0
  }

  /** `d` divides every element of `runs`. */
  predicate DividesAll(d: nat, runs: seq<nat>) {
    forall j :: 0 <= j < |runs| ==> Divides(d, runs[j])
  }

  /** Euclid's algorithm on natural numbers: the value the `gcd` loop arrives at. */
  function GcdOf(a: nat, b: nat): nat
    decreases b
  {
    if b == 0 then a else GcdOf(b, a % b)
  }

  /** Go's `gcd`: both arguments made non-negative, then Euclid's swap loop. */
  method Gcd(a: int, b: int) returns (r: int)
    ensures r >= 0
    ensures r == GcdOf(Abs(a), Abs(b))
    ensures b == 0 ==> r == Abs(a)
  {
    var x := a;
    var y := b;
    if x < 0 {
      x := -x;
    }
    if y < 0 {
      y := -y;
    }
    while y != 0
      invariant x >= 0 && y >= 0
      invariant GcdOf(x, y) == GcdOf(Abs(a), Abs(b))
      decreases y
    {
      x, y := y, x % y;
    }
    r := x;
  }

  /** Every multiple of a positive `d` leaves remainder 0. */
  lemma MultipleMod(d: nat, m: int)
    requires d > 0
    ensures (d * m) % d == 0
  {
    var q, r := (d * m) / d, (d * m) % d;
    var t := m - q;
    assert d * t == r;
    if t >= 1 {
      assert false;
    } else if t < 0 {
      assert false;
    }
  }

  /** A number that divides two others divides their sum and their difference. */
  lemma DividesSum(d: nat, x: nat, y: nat)
    requires d > 0 && Divides(d, x) && Divides(d, y)
    ensures Divides(d, x + y)
    ensures x >= y ==> Divides(d, x - y)
  {
    var i, j := x / d, y / d;
    assert x == d * i && y == d * j;
    assert x + y == d * (i + j);
    MultipleMod(d, i + j);
    assert x - y == d * (i - j);
    MultipleMod(d, i - j);
  }

  /** A divisor of `n` divides every multiple of `n`. */
  lemma DividesMultiple(d: nat, n: nat, q: nat)
    requires d > 0 && Divides(d, n)
    ensures Divides(d, q * n)
  {
    var k := n / d;
    assert n == d * k;
    assert q * n == d * (q * k);
    MultipleMod(d, q * k);
  }

  /** Divisibility is transitive. */
  lemma DividesTransitive(d: nat, g: nat, n: nat)
    requires d > 0 && g > 0 && Divides(d, g) && Divides(g, n)
    ensures Divides(d, n)
  {
    assert n == g * (n / g);
    DividesMultiple(d, g, n / g);
    assert (n / g) * g == n;
  }

  /** Euclid's step keeps the common divisors: `d | b` gives `d | a` exactly when `d | a % b`. */
  lemma EuclidStep(d: nat, a: nat, b: nat)
    requires d > 0 && b > 0 && Divides(d, b)
    ensures Divides(d, a) <==> Divides(d, a % b)
  {
    var q := a / b;
    assert a == q * b + a % b;
    DividesMultiple(d, b, q);
    if Divides(d, a) {
      DividesSum(d, a, q * b);
    }
    if Divides(d, a % b) {
      DividesSum(d, q * b, a % b);
    }
  }

  /** The result is 0 only when both arguments are. */
  lemma {:induction false} GcdPositive(a: nat, b: nat)
    ensures GcdOf(a, b) == 0 <==> a == 0 && b == 0
    decreases b
  {
    if b > 0 {
      GcdPositive(b, a % b);
    }
  }

  /** The result of Euclid's algorithm divides both arguments. */
  lemma {:induction false} GcdCommonDivisor(a: nat, b: nat)
    ensures Divides(GcdOf(a, b), a) && Divides(GcdOf(a, b), b)
    decreases b
  {
    if b > 0 {
      var g := GcdOf(b, a % b);
      GcdCommonDivisor(b, a % b);
      GcdPositive(b, a % b);
      EuclidStep(g, a, b);
    }
  }

  /** Every common divisor of the arguments divides the result, so it is the greatest one. */
  lemma {:induction false} GcdGreatest(a: nat, b: nat, d: nat)
    requires d > 0 && Divides(d, a) && Divides(d, b)
    ensures Divides(d, GcdOf(a, b))
    decreases b
  {
    if b > 0 {
      EuclidStep(d, a, b);
      GcdGreatest(b, a % b, d);
    }
  }

  /** The number of spaces a line starts with. */
  function LeadingSpaces(line: seq<byte>): (n: nat)
    ensures n <= |line|
    ensures forall j :: 0 <= j < n ==> line[j] == Space
    ensures n == |line| || line[n] != Space
  {
    if line != [] && line[0] == Space then 1 + LeadingSpaces(line[1..]) else 0
  }

  /**
    A line tells the indentation when it is not empty, does not start with a tab,
    starts with at least one space, and the spaces are not followed by a tab.
   */
  predicate Qualifies(line: seq<byte>) {
    && |line| > 0
    && line[0] != Tab
    && LeadingSpaces(line) > 0
    && !(LeadingSpaces(line) < |line| && line[LeadingSpaces(line)] == Tab)
  }

  /** The leading-space runs of the qualifying lines, in the order of the lines. */
  function Runs(lines: seq<seq<byte>>): (runs: seq<nat>)
    ensures |runs| <= |lines|
    ensures forall j :: 0 <= j < |runs| ==> runs[j] > 0
  {
    if lines == [] then []
    else
      var last := lines[|lines| - 1];
      Runs(lines[..|lines| - 1]) + (if Qualifies(last) then [LeadingSpaces(last)] else [])
  }

  /** One step of the accumulator: the first run is taken as it is, later ones through gcd. */
  function Combine(indent: nat, run: nat): nat {
    if indent == 0 then run else GcdOf(indent, run)
  }

  /** The accumulator after all of `runs`, starting from 0. */
  function GcdAll(runs: seq<nat>): nat {
    if runs == [] then 0 else Combine(GcdAll(runs[..|runs| - 1]), runs[|runs| - 1])
  }

  /** The width `detectIndentation` infers from the text `data`. */
  function Width(data: seq<byte>): int {
    var indent := GcdAll(Runs(Split(data, Newline)));
    if indent <= 0 then DefaultWidth else indent
  }

  /** Taking one more line adds its run when it qualifies. */
  lemma RunsStep(lines: seq<seq<byte>>, k: nat)
    requires k < |lines|
    ensures Runs(lines[..k + 1]) ==
      Runs(lines[..k]) + (if Qualifies(lines[k]) then [LeadingSpaces(lines[k])] else [])
  {
    assert lines[..k + 1][..k] == lines[..k];
  }

  /** Taking one more run combines it into the accumulator. */
  lemma GcdAllStep(runs: seq<nat>, run: nat)
    ensures GcdAll(runs + [run]) == Combine(GcdAll(runs), run)
  {
    assert (runs + [run])[..|runs|] == runs;
  }

  /** The counting loop of `detectIndentation`: how many spaces `line` starts with. */
  method CountLeadingSpaces(line: seq<byte>) returns (i: int)
    ensures i == LeadingSpaces(line)
  {
    i := 0;
    while i < |line| && line[i] == Space
      invariant 0 <= i <= |line|
      invariant forall j :: 0 <= j < i ==> line[j] == Space
    {
      i := i + 1;
    }
  }

  /** What one line does to the accumulator. */
  function Absorb(indent: nat, line: seq<byte>): nat {
    if Qualifies(line) then Combine(indent, LeadingSpaces(line)) else indent
  }

  /**
    The body of the loop of `detectIndentation` for one line: the lines that are
    skipped leave `indent` alone, the others combine their run into it.
   */
  method AbsorbLine(indent: int, line: seq<byte>) returns (next: int)
    requires indent >= 0
    ensures next == Absorb(indent, line)
  {
    if |line| == 0 {
      return indent;
    }
    if line[0] == Tab {
      return indent;
    }
    var i := CountLeadingSpaces(line);
    if i == 0 {
      return indent;
    }
    if i < |line| && line[i] == Tab {
      return indent;
    }
    if indent == 0 {
      next := i;
    } else {
      next := Gcd(indent, i);
    }
  }

  /** Taking one more line absorbs it into the accumulator. */
  lemma GcdAllRunsStep(lines: seq<seq<byte>>, k: nat)
    requires k < |lines|
    ensures GcdAll(Runs(lines[..k + 1])) == Absorb(GcdAll(Runs(lines[..k])), lines[k])
  {
    RunsStep(lines, k);
    if Qualifies(lines[k]) {
      GcdAllStep(Runs(lines[..k]), LeadingSpaces(lines[k]));
    } else {
      assert Runs(lines[..k + 1]) == Runs(lines[..k]);
    }
  }

  /** Go's `detectIndentation`: the loop over the lines with an `indent` accumulator. */
  method DetectIndentation(data: seq<byte>) returns (width: int)
    ensures width == Width(data)
  {
    var lines := Split(data, Newline);
    var indent := 0;
    var k := 0;
    while k < |lines|
      invariant 0 <= k <= |lines|
      invariant indent == GcdAll(Runs(lines[..k]))
    {
      GcdAllRunsStep(lines, k);
      indent := AbsorbLine(indent, lines[k]);
      k := k + 1;
    }
    assert lines[..k] == lines;
    if indent <= 0 {
      return DefaultWidth;
    }
    return indent;
  }

  /** The accumulator is the greatest common divisor of the runs seen so far. */
  lemma {:induction false} GcdAllIsGcd(runs: seq<nat>)
    requires forall j :: 0 <= j < |runs| ==> runs[j] > 0
    ensures runs != [] ==> GcdAll(runs) > 0
    ensures DividesAll(GcdAll(runs), runs)
    ensures forall d: nat :: d > 0 && DividesAll(d, runs) ==> Divides(d, GcdAll(runs))
  {
    if runs != [] {
      var init, r := runs[..|runs| - 1], runs[|runs| - 1];
      assert forall j :: 0 <= j < |init| ==> init[j] == runs[j];
      GcdAllIsGcd(init);
      var g := GcdAll(init);
      if g == 0 {
        assert init == [];
      } else {
        GcdPositive(g, r);
        GcdCommonDivisor(g, r);
        var h := GcdOf(g, r);
        forall j | 0 <= j < |init|
          ensures Divides(h, runs[j])
        {
          assert init[j] == runs[j];
          DividesTransitive(h, g, init[j]);
        }
        forall d: nat | d > 0 && DividesAll(d, runs)
          ensures Divides(d, h)
        {
          assert DividesAll(d, init) by {
            forall j | 0 <= j < |init|
              ensures Divides(d, init[j])
            {
              assert init[j] == runs[j];
            }
          }
          GcdGreatest(g, r, d);
        }
      }
    }
  }

  /**
    What `detectIndentation` promises: a width of at least 1; 2 when no line
    qualifies; otherwise a divisor of every qualifying run that every common divisor
    of the runs divides, that is their greatest common divisor.
   */
  lemma WidthIsGcdOfRuns(data: seq<byte>)
    ensures Width(data) >= 1
    ensures Runs(Split(data, Newline)) == [] ==> Width(data) == DefaultWidth
    ensures Runs(Split(data, Newline)) != [] ==>
      && DividesAll(Width(data), Runs(Split(data, Newline)))
      && forall d: nat :: d > 0 && DividesAll(d, Runs(Split(data, Newline))) ==> Divides(d, Width(data))
  {
    GcdAllIsGcd(Runs(Split(data, Newline)));
  }

  /** A line starting with a tab never counts, whatever follows it. */
  lemma TabLinesIgnored(lines: seq<seq<byte>>, line: seq<byte>)
    requires line != [] && line[0] == Tab
    ensures Runs(lines + [line]) == Runs(lines)
  {
    assert (lines + [line])[..|lines|] == lines;
  }
}
