/** The inverse distribution table of netem: cumulate a histogram, invert it, fill the gaps. */
module DistTable {

  const MINSHORT := -32768
  const MAXSHORT := 32767
  const TABLEFACTOR := 8192
  const DOMAIN := 4
  const GRANULARITY := 50000

  // --------------------------------------------------------------- cumulation

  function Sum(s: seq<int>): int {
    if s == [] then 0 else Sum(s[..|s| - 1]) + s[|s| - 1]
  }

  /** Every entry of `c` is the sum of the histogram up to and including its place. */
  ghost predicate IsCumulative(h: seq<int>, c: seq<int>) {
    |c| == |h| && forall i :: 0 <= i < |c| ==> c[i] == Sum(h[..i + 1])
  }

  /** `cumulativedist`, in place. */
  method Cumulate(table: array<int>) returns (total: int)
    modifies table
    ensures IsCumulative(old(table[..]), table[..]) && total == Sum(old(table[..]))
  {
    ghost var h := table[..];
    var i := 0;
    total := 0;
    while i < table.Length
      invariant 0 <= i <= table.Length && total == Sum(h[..i])
      invariant forall k :: 0 <= k < i ==> table[k] == Sum(h[..k + 1])
      invariant forall k :: i <= k < table.Length ==> table[k] == h[k]
    {
      assert h[..i + 1][..i] == h[..i];
      total := total + table[i];
      table[i] := total;
      i := i + 1;
    }
    assert h[..i] == h;
  }

  lemma {:induction false} SumMonotone(h: seq<int>, i: nat, j: nat)
    requires i <= j <= |h| && forall k :: 0 <= k < |h| ==> h[k] >= 0
    ensures 0 <= Sum(h[..i]) <= Sum(h[..j])
    decreases j
  {
    if j > 0 {
      assert h[..j][..j - 1] == h[..j - 1];
      if i < j {
        SumMonotone(h, i, j - 1);
      } else {
        SumMonotone(h, i - 1, j - 1);
      }
    }
  }

  // ---------------------------------------------------------------- inversion

  /** `rint`: to the nearest integer, halves to the even one. */
  function Rint(x: real): int {
    var f := x.Floor;
    var d := x - f as real;
    if d < 0.5 then f else if d > 0.5 then f + 1 else if f % 2 == 0 then f else f + 1
  }

  lemma RintMonotone(x: real, y: real)
    requires x <= y
    ensures Rint(x) <= Rint(y)
  {
    assert x.Floor <= y.Floor;
  }

  lemma RintOfInt(n: int)
    ensures Rint(n as real) == n
  {}

  // ----------------------------------------------------- rounding in integers

  /** `n` is the integer nearest to `num / den`, the even one of two. */
  predicate Rounds(n: int, num: int, den: int)
    requires den > 0
  {
    var d := 2 * (n * den - num);
    -den < d < den || (-den <= d <= den && n % 2 == 0)
  }

  lemma RintNear(x: real)
    ensures var d := Rint(x) as real - x; -0.5 < d < 0.5 || (-0.5 <= d <= 0.5 && Rint(x) % 2 == 0)
  {
  }

  /** Twice a distance in units of `1 / den`. */
  function Wide(d: real, den: real): real { 2.0 * d * den }

  lemma Multiplied(n: int, num: int, den: int, x: real)
    requires den > 0 && x * den as real == num as real
    ensures (2 * (n * den - num)) as real == Wide(n as real - x, den as real)
  {
    assert (n as real - x) * den as real == n as real * den as real - x * den as real;
    assert (n * den) as real == n as real * den as real;
  }

  lemma Widened(d: real, den: real)
    requires den > 0.0
    ensures -0.5 < d < 0.5 ==> -den < Wide(d, den) < den
    ensures -0.5 <= d <= 0.5 ==> -den <= Wide(d, den) <= den
  {
    var e := 2.0 * d;
    if -0.5 < d < 0.5 {
      assert (1.0 - e) * den > 0.0 && (1.0 + e) * den > 0.0;
    } else if -0.5 <= d <= 0.5 {
      assert (1.0 - e) * den >= 0.0 && (1.0 + e) * den >= 0.0;
    }
  }

  /** Two integers cannot both be nearest. */
  lemma RoundsOnce(n: int, m: int, num: int, den: int)
    requires den > 0 && Rounds(n, num, den) && Rounds(m, num, den)
    ensures n == m
  {
    var x, y := n * den, m * den;
    assert x - y == (n - m) * den && y - x == (m - n) * den;
    if n > m {
      OneApart(n - m, den);
    } else if m > n {
      OneApart(m - n, den);
    }
  }

  lemma OneApart(k: int, den: int)
    requires k >= 1 && den > 0
    ensures k * den >= den && (k >= 2 ==> k * den >= 2 * den)
  {
    Product0(k - 1, den);
    assert (k - 1) * den == k * den - den;
    if k >= 2 {
      Product0(k - 2, den);
      assert (k - 2) * den == k * den - 2 * den;
    }
  }

  /** Rounding a quotient of integers. */
  lemma RintRounds(num: int, den: int, x: real, n: int)
    requires den > 0 && x * den as real == num as real
    ensures Rint(x) == n <==> Rounds(n, num, den)
  {
    hide Rounds;
    assert Rounds(Rint(x), num, den) by { RintIsRounded(num, den, x); }
    if Rounds(n, num, den) { RoundsOnce(n, Rint(x), num, den); }
  }

  lemma RintIsRounded(num: int, den: int, x: real)
    requires den > 0 && x * den as real == num as real
    ensures Rounds(Rint(x), num, den)
  {
    var n := Rint(x);
    RintNear(x);
    hide Rint, Wide;
    Multiplied(n, num, den, x);
    Widened(n as real - x, den as real);
    var d := 2 * (n * den - num);
    Between(d, den, Wide(n as real - x, den as real), n as real - x);
  }

  lemma Between(d: int, den: int, e: real, u: real)
    requires d as real == e
    requires -0.5 < u < 0.5 ==> -(den as real) < e < den as real
    requires -0.5 <= u <= 0.5 ==> -(den as real) <= e <= den as real
    ensures -0.5 < u < 0.5 ==> -den < d < den
    ensures -0.5 <= u <= 0.5 ==> -den <= d <= den
  {
  }

  /** The table place of a cumulative count: `rint(count / total * inversesize)`. */
  function Place(count: int, total: int, size: nat): int
    requires total > 0
  {
    Rint(Scaled(count, total, size))
  }

  function Scaled(count: int, total: int, size: nat): real
    requires total > 0
  {
    count as real / total as real * size as real
  }

  /** The scaled value of histogram cell `i`, kept inside the range of a short. */
  function Value(i: nat): int {
    var v := Rint((i as real / GRANULARITY as real - DOMAIN as real) * TABLEFACTOR as real);
    if v <= MINSHORT then MINSHORT + 1 else if v > MAXSHORT then MAXSHORT else v
  }

  /** A count falls where `count * size / total` is nearest to. */
  lemma PlaceRounds(count: int, total: int, size: nat, a: int)
    requires total > 0
    ensures Place(count, total, size) == a <==> Rounds(a, count * size, total)
  {
    hide Rint, Rounds;
    Unscaled(count as real, total as real, size as real);
    assert (count * size) as real == count as real * size as real;
    RintRounds(count * size, total, Scaled(count, total, size), a);
  }

  lemma Unscaled(c: real, t: real, s: real)
    requires t > 0.0
    ensures c / t * s * t == c * s
  {
    assert c / t * t == c;
    assert c / t * s * t == c / t * t * s;
  }

  function Clamp(n: int): int { if n < -32767 then -32767 else if n > 32767 then 32767 else n }

  /** Cell 200000 is the middle: 8192 units of value are 50000 cells. */
  lemma ValueRounds(i: nat, n: int)
    requires Rounds(n, (i - 200000) * 8192, 50000)
    ensures Value(i) == Clamp(n)
  {
    hide Rounds, Rint;
    var x := (i as real / GRANULARITY as real - DOMAIN as real) * TABLEFACTOR as real;
    RintRounds((i - 200000) * 8192, 50000, x, n);
  }

  lemma PlaceMonotone(c: int, c': int, total: int, size: nat)
    requires 0 <= c <= c' <= total && total > 0
    ensures 0 <= Place(c, total, size) <= Place(c', total, size) <= size
  {
    PlaceStep(0, c, total, size);
    PlaceStep(c, c', total, size);
    PlaceStep(c', total, total, size);
    PlaceEnds(total, size);
  }

  lemma PlaceStep(c: int, c': int, total: int, size: nat)
    requires c <= c' && total > 0
    ensures Place(c, total, size) <= Place(c', total, size)
  {
    hide Rint, Scaled;
    ScaledMonotone(c, c', total, size);
    RintMonotone(Scaled(c, total, size), Scaled(c', total, size));
  }

  lemma ScaledMonotone(c: int, c': int, total: int, size: nat)
    requires c <= c' && total > 0
    ensures Scaled(c, total, size) <= Scaled(c', total, size)
  {
    var t, s := total as real, size as real;
    Divide(c as real, c' as real, t);
    Scale(c as real / t, c' as real / t, s);
  }

  /** The last cell of every histogram has place `size`, one past the table. */
  lemma PlaceEnds(total: int, size: nat)
    requires total > 0
    ensures Place(0, total, size) == 0 && Place(total, total, size) == size
  {
    hide Rint, Scaled;
    assert Scaled(0, total, size) == 0 as real && Scaled(total, total, size) == size as real by {
      ScaledEnds(total, size);
    }
    RintOfInt(0);
    RintOfInt(size);
  }

  lemma ScaledEnds(total: int, size: nat)
    requires total > 0
    ensures Scaled(0, total, size) == 0 as real && Scaled(total, total, size) == size as real
  {
    assert total as real / total as real == 1.0;
  }

  lemma Divide(x: real, y: real, t: real)
    requires x <= y && 0.0 < t
    ensures x / t <= y / t
  {}

  lemma Scale(x: real, y: real, s: real)
    requires x <= y && 0.0 <= s
    ensures x * s <= y * s
  {}

  lemma ValueMonotone(i: nat, j: nat)
    requires i <= j
    ensures MINSHORT < Value(i) <= Value(j) <= MAXSHORT
  {
    var x := (i as real / GRANULARITY as real - DOMAIN as real) * TABLEFACTOR as real;
    var y := (j as real / GRANULARITY as real - DOMAIN as real) * TABLEFACTOR as real;
    RintMonotone(x, y);
  }

  /** What the first `n` cells leave at place `a`: the value of the last of them that falls there. */
  function InverseAt(c: seq<int>, total: int, size: nat, n: nat, a: nat): int
    requires total > 0 && n <= |c|
  {
    if n == 0 then MINSHORT
    else if Place(c[n - 1], total, size) == a then Value(n - 1)
    else InverseAt(c, total, size, n - 1, a)
  }

  /** `inverttable`. A cell whose place is `size` itself falls outside the table and is dropped. */
  method Invert(c: seq<int>, size: nat, total: int) returns (inverse: array<int>)
    requires total > 0 && forall i :: 0 <= i < |c| ==> 0 <= c[i] <= total
    ensures fresh(inverse) && inverse.Length == size
    ensures forall a :: 0 <= a < size ==> inverse[a] == InverseAt(c, total, size, |c|, a)
  {
    inverse := new int[size](_ => MINSHORT);
    var i := 0;
    while i < |c|
      invariant 0 <= i <= |c|
      invariant forall a :: 0 <= a < size ==> inverse[a] == InverseAt(c, total, size, i, a)
    {
      PlaceMonotone(c[i], c[i], total, size);
      var place := Place(c[i], total, size);
      if place < size { inverse[place] := Value(i); }
      i := i + 1;
    }
  }

  /** Cell `i` falls at place `a`. */
  predicate Falls(c: seq<int>, total: int, size: nat, i: nat, a: int)
    requires total > 0 && i < |c|
  {
    Rounds(a, c[i] * size, total)
  }

  /** Cell `i` is the last one to fall at place `a`. */
  ghost predicate LastFalls(c: seq<int>, total: int, size: nat, i: nat, a: int)
    requires total > 0 && i < |c|
  {
    Falls(c, total, size, i, a) && forall k :: i < k < |c| ==> !Falls(c, total, size, k, a)
  }

  ghost predicate SomeFalls(c: seq<int>, total: int, size: nat, a: int)
    requires total > 0
  {
    exists i :: 0 <= i < |c| && Falls(c, total, size, i, a)
  }

  /** The inverse by what falls where: the value of the last cell, or the gap marker where none falls. */
  lemma {:induction false} InverseExact(c: seq<int>, total: int, size: nat, a: nat)
    requires total > 0
    ensures var u := InverseAt(c, total, size, |c|, a);
            (u == MINSHORT <==> !SomeFalls(c, total, size, a)) &&
            forall i :: 0 <= i < |c| && LastFalls(c, total, size, i, a) ==> u == Value(i)
  {
    hide Value, Rounds;
    forall k | 0 <= k < |c| ensures Falls(c, total, size, k, a) <==> Place(c[k], total, size) == a {
      PlaceRounds(c[k], total, size, a);
    }
    hide Falls, Place;
    InverseUpTo(c, total, size, |c|, a);
  }

  lemma {:induction false} InverseUpTo(c: seq<int>, total: int, size: nat, n: nat, a: nat)
    requires total > 0 && n <= |c|
    requires forall k :: 0 <= k < |c| ==> (Falls(c, total, size, k, a) <==> Place(c[k], total, size) == a)
    ensures var u := InverseAt(c, total, size, n, a);
            (u == MINSHORT <==> !exists i :: 0 <= i < n && Falls(c, total, size, i, a)) &&
            forall i | 0 <= i < n && Falls(c, total, size, i, a) ::
              (forall k :: i < k < n ==> !Falls(c, total, size, k, a)) ==> u == Value(i)
  {
    hide Value, Falls, Place;
    if n > 0 {
      InverseUpTo(c, total, size, n - 1, a);
      ValueMonotone(n - 1, n - 1);
    }
  }

  // ------------------------------------------------------------- interpolation

  /** C division, which truncates toward zero. */
  function CDiv(x: int, y: int): int
    requires y > 0
  {
    if x >= 0 then x / y else -((-x) / y)
  }

  /** The last entry before `i` that was set, or -1. */
  function Prev(s: seq<int>, i: nat): (a: int)
    requires i <= |s|
    ensures -1 <= a < i && (a >= 0 ==> s[a] != MINSHORT)
    ensures forall k :: a < k < i ==> s[k] == MINSHORT
  {
    if i == 0 then -1 else if s[i - 1] != MINSHORT then i - 1 else Prev(s, i - 1)
  }

  /** The first entry from `i` on that was set, or the end. */
  function Next(s: seq<int>, i: nat): (j: nat)
    requires i <= |s|
    ensures i <= j <= |s| && (j < |s| ==> s[j] != MINSHORT)
    ensures forall k :: i <= k < j ==> s[k] == MINSHORT
    decreases |s| - i
  {
    if i == |s| || s[i] != MINSHORT then i else Next(s, i + 1)
  }

  function Left(s: seq<int>, i: nat): int
    requires i <= |s|
  {
    if Prev(s, i) < 0 then MINSHORT else s[Prev(s, i)]
  }

  function Right(s: seq<int>, i: nat): int
    requires i <= |s|
  {
    if Next(s, i) < |s| then s[Next(s, i)] else MAXSHORT
  }

  /** Entry `i` on the line from `(a, last)` to `(j, to)`. */
  function Line(i: int, a: int, last: int, j: int, to: int): int
    requires a < j
  {
    last + CDiv((i - a) * (to - last), j - a)
  }

  /** The entry `interpolatetable` leaves at `i`: set entries stay, gaps go on the line between their neighbours. */
  function Filled(s: seq<int>, i: nat): int
    requires i < |s|
  {
    if s[i] != MINSHORT then s[i] else Line(i, Prev(s, i), Left(s, i), Next(s, i), Right(s, i))
  }

  /** `interpolatetable`, in place: entries already filled are never read again. */
  method Interpolate(table: array<int>)
    modifies table
    ensures forall k :: 0 <= k < table.Length ==> table[k] == Filled(old(table[..]), k)
  {
    hide Line;
    ghost var s := table[..];
    var i, last, lasti := 0, MINSHORT, -1;
    while i < table.Length
      invariant 0 <= i <= table.Length && lasti == Prev(s, i) && last == Left(s, i)
      invariant forall k :: 0 <= k < i ==> table[k] == Filled(s, k)
      invariant table[i..] == s[i..]
    {
      assert table[i] == table[i..][0] == s[i];
      ghost var tail := table[i..][1..];
      if table[i] == MINSHORT {
        var j := FindSet(table, i, s);
        assert j < table.Length ==> table[j] == table[i..][j - i] == s[j];
        table[i] := Line(i, lasti, last, j, if j < table.Length then table[j] else MAXSHORT);
      } else {
        last := table[i];
        lasti := i;
      }
      assert table[i + 1..] == tail == s[i + 1..];
      i := i + 1;
    }
  }

  /** The inner search for the next set entry. */
  method FindSet(table: array<int>, i: nat, ghost s: seq<int>) returns (j: nat)
    requires i < table.Length == |s| && table[i..] == s[i..]
    ensures j == Next(s, i)
  {
    j := i;
    while j < table.Length && table[j] == MINSHORT
      invariant i <= j <= table.Length && Next(s, i) == Next(s, j)
    {
      assert table[j] == table[i..][j - i] == s[j];
      j := j + 1;
    }
    if j < table.Length { assert table[j] == table[i..][j - i] == s[j]; }
  }

  /** The set entries never decrease and lie strictly above the gap marker. */
  ghost predicate SortedAnchors(s: seq<int>) {
    (forall a :: 0 <= a < |s| ==> MINSHORT <= s[a] <= MAXSHORT) &&
    forall a, b :: 0 <= a < b < |s| && s[a] != MINSHORT && s[b] != MINSHORT ==> s[a] <= s[b]
  }

  lemma LeftRight(s: seq<int>, i: nat)
    requires SortedAnchors(s) && i < |s| && s[i] == MINSHORT
    ensures MINSHORT <= Left(s, i) <= Right(s, i) <= MAXSHORT && Prev(s, i) < i < Next(s, i)
  {}

  /** A fraction `n / m` of a distance that is not negative stays within it. */
  lemma {:induction false} Fraction(n: int, m: int, d: int)
    requires 0 <= n <= m && 0 < m && 0 <= d
    ensures 0 <= CDiv(n * d, m) <= d
    ensures n < m ==> CDiv(n * d, m) <= CDiv((n + 1) * d, m)
  {
    Product0(n, d);
    Product0(m - n, d);
    assert (m - n) * d == m * d - n * d;
    assert (n + 1) * d == n * d + d;
    DivBounds(n * d, m, d);
    DivMonotone(n * d, (n + 1) * d, m);
  }

  lemma Product0(x: int, y: int)
    requires 0 <= x && 0 <= y
    ensures 0 <= x * y
  {}

  lemma DivBounds(p: int, m: int, d: int)
    requires 0 <= p <= m * d && 0 < m
    ensures 0 <= p / m <= d
  {
    DivMonotone(p, m * d, m);
    MulDiv(m, d);
    DivMonotone(0, p, m);
  }

  lemma MulDiv(m: int, d: int)
    requires 0 < m
    ensures m * d / m == d
  {
    var q, r := m * d / m, m * d % m;
    assert m * d == m * q + r && m * (d - q) == r;
    if d > q { OneAtLeast(m, d - q); }
    if d < q { OneAtLeast(m, q - d); }
  }

  lemma OneAtLeast(m: int, k: int)
    requires 0 < m && 1 <= k
    ensures m * k >= m
  {
    Product0(m, k - 1);
    assert m * (k - 1) == m * k - m;
  }

  lemma DivMonotone(x: int, y: int, m: int)
    requires 0 <= x <= y && 0 < m
    ensures x / m <= y / m
  {
    var a, b := x / m, y / m;
    assert x == m * a + x % m && y == m * b + y % m;
    if a > b {
      OneAtLeast(m, a - b);
    }
  }

  // ------------------------------------------------------------------ results

  lemma LineBounds(i: int, a: int, last: int, j: int, to: int)
    requires a <= i <= j && a < j && last <= to
    ensures last <= Line(i, a, last, j, to) <= to
    ensures i < j ==> Line(i, a, last, j, to) <= Line(i + 1, a, last, j, to)
    ensures Line(j, a, last, j, to) == to && Line(a, a, last, j, to) == last
  {
    hide CDiv;
    Fraction(i - a, j - a, to - last);
    WholeFraction(j - a, to - last);
  }

  lemma WholeFraction(m: int, d: int)
    requires 0 < m && 0 <= d
    ensures CDiv(m * d, m) == d && CDiv(0 * d, m) == 0
  {
    Product0(m, d);
    MulDiv(m, d);
  }

  /** The remainder of a division has the sign of the dividend. */
  lemma CDivTruncates(x: int, y: int)
    requires y > 0
    ensures x >= 0 ==> 0 <= x - y * CDiv(x, y) < y
    ensures x <= 0 ==> -y < x - y * CDiv(x, y) <= 0
  {
    if x < 0 { assert y * -((-x) / y) == -(y * ((-x) / y)); }
  }

  /** A gap lies on the line between the entries around it, rounded towards the one before. */
  lemma LineExact(i: int, a: int, last: int, j: int, to: int)
    requires a <= i < j
    ensures var d := (i - a) * (to - last) - (j - a) * (Line(i, a, last, j, to) - last);
            (last <= to ==> 0 <= d < j - a) && (last >= to ==> a - j < d <= 0)
  {
    hide CDiv;
    if last <= to {
      Product0(i - a, to - last);
    } else {
      Product0(i - a, last - to);
      assert (i - a) * (to - last) == -((i - a) * (last - to));
    }
    CDivTruncates((i - a) * (to - last), j - a);
  }

  /** The neighbours of a gap by what they are. */
  lemma Neighbours(s: seq<int>, i: nat, a: int, j: nat)
    requires i < |s| && s[i] == MINSHORT && -1 <= a < i < j <= |s|
    requires (a >= 0 ==> s[a] != MINSHORT) && (j < |s| ==> s[j] != MINSHORT)
    requires forall k :: a < k < j ==> s[k] == MINSHORT
    ensures Prev(s, i) == a && Next(s, i) == j
  {
  }

  lemma {:induction false} FilledStep(s: seq<int>, i: nat)
    requires SortedAnchors(s) && i + 1 < |s|
    ensures Filled(s, i) <= Filled(s, i + 1)
  {
    hide Line;
    var k := i + 1;
    if s[i] == MINSHORT {
      LeftRight(s, i);
      LineBounds(i, Prev(s, i), Left(s, i), Next(s, i), Right(s, i));
    }
    if s[k] == MINSHORT {
      LeftRight(s, k);
      LineBounds(k, Prev(s, k), Left(s, k), Next(s, k), Right(s, k));
    }
  }

  /** The filled table never decreases, keeps every set entry, and stays within a short. */
  lemma {:induction false} FilledMonotone(s: seq<int>, i: nat, k: nat)
    requires SortedAnchors(s) && i <= k < |s|
    ensures MINSHORT <= Filled(s, i) <= Filled(s, k) <= MAXSHORT
    ensures s[i] != MINSHORT ==> Filled(s, i) == s[i]
    decreases k - i
  {
    hide Line;
    if i < k {
      FilledMonotone(s, i + 1, k);
      FilledStep(s, i);
    }
    if s[i] == MINSHORT {
      LeftRight(s, i);
      LineBounds(i, Prev(s, i), Left(s, i), Next(s, i), Right(s, i));
    }
  }

  /** At the shipped table size the interpolation's product fits a 32-bit int. */
  lemma ProductFits(s: seq<int>, i: nat)
    requires SortedAnchors(s) && |s| <= 4096 && i < |s| && s[i] == MINSHORT
    ensures 0 <= (i - Prev(s, i)) * (Right(s, i) - Left(s, i)) < 0x8000_0000
  {
    hide Left, Right, SortedAnchors;
    LeftRight(s, i);
    BoundedProduct(i - Prev(s, i), Right(s, i) - Left(s, i));
  }

  lemma BoundedProduct(n: int, d: int)
    requires 0 <= n <= 4096 && 0 <= d <= 65535
    ensures 0 <= n * d < 0x8000_0000
  {
    Product0(n, d);
    Product0(4096 - n, d);
    assert (4096 - n) * d == 4096 * d - n * d;
  }

  /** Inverting the cumulative counts of a histogram gives set entries in order. */
  lemma {:induction false} InverseSorted(h: seq<int>, c: seq<int>, size: nat, a: nat, b: nat)
    requires IsCumulative(h, c) && (forall k :: 0 <= k < |h| ==> h[k] >= 0) && Sum(h) > 0 && a < b
    ensures var u, v := InverseAt(c, Sum(h), size, |c|, a), InverseAt(c, Sum(h), size, |c|, b);
            MINSHORT <= u <= MAXSHORT && (u != MINSHORT && v != MINSHORT ==> u <= v)
  {
    hide Value, Place;
    var total := Sum(h);
    var i := InverseFrom(c, total, size, |c|, a);
    var j := InverseFrom(c, total, size, |c|, b);
    if i < |c| { ValueMonotone(i, i); }
    if i < |c| && j < |c| {
      assert h[..|h|] == h;
      if j <= i {
        SumMonotone(h, j + 1, i + 1);
        SumMonotone(h, i + 1, |h|);
        PlaceMonotone(c[j], c[i], total, size);
        assert false;
      }
      ValueMonotone(i, j);
    }
  }

  /** The cell a set entry comes from; `n` when the entry is a gap. */
  lemma {:induction false} InverseFrom(c: seq<int>, total: int, size: nat, n: nat, a: nat) returns (i: nat)
    requires total > 0 && n <= |c|
    ensures i <= n && (i < n ==> Place(c[i], total, size) == a && InverseAt(c, total, size, n, a) == Value(i))
    ensures i == n ==> InverseAt(c, total, size, n, a) == MINSHORT
  {
    hide Value, Place;
    i := 0;
    if n > 0 {
      if Place(c[n - 1], total, size) == a {
        i := n - 1;
      } else {
        i := InverseFrom(c, total, size, n - 1, a);
        if i == n - 1 { i := n; }
      }
    }
  }

  /** The values a gap between the entries `a` and `j` is filled from; the ends count as the extremes of a short. */
  function From(s: seq<int>, a: int): int
    requires a < |s|
  {
    if a < 0 then -32768 else s[a]
  }

  function To(s: seq<int>, j: nat): int { if j < |s| then s[j] else 32767 }

  /** Nothing falls strictly between `a` and `j`, and something does at both, if they are inside the table. */
  ghost predicate Gap(c: seq<int>, total: int, size: nat, a: int, j: nat)
    requires total > 0
  {
    -1 <= a < j <= size && (a >= 0 ==> SomeFalls(c, total, size, a)) && (j < size ==> SomeFalls(c, total, size, j)) &&
    forall k :: a < k < j ==> !SomeFalls(c, total, size, k)
  }

  /**
   * The inverse table of cumulative counts, in integers: where cells fall, the clamped value of the
   * last of them; between, the line through the entries on both sides, rounded down.
   */
  ghost predicate IsInverse(c: seq<int>, total: int, inverse: seq<int>)
    requires total > 0
  {
    (forall a, i, n | 0 <= a < |inverse| && 0 <= i < |c| && LastFalls(c, total, |inverse|, i, a) ::
       Rounds(n, (i - 200000) * 8192, 50000) ==> inverse[a] == Clamp(n)) &&
    forall a, j: nat, k :: Gap(c, total, |inverse|, a, j) && a < k < j ==>
      var from, to := From(inverse, a), To(inverse, j);
      0 <= (k - a) * (to - from) - (j - a) * (inverse[k] - from) < j - a
  }

  lemma {:induction false} LastExists(c: seq<int>, total: int, size: nat, a: int, n: nat) returns (i: nat)
    requires total > 0 && n <= |c| && (exists k :: 0 <= k < n && Falls(c, total, size, k, a))
    requires forall k :: n <= k < |c| ==> !Falls(c, total, size, k, a)
    ensures i < |c| && LastFalls(c, total, size, i, a)
    decreases n
  {
    hide Falls;
    i := n - 1;
    if !Falls(c, total, size, n - 1, a) { i := LastExists(c, total, size, a, n - 1); }
  }

  /** The entries around a place where nothing falls. */
  lemma {:induction false} GapBelow(c: seq<int>, total: int, size: nat, k: nat) returns (a: int)
    requires total > 0
    ensures -1 <= a < k && (a >= 0 ==> SomeFalls(c, total, size, a))
    ensures forall l :: a < l < k ==> !SomeFalls(c, total, size, l)
  {
    hide SomeFalls;
    a := k - 1;
    if k > 0 && !SomeFalls(c, total, size, k - 1) { a := GapBelow(c, total, size, k - 1); }
  }

  lemma {:induction false} GapAbove(c: seq<int>, total: int, size: nat, k: nat) returns (j: nat)
    requires total > 0 && k < size
    ensures k < j <= size && (j < size ==> SomeFalls(c, total, size, j))
    ensures forall l :: k < l < j ==> !SomeFalls(c, total, size, l)
    decreases size - k
  {
    hide SomeFalls;
    j := k + 1;
    if j < size && !SomeFalls(c, total, size, j) { j := GapAbove(c, total, size, k + 1); }
  }

  lemma Nearest(num: int, den: int) returns (n: int)
    requires den > 0
    ensures Rounds(n, num, den)
  {
    hide Rounds, Rint;
    var x := num as real / den as real;
    n := Rint(x);
    RintIsRounded(num, den, x);
  }

  lemma SetEntry(c: seq<int>, total: int, r: seq<int>, r': seq<int>, a: nat)
    requires total > 0 && IsInverse(c, total, r) && IsInverse(c, total, r') && |r| == |r'| && a < |r|
    requires SomeFalls(c, total, |r|, a)
    ensures r[a] == r'[a]
  {
    hide Falls, LastFalls, Rounds;
    var i := LastExists(c, total, |r|, a, |c|);
    var n := Nearest((i as int - 200000) * 8192, 50000);
    assert r[a] == Clamp(n) && r'[a] == Clamp(n);
  }

  lemma OnLine(x: int, m: int, u: int, v: int)
    requires 0 < m && 0 <= x - m * u < m && 0 <= x - m * v < m
    ensures u == v
  {
    assert m * u - m * v == m * (u - v);
    if u > v { OneAtLeast(m, u - v); }
    if v > u { OneAtLeast(m, v - u); }
  }

  /** The counts have one inverse table. */
  lemma InverseUnique(c: seq<int>, total: int, r: seq<int>, r': seq<int>)
    requires total > 0 && IsInverse(c, total, r) && IsInverse(c, total, r') && |r| == |r'|
    ensures r == r'
  {
    forall k | 0 <= k < |r| ensures r[k] == r'[k] {
      if SomeFalls(c, total, |r|, k) {
        SetEntry(c, total, r, r', k);
      } else {
        GapEntry(c, total, r, r', k);
      }
    }
  }

  lemma GapEntry(c: seq<int>, total: int, r: seq<int>, r': seq<int>, k: nat)
    requires total > 0 && IsInverse(c, total, r) && IsInverse(c, total, r') && |r| == |r'| && k < |r|
    requires !SomeFalls(c, total, |r|, k)
    ensures r[k] == r'[k]
  {
    hide SomeFalls, LastFalls, Rounds;
    var a := GapBelow(c, total, |r|, k);
    var j := GapAbove(c, total, |r|, k);
    assert Gap(c, total, |r|, a, j);
    if a >= 0 { SetEntry(c, total, r, r', a); }
    if j < |r| { SetEntry(c, total, r, r', j); }
    var from, to := From(r, a), To(r, j);
    var x := (k - a) * (to - from);
    assert 0 <= x - (j - a) * (r[k] - from) < j - a && 0 <= x - (j - a) * (r'[k] - from) < j - a;
    hide *;
    OnLine(x, j - a, r[k] - from, r'[k] - from);
  }

  /** Filling the inverse of the counts gives their inverse table. */
  lemma FilledIsInverse(c: seq<int>, total: int, s: seq<int>, r: seq<int>)
    requires total > 0 && SortedAnchors(s) && |r| == |s|
    requires forall a :: 0 <= a < |s| ==> s[a] == InverseAt(c, total, |s|, |c|, a)
    requires forall a :: 0 <= a < |s| ==> r[a] == Filled(s, a)
    ensures IsInverse(c, total, r)
  {
    hide InverseAt, Value, Line, LastFalls, SomeFalls, Rounds;
    var size := |s|;
    forall a | 0 <= a < size
      ensures s[a] == MINSHORT <==> !SomeFalls(c, total, size, a)
      ensures forall i :: 0 <= i < |c| && LastFalls(c, total, size, i, a) ==> s[a] == Value(i)
    {
      InverseExact(c, total, size, a);
    }
    forall a, i, n | 0 <= a < size && 0 <= i < |c| && LastFalls(c, total, size, i, a) &&
                     Rounds(n, (i - 200000) * 8192, 50000)
      ensures r[a] == Clamp(n)
    {
      ValueRounds(i, n);
      ValueMonotone(i, i);
    }
    forall a, j: nat, k | Gap(c, total, size, a, j) && a < k < j
      ensures var from, to := From(r, a), To(r, j);
              0 <= (k - a) * (to - from) - (j - a) * (r[k] - from) < j - a
    {
      Neighbours(s, k, a, j);
      LeftRight(s, k);
      LineExact(k, a, Left(s, k), j, Right(s, k));
    }
  }

  /**
   * The whole construction: for every histogram with a positive total the table is the inverse of the
   * cumulative counts, never decreases, and stays within a short.
   */
  method MakeTable(histogram: array<int>, size: nat) returns (inverse: array<int>)
    requires forall k :: 0 <= k < histogram.Length ==> histogram[k] >= 0
    requires Sum(histogram[..]) > 0
    modifies histogram
    ensures inverse.Length == size
    ensures forall i, k :: 0 <= i <= k < size ==> MINSHORT <= inverse[i] <= inverse[k] <= MAXSHORT
    ensures IsCumulative(old(histogram[..]), histogram[..])
    ensures IsInverse(histogram[..], Sum(old(histogram[..])), inverse[..])
  {
    hide InverseAt, Filled, IsInverse;
    ghost var h := histogram[..];
    var total := Cumulate(histogram);
    var c := histogram[..];
    forall i | 0 <= i < |c| ensures 0 <= c[i] <= total {
      SumMonotone(h, i + 1, |h|);
      assert h[..|h|] == h;
    }
    inverse := Invert(c, size, total);
    ghost var s := inverse[..];
    assert SortedAnchors(s) by {
      forall a, b | 0 <= a < b < |s| ensures s[a] != MINSHORT && s[b] != MINSHORT ==> s[a] <= s[b] {
        InverseSorted(h, c, size, a, b);
      }
      forall a | 0 <= a < |s| ensures MINSHORT <= s[a] <= MAXSHORT { InverseSorted(h, c, size, a, a + 1); }
    }
    Interpolate(inverse);
    forall i, k | 0 <= i <= k < size ensures MINSHORT <= inverse[i] <= inverse[k] <= MAXSHORT {
      FilledMonotone(s, i, k);
    }
    FilledIsInverse(c, total, s, inverse[..]);
  }
}
