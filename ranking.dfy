/** The two sort buttons: the shared summary array is sorted in place by
    descending count or descending frequency, and each summary's rank in
    the new order picks its cell in a ten-column grid. */
module Ranking {
  import opened Tables
  import opened Aggregation

  /** Which ordering was asked for. */
  datatype Order = ByCount | ByFrequency

  /** The target point of a bubble in the ranked grid. */
  datatype Cell = Cell(x: int, y: int)

  /** Whether `b.frequency - a.frequency` is at most zero for a == `f`,
      b == `g`. A NaN difference compares as zero, as it does in the
      ECMAScript sort. Finite quotients are compared by cross-multiplying. */
  predicate FrequencyAtLeast(f: Frequency, g: Frequency): (b: bool)
    ensures f == NaN || g == NaN ==> b
    ensures f == Infinity ==> b
    ensures f.Ratio? && g == Infinity ==> !b
    ensures f.Ratio? && g.Ratio? && f.races > 0 && g.races > 0 ==>
      (b <==> (g.incidents as real) / (g.races as real) - (f.incidents as real) / (f.races as real) <= 0.0)
  {
    match (f, g)
    case (NaN, _) => true
    case (_, NaN) => true
    case (Infinity, _) => true
    case (Ratio(_, _), Infinity) => false
    case (Ratio(a, b), Ratio(c, d)) =>
      CrossMultiplicationIsDifference(a, b, c, d);
      c * b <= a * d
  }

  /** For positive denominators, `c * b <= a * d` says exactly that the
      difference of quotients `c/d - a/b` is at most zero. */
  lemma CrossMultiplicationIsDifference(a: nat, b: nat, c: nat, d: nat)
    ensures b > 0 && d > 0 ==>
      (c * b <= a * d <==> (c as real) / (d as real) - (a as real) / (b as real) <= 0.0)
  {
  }

  /** The comparator `(x, y) => y.key - x.key` is at most zero: a stable
      sort keeps `x` ahead of `y`. */
  predicate Precedes(order: Order, x: Summary, y: Summary): (b: bool)
    ensures order == ByCount ==> (b <==> y.count - x.count <= 0)
    ensures order == ByFrequency && x.frequency.Ratio? && y.frequency.Ratio?
              && x.totalrace > 0 && y.totalrace > 0
              && x.frequency == Ratio(x.count, x.totalrace) && y.frequency == Ratio(y.count, y.totalrace) ==>
      (b <==> (y.count as real) / (y.totalrace as real) - (x.count as real) / (x.totalrace as real) <= 0.0)
  {
    match order
    case ByCount => x.count >= y.count
    case ByFrequency => FrequencyAtLeast(x.frequency, y.frequency)
  }

  /** The summaries on which the comparator is a consistent order: every
      summary under `ByCount`; under `ByFrequency` every one whose frequency
      is not NaN and is not a quotient over zero races. */
  predicate Comparable(order: Order, x: Summary)
  {
    order == ByCount || x.frequency == Infinity || (x.frequency.Ratio? && x.frequency.races > 0)
  }

  ghost predicate Sorted(order: Order, s: seq<Summary>)
  {
    forall p, q :: 0 <= p < q < |s| ==> Precedes(order, s[p], s[q])
  }

  /** Any two summaries can be placed one way round. */
  lemma PrecedesTotal(order: Order, x: Summary, y: Summary)
    ensures Precedes(order, x, y) || Precedes(order, y, x)
  {
  }

  /** The comparator is transitive on comparable summaries. */
  lemma PrecedesTransitive(order: Order, x: Summary, y: Summary, z: Summary)
    requires Comparable(order, x) && Comparable(order, y) && Comparable(order, z)
    requires Precedes(order, x, y) && Precedes(order, y, z)
    ensures Precedes(order, x, z)
  {
    if order == ByFrequency && x.frequency.Ratio? && y.frequency.Ratio? && z.frequency.Ratio? {
      var a, b := x.frequency.incidents, x.frequency.races;
      var c, d := y.frequency.incidents, y.frequency.races;
      var e, f := z.frequency.incidents, z.frequency.races;
      CrossMultiplicationTransitive(a, b, c, d, e, f);
    }
  }

  /** c/d <= a/b and e/f <= c/d give e/f <= a/b for positive denominators. */
  lemma CrossMultiplicationTransitive(a: nat, b: nat, c: nat, d: nat, e: nat, f: nat)
    requires b > 0 && d > 0 && f > 0
    requires c * b <= a * d && e * d <= c * f
    ensures e * b <= a * f
  {
  }

  /** On the summaries the aggregation builds, the frequency comparator is
      consistent exactly on circuits with a race, and there it compares
      `count1 * races2` with `count2 * races1`. */
  lemma SummaryFrequencyOrder(circuits: seq<Circuit>, races: seq<Race>, results: seq<Result>, i: int, j: int)
    requires 0 <= i < |circuits| && 0 <= j < |circuits|
    ensures var data := Aggregate(circuits, races, results);
      && (Comparable(ByFrequency, data[i]) <==> data[i].totalrace > 0)
      && (data[i].totalrace > 0 && data[j].totalrace > 0 ==>
            (Precedes(ByFrequency, data[i], data[j]) <==>
             data[j].count * data[i].totalrace <= data[i].count * data[j].totalrace))
  {
    FrequencyCases(circuits[i], races, results);
    FrequencyCases(circuits[j], races, results);
  }

  /** The ranked grid: ten columns, 80 units apart, offset by 40. */
  function GridCell(rank: nat): (c: Cell)
    ensures 40 <= c.x <= 760 && 40 <= c.y
    ensures c.x == (rank % 10) * 80 + 40 && c.y == (rank / 10) * 80 + 40
  {
    Cell((rank % 10) * 80 + 40, (rank / 10) * 80 + 40)
  }

  /** The rank a grid cell stands for: row times ten plus column. */
  function CellRank(c: Cell): int
  {
    ((c.y - 40) / 80) * 10 + (c.x - 40) / 80
  }

  /** A rank is recovered from its cell. */
  lemma GridCellRoundTrip(rank: nat)
    ensures CellRank(GridCell(rank)) == rank
  {
  }

  /** Distinct ranks get distinct cells. */
  lemma GridCellInjective(r1: nat, r2: nat)
    ensures GridCell(r1) == GridCell(r2) ==> r1 == r2
  {
    GridCellRoundTrip(r1);
    GridCellRoundTrip(r2);
  }

  /** With `n` bubbles, every cell lies in the first `(n - 1) / 10 + 1` rows. */
  lemma GridCellRows(rank: nat, n: nat)
    requires rank < n
    ensures GridCell(rank).y <= ((n - 1) / 10) * 80 + 40
  {
  }

  method Swap(a: array<Summary>, i: int, j: int)
    requires 0 <= i < j < a.Length
    modifies a
    ensures a[i] == old(a[j]) && a[j] == old(a[i])
    ensures forall m :: 0 <= m < a.Length && m != i && m != j ==> a[m] == old(a[m])
    ensures multiset(a[..]) == multiset(old(a[..]))
  {
    a[i], a[j] := a[j], a[i];
  }

  /** `a.sort((x, y) => y.key - x.key)` as a stable insertion sort. The
      result is always a permutation of the input; it is in order when the
      comparator is consistent on every element; an input already in order
      is left as it is, so repeating the sort changes nothing. */
  method SortDescending(a: array<Summary>, order: Order)
    modifies a
    ensures multiset(a[..]) == multiset(old(a[..]))
    ensures (forall k :: 0 <= k < a.Length ==> Comparable(order, old(a[k]))) ==> Sorted(order, a[..])
    ensures Sorted(order, old(a[..])) ==> a[..] == old(a[..])
  {
    ghost var comparable := forall k :: 0 <= k < a.Length ==> Comparable(order, a[k]);
    ghost var sortedBefore := Sorted(order, a[..]);
    var i := 0;
    while i < a.Length
      invariant 0 <= i <= a.Length
      invariant multiset(a[..]) == multiset(old(a[..]))
      invariant comparable ==> forall k :: 0 <= k < a.Length ==> Comparable(order, a[k])
      invariant comparable ==> forall p, q :: 0 <= p < q < i ==> Precedes(order, a[p], a[q])
      invariant sortedBefore ==> a[..] == old(a[..])
    {
      var j := i;
      while j > 0 && !Precedes(order, a[j - 1], a[j])
        invariant 0 <= j <= i
        invariant multiset(a[..]) == multiset(old(a[..]))
        invariant comparable ==> forall k :: 0 <= k < a.Length ==> Comparable(order, a[k])
        invariant comparable ==> forall p, q :: 0 <= p < q <= i && p != j && q != j ==> Precedes(order, a[p], a[q])
        invariant forall q :: j < q <= i ==> Precedes(order, a[j], a[q])
        invariant sortedBefore ==> a[..] == old(a[..])
      {
        PrecedesTotal(order, a[j - 1], a[j]);
        Swap(a, j - 1, j);
        j := j - 1;
      }
      if comparable {
        forall p | 0 <= p < j - 1
          ensures Precedes(order, a[p], a[j])
        {
          PrecedesTransitive(order, a[p], a[j - 1], a[j]);
        }
      }
      i := i + 1;
    }
  }

  /** `orderByCount`: sort by descending count, then give rank r the cell
      `GridCell(r)`. */
  method OrderByCount(data: array<Summary>) returns (cells: seq<Cell>)
    modifies data
    ensures multiset(data[..]) == multiset(old(data[..]))
    ensures Sorted(ByCount, data[..])
    ensures Sorted(ByCount, old(data[..])) ==> data[..] == old(data[..])
    ensures |cells| == data.Length
    ensures forall r :: 0 <= r < |cells| ==> cells[r] == GridCell(r)
  {
    SortDescending(data, ByCount);
    cells := seq(data.Length, r requires 0 <= r < data.Length => GridCell(r));
  }

  /** `orderByFrequency`: sort by descending frequency, then give rank r the
      cell `GridCell(r)`. The order is promised only when no frequency is
      NaN; with a NaN the comparator is inconsistent and only the
      permutation is. */
  method OrderByFrequency(data: array<Summary>) returns (cells: seq<Cell>)
    modifies data
    ensures multiset(data[..]) == multiset(old(data[..]))
    ensures (forall k :: 0 <= k < data.Length ==> Comparable(ByFrequency, old(data[k]))) ==> Sorted(ByFrequency, data[..])
    ensures Sorted(ByFrequency, old(data[..])) ==> data[..] == old(data[..])
    ensures |cells| == data.Length
    ensures forall r :: 0 <= r < |cells| ==> cells[r] == GridCell(r)
  {
    SortDescending(data, ByFrequency);
    cells := seq(data.Length, r requires 0 <= r < data.Length => GridCell(r));
  }
}
