/** The data decisions inside `display_status` and the countdown in `main`:
    which streamers are listed as live and which as offline, the counts in
    the summary line, how titles, game names and viewer counts are
    shortened, how offline names are laid out three to a row, and which
    seconds the countdown shows. Clearing the screen, colours, box drawing
    and the actual printing happen outside the model. */
module Dashboard {
  import opened Text
  import opened OrderedDict
  import opened Streams

  function Max(a: int, b: int): int {
    if a < b then b else a
  }

  function Min(a: int, b: int): int {
    if a < b then a else b
  }

  // ---------------------------------------------------------------------------
  // Live / offline partition and the summary line
  // ---------------------------------------------------------------------------

  /** The snapshot entries whose live flag equals `live`, in snapshot order:
      the list comprehensions over `statuses.items()`. */
  function EntriesWhere(d: Snapshot, live: bool): (r: Snapshot)
    ensures |r| <= |d|
    ensures forall i :: 0 <= i < |r| ==> r[i].1.Live? == live
    ensures forall i :: 0 <= i < |d| && d[i].1.Live? == live ==> d[i] in r
    ensures forall i :: 0 <= i < |r| ==> r[i] in d
    decreases |d|
  {
    if |d| == 0 then []
    else
      var rest := EntriesWhere(d[1..], live);
      assert forall i :: 1 <= i < |d| ==> d[i] == d[1..][i - 1];
      if d[0].1.Live? == live then [d[0]] + rest else rest
  }

  function LiveEntries(d: Snapshot): Snapshot {
    EntriesWhere(d, true)
  }

  function OfflineEntries(d: Snapshot): Snapshot {
    EntriesWhere(d, false)
  }

  /** Filtering keeps the snapshot's order: it distributes over
      concatenation. */
  lemma {:induction false} EntriesWhereAppend(a: Snapshot, b: Snapshot, live: bool)
    ensures EntriesWhere(a + b, live) == EntriesWhere(a, live) + EntriesWhere(b, live)
    decreases |a|
  {
    if |a| > 0 {
      assert (a + b)[0] == a[0];
      assert (a + b)[1..] == a[1..] + b;
      EntriesWhereAppend(a[1..], b, live);
    } else {
      assert a + b == b;
    }
  }

  /** check.py lines 126-127: the live and offline lists split the snapshot: together
      they hold every entry exactly as often as the snapshot does. */
  lemma {:induction false} PartitionPermutes(d: Snapshot)
    ensures multiset(LiveEntries(d)) + multiset(OfflineEntries(d)) == multiset(d)
    ensures |LiveEntries(d)| + |OfflineEntries(d)| == |d|
    decreases |d|
  {
    if |d| > 0 {
      PartitionPermutes(d[1..]);
      assert d == [d[0]] + d[1..];
      assert multiset(d) == multiset([d[0]]) + multiset(d[1..]);
    }
  }

  /** The three figures of the summary line. */
  datatype Summary = Summary(live: int, offline: int, total: int)

  /** check.py lines 129-132: the offline figure is computed as total minus live; it
      is the length of the offline list. */
  function Summarize(d: Snapshot): (s: Summary)
    ensures s.live == |LiveEntries(d)| && s.total == |d|
    ensures s.offline == |OfflineEntries(d)|
    ensures 0 <= s.live <= s.total && 0 <= s.offline
  {
    PartitionPermutes(d);
    var liveCount := |LiveEntries(d)|;
    Summary(liveCount, |d| - liveCount, |d|)
  }

  // ---------------------------------------------------------------------------
  // Live cards: truncation and viewer counts
  // ---------------------------------------------------------------------------

  const TitleLimit: nat := 55
  const GameLimit: nat := 20
  const Ellipsis: string := "..."

  /** check.py lines 142-143: a text longer than `limit` is cut to its first `limit`
      characters followed by "..."; a shorter one is shown as it is. */
  function Truncate(s: string, limit: nat): (r: string)
    ensures |s| <= limit ==> r == s
    ensures |s| > limit ==> r == s[..limit] + Ellipsis
    ensures |r| <= Max(|s|, limit + |Ellipsis|)
    ensures s[..Min(|s|, limit)] <= r
  {
    if |s| > limit then s[..limit] + Ellipsis else s
  }

  /** The texts truncation leaves alone: those within the limit, and those
      that already look truncated. */
  lemma TruncateFixedPoints(s: string, limit: nat)
    ensures Truncate(s, limit) == s <==> |s| <= limit || (|s| == limit + |Ellipsis| && s[limit..] == Ellipsis)
  {
    if |s| > limit && Truncate(s, limit) == s {
      assert s[limit..] == Truncate(s, limit)[limit..];
    }
    if |s| == limit + |Ellipsis| && s[limit..] == Ellipsis {
      assert s == s[..limit] + s[limit..];
    }
  }

  /** check.py lines 109-113: `format_viewer_count`. Below 1000 the count is shown as
      `str(count)`; from 1000 on it is shown in thousands with one decimal
      and a "K". The figure shown is within 50 viewers of the count (the
      source rounds a binary float; this model rounds halves up). */
  function FormatViewerCount(count: int): (r: string)
    ensures |r| >= 1
    ensures count < 1000 ==> IsIntLiteral(r) && IntValue(r) == count
    ensures count >= 1000 <==> r[|r| - 1] == 'K'
    ensures count >= 1000 ==> ThousandsShape(r) && -50 <= ThousandsValue(r) - count <= 50
  {
    if count >= 1000 then
      var tenths: nat := (count + 50) / 100;
      var whole := NatToDecimal(tenths / 10);
      var r := whole + "." + [DigitChar(tenths % 10)] + "K";
      assert r[..|r| - 3] == whole;
      DecimalOfNatToDecimal(tenths / 10);
      assert ThousandsValue(r) == tenths * 100;
      r
    else
      IntToString(count)
  }

  /** `r` looks like "<digits>.<digit>K". */
  predicate ThousandsShape(r: string) {
    && |r| >= 4
    && AllDigits(r[..|r| - 3])
    && r[|r| - 3] == '.'
    && IsDigit(r[|r| - 2])
    && r[|r| - 1] == 'K'
  }

  /** The viewer count a "<digits>.<digit>K" figure stands for. */
  function ThousandsValue(r: string): int
    requires ThousandsShape(r)
  {
    DecimalValue(r[..|r| - 3]) * 1000 + DigitValue(r[|r| - 2]) * 100
  }

  /** What one live streamer's card shows. */
  datatype LiveCard = LiveCard(heading: string, title: string, game: string, viewers: string)

  /** check.py lines 140-148: the heading is the name upper-cased, the title is cut
      at 55 characters, the game at 20, and the viewer count is formatted. */
  function LiveCardOf(name: string, status: Status): (c: LiveCard)
    requires status.Live?
    ensures Lower(c.heading) == Lower(name)
    ensures forall i :: 0 <= i < |c.heading| ==> !('a' <= c.heading[i] <= 'z')
    ensures c.title == Truncate(status.title, TitleLimit) && c.game == Truncate(status.game, GameLimit)
    ensures c.viewers == FormatViewerCount(status.viewerCount)
  {
    LowerOfUpper(name);
    LiveCard(Upper(name), Truncate(status.title, TitleLimit), Truncate(status.game, GameLimit),
             FormatViewerCount(status.viewerCount))
  }

  // ---------------------------------------------------------------------------
  // Offline rows
  // ---------------------------------------------------------------------------

  const Columns: nat := 3
  const NameWidth: nat := 22

  /** The concatenation of a list of rows. */
  function Flatten<T>(rows: seq<seq<T>>): seq<T>
    decreases |rows|
  {
    if |rows| == 0 then [] else rows[0] + Flatten(rows[1..])
  }

  /** check.py lines 158-160: `xs[i:i+n]` for `i` in `range(0, len(xs), n)`. Joined
      back together the rows give `xs`; every row has between 1 and `n`
      elements, and only the last may have fewer than `n`. */
  function Chunks<T>(xs: seq<T>, n: nat): (rows: seq<seq<T>>)
    requires n > 0
    ensures Flatten(rows) == xs
    ensures forall i :: 0 <= i < |rows| ==> 1 <= |rows[i]| <= n
    ensures forall i :: 0 <= i < |rows| - 1 ==> |rows[i]| == n
    decreases |xs|
  {
    if |xs| == 0 then []
    else if |xs| <= n then
      assert Flatten([xs]) == xs + Flatten([]);
      [xs]
    else
      var rest := Chunks(xs[n..], n);
      var rows := [xs[..n]] + rest;
      assert rows[1..] == rest;
      assert xs == xs[..n] + xs[n..];
      rows
  }

  /** Past the first row, the rows are those of what follows it. */
  lemma ChunksTail<T>(xs: seq<T>, n: nat)
    requires n > 0 && |xs| > n
    ensures |Chunks(xs, n)| == 1 + |Chunks(xs[n..], n)|
    ensures forall i :: 1 <= i < |Chunks(xs, n)| ==> Chunks(xs, n)[i] == Chunks(xs[n..], n)[i - 1]
  {
  }

  /** The number of rows is `len(xs) / n` rounded up. */
  lemma {:induction false} ChunksCount<T>(xs: seq<T>, n: nat)
    requires n > 0
    ensures |Chunks(xs, n)| * n - n < |xs| <= |Chunks(xs, n)| * n
    decreases |xs|
  {
    if |xs| > n {
      ChunksTail(xs, n);
      ChunksCount(xs[n..], n);
      MulStep(|Chunks(xs, n)|, n);
    }
  }

  lemma MulStep(i: int, n: int)
    ensures i * n == (i - 1) * n + n
  {
  }

  /** Row `i` is the slice `xs[i*n : i*n+n]`, clamped at the end, exactly as
      the loop over `range(0, len(xs), n)` cuts it. */
  lemma ChunkSlice<T>(xs: seq<T>, n: nat, i: nat)
    requires n > 0
    requires i < |Chunks(xs, n)|
    ensures i * n < |xs|
    ensures Chunks(xs, n)[i] == xs[i * n..Min(i * n + n, |xs|)]
  {
    ChunkSliceFrom(xs, n, i);
    RowStartIsProduct(n, i);
    assert Chunks(xs, n)[i] == Row(xs, n, i);
  }

  /** Where row `i` starts: `i` rows of `n` elements before it. */
  function RowStart(n: nat, i: nat): nat {
    if i == 0 then 0 else RowStart(n, i - 1) + n
  }

  lemma RowStartStep(n: nat, i: nat)
    requires i > 0
    ensures RowStart(n, i) == n + RowStart(n, i - 1)
  {
  }

  lemma {:induction false} RowStartIsProduct(n: nat, i: nat)
    ensures RowStart(n, i) == i * n
  {
    if i > 0 {
      RowStartIsProduct(n, i - 1);
      MulStep(i, n);
    }
  }

  /** The first row is the first `n` elements, or all of them. */
  lemma ChunksHead<T>(xs: seq<T>, n: nat)
    requires n > 0 && |xs| > 0
    ensures |Chunks(xs, n)| > 0
    ensures Chunks(xs, n)[0] == xs[..Min(n, |xs|)]
  {
  }

  /** The slice of `xs` that row `i` covers when rows hold `n` elements. */
  function Row<T>(xs: seq<T>, n: nat, i: nat): seq<T>
    requires RowStart(n, i) < |xs|
  {
    xs[RowStart(n, i)..Min(RowStart(n, i) + n, |xs|)]
  }

  lemma {:induction false} ChunkSliceFrom<T>(xs: seq<T>, n: nat, i: nat)
    requires n > 0
    requires i < |Chunks(xs, n)|
    ensures RowStart(n, i) < |xs|
    ensures Chunks(xs, n)[i] == Row(xs, n, i)
    decreases i
  {
    if i == 0 {
      ChunksHead(xs, n);
      assert xs[..Min(n, |xs|)] == xs[0..Min(0 + n, |xs|)];
    } else {
      var tail := xs[n..];
      assert Chunks(xs, n)[i] == Chunks(tail, n)[i - 1] by {
        ChunksTail(xs, n);
      }
      ChunkSliceFrom(tail, n, i - 1);
      ShiftedRow(xs, n, i);
    }
  }

  /** Row `i - 1` of what follows the first row is row `i` of the whole. */
  lemma ShiftedRow<T>(xs: seq<T>, n: nat, i: nat)
    requires 0 < i && n < |xs|
    requires RowStart(n, i - 1) < |xs| - n
    ensures RowStart(n, i) < |xs|
    ensures Row(xs[n..], n, i - 1) == Row(xs, n, i)
  {
    var lo := RowStart(n, i - 1);
    var hi := Min(lo + n, |xs| - n);
    SliceOfSlice(xs, n, lo, hi);
  }

  lemma SliceOfSlice<T>(xs: seq<T>, a: nat, lo: nat, hi: nat)
    requires a <= |xs| && lo <= hi <= |xs| - a
    ensures xs[a..][lo..hi] == xs[a + lo..a + hi]
  {
  }

  /** `s + " " * (width - len(s))`, the `{s:<width}` format: `s` padded on
      the right with spaces to `width` characters, never cut. */
  function LeftJustify(s: string, width: nat): (r: string)
    ensures |r| == Max(width, |s|)
    ensures r[..|s|] == s
    ensures forall i :: |s| <= i < |r| ==> r[i] == ' '
  {
    if |s| >= width then s else s + seq(width - |s|, _ => ' ')
  }

  const Bullet: string := "  • "

  /** check.py line 161: one offline entry, a bullet followed by the padded name. */
  function OfflineCell(name: string): (cell: string)
    ensures |cell| == |Bullet| + Max(NameWidth, |name|)
    ensures cell[..|Bullet|] == Bullet
    ensures cell[|Bullet|..|Bullet| + |name|] == name
    ensures forall i :: |Bullet| + |name| <= i < |cell| ==> cell[i] == ' '
  {
    var padded := LeftJustify(name, NameWidth);
    assert (Bullet + padded)[|Bullet|..|Bullet| + |name|] == padded[..|name|];
    Bullet + padded
  }

  /** The width of the cell `{name:<22}` gives a name. */
  function CellWidth(name: string): nat {
    |Bullet| + Max(NameWidth, |name|)
  }

  /** The summed cell widths of a row. */
  function RowWidth(row: seq<string>): nat
    decreases |row|
  {
    if |row| == 0 then 0 else CellWidth(row[0]) + RowWidth(row[1..])
  }

  /** check.py line 162: the cells of one row, joined with nothing between
      them. The line is as wide as its cells together. */
  function RowText(row: seq<string>): (text: string)
    ensures |text| == RowWidth(row)
    decreases |row|
  {
    if |row| == 0 then "" else OfflineCell(row[0]) + RowText(row[1..])
  }

  /** Cell `i` of a row starts where the cells before it end. */
  lemma {:induction false} RowTextCell(row: seq<string>, i: nat)
    requires i < |row|
    ensures RowWidth(row[..i]) + CellWidth(row[i]) <= |RowText(row)|
         && RowText(row)[RowWidth(row[..i])..RowWidth(row[..i]) + CellWidth(row[i])] == OfflineCell(row[i])
    decreases i
  {
    if i == 0 {
      assert row[..0] == [];
    } else {
      var tail := row[1..];
      RowTextCell(tail, i - 1);
      assert RowWidth(row[..i]) == CellWidth(row[0]) + RowWidth(tail[..i - 1]) by {
        assert row[..i][0] == row[0] && row[..i][1..] == tail[..i - 1];
      }
      assert tail[i - 1] == row[i];
      var head := OfflineCell(row[0]);
      assert RowText(row) == head + RowText(tail) && |head| == CellWidth(row[0]);
      var lo := RowWidth(tail[..i - 1]);
      SliceAfter(head, RowText(tail), lo, lo + CellWidth(row[i]));
    }
  }

  lemma SliceAfter<T>(a: seq<T>, b: seq<T>, lo: nat, hi: nat)
    requires lo <= hi <= |b|
    ensures (a + b)[|a| + lo..|a| + hi] == b[lo..hi]
  {
  }

  /** When no name is wider than the field, every cell has the same width and
      the columns line up. */
  lemma {:induction false} RowTextWidth(row: seq<string>)
    requires forall i :: 0 <= i < |row| ==> |row[i]| <= NameWidth
    ensures |RowText(row)| == (|Bullet| + NameWidth) * |row|
    decreases |row|
  {
    if |row| > 0 {
      RowTextWidth(row[1..]);
    }
  }

  /** check.py lines 153-162: the names of the offline entries, in snapshot order,
      three to a row. */
  function OfflineRows(d: Snapshot): (rows: seq<seq<string>>)
    ensures Flatten(rows) == Keys(OfflineEntries(d))
    ensures forall i :: 0 <= i < |rows| ==> 1 <= |rows[i]| <= Columns
    ensures forall i :: 0 <= i < |rows| - 1 ==> |rows[i]| == Columns
  {
    Chunks(Keys(OfflineEntries(d)), Columns)
  }

  /** Row `i` of the offline block holds the offline names at positions
      `3*i` up to `3*i + 2`, as many as there are. */
  lemma OfflineRowLayout(d: Snapshot, i: nat)
    requires i < |OfflineRows(d)|
    ensures i * Columns < |OfflineEntries(d)|
         && OfflineRows(d)[i] == Keys(OfflineEntries(d))[i * Columns..Min(i * Columns + Columns, |OfflineEntries(d)|)]
  {
    ChunkSlice(Keys(OfflineEntries(d)), Columns, i);
  }

  // ---------------------------------------------------------------------------
  // Countdown
  // ---------------------------------------------------------------------------

  /** check.py line 189: `range(interval, 0, -1)`, the seconds shown before the next
      poll: interval, interval - 1, ..., 1, and nothing when the interval is
      not positive. */
  function Countdown(interval: int): (r: seq<int>)
    ensures |r| == Max(interval, 0)
    ensures forall i :: 0 <= i < |r| ==> r[i] == interval - i
    decreases interval
  {
    if interval <= 0 then [] else [interval] + Countdown(interval - 1)
  }

  /** The countdown shows exactly the seconds from 1 to the interval. */
  lemma CountdownMembers(interval: int, x: int)
    ensures x in Countdown(interval) <==> 1 <= x <= interval
  {
    var r := Countdown(interval);
    if 1 <= x <= interval {
      assert r[interval - x] == x;
    }
  }
}
