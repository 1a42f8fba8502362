/**
 * kernel/src/cache_manager.cpp: the contents a program sees through the write-back cache.
 *
 * A line buffer stands for one of the source's pool slices.  The view of a cache is the flash with
 * every cached line that lies inside the flash laid over it.  Lines that stick out of the flash can be
 * cached too, after a read or a write there; they show nowhere in the view.
 */
module CacheSpec {
  import opened Words
  import opened Sectors
  import opened StorageSpec

  const MAX_LINES: nat := 64

  datatype Line = Line(key: nat, size: nat, lastAccess: u32, dirty: bool, valid: bool)

  function Start(line: Line, lineSize: nat): nat { Times(line.key, lineSize) }

  /** The key of the line an offset lies in, and the offset's place in that line. */
  function KeyOf(offset: nat, lineSize: nat): nat
    requires lineSize > 0
  {
    offset / lineSize
  }

  function OffsetInLine(offset: nat, lineSize: nat): (o: nat)
    requires lineSize > 0
    ensures o < lineSize
  {
    offset % lineSize
  }

  predicate Covers(line: Line, lineSize: nat, i: nat) {
    Start(line, lineSize) <= i < Start(line, lineSize) + lineSize
  }

  /** The line that holds byte i, or -1. */
  function Owner(lines: seq<Line>, lineSize: nat, i: nat): (e: int)
    ensures -1 <= e < |lines|
    ensures e >= 0 ==> Covers(lines[e], lineSize, i)
    ensures e < 0 ==> forall f | 0 <= f < |lines| :: !Covers(lines[f], lineSize, i)
  {
    if |lines| == 0 then -1
    else if Covers(lines[|lines| - 1], lineSize, i) then |lines| - 1
    else Owner(lines[..|lines| - 1], lineSize, i)
  }

  predicate Inside(line: Line, lineSize: nat, total: nat) {
    Start(line, lineSize) + lineSize <= total
  }

  /** Buffers of one length, and no two entries for the same line. */
  ghost predicate Shaped(lines: seq<Line>, pool: seq<seq<byte>>, lineSize: nat) {
    && lineSize > 0 && |lines| <= |pool|
    && (forall e | 0 <= e < |pool| :: |pool[e]| == lineSize)
    && (forall e | 0 <= e < |lines| :: lines[e].valid)
    && (forall e, f | 0 <= e < f < |lines| :: lines[e].key != lines[f].key)
  }

  /** The bytes of the flash a line stands for. */
  function Range(line: Line, lineSize: nat, m: seq<byte>): seq<byte>
    requires Inside(line, lineSize, |m|)
  {
    m[Start(line, lineSize)..Start(line, lineSize) + lineSize]
  }

  ghost predicate CleanLinesMatch(lines: seq<Line>, pool: seq<seq<byte>>, m: seq<byte>, lineSize: nat)
    requires Shaped(lines, pool, lineSize)
  {
    forall e | 0 <= e < |lines| && !lines[e].dirty && Inside(lines[e], lineSize, |m|) :: pool[e] == Range(lines[e], lineSize, m)
  }

  ghost predicate Coherent(lines: seq<Line>, pool: seq<seq<byte>>, m: seq<byte>, lineSize: nat) {
    Shaped(lines, pool, lineSize) && CleanLinesMatch(lines, pool, m, lineSize)
  }

  function ViewAt(lines: seq<Line>, pool: seq<seq<byte>>, m: seq<byte>, lineSize: nat, i: nat): byte
    requires |lines| <= |pool| && i < |m| && forall e | 0 <= e < |pool| :: |pool[e]| == lineSize
  {
    var e := Owner(lines, lineSize, i);
    if e < 0 || !Inside(lines[e], lineSize, |m|) then m[i] else pool[e][i - Start(lines[e], lineSize)]
  }

  /** The flat byte array the cache stands for. */
  function View(lines: seq<Line>, pool: seq<seq<byte>>, m: seq<byte>, lineSize: nat): (v: seq<byte>)
    requires |lines| <= |pool| && forall e | 0 <= e < |pool| :: |pool[e]| == lineSize
    ensures |v| == |m|
    ensures forall i | 0 <= i < |m| :: v[i] == ViewAt(lines, pool, m, lineSize, i)
  {
    seq(|m|, i requires 0 <= i < |m| => ViewAt(lines, pool, m, lineSize, i))
  }

  // ---------------------------------------------------------------- lines do not overlap

  lemma LinesApart(a: Line, b: Line, lineSize: nat)
    requires a.key != b.key
    ensures Start(a, lineSize) + lineSize <= Start(b, lineSize) || Start(b, lineSize) + lineSize <= Start(a, lineSize)
  {
    if a.key < b.key {
      TimesMonotone(a.key, b.key, lineSize);
    } else {
      TimesMonotone(b.key, a.key, lineSize);
    }
  }

  lemma OwnerIs(lines: seq<Line>, pool: seq<seq<byte>>, lineSize: nat, i: nat, e: nat)
    requires Shaped(lines, pool, lineSize) && e < |lines| && Covers(lines[e], lineSize, i)
    ensures Owner(lines, lineSize, i) == e
  {
    var f := Owner(lines, lineSize, i);
    if f != e {
      LinesApart(lines[e], lines[f], lineSize);
    }
  }

  /** Who owns a byte depends on the keys only. */
  lemma {:induction false} OwnerByKeys(a: seq<Line>, b: seq<Line>, lineSize: nat, i: nat)
    requires |a| == |b| && forall e | 0 <= e < |a| :: a[e].key == b[e].key
    ensures Owner(a, lineSize, i) == Owner(b, lineSize, i)
    decreases |a|
  {
    if |a| > 0 {
      OwnerByKeys(a[..|a| - 1], b[..|b| - 1], lineSize, i);
    }
  }

  /** Bookkeeping fields do not show. */
  lemma ViewByKeys(a: seq<Line>, b: seq<Line>, pool: seq<seq<byte>>, m: seq<byte>, lineSize: nat)
    requires |a| == |b| <= |pool| && forall e | 0 <= e < |pool| :: |pool[e]| == lineSize
    requires forall e | 0 <= e < |a| :: a[e].key == b[e].key
    ensures View(a, pool, m, lineSize) == View(b, pool, m, lineSize)
  {
    forall i | 0 <= i < |m|
      ensures ViewAt(a, pool, m, lineSize, i) == ViewAt(b, pool, m, lineSize, i)
    {
      OwnerByKeys(a, b, lineSize, i);
    }
  }

  /** `after` is `before` with the data laid over it at offset o. */
  ghost predicate Patched(before: seq<byte>, after: seq<byte>, o: nat, data: seq<byte>) {
    o + |data| <= |before| && after == Overlaid(before, o, data)
  }

  /** The same after old bytes have been laid over it at s. */
  ghost predicate PatchedOverStale(before: seq<byte>, after: seq<byte>, s: nat, stale: seq<byte>, o: nat, data: seq<byte>) {
    && s + |stale| <= |before| && o + |data| <= |before|
    && after == Overlaid(Overlaid(before, s, stale), o, data)
  }

  /** Inside a cached line the view is the line's buffer. */
  lemma ViewInLine(lines: seq<Line>, pool: seq<seq<byte>>, m: seq<byte>, lineSize: nat, e: nat)
    requires Shaped(lines, pool, lineSize) && e < |lines| && Inside(lines[e], lineSize, |m|)
    ensures Range(lines[e], lineSize, View(lines, pool, m, lineSize)) == pool[e]
  {
    var s, v := Start(lines[e], lineSize), View(lines, pool, m, lineSize);
    forall i | s <= i < s + lineSize ensures v[i] == pool[e][i - s] {
      OwnerIs(lines, pool, lineSize, i, e);
    }
  }

  // ---------------------------------------------------------------- writing a line back

  lemma {:induction false} LineStartsAligned(key: nat, lineSize: nat, sector: nat)
    requires sector > 0 && Aligned(lineSize, sector)
    ensures Aligned(Times(key, lineSize), sector)
    decreases key
  {
    if key > 0 {
      LineStartsAligned(key - 1, lineSize, sector);
      AlignedSum(Times(key - 1, lineSize), lineSize, sector);
    }
  }

  /** A whole line of whole sectors goes to flash exactly. */
  lemma LineWriteIsExact(m: seq<byte>, sector: nat, key: nat, buf: seq<byte>)
    requires sector > 0 && |buf| > 0 && Aligned(|buf|, sector) && Times(key, |buf|) + |buf| <= |m|
    ensures Write(m, sector, Times(key, |buf|), buf) == Outcome(true, Overlaid(m, Times(key, |buf|), buf))
  {
    hide Write, Down, Times;
    var s := Times(key, |buf|);
    LineStartsAligned(key, |buf|, sector);
    AlignedSum(s, |buf|, sector);
    WriteStaysInside(m, sector, s, buf, s, s + |buf|);
    WriteThenRead(m, sector, s, buf);
    var r := Write(m, sector, s, buf).mem;
    assert forall i | s <= i < s + |buf| :: r[i] == r[s..s + |buf|][i - s] == buf[i - s];
    assert r == Overlaid(m, s, buf);
  }

  /**
   * Lines smaller than a sector cannot be written back safely: the bytes of the sector before the
   * line are erased with it.
   */
  lemma ShortLineWipesNeighbours(m: seq<byte>, sector: nat, start: nat, buf: seq<byte>, i: nat)
    requires sector > 0 && |buf| > 0 && Write(m, sector, start, buf).ok
    requires Down(start, sector) <= i < start
    ensures i < |m| && Write(m, sector, start, buf).mem[i] == 0xFF
  {
    MisalignedWriteWipes(m, sector, start, buf);
  }

  /** Every line of every flash is written back exactly. */
  ghost predicate WritesBackExactly(sector: nat, lineSize: nat)
    requires sector > 0
  {
    forall m: seq<byte>, key: nat, buf: seq<byte> | |buf| == lineSize && Times(key, lineSize) + lineSize <= |m| ::
      Write(m, sector, Times(key, lineSize), buf) == Outcome(true, Overlaid(m, Times(key, lineSize), buf))
  }

  /** That is so exactly for lines of whole sectors. */
  lemma WritesBackExactlyIff(sector: nat, lineSize: nat)
    requires sector > 0 && lineSize > 0
    ensures WritesBackExactly(sector, lineSize) <==> Aligned(lineSize, sector)
  {
    hide Write, Overlaid;
    if Aligned(lineSize, sector) {
      forall m: seq<byte>, key: nat, buf: seq<byte> | |buf| == lineSize && Times(key, lineSize) + lineSize <= |m|
        ensures Write(m, sector, Times(key, lineSize), buf) == Outcome(true, Overlaid(m, Times(key, lineSize), buf))
      {
        LineWriteIsExact(m, sector, key, buf);
      }
    } else {
      SecondLineSpoiled(sector, lineSize);
    }
  }

  lemma SpoiledBefore(m: seq<byte>, sector: nat, start: nat, buf: seq<byte>)
    requires sector > 0 && |buf| > 0 && 0 < start && start + |buf| <= |m|
    requires !Aligned(start, sector) && m[start - 1] == 0
    ensures Write(m, sector, start, buf) != Outcome(true, Overlaid(m, start, buf))
  {
    hide Write, Down;
    DownBounds(start, sector);
    if Write(m, sector, start, buf).ok {
      ShortLineWipesNeighbours(m, sector, start, buf, start - 1);
    }
  }

  /** The second line of a flash of zeros: writing it back erases the end of the first one. */
  lemma SecondLineSpoiled(sector: nat, lineSize: nat)
    requires sector > 0 && lineSize > 0 && !Aligned(lineSize, sector)
    ensures !WritesBackExactly(sector, lineSize)
  {
    hide Write, Aligned, Overlaid;
    var m, buf := Blanks(2 * lineSize), Blanks(lineSize);
    assert Times(1, lineSize) == lineSize;
    SpoiledBefore(m, sector, lineSize, buf);
    assert !(Write(m, sector, Times(1, lineSize), buf) == Outcome(true, Overlaid(m, Times(1, lineSize), buf)));
  }

  function Blanks(n: nat): (s: seq<byte>)
    ensures |s| == n && forall i | 0 <= i < n :: s[i] == 0
  {
    seq(n, _ => 0 as byte)
  }

  lemma RangesApart(a: Line, b: Line, lineSize: nat, m: seq<byte>, buf: seq<byte>)
    requires a.key != b.key && Inside(a, lineSize, |m|) && Inside(b, lineSize, |m|) && |buf| == lineSize
    ensures Range(b, lineSize, Overlaid(m, Start(a, lineSize), buf)) == Range(b, lineSize, m)
  {
    LinesApart(a, b, lineSize);
  }

  lemma OverlaidRange(a: Line, lineSize: nat, m: seq<byte>, buf: seq<byte>)
    requires Inside(a, lineSize, |m|) && |buf| == lineSize
    ensures Range(a, lineSize, Overlaid(m, Start(a, lineSize), buf)) == buf
  {
    assert Range(a, lineSize, Overlaid(m, Start(a, lineSize), buf)) == buf;
  }

  lemma WriteBackAt(lines: seq<Line>, pool: seq<seq<byte>>, m: seq<byte>, lineSize: nat, e: nat, dirty: bool, i: nat)
    requires Shaped(lines, pool, lineSize) && e < |lines| && Inside(lines[e], lineSize, |m|) && i < |m|
    ensures ViewAt(lines[e := lines[e].(dirty := dirty)], pool, Overlaid(m, Start(lines[e], lineSize), pool[e]), lineSize, i)
         == ViewAt(lines, pool, m, lineSize, i)
  {
    hide Owner, Times;
    OwnerByKeys(lines[e := lines[e].(dirty := dirty)], lines, lineSize, i);
    if Covers(lines[e], lineSize, i) {
      OwnerIs(lines, pool, lineSize, i, e);
    }
  }

  lemma WriteBackKeepsCoherent(lines: seq<Line>, pool: seq<seq<byte>>, m: seq<byte>, lineSize: nat, e: nat, dirty: bool)
    requires Coherent(lines, pool, m, lineSize) && e < |lines| && Inside(lines[e], lineSize, |m|)
    requires dirty ==> lines[e].dirty
    ensures Coherent(lines[e := lines[e].(dirty := dirty)], pool, Overlaid(m, Start(lines[e], lineSize), pool[e]), lineSize)
  {
    hide Times, Range, Overlaid;
    var n, after := Overlaid(m, Start(lines[e], lineSize), pool[e]), lines[e := lines[e].(dirty := dirty)];
    OverlaidLength(m, Start(lines[e], lineSize), pool[e]);
    forall f | 0 <= f < |after| && !after[f].dirty && Inside(after[f], lineSize, |n|)
      ensures pool[f] == Range(after[f], lineSize, n)
    {
      if f != e {
        RangesApart(lines[e], lines[f], lineSize, m, pool[e]);
      } else {
        OverlaidRange(lines[e], lineSize, m, pool[e]);
        SameRange(after[e], lines[e], lineSize, n);
      }
    }
  }

  lemma SameRange(a: Line, b: Line, lineSize: nat, m: seq<byte>)
    requires a.key == b.key && Inside(a, lineSize, |m|)
    ensures Range(a, lineSize, m) == Range(b, lineSize, m)
  {}

  lemma OverlaidLength(m: seq<byte>, o: nat, data: seq<byte>)
    requires o + |data| <= |m|
    ensures |Overlaid(m, o, data)| == |m|
  {}

  /** Writing a line back keeps the cache coherent and the view as it was, whether or not the line is marked clean. */
  lemma WriteBackKeepsView(lines: seq<Line>, pool: seq<seq<byte>>, m: seq<byte>, lineSize: nat, e: nat, dirty: bool)
    requires Coherent(lines, pool, m, lineSize) && e < |lines| && Inside(lines[e], lineSize, |m|)
    requires dirty ==> lines[e].dirty
    ensures var n := Overlaid(m, Start(lines[e], lineSize), pool[e]); var after := lines[e := lines[e].(dirty := dirty)];
      && Coherent(after, pool, n, lineSize)
      && View(after, pool, n, lineSize) == View(lines, pool, m, lineSize)
  {
    hide Owner, ViewAt, Times, Overlaid;
    WriteBackKeepsCoherent(lines, pool, m, lineSize, e, dirty);
    OverlaidLength(m, Start(lines[e], lineSize), pool[e]);
    var n, after := Overlaid(m, Start(lines[e], lineSize), pool[e]), lines[e := lines[e].(dirty := dirty)];
    forall i | 0 <= i < |m|
      ensures ViewAt(after, pool, n, lineSize, i) == ViewAt(lines, pool, m, lineSize, i)
    {
      WriteBackAt(lines, pool, m, lineSize, e, dirty, i);
    }
  }

  /** When every line inside the flash is clean the flash is the view. */
  lemma CleanViewIsFlash(lines: seq<Line>, pool: seq<seq<byte>>, m: seq<byte>, lineSize: nat)
    requires Coherent(lines, pool, m, lineSize)
    requires forall e | 0 <= e < |lines| && Inside(lines[e], lineSize, |m|) :: !lines[e].dirty
    ensures View(lines, pool, m, lineSize) == m
  {
    forall i | 0 <= i < |m| ensures ViewAt(lines, pool, m, lineSize, i) == m[i] {
      var e := Owner(lines, lineSize, i);
      if e >= 0 && Inside(lines[e], lineSize, |m|) {
        assert Range(lines[e], lineSize, m)[i - Start(lines[e], lineSize)] == m[i];
      }
    }
  }

  // ---------------------------------------------------------------- changing lines

  /** The view with a buffer laid over a line, if the line shows at all. */
  function Shown(v: seq<byte>, line: Line, lineSize: nat, buf: seq<byte>): (w: seq<byte>)
    requires |buf| == lineSize
    ensures |w| == |v|
  {
    if Inside(line, lineSize, |v|) then Overlaid(v, Start(line, lineSize), buf) else v
  }

  lemma StoreKeepsCoherent(lines: seq<Line>, pool: seq<seq<byte>>, m: seq<byte>, lineSize: nat, e: nat, buf: seq<byte>)
    requires Coherent(lines, pool, m, lineSize) && e < |lines| && |buf| == lineSize
    ensures Coherent(lines[e := lines[e].(dirty := true)], pool[e := buf], m, lineSize)
  {
    hide Times, Range;
    var after := lines[e := lines[e].(dirty := true)];
    assert forall f | 0 <= f < |after| && f != e :: after[f] == lines[f] && pool[e := buf][f] == pool[f];
  }

  lemma StoredAt(lines: seq<Line>, pool: seq<seq<byte>>, m: seq<byte>, lineSize: nat, e: nat, buf: seq<byte>, i: nat)
    requires Shaped(lines, pool, lineSize) && e < |lines| && |buf| == lineSize && i < |m|
    ensures ViewAt(lines[e := lines[e].(dirty := true)], pool[e := buf], m, lineSize, i)
         == if Covers(lines[e], lineSize, i) && Inside(lines[e], lineSize, |m|) then buf[i - Start(lines[e], lineSize)] else ViewAt(lines, pool, m, lineSize, i)
  {
    hide Owner, Times;
    OwnerByKeys(lines[e := lines[e].(dirty := true)], lines, lineSize, i);
    if Covers(lines[e], lineSize, i) {
      OwnerIs(lines, pool, lineSize, i, e);
    }
  }

  /** Storing a buffer in a line lays it over the view. */
  lemma StoreInLine(lines: seq<Line>, pool: seq<seq<byte>>, m: seq<byte>, lineSize: nat, e: nat, buf: seq<byte>)
    requires Coherent(lines, pool, m, lineSize) && e < |lines| && |buf| == lineSize
    ensures var after, p := lines[e := lines[e].(dirty := true)], pool[e := buf];
      && Coherent(after, p, m, lineSize)
      && View(after, p, m, lineSize) == Shown(View(lines, pool, m, lineSize), lines[e], lineSize, buf)
  {
    hide Owner, ViewAt, Times;
    StoreKeepsCoherent(lines, pool, m, lineSize, e, buf);
    var v, after, p := View(lines, pool, m, lineSize), lines[e := lines[e].(dirty := true)], pool[e := buf];
    forall i | 0 <= i < |m| ensures ViewAt(after, p, m, lineSize, i) == Shown(v, lines[e], lineSize, buf)[i] {
      StoredAt(lines, pool, m, lineSize, e, buf, i);
    }
  }

  /** No line has this key. */
  ghost predicate Missing(lines: seq<Line>, key: nat) {
    forall e | 0 <= e < |lines| :: lines[e].key != key
  }

  ghost predicate AllInside(lines: seq<Line>, lineSize: nat, total: nat) {
    forall e | 0 <= e < |lines| :: Inside(lines[e], lineSize, total)
  }

  /** Where lines lie depends on their keys only. */
  lemma InsideByKeys(a: seq<Line>, b: seq<Line>, lineSize: nat, total: nat)
    requires |a| == |b| && forall e | 0 <= e < |a| :: a[e].key == b[e].key
    ensures AllInside(a, lineSize, total) <==> AllInside(b, lineSize, total)
  {}

  /** A line that may be put into the cache with a buffer: dirty, or a copy of the flash, or outside the flash. */
  ghost predicate Fitting(lines: seq<Line>, m: seq<byte>, lineSize: nat, line: Line, buf: seq<byte>) {
    && |buf| == lineSize && line.valid && Missing(lines, line.key)
    && (line.dirty || (Inside(line, lineSize, |m|) ==> buf == Range(line, lineSize, m)))
  }

  /** A new line lays its buffer over the view. */
  lemma AppendLine(lines: seq<Line>, pool: seq<seq<byte>>, m: seq<byte>, lineSize: nat, line: Line, buf: seq<byte>)
    requires Coherent(lines, pool, m, lineSize) && |lines| < |pool| && Fitting(lines, m, lineSize, line, buf)
    ensures var after, p := lines + [line], pool[|lines| := buf];
      && Coherent(after, p, m, lineSize)
      && View(after, p, m, lineSize) == Shown(View(lines, pool, m, lineSize), line, lineSize, buf)
  {
    hide Times, Range;
    var after, p := lines + [line], pool[|lines| := buf];
    var v := View(lines, pool, m, lineSize);
    assert after[..|lines|] == lines;
    assert forall f | 0 <= f < |lines| :: p[f] == pool[f];
    forall i | 0 <= i < |m|
      ensures ViewAt(after, p, m, lineSize, i) == Shown(v, line, lineSize, buf)[i]
    {
      assert Owner(after, lineSize, i) == if Covers(line, lineSize, i) then |lines| else Owner(lines, lineSize, i);
      if Covers(line, lineSize, i) && Owner(lines, lineSize, i) >= 0 {
        LinesApart(line, lines[Owner(lines, lineSize, i)], lineSize);
      }
    }
  }

  /** The view when line e is dropped as it is: its bytes become those of the flash. */
  function Without(lines: seq<Line>, pool: seq<seq<byte>>, m: seq<byte>, lineSize: nat, e: nat): (v: seq<byte>)
    requires Shaped(lines, pool, lineSize) && e < |lines|
    ensures |v| == |m|
  {
    if Inside(lines[e], lineSize, |m|)
    then Overlaid(View(lines, pool, m, lineSize), Start(lines[e], lineSize), Range(lines[e], lineSize, m))
    else View(lines, pool, m, lineSize)
  }

  lemma WithoutAt(lines: seq<Line>, pool: seq<seq<byte>>, m: seq<byte>, lineSize: nat, e: nat, i: nat)
    requires Shaped(lines, pool, lineSize) && e < |lines| && i < |m|
    ensures Without(lines, pool, m, lineSize, e)[i]
         == if Covers(lines[e], lineSize, i) then m[i] else ViewAt(lines, pool, m, lineSize, i)
  {
    hide Owner, Times;
    if Covers(lines[e], lineSize, i) {
      OwnerIs(lines, pool, lineSize, i, e);
      if Inside(lines[e], lineSize, |m|) {
        assert Range(lines[e], lineSize, m)[i - Start(lines[e], lineSize)] == m[i];
      }
    }
  }

  /** Dropping a line whose buffer is what the flash holds does not show. */
  lemma WithoutMatching(lines: seq<Line>, pool: seq<seq<byte>>, m: seq<byte>, lineSize: nat, e: nat)
    requires Shaped(lines, pool, lineSize) && e < |lines|
    requires Inside(lines[e], lineSize, |m|) ==> pool[e] == Range(lines[e], lineSize, m)
    ensures Without(lines, pool, m, lineSize, e) == View(lines, pool, m, lineSize)
  {
    hide View, Times;
    if Inside(lines[e], lineSize, |m|) {
      ViewInLine(lines, pool, m, lineSize, e);
      OverlaySelf(View(lines, pool, m, lineSize), Start(lines[e], lineSize), pool[e]);
    }
  }

  lemma ReplacedAt(lines: seq<Line>, pool: seq<seq<byte>>, m: seq<byte>, lineSize: nat, e: nat, line: Line, buf: seq<byte>, i: nat)
    requires Shaped(lines, pool, lineSize) && e < |lines| && |buf| == lineSize && i < |m|
    requires Shaped(lines[e := line], pool[e := buf], lineSize)
    ensures ViewAt(lines[e := line], pool[e := buf], m, lineSize, i)
         == if Covers(line, lineSize, i) then (if Inside(line, lineSize, |m|) then buf[i - Start(line, lineSize)] else m[i])
            else Without(lines, pool, m, lineSize, e)[i]
  {
    hide Owner, Times, Without;
    WithoutAt(lines, pool, m, lineSize, e, i);
    var after, p := lines[e := line], pool[e := buf];
    assert forall g | 0 <= g < |lines| && g != e :: after[g] == lines[g];
    if Covers(line, lineSize, i) {
      OwnerIs(after, p, lineSize, i, e);
    } else {
      var f := Owner(after, lineSize, i);
      if f >= 0 {
        OwnerIs(lines, pool, lineSize, i, f);
        LinesApart(lines[e], lines[f], lineSize);
      } else {
        OnlyThisOne(lines, after, lineSize, e, i);
      }
    }
  }

  lemma OnlyThisOne(lines: seq<Line>, after: seq<Line>, lineSize: nat, e: nat, i: nat)
    requires |lines| == |after| && e < |lines| && forall g | 0 <= g < |lines| && g != e :: after[g] == lines[g]
    requires Owner(after, lineSize, i) < 0
    ensures Owner(lines, lineSize, i) == -1 || Owner(lines, lineSize, i) == e
  {
    hide Owner;
  }

  /** A line put in the place of another one: the old line is dropped as it is, the new buffer laid over. */
  lemma ReplaceLine(lines: seq<Line>, pool: seq<seq<byte>>, m: seq<byte>, lineSize: nat, e: nat, line: Line, buf: seq<byte>)
    requires Coherent(lines, pool, m, lineSize) && e < |lines| && Fitting(lines, m, lineSize, line, buf)
    ensures var after, p := lines[e := line], pool[e := buf];
      && Coherent(after, p, m, lineSize)
      && View(after, p, m, lineSize) == Shown(Without(lines, pool, m, lineSize, e), line, lineSize, buf)
  {
    hide Owner, ViewAt, Times, Range, Without;
    var after, p := lines[e := line], pool[e := buf];
    assert forall g | 0 <= g < |lines| && g != e :: after[g] == lines[g] && p[g] == pool[g];
    assert Coherent(after, p, m, lineSize);
    var w := Without(lines, pool, m, lineSize, e);
    WithoutLength(lines, pool, m, lineSize, e);
    forall i | 0 <= i < |m| ensures ViewAt(after, p, m, lineSize, i) == Shown(w, line, lineSize, buf)[i] {
      ReplacedAt(lines, pool, m, lineSize, e, line, buf, i);
      MissedAt(lines, pool, m, lineSize, e, line, i);
    }
  }

  lemma WithoutLength(lines: seq<Line>, pool: seq<seq<byte>>, m: seq<byte>, lineSize: nat, e: nat)
    requires Shaped(lines, pool, lineSize) && e < |lines|
    ensures |Without(lines, pool, m, lineSize, e)| == |m|
  {}

  /** A byte of a line that is not cached is seen in flash, also without line e. */
  lemma MissedAt(lines: seq<Line>, pool: seq<seq<byte>>, m: seq<byte>, lineSize: nat, e: nat, line: Line, i: nat)
    requires Shaped(lines, pool, lineSize) && e < |lines| && Missing(lines, line.key) && i < |m|
    ensures Covers(line, lineSize, i) ==> Without(lines, pool, m, lineSize, e)[i] == m[i]
  {
    hide Times, Without;
    WithoutAt(lines, pool, m, lineSize, e, i);
    var f := Owner(lines, lineSize, i);
    if Covers(line, lineSize, i) && f >= 0 {
      LinesApart(lines[f], line, lineSize);
    }
  }

  /** Copying flash into a new line is invisible. */
  lemma OverlaySelf(v: seq<byte>, s: nat, buf: seq<byte>)
    requires s + |buf| <= |v| && v[s..s + |buf|] == buf
    ensures Overlaid(v, s, buf) == v
  {
    assert forall i | s <= i < s + |buf| :: v[i] == v[s..s + |buf|][i - s];
  }

  /** Copying a line from the flash that was not cached does not show. */
  lemma LoadedUnseen(lines: seq<Line>, pool: seq<seq<byte>>, m: seq<byte>, lineSize: nat, line: Line)
    requires Shaped(lines, pool, lineSize) && Missing(lines, line.key) && Inside(line, lineSize, |m|)
    ensures Shown(View(lines, pool, m, lineSize), line, lineSize, Range(line, lineSize, m)) == View(lines, pool, m, lineSize)
    ensures forall e | 0 <= e < |lines| ::
      Shown(Without(lines, pool, m, lineSize, e), line, lineSize, Range(line, lineSize, m)) == Without(lines, pool, m, lineSize, e)
  {
    hide Without, View, ViewAt, Times;
    var v, s := View(lines, pool, m, lineSize), Start(line, lineSize);
    forall i | s <= i < s + lineSize ensures v[i] == m[i] {
      MissSeesFlash(lines, pool, m, lineSize, line, i);
    }
    assert Shown(v, line, lineSize, Range(line, lineSize, m)) == v;
    forall e | 0 <= e < |lines|
      ensures Shown(Without(lines, pool, m, lineSize, e), line, lineSize, Range(line, lineSize, m)) == Without(lines, pool, m, lineSize, e)
    {
      var w := Without(lines, pool, m, lineSize, e);
      WithoutLength(lines, pool, m, lineSize, e);
      forall i | s <= i < s + lineSize ensures w[i] == m[i] {
        MissedAt(lines, pool, m, lineSize, e, line, i);
      }
      assert Shown(w, line, lineSize, Range(line, lineSize, m)) == w;
    }
  }

  lemma MissSeesFlash(lines: seq<Line>, pool: seq<seq<byte>>, m: seq<byte>, lineSize: nat, line: Line, i: nat)
    requires Shaped(lines, pool, lineSize) && Missing(lines, line.key) && i < |m| && Covers(line, lineSize, i)
    ensures View(lines, pool, m, lineSize)[i] == m[i]
  {
    hide Times;
    var f := Owner(lines, lineSize, i);
    if f >= 0 {
      LinesApart(lines[f], line, lineSize);
    }
  }

  lemma OverlayTwice(v: seq<byte>, s: nat, a: seq<byte>, b: seq<byte>)
    requires |a| == |b| && s + |a| <= |v|
    ensures Overlaid(Overlaid(v, s, a), s, b) == Overlaid(v, s, b)
  {}

  /**
   * The write miss: the line is taken with whatever its buffer held and only the written bytes are
   * replaced.  That is right for every old buffer exactly when the write covers the whole line.
   */
  lemma MissTransparentIff(v: seq<byte>, s: nat, lineSize: nat, o: nat, data: seq<byte>)
    requires s <= o && o + |data| <= s + lineSize <= |v|
    ensures (forall stale: seq<byte> | |stale| == lineSize :: Overlaid(Overlaid(v, s, stale), o, data) == Overlaid(v, o, data))
       <==> |data| == lineSize
  {
    if |data| < lineSize {
      var i := if s < o then s else s + lineSize - 1;
      var stale := seq(lineSize, _ => if v[i] == 0 then 1 as byte else 0);
      assert Overlaid(Overlaid(v, s, stale), o, data)[i] == stale[i - s] != Overlaid(v, o, data)[i];
    } else {
      forall stale: seq<byte> | |stale| == lineSize
        ensures Overlaid(Overlaid(v, s, stale), o, data) == Overlaid(v, o, data)
      {
        OverlayTwice(v, s, stale, data);
      }
    }
  }

  // ---------------------------------------------------------------- eviction and flushing

  /** The entries after a write, as long as no line had to go: a new dirty line, or a hit stamped with the given time. */
  ghost predicate Written(lines: seq<Line>, after: seq<Line>, key: nat, lineSize: nat, now: u32) {
    if Missing(lines, key)
    then |lines| < MAX_LINES ==> after == lines + [Line(key, lineSize, 0, true, true)]
    else exists e | 0 <= e < |lines| && lines[e].key == key :: after == lines[e := lines[e].(dirty := true, lastAccess := now)]
  }

  /** The entry with the smallest stamp among the first n, the first of them if there are several. */
  function OldestOf(lines: seq<Line>, n: nat): (v: nat)
    requires 0 < n <= |lines|
    ensures v < n && forall e | 0 <= e < n :: lines[v].lastAccess <= lines[e].lastAccess
  {
    if n == 1 then 0
    else
      var v := OldestOf(lines, n - 1);
      if lines[n - 1].lastAccess < lines[v].lastAccess then n - 1 else v
  }

  /** Writing this line back does not return 0: the line sticks out of the flash, or the backend counts bytes. */
  predicate Blocks(line: Line, lineSize: nat, total: nat, counting: bool) {
    line.dirty && (counting || !Inside(line, lineSize, total))
  }

  /** The entry at which flush gives up, or the number of entries. */
  function StopAt(lines: seq<Line>, lineSize: nat, total: nat, counting: bool): (k: nat)
    ensures k <= |lines|
    ensures forall e | 0 <= e < k :: !Blocks(lines[e], lineSize, total, counting)
    ensures k < |lines| ==> Blocks(lines[k], lineSize, total, counting)
  {
    if |lines| == 0 then 0
    else
      var k := StopAt(lines[..|lines| - 1], lineSize, total, counting);
      if k < |lines| - 1 then k
      else if Blocks(lines[|lines| - 1], lineSize, total, counting) then |lines| - 1 else |lines|
  }

  /** Making room loses changes: the cache is full, and flushing gives up before it gets to the oldest line, which is dirty. */
  predicate Loses(lines: seq<Line>, lineSize: nat, total: nat, counting: bool) {
    && |lines| == MAX_LINES
    && var v := OldestOf(lines, |lines|);
    && lines[v].dirty && Inside(lines[v], lineSize, total)
    && StopAt(lines, lineSize, total, counting) < v
  }

  /** What is left to see after making room. */
  function Kept(lines: seq<Line>, pool: seq<seq<byte>>, m: seq<byte>, lineSize: nat, counting: bool): (v: seq<byte>)
    requires Shaped(lines, pool, lineSize)
    ensures |v| == |m|
  {
    if Loses(lines, lineSize, |m|, counting) then Without(lines, pool, m, lineSize, OldestOf(lines, |lines|))
    else View(lines, pool, m, lineSize)
  }

  /** The cache after a flush: entries, and the parts of the flash that decide what a dropped line would show. */
  ghost predicate Flushed(lines: seq<Line>, after: seq<Line>, pool: seq<seq<byte>>, m: seq<byte>, n: seq<byte>, lineSize: nat, counting: bool) {
    var k := StopAt(lines, lineSize, |m|, counting);
    && |after| == |lines| && |n| == |m|
    && (forall e | 0 <= e < |lines| :: after[e] == if e < k then lines[e].(dirty := false) else lines[e])
    && (forall e | k < e < |lines| && Inside(lines[e], lineSize, |m|) :: Range(lines[e], lineSize, n) == Range(lines[e], lineSize, m))
    && (k < |lines| && Inside(lines[k], lineSize, |m|) && |lines| <= |pool| ==> Range(lines[k], lineSize, n) == pool[k])
  }

  /** A flush changes nothing about the entries but their dirty flags. */
  lemma FlushedKeepsKeys(lines: seq<Line>, after: seq<Line>, pool: seq<seq<byte>>, m: seq<byte>, n: seq<byte>, lineSize: nat, counting: bool)
    requires Flushed(lines, after, pool, m, n, lineSize, counting)
    ensures |after| == |lines| && forall e | 0 <= e < |lines| :: after[e] == lines[e].(dirty := after[e].dirty)
  {
    hide StopAt, Range, Inside;
  }

  /** Dropping the oldest line after a flush: nothing is lost unless the flush gave up before it. */
  lemma DropAfterFlush(lines: seq<Line>, after: seq<Line>, pool: seq<seq<byte>>, m: seq<byte>, n: seq<byte>, lineSize: nat, counting: bool)
    requires Coherent(lines, pool, m, lineSize) && Coherent(after, pool, n, lineSize) && |lines| == MAX_LINES
    requires Flushed(lines, after, pool, m, n, lineSize, counting)
    requires View(after, pool, n, lineSize) == View(lines, pool, m, lineSize)
    ensures Without(after, pool, n, lineSize, OldestOf(lines, |lines|)) == Kept(lines, pool, m, lineSize, counting)
  {
    hide View, Times, Range, Overlaid, OldestOf;
    var v, k := OldestOf(lines, |lines|), StopAt(lines, lineSize, |m|, counting);
    OldestInside(lines);
    if Inside(lines[v], lineSize, |m|) {
      SameRange(after[v], lines[v], lineSize, n);
      if k < v && lines[v].dirty {
        assert Range(lines[v], lineSize, n) == Range(lines[v], lineSize, m);
      } else {
        WithoutMatching(after, pool, n, lineSize, v);
      }
    }
  }

  /** Making room shows exactly when it loses changes that the flash does not happen to hold. */
  lemma KeptIff(lines: seq<Line>, pool: seq<seq<byte>>, m: seq<byte>, lineSize: nat, counting: bool)
    requires Coherent(lines, pool, m, lineSize)
    ensures Kept(lines, pool, m, lineSize, counting) == View(lines, pool, m, lineSize)
       <==> (Loses(lines, lineSize, |m|, counting) ==>
              pool[OldestOf(lines, |lines|)] == Range(lines[OldestOf(lines, |lines|)], lineSize, m))
  {
    hide View, Times, Overlaid, Range;
    if Loses(lines, lineSize, |m|, counting) {
      var v := OldestOf(lines, |lines|);
      ViewInLine(lines, pool, m, lineSize, v);
      RangeLength(lines[v], lineSize, m);
      ViewLength(lines, pool, m, lineSize);
      OverlaidRange(lines[v], lineSize, View(lines, pool, m, lineSize), Range(lines[v], lineSize, m));
      if pool[v] == Range(lines[v], lineSize, m) {
        WithoutMatching(lines, pool, m, lineSize, v);
      }
    }
  }

  /** With a fresh cache behind a blocking line that was used twice, making room loses the second line. */
  lemma BlockedCacheLoses(lines: seq<Line>, lineSize: nat, total: nat, counting: bool)
    requires |lines| == MAX_LINES && Blocks(lines[0], lineSize, total, counting) && lines[0].lastAccess > 0
    requires lines[1].dirty && Inside(lines[1], lineSize, total)
    requires forall e | 1 <= e < |lines| :: lines[e].lastAccess == 0
    ensures Loses(lines, lineSize, total, counting) && OldestOf(lines, |lines|) == 1
  {
    hide StopAt, Blocks;
    OldestIsSecond(lines, |lines|);
    StopFirst(lines, lineSize, total, counting);
  }

  lemma {:induction false} OldestIsSecond(lines: seq<Line>, n: nat)
    requires 2 <= n <= |lines| && lines[0].lastAccess > 0 && forall e | 1 <= e < n :: lines[e].lastAccess == 0
    ensures OldestOf(lines, n) == 1
    decreases n
  {
    if n > 2 {
      OldestIsSecond(lines, n - 1);
    } else {
      assert OldestOf(lines, 1) == 0;
    }
  }

  lemma StopFirst(lines: seq<Line>, lineSize: nat, total: nat, counting: bool)
    requires |lines| > 0 && Blocks(lines[0], lineSize, total, counting)
    ensures StopAt(lines, lineSize, total, counting) == 0
  {}

  lemma RangeLength(line: Line, lineSize: nat, m: seq<byte>)
    requires Inside(line, lineSize, |m|)
    ensures |Range(line, lineSize, m)| == lineSize
  {}

  lemma ViewLength(lines: seq<Line>, pool: seq<seq<byte>>, m: seq<byte>, lineSize: nat)
    requires Shaped(lines, pool, lineSize)
    ensures |View(lines, pool, m, lineSize)| == |m|
  {}

  lemma OldestInside(lines: seq<Line>)
    requires |lines| > 0
    ensures OldestOf(lines, |lines|) < |lines|
  {}

  // ---------------------------------------------------------------- the flat array in front of which nobody stands

  /** What a program asks of the cache. */
  datatype Op = Load(offset: nat, len: nat) | Store(offset: nat, data: seq<byte>) | Sync

  datatype Answer = Bytes(bytes: seq<byte>) | Stored(n: nat) | Synced

  /** A call gets to the end of the line. */
  function Reach(offset: nat, len: nat, lineSize: nat): (n: nat)
    requires lineSize > 0
    ensures n <= len && n + OffsetInLine(offset, lineSize) <= lineSize
  {
    Min(len, lineSize - OffsetInLine(offset, lineSize))
  }

  lemma LineOfOffset(offset: nat, lineSize: nat)
    requires lineSize > 0
    ensures Times(KeyOf(offset, lineSize), lineSize) == Down(offset, lineSize) == offset - OffsetInLine(offset, lineSize)
    ensures Down(offset, lineSize) <= offset < Down(offset, lineSize) + lineSize
  {
    hide Down, Times;
    DownIsFloor(offset, lineSize);
    DownBounds(offset, lineSize);
  }

  /** The line of the call lies inside the flash. */
  predicate InRange(op: Op, lineSize: nat, total: nat)
    requires lineSize > 0
  {
    op.Sync? || Down(op.offset, lineSize) + lineSize <= total
  }

  /** Stores part of a line. */
  predicate Partial(op: Op, lineSize: nat)
    requires lineSize > 0
  {
    op.Store? && Reach(op.offset, |op.data|, lineSize) < lineSize
  }

  /** Nothing, or the old bytes of a line buffer. */
  predicate LineOrNothing(stale: seq<byte>, lineSize: nat) { stale == [] || |stale| == lineSize }

  /** A call on a flat array of bytes; a store into a line that was taken with old bytes shows those as well. */
  function FlatStep(v: seq<byte>, op: Op, stale: seq<byte>, lineSize: nat): (w: seq<byte>)
    requires lineSize > 0 && InRange(op, lineSize, |v|) && LineOrNothing(stale, lineSize)
    ensures |w| == |v|
  {
    if op.Store? then
      LineOfOffset(op.offset, lineSize);
      Overlaid(if stale == [] then v else Overlaid(v, Down(op.offset, lineSize), stale),
               op.offset, op.data[..Reach(op.offset, |op.data|, lineSize)])
    else v
  }

  function FlatAnswer(v: seq<byte>, op: Op, lineSize: nat): Answer
    requires lineSize > 0 && InRange(op, lineSize, |v|)
  {
    match op
    case Load(offset, len) =>
      LineOfOffset(offset, lineSize);
      Bytes(v[offset..offset + Reach(offset, len, lineSize)])
    case Store(offset, data) => Stored(Reach(offset, |data|, lineSize))
    case Sync => Synced
  }

  ghost predicate AllInRange(ops: seq<Op>, lineSize: nat, total: nat)
    requires lineSize > 0
  {
    forall k | 0 <= k < |ops| :: InRange(ops[k], lineSize, total)
  }

  ghost predicate Stale(stales: seq<seq<byte>>, ops: seq<Op>, lineSize: nat) {
    |stales| == |ops| && forall k | 0 <= k < |stales| :: LineOrNothing(stales[k], lineSize)
  }

  ghost function FlatRun(v: seq<byte>, ops: seq<Op>, stales: seq<seq<byte>>, lineSize: nat): (w: seq<byte>)
    requires lineSize > 0 && AllInRange(ops, lineSize, |v|) && Stale(stales, ops, lineSize)
    ensures |w| == |v|
    decreases |ops|
  {
    if |ops| == 0 then v
    else
      var n := |ops| - 1;
      FlatStep(FlatRun(v, ops[..n], stales[..n], lineSize), ops[n], stales[n], lineSize)
  }

  ghost function FlatAnswers(v: seq<byte>, ops: seq<Op>, stales: seq<seq<byte>>, lineSize: nat): (w: seq<Answer>)
    requires lineSize > 0 && AllInRange(ops, lineSize, |v|) && Stale(stales, ops, lineSize)
    decreases |ops|
  {
    if |ops| == 0 then []
    else
      var n := |ops| - 1;
      FlatAnswers(v, ops[..n], stales[..n], lineSize) + [FlatAnswer(FlatRun(v, ops[..n], stales[..n], lineSize), ops[n], lineSize)]
  }

  function NoneStale(n: nat): (s: seq<seq<byte>>)
    ensures |s| == n && forall k | 0 <= k < n :: s[k] == []
  {
    seq(n, _ => [])
  }

  /** The call before this one was on the same line. */
  predicate Follows(ops: seq<Op>, k: nat, lineSize: nat)
    requires lineSize > 0 && k < |ops|
  {
    k > 0 && !ops[k - 1].Sync? && !ops[k].Sync? && KeyOf(ops[k - 1].offset, lineSize) == KeyOf(ops[k].offset, lineSize)
  }

  /** Every store of part of a line comes right after another call on that line. */
  ghost predicate Prepared(ops: seq<Op>, lineSize: nat)
    requires lineSize > 0
  {
    forall k | 0 <= k < |ops| && Partial(ops[k], lineSize) :: Follows(ops, k, lineSize)
  }

  /** As long as no line sticks out of the flash and the backend returns 0, making room loses nothing. */
  lemma NothingLost(lines: seq<Line>, pool: seq<seq<byte>>, m: seq<byte>, lineSize: nat)
    requires Coherent(lines, pool, m, lineSize) && AllInside(lines, lineSize, |m|)
    ensures Kept(lines, pool, m, lineSize, false) == View(lines, pool, m, lineSize)
  {
    hide View, Times, Without, OldestOf;
    if |lines| > 0 {
      OldestInside(lines);
    }
  }
}

/** The cache in place over the storage manager. */
module Cache {
  import opened Words
  import opened Sectors
  import opened StorageSpec
  import opened Storage
  import opened CacheSpec

  class CacheManager {
    const storage: StorageManager
    const lineSize: nat
    const pool: array<seq<byte>>
    const entries: array<Line>
    var entryCount: nat
    var hits: u32
    var misses: u32

    ghost function Lines(): seq<Line>
      requires entryCount <= entries.Length
      reads this, entries
    {
      entries[..entryCount]
    }

    ghost function Flash(): seq<byte>
      reads storage.backend.mem
    {
      storage.backend.mem[..]
    }

    ghost function Repr(): set<object> { {this, pool, entries, storage.backend.mem} }

    /** Does the backend return byte counts?  The cache tests for 0. */
    ghost predicate Counting() { storage.backend.codes == ByteCount }

    /** A pool with room for every line, and lines of whole sectors. */
    ghost predicate Wired()
      reads Repr()
    {
      && storage.backend.Valid()
      && lineSize > 0 && Aligned(lineSize, storage.backend.sectorSize)
      && entries.Length == MAX_LINES && entryCount <= MAX_LINES
      && pool.Length == MAX_LINES && (forall e | 0 <= e < pool.Length :: |pool[e]| == lineSize)
      && pool as object != entries as object && pool as object != storage.backend.mem as object
      && entries as object != storage.backend.mem as object
    }

    ghost predicate Valid()
      reads Repr()
    {
      Wired() && Coherent(Lines(), pool[..], Flash(), lineSize)
    }

    /** What the cache looks like from outside. */
    ghost function Contents(): seq<byte>
      requires Wired()
      reads Repr()
    {
      View(Lines(), pool[..], Flash(), lineSize)
    }

    /** What it looks like once room for another line has been made. */
    ghost function KeptContents(): seq<byte>
      requires Valid()
      reads Repr()
    {
      Kept(Lines(), pool[..], Flash(), lineSize, Counting())
    }

    /** What it looks like when a slot's line, if there is one, is dropped as it is. */
    ghost function Dropped(slot: nat): seq<byte>
      requires Valid()
      reads Repr()
    {
      if slot < entryCount then Without(Lines(), pool[..], Flash(), lineSize, slot) else Contents()
    }

    constructor (storage: StorageManager, lineSize: nat)
      requires storage.backend.Valid() && lineSize > 0 && Aligned(lineSize, storage.backend.sectorSize)
      ensures Valid() && NoStrays() && this.storage == storage && this.lineSize == lineSize && entryCount == 0
      ensures Contents() == Flash()
      ensures fresh(this) && fresh(pool) && fresh(entries)
    {
      this.storage, this.lineSize := storage, lineSize;
      pool := new seq<byte>[MAX_LINES](_ => seq(lineSize, _ => 0 as byte));
      entries := new Line[MAX_LINES](_ => Line(0, 0, 0, false, false));
      entryCount, hits, misses := 0, 0, 0;
      new;
      CleanViewIsFlash(Lines(), pool[..], Flash(), lineSize);
    }

    /** The cached line with this key; only bookkeeping changes, and only on a hit. */
    method FindLine(lineKey: nat) returns (line: int)
      requires Valid()
      modifies this`hits, this`misses, entries
      ensures Valid() && Contents() == old(Contents())
      ensures forall e | 0 <= e < entryCount :: entries[e] == old(entries[e]).(lastAccess := entries[e].lastAccess)
      ensures line >= 0 ==> line < entryCount && entries[line].key == lineKey
      ensures line < 0 ==> line == -1 && Missing(Lines(), lineKey) && Lines() == old(Lines())
      ensures old(NoStrays()) <==> NoStrays()
      ensures line >= 0 ==> Lines() == old(Lines())[line := old(entries[line]).(lastAccess := Wrap32(hits + misses))]
      ensures hits == (if line < 0 then old(hits) else Wrap32(old(hits) + 1))
      ensures misses == if line < 0 then Wrap32(old(misses) + 1) else old(misses)
    {
      for i := 0 to entryCount
        invariant forall e | 0 <= e < i :: entries[e].key != lineKey
        invariant entries[..] == old(entries[..]) && Valid() && hits == old(hits) && misses == old(misses)
      {
        if entries[i].valid && entries[i].key == lineKey {
          hits := Wrap32(hits + 1);
          ghost var before := Lines();
          entries[i] := entries[i].(lastAccess := Wrap32(hits + misses));
          TouchKeepsCoherent(before, Lines(), pool[..], Flash(), lineSize);
          InsideByKeys(before, Lines(), lineSize, storage.backend.mem.Length);
          return i;
        }
      }
      misses := Wrap32(misses + 1);
      line := -1;
    }

    /** Index of the least recently used line. */
    method LeastRecentlyUsed() returns (lruIdx: nat)
      requires 0 < entryCount <= entries.Length
      ensures lruIdx == OldestOf(Lines(), entryCount)
    {
      lruIdx := 0;
      var lruAccess := entries[0].lastAccess;
      for i := 1 to entryCount
        invariant lruIdx == OldestOf(Lines(), i) && lruAccess == entries[lruIdx].lastAccess
      {
        if entries[i].lastAccess < lruAccess {
          lruAccess := entries[i].lastAccess;
          lruIdx := i;
        }
      }
    }

    /** Makes room for a line: a free slot, or the oldest line after a flush whose result is ignored. */
    method MakeRoom() returns (slot: nat)
      requires Valid()
      modifies entries, storage.backend.mem
      ensures Valid() && Contents() == old(Contents()) && Dropped(slot) == old(KeptContents())
      ensures slot <= entryCount && slot < MAX_LINES
      ensures forall e | 0 <= e < entryCount :: entries[e] == old(entries[e]).(dirty := entries[e].dirty)
      ensures entryCount < 64 ==> slot == entryCount && Lines() == old(Lines()) && Flash() == old(Flash())
      ensures old(NoStrays()) <==> NoStrays()
    {
      hide View, Without, Kept, Coherent, OldestOf, StopAt, AllInside, Times, Range, Blocks, Inside, Flushed;
      ghost var lines, m := Lines(), Flash();
      NothingKeptAside(lines, pool[..], m, lineSize, Counting());
      if entryCount < MAX_LINES {
        return entryCount;
      }
      slot := LeastRecentlyUsed();
      if entries[slot].dirty {
        var code := Flush();
        FlushedKeepsKeys(lines, Lines(), pool[..], m, Flash(), lineSize, Counting());
        assert forall e | 0 <= e < entryCount :: entries[e] == Lines()[e] && old(entries[e]) == lines[e];
        InsideByKeys(lines, Lines(), lineSize, |m|);
        DropAfterFlush(lines, Lines(), pool[..], m, Flash(), lineSize, Counting());
      } else {
        CleanDropUnseen(lines, pool[..], m, lineSize, slot);
      }
    }

    /**
     * Dirty lines go to flash one after the other, until one does not come back with 0.  So the result is 0
     * exactly when no dirty line sticks out of the flash and, if there is a dirty line, the backend does not
     * count bytes; then the flash is what the cache showed.  The contents stay either way.
     */
    method Flush() returns (code: int)
      requires Valid()
      modifies entries, storage.backend.mem
      ensures Valid() && Contents() == old(Contents())
      ensures Flushed(old(Lines()), Lines(), pool[..], old(Flash()), Flash(), lineSize, Counting())
      ensures code == 0 || code == -1
      ensures code == 0 <==> forall e | 0 <= e < entryCount :: !Blocks(old(entries[e]), lineSize, storage.backend.mem.Length, Counting())
      ensures code == 0 ==> Flash() == old(Contents()) && forall e | 0 <= e < entryCount :: !entries[e].dirty
    {
      hide View, Coherent, StopAt, Range, Times, Progress, Flushed, OnlyLine, Blocks, Inside;
      ghost var lines, m, total, counting := Lines(), Flash(), storage.backend.mem.Length, Counting();
      StopIs(lines, lineSize, total, counting);
      ProgressStarts(lines, m, lineSize);
      for i := 0 to entryCount
        invariant Valid() && Contents() == old(Contents()) && i <= StopAt(lines, lineSize, total, counting)
        invariant Progress(lines, Lines(), m, Flash(), lineSize, i)
      {
        ghost var before, n := Lines(), Flash();
        ProgressAt(lines, before, m, n, lineSize, i);
        var written := FlushLine(i);
        assert Lines() == before[i := if written == 0 then lines[i].(dirty := false) else lines[i]];
        ProgressStep(lines, before, Lines(), pool[..], m, n, Flash(), lineSize, i, counting);
        if written != 0 {
          return -1;
        }
      }
      ProgressEnds(lines, Lines(), pool[..], m, Flash(), lineSize, counting);
      CleanViewIsFlash(Lines(), pool[..], Flash(), lineSize);
      code := 0;
    }

    /** The loop body of flush for one entry. */
    method FlushLine(i: nat) returns (code: int)
      requires Valid() && i < entryCount
      modifies entries, storage.backend.mem
      ensures Valid() && Contents() == old(Contents())
      ensures code != 0 <==> Blocks(old(entries[i]), lineSize, storage.backend.mem.Length, Counting())
      ensures entries[i] == if code == 0 then old(entries[i]).(dirty := false) else old(entries[i])
      ensures forall e | 0 <= e < entryCount && e != i :: entries[e] == old(entries[e])
      ensures OnlyLine(old(Lines()), old(Flash()), Flash(), lineSize, i)
      ensures code != 0 && Inside(entries[i], lineSize, |Flash()|) ==> Range(entries[i], lineSize, Flash()) == pool[i]
    {
      hide View, Overlaid, Coherent, Range, Times;
      ghost var lines, m := Lines(), Flash();
      ShapedLines(lines, pool[..], m, lineSize);
      code := 0;
      NothingWritten(lines, m, lineSize, i);
      if entries[i].valid && entries[i].dirty {
        code := WriteBack(i);
        OthersKept(lines, pool[..], m, Flash(), lineSize, i);
        if code == 0 {
          entries[i] := entries[i].(dirty := false);
          assert Lines()[i := lines[i]] == lines;
          MarkedClean(lines, Lines(), pool[..], Flash(), lineSize, i);
        }
      }
    }

    /** One dirty line goes to flash; a line that sticks out of the flash stays behind. */
    method WriteBack(i: nat) returns (code: int)
      requires Valid() && i < entryCount && entries[i].dirty
      modifies storage.backend.mem
      ensures Valid() && Contents() == old(Contents())
      ensures code != 0 <==> Blocks(entries[i], lineSize, storage.backend.mem.Length, Counting())
      ensures Flash() == Shown(old(Flash()), entries[i], lineSize, pool[i])
    {
      hide View, StorageSpec.Write, Overlaid, Times, Down, Coherent;
      ghost var lines, m := Lines(), Flash();
      TimesIsProduct(entries[i].key, lineSize);
      BufferLength(lines, pool[..], m, lineSize, i);
      if Inside(entries[i], lineSize, |m|) {
        LineWriteIsExact(m, storage.backend.sectorSize, entries[i].key, pool[i]);
        WriteBackKeepsView(lines, pool[..], m, lineSize, i, true);
        assert lines[i := lines[i].(dirty := true)] == lines;
      } else {
        RefusedWrite(m, storage.backend.sectorSize, Times(entries[i].key, lineSize), pool[i]);
      }
      code := storage.Write(entries[i].key * lineSize, pool[i]);
    }

    /** Whether the line of an offset lies wholly inside the flash. */
    ghost predicate InFlash(offset: nat)
      requires lineSize > 0
      reads storage.backend.mem
    {
      Down(offset, lineSize) + lineSize <= storage.backend.mem.Length
    }

    /** Every cached line lies inside the flash. */
    ghost predicate NoStrays()
      requires Wired()
      reads Repr()
    {
      AllInside(Lines(), lineSize, storage.backend.mem.Length)
    }

    /** Puts a line with the given buffer into a slot made by MakeRoom. */
    method Install(slot: nat, line: Line, buf: seq<byte>)
      requires Valid() && slot <= entryCount && slot < MAX_LINES && Fitting(Lines(), Flash(), lineSize, line, buf)
      modifies this`entryCount, entries, pool
      ensures Valid() && Contents() == Shown(old(Dropped(slot)), line, lineSize, buf)
      ensures slot < entryCount && entries[slot] == line && pool[slot] == buf
      ensures Lines() == if slot == old(entryCount) then old(Lines()) + [line] else old(Lines())[slot := line]
      ensures old(NoStrays()) && Inside(line, lineSize, storage.backend.mem.Length) ==> NoStrays()
    {
      hide View, Without, Overlaid, Times;
      ghost var lines, p := Lines(), pool[..];
      if slot == entryCount {
        AppendLine(lines, p, Flash(), lineSize, line, buf);
        entryCount := entryCount + 1;
        entries[slot] := line;
        pool[slot] := buf;
        assert Lines() == lines + [line] && pool[..] == p[slot := buf];
      } else {
        ReplaceLine(lines, p, Flash(), lineSize, slot, line, buf);
        entries[slot] := line;
        pool[slot] := buf;
        assert Lines() == lines[slot := line] && pool[..] == p[slot := buf];
      }
    }

    /**
     * The miss path of read: make room, and let the backend fill the line.  It fails exactly when the line
     * sticks out of the flash or the backend counts bytes; the line is cached all the same.
     */
    method LoadLine(lineKey: nat) returns (line: int)
      requires Valid() && Missing(Lines(), lineKey)
      modifies Repr()
      ensures Valid() && Contents() == old(KeptContents())
      ensures exists e | 0 <= e < entryCount :: entries[e].key == lineKey && (line != -1 ==> line == e)
      ensures line == -1 <==> Counting() || Times(lineKey, lineSize) + lineSize > storage.backend.mem.Length
      ensures old(NoStrays()) && Times(lineKey, lineSize) + lineSize <= storage.backend.mem.Length ==> NoStrays()
    {
      hide View, Without, Kept, Overlaid, Times, Coherent, AllInside;
      TimesIsProduct(lineKey, lineSize);
      ghost var before := Lines();
      var slot := MakeRoom();
      StillMissing(before, Lines(), lineKey);
      var code, data := storage.Read(lineKey * lineSize, lineSize);
      var entry := Line(lineKey, lineSize, 0, false, true);
      if |data| == lineSize {
        ShapedLines(Lines(), pool[..], Flash(), lineSize);
        LoadedUnseen(Lines(), pool[..], Flash(), lineSize, entry);
        Install(slot, entry, data);
      } else {
        Install(slot, entry, pool[slot]);
      }
      line := if code != 0 then -1 else slot;
      assert entries[slot].key == lineKey;
    }

    /**
     * Reads through the cache.  The caller gets what the flat contents hold, up to the end of the line, and
     * the contents stay, unless making room for a missing line loses changes.  A read fails exactly when it
     * misses and the line sticks out of the flash or the backend counts bytes; the line is then cached with
     * whatever its buffer holds.
     */
    method Read(flashOffset: nat, len: nat) returns (n: int, buf: seq<byte>)
      requires Valid()
      modifies Repr()
      ensures Valid() && !Missing(Lines(), KeyOf(flashOffset, lineSize))
      ensures Contents() == if old(Missing(Lines(), KeyOf(flashOffset, lineSize))) then old(KeptContents()) else old(Contents())
      ensures old(NoStrays()) && InFlash(flashOffset) ==> NoStrays()
      ensures n == -1 <==> old(Missing(Lines(), KeyOf(flashOffset, lineSize))) && (Counting() || !InFlash(flashOffset))
      ensures n != -1 ==> n == Min(len, lineSize - OffsetInLine(flashOffset, lineSize)) == |buf|
      ensures n != -1 && InFlash(flashOffset) ==> flashOffset + n <= |Contents()| && buf == Contents()[flashOffset..flashOffset + n]
    {
      hide View, Kept, Overlaid, Coherent, Times, Down, KeyOf, OffsetInLine, AllInside;
      var lineKey := KeyOf(flashOffset, lineSize);
      LineOfOffset(flashOffset, lineSize);
      var line := FindLine(lineKey);
      if line < 0 {
        line := LoadLine(lineKey);
        if line < 0 {
          return -1, [];
        }
      }
      n, buf := CopyOut(line, flashOffset, len);
    }

    method CopyOut(line: nat, flashOffset: nat, len: nat) returns (n: int, buf: seq<byte>)
      requires Valid() && line < entryCount && Start(entries[line], lineSize) == Down(flashOffset, lineSize)
      ensures n == Min(len, lineSize - OffsetInLine(flashOffset, lineSize)) == |buf|
      ensures InFlash(flashOffset) ==> flashOffset + n <= |Contents()| && buf == Contents()[flashOffset..flashOffset + n]
    {
      hide View, Times, Down, KeyOf, Coherent;
      LineOfOffset(flashOffset, lineSize);
      BufferLength(Lines(), pool[..], Flash(), lineSize, line);
      var offsetInLine := OffsetInLine(flashOffset, lineSize);
      var copyLen := Min(len, lineSize - offsetInLine);
      if InFlash(flashOffset) {
        LineSeen(Lines(), pool[..], Flash(), lineSize, line);
        SliceInLine(Contents(), flashOffset - offsetInLine, lineSize, offsetInLine, copyLen);
      }
      n, buf := copyLen, pool[line][offsetInLine..offsetInLine + copyLen];
    }

    /** The miss path of write: make room and take the line as it lies in its buffer. */
    method ClaimLine(lineKey: nat) returns (line: nat, ghost stale: seq<byte>)
      requires Valid() && Missing(Lines(), lineKey)
      modifies Repr()
      ensures Valid() && line < entryCount && entries[line].key == lineKey
      ensures |stale| == lineSize && stale in old(pool[..])
      ensures Contents() == Shown(old(KeptContents()), entries[line], lineSize, stale)
      ensures old(NoStrays()) && Times(lineKey, lineSize) + lineSize <= storage.backend.mem.Length ==> NoStrays()
      ensures hits == old(hits) && misses == old(misses)
      ensures old(entryCount) < MAX_LINES ==>
        line == old(entryCount) && Lines() == old(Lines()) + [Line(lineKey, lineSize, 0, true, true)] && Flash() == old(Flash())
    {
      hide View, Without, Kept, Overlaid, Coherent, Times, AllInside;
      ghost var before := Lines();
      line := MakeRoom();
      StillMissing(before, Lines(), lineKey);
      stale := pool[line];
      Install(line, Line(lineKey, lineSize, 0, true, true), pool[line]);
    }

    /**
     * Writes into the cache.  A hit changes the contents in exactly the returned prefix.  A miss takes a line
     * as its buffer is: the line's other bytes become whatever the buffer held, unless the write covers them.
     * A line that sticks out of the flash takes the data as well; it shows nowhere, and no flush succeeds any more.
     */
    method Write(flashOffset: nat, buf: seq<byte>) returns (n: int, ghost stale: seq<byte>)
      requires Valid()
      modifies Repr()
      ensures Valid() && n == Min(|buf|, lineSize - OffsetInLine(flashOffset, lineSize))
      ensures |stale| == lineSize && stale in old(pool[..])
      ensures old(!Missing(Lines(), KeyOf(flashOffset, lineSize))) && InFlash(flashOffset) ==>
        Patched(old(Contents()), Contents(), flashOffset, buf[..n])
      ensures old(Missing(Lines(), KeyOf(flashOffset, lineSize))) && InFlash(flashOffset) ==>
        PatchedOverStale(old(KeptContents()), Contents(), Down(flashOffset, lineSize), stale, flashOffset, buf[..n])
      ensures old(Missing(Lines(), KeyOf(flashOffset, lineSize))) && InFlash(flashOffset) && n == lineSize ==>
        Patched(old(KeptContents()), Contents(), flashOffset, buf[..n])
      ensures !InFlash(flashOffset) ==>
        && Contents() == (if old(Missing(Lines(), KeyOf(flashOffset, lineSize))) then old(KeptContents()) else old(Contents()))
        && exists e | 0 <= e < entryCount :: Blocks(entries[e], lineSize, storage.backend.mem.Length, Counting())
      ensures hits == (if old(Missing(Lines(), KeyOf(flashOffset, lineSize))) then old(hits) else Wrap32(old(hits) + 1))
      ensures misses == if old(Missing(Lines(), KeyOf(flashOffset, lineSize))) then Wrap32(old(misses) + 1) else old(misses)
      ensures old(NoStrays()) && InFlash(flashOffset) ==> NoStrays()
      ensures !Missing(Lines(), KeyOf(flashOffset, lineSize))
      ensures Written(old(Lines()), Lines(), KeyOf(flashOffset, lineSize), lineSize, Wrap32(hits + misses))
      ensures old(!Missing(Lines(), KeyOf(flashOffset, lineSize)) || entryCount < MAX_LINES) ==> Flash() == old(Flash())
    {
      hide View, Kept, Overlaid, Coherent, Times, Down, Covers, KeyOf, OffsetInLine, AllInside;
      var lineKey := KeyOf(flashOffset, lineSize);
      LineOfOffset(flashOffset, lineSize);
      var line := FindLine(lineKey);
      stale := pool[0];
      ghost var hit, kept, lines, found := line >= 0, KeptContents(), old(Lines()), line;
      if line < 0 {
        line, stale := ClaimLine(lineKey);
      }
      ghost var claimed := Lines();
      n := CopyIn(line, flashOffset, buf);
      if hit {
        assert Lines() == lines[found := lines[found].(dirty := true, lastAccess := Wrap32(hits + misses))];
      } else {
        assert Lines() == claimed[line := claimed[line].(dirty := true)];
      }
      if InFlash(flashOffset) && !hit && n == lineSize {
        OverlayTwice(kept, flashOffset, stale, buf[..n]);
      }
    }

    method CopyIn(line: nat, flashOffset: nat, buf: seq<byte>) returns (n: nat)
      requires Valid() && line < entryCount && Start(entries[line], lineSize) == Down(flashOffset, lineSize)
      modifies entries, pool
      ensures n == Min(|buf|, lineSize - OffsetInLine(flashOffset, lineSize))
      ensures Valid() && entries[line] == old(entries[line]).(dirty := true)
      ensures Lines() == old(Lines())[line := old(entries[line]).(dirty := true)]
      ensures old(NoStrays()) <==> NoStrays()
      ensures if InFlash(flashOffset) then Patched(old(Contents()), Contents(), flashOffset, buf[..n]) else Contents() == old(Contents())
    {
      hide View, Overlaid, Coherent, Times, Down, KeyOf;
      LineOfOffset(flashOffset, lineSize);
      BufferLength(Lines(), pool[..], Flash(), lineSize, line);
      var offsetInLine := OffsetInLine(flashOffset, lineSize);
      var copyLen := Min(|buf|, lineSize - offsetInLine);
      ghost var lines, p := Lines(), pool[..];
      var filled := Overlaid(pool[line], offsetInLine, buf[..copyLen]);
      OverlaidLength(pool[line], offsetInLine, buf[..copyLen]);
      StorePrefix(lines, p, Flash(), lineSize, line, offsetInLine, buf[..copyLen]);
      pool[line] := filled;
      entries[line] := entries[line].(dirty := true);
      n := copyLen;
      assert Lines() == lines[line := lines[line].(dirty := true)] && pool[..] == p[line := filled];
      InsideByKeys(lines, Lines(), lineSize, storage.backend.mem.Length);
    }

    /** Forgets every line; unwritten changes are lost and the cache shows the flash. */
    method Invalidate()
      requires Wired()
      modifies this, entries
      ensures Valid() && NoStrays() && entryCount == 0 && hits == 0 && misses == 0
      ensures Contents() == Flash() == old(Flash())
    {
      for i := 0 to entryCount
        invariant Wired() && entryCount == old(entryCount)
      {
        entries[i] := entries[i].(valid := false, dirty := false);
      }
      entryCount, hits, misses := 0, 0, 0;
      CleanViewIsFlash(Lines(), pool[..], Flash(), lineSize);
    }
  }

  /**
   * A read that failed leaves its line cached, so that the same read right after it succeeds, with bytes
   * that were never read from the flash when the line sticks out of it.
   */
  method ReadTwice(cache: CacheManager, flashOffset: nat, len: nat) returns (first: int, second: int, buf: seq<byte>)
    requires cache.Valid() && Missing(cache.Lines(), KeyOf(flashOffset, cache.lineSize))
    requires cache.Counting() || !cache.InFlash(flashOffset)
    modifies cache.Repr()
    ensures first == -1 && second == Min(len, cache.lineSize - OffsetInLine(flashOffset, cache.lineSize)) == |buf|
    ensures cache.Valid() && cache.Contents() == old(cache.KeptContents())
    ensures cache.InFlash(flashOffset) ==>
      flashOffset + second <= |cache.Contents()| && buf == cache.Contents()[flashOffset..flashOffset + second]
  {
    first, buf := cache.Read(flashOffset, len);
    second, buf := cache.Read(flashOffset, len);
  }

  /**
   * One call on a cache that holds no line beyond the flash: the answer is that of a flat array, and so are
   * the contents, except that a miss which stores part of a line shows the old bytes of its buffer around it.
   */
  method Perform(cache: CacheManager, op: Op) returns (answer: Answer, ghost stale: seq<byte>)
    requires cache.Valid() && cache.NoStrays() && !cache.Counting() && InRange(op, cache.lineSize, |cache.Flash()|)
    modifies cache.Repr()
    ensures cache.Valid() && cache.NoStrays()
    ensures LineOrNothing(stale, cache.lineSize)
    ensures stale != [] ==> Partial(op, cache.lineSize) && old(Missing(cache.Lines(), KeyOf(op.offset, cache.lineSize)))
    ensures cache.Contents() == FlatStep(old(cache.Contents()), op, stale, cache.lineSize)
    ensures answer == FlatAnswer(old(cache.Contents()), op, cache.lineSize)
    ensures if op.Sync? then cache.Flash() == cache.Contents() else !Missing(cache.Lines(), KeyOf(op.offset, cache.lineSize))
  {
    hide CacheManager.Contents, CacheManager.Valid, CacheManager.NoStrays;
    stale := [];
    match op {
      case Load(offset, len) => answer := PerformLoad(cache, op);
      case Store(offset, data) => answer, stale := PerformStore(cache, op);
      case Sync =>
        PerformSync(cache);
        answer := Synced;
    }
  }

  method PerformLoad(cache: CacheManager, op: Op) returns (answer: Answer)
    requires cache.Valid() && cache.NoStrays() && !cache.Counting() && op.Load? && InRange(op, cache.lineSize, |cache.Flash()|)
    modifies cache.Repr()
    ensures cache.Valid() && cache.NoStrays() && cache.Contents() == old(cache.Contents())
    ensures answer == FlatAnswer(old(cache.Contents()), op, cache.lineSize)
    ensures !Missing(cache.Lines(), KeyOf(op.offset, cache.lineSize))
  {
    hide View, Kept, Coherent, Times, Down, KeyOf, OffsetInLine, AllInside;
    NothingLost(cache.Lines(), cache.pool[..], cache.Flash(), cache.lineSize);
    LineOfOffset(op.offset, cache.lineSize);
    var n, buf := cache.Read(op.offset, op.len);
    answer := Bytes(buf);
  }

  method PerformStore(cache: CacheManager, op: Op) returns (answer: Answer, ghost stale: seq<byte>)
    requires cache.Valid() && cache.NoStrays() && !cache.Counting() && op.Store? && InRange(op, cache.lineSize, |cache.Flash()|)
    modifies cache.Repr()
    ensures cache.Valid() && cache.NoStrays() && LineOrNothing(stale, cache.lineSize)
    ensures stale != [] ==> Partial(op, cache.lineSize) && old(Missing(cache.Lines(), KeyOf(op.offset, cache.lineSize)))
    ensures cache.Contents() == FlatStep(old(cache.Contents()), op, stale, cache.lineSize)
    ensures answer == FlatAnswer(old(cache.Contents()), op, cache.lineSize)
    ensures !Missing(cache.Lines(), KeyOf(op.offset, cache.lineSize))
  {
    hide View, Kept, Coherent, Times, Down, KeyOf, OffsetInLine, AllInside, Written, Missing, Overlaid;
    NothingLost(cache.Lines(), cache.pool[..], cache.Flash(), cache.lineSize);
    LineOfOffset(op.offset, cache.lineSize);
    ghost var missing := Missing(cache.Lines(), KeyOf(op.offset, cache.lineSize));
    var n;
    n, stale := cache.Write(op.offset, op.data);
    if !missing || n == cache.lineSize {
      stale := [];
    }
    answer := Stored(n);
  }

  method PerformSync(cache: CacheManager)
    requires cache.Valid() && cache.NoStrays() && !cache.Counting()
    modifies cache.Repr()
    ensures cache.Valid() && cache.NoStrays() && cache.Contents() == old(cache.Contents()) && cache.Flash() == cache.Contents()
  {
    hide View, Coherent, Times;
    ghost var lines := cache.Lines();
    var code := cache.Flush();
    InsideByKeys(lines, cache.Lines(), cache.lineSize, |cache.Flash()|);
  }

  /**
   * The cache is invisible.  On a cache that holds no line beyond the flash, any list of reads, writes and
   * flushes inside the flash, across hits, misses and evictions, gets the answers of a flat array and leaves
   * its contents, with a line's old buffer showing exactly where a miss stored part of a line.  When every
   * such store follows a call on its line, nothing old shows at all.
   */
  method Replay(cache: CacheManager, ops: seq<Op>) returns (answers: seq<Answer>, ghost stales: seq<seq<byte>>)
    requires cache.Valid() && cache.NoStrays() && !cache.Counting() && AllInRange(ops, cache.lineSize, |cache.Flash()|)
    modifies cache.Repr()
    ensures cache.Valid() && cache.NoStrays() && Stale(stales, ops, cache.lineSize)
    ensures cache.Contents() == FlatRun(old(cache.Contents()), ops, stales, cache.lineSize)
    ensures answers == FlatAnswers(old(cache.Contents()), ops, stales, cache.lineSize)
    ensures forall k | 0 <= k < |ops| && stales[k] != [] :: Partial(ops[k], cache.lineSize) && !Follows(ops, k, cache.lineSize)
    ensures Prepared(ops, cache.lineSize) ==> stales == NoneStale(|ops|)
    ensures |ops| > 0 && ops[|ops| - 1].Sync? ==> cache.Flash() == cache.Contents()
  {
    hide View, FlatStep, FlatAnswer, KeyOf, InRange, Partial, AllInside;
    answers, stales := [], [];
    ghost var v := cache.Contents();
    for k := 0 to |ops|
      invariant cache.Valid() && cache.NoStrays() && |cache.Flash()| == |v|
      invariant Stale(stales, ops[..k], cache.lineSize) && AllInRange(ops[..k], cache.lineSize, |v|)
      invariant cache.Contents() == FlatRun(v, ops[..k], stales, cache.lineSize)
      invariant answers == FlatAnswers(v, ops[..k], stales, cache.lineSize)
      invariant k > 0 && !ops[k - 1].Sync? ==> !Missing(cache.Lines(), KeyOf(ops[k - 1].offset, cache.lineSize))
      invariant k > 0 && ops[k - 1].Sync? ==> cache.Flash() == cache.Contents()
      invariant forall j | 0 <= j < k && stales[j] != [] :: Partial(ops[j], cache.lineSize) && !Follows(ops, j, cache.lineSize)
    {
      var answer;
      ghost var stale;
      answer, stale := Perform(cache, ops[k]);
      assert ops[..k + 1][..k] == ops[..k] && (stales + [stale])[..k] == stales;
      answers, stales := answers + [answer], stales + [stale];
    }
    assert ops[..|ops|] == ops;
  }

  /**
   * How a change gets lost.  On an empty cache, two writes to a line beyond the flash, writes that fill the
   * rest of the cache with whole lines, and one more miss: the write of line 1 was taken in full, and yet
   * the cache shows what the flash held there before.
   */
  method LoseChange(cache: CacheManager, far: nat, data: seq<byte>) returns (taken: int)
    requires cache.Valid() && cache.entryCount == 0 && cache.hits == 0 && cache.misses == 0
    requires !cache.InFlash(far) && Times(MAX_LINES + 1, cache.lineSize) <= |cache.Flash()| && |data| == cache.lineSize
    modifies cache.Repr()
    ensures cache.Valid() && taken == |data|
    ensures 2 * cache.lineSize <= |cache.Contents()|
    ensures cache.Contents()[cache.lineSize..2 * cache.lineSize] == old(cache.Flash())[cache.lineSize..2 * cache.lineSize]
  {
    hide View, Kept, Without, Coherent, Times, Down, KeyOf, OffsetInLine, Loses, Filling;
    ghost var m, farKey := cache.Flash(), KeyOf(far, cache.lineSize);
    FarKeyLarge(far, cache.lineSize, |m|);
    BlockFirst(cache, far, data);
    taken := FillLine(cache, 1, data, farKey);
    for k := 2 to MAX_LINES
      invariant cache.Valid() && cache.Flash() == m && Filling(cache.Lines(), k, farKey, cache.lineSize)
    {
      var n := FillLine(cache, k, data, farKey);
    }
    LineAt(1, cache.lineSize);
    SecondLineLost(cache.Lines(), cache.pool[..], m, farKey, cache.lineSize, cache.Counting());
    FillingMisses(cache.Lines(), MAX_LINES, farKey, cache.lineSize);
    LineAt(MAX_LINES, cache.lineSize);
    var code, buf := cache.Read(MAX_LINES * cache.lineSize, 1);
  }

  /** A blocking line that was used twice, and lines 1 to k - 1, all dirty and never looked at again. */
  ghost predicate Filling(lines: seq<Line>, k: nat, farKey: nat, lineSize: nat) {
    && 0 < k == |lines| && farKey > MAX_LINES && lines[0] == Line(farKey, lineSize, 2, true, true)
    && forall e | 1 <= e < k :: lines[e] == Line(e, lineSize, 0, true, true)
  }

  lemma FillingMisses(lines: seq<Line>, k: nat, farKey: nat, lineSize: nat)
    requires Filling(lines, k, farKey, lineSize) && k <= MAX_LINES
    ensures Missing(lines, k)
  {}

  lemma FillingOn(lines: seq<Line>, after: seq<Line>, k: nat, farKey: nat, lineSize: nat, now: u32)
    requires Filling(lines, k, farKey, lineSize) && k < MAX_LINES && Written(lines, after, k, lineSize, now)
    ensures Filling(after, k + 1, farKey, lineSize)
  {
    FillingMisses(lines, k, farKey, lineSize);
  }

  method BlockFirst(cache: CacheManager, far: nat, data: seq<byte>)
    requires cache.Valid() && cache.entryCount == 0 && cache.hits == 0 && cache.misses == 0
    requires KeyOf(far, cache.lineSize) > MAX_LINES
    modifies cache.Repr()
    ensures cache.Valid() && cache.Flash() == old(cache.Flash())
    ensures Filling(cache.Lines(), 1, KeyOf(far, cache.lineSize), cache.lineSize)
  {
    hide View, Kept, Without, Coherent, Times, Down, KeyOf, OffsetInLine, Loses, Patched, PatchedOverStale;
    ghost var farKey := KeyOf(far, cache.lineSize);
    var n, stale := cache.Write(far, data);
    assert cache.Lines() == [Line(farKey, cache.lineSize, 0, true, true)];
    n, stale := cache.Write(far, data);
  }

  method FillLine(cache: CacheManager, k: nat, data: seq<byte>, ghost farKey: nat) returns (n: int)
    requires cache.Valid() && k < MAX_LINES && Filling(cache.Lines(), k, farKey, cache.lineSize) && |data| == cache.lineSize
    modifies cache.Repr()
    ensures cache.Valid() && cache.Flash() == old(cache.Flash()) && n == |data|
    ensures Filling(cache.Lines(), k + 1, farKey, cache.lineSize)
  {
    hide View, Kept, Without, Coherent, Times, Down, KeyOf, OffsetInLine, Loses, Patched, PatchedOverStale, Filling, Written;
    ghost var lines := cache.Lines();
    LineAt(k, cache.lineSize);
    FillingMisses(lines, k, farKey, cache.lineSize);
    FillingLength(lines, k, farKey, cache.lineSize);
    ghost var stale;
    n, stale := cache.Write(k * cache.lineSize, data);
    FillingOn(lines, cache.Lines(), k, farKey, cache.lineSize, Wrap32(cache.hits + cache.misses));
  }

  lemma FillingLength(lines: seq<Line>, k: nat, farKey: nat, lineSize: nat)
    requires Filling(lines, k, farKey, lineSize)
    ensures |lines| == k
  {}

  lemma FarKeyLarge(far: nat, lineSize: nat, total: nat)
    requires lineSize > 0 && Down(far, lineSize) + lineSize > total && Times(MAX_LINES + 1, lineSize) <= total
    ensures KeyOf(far, lineSize) > MAX_LINES && Times(KeyOf(far, lineSize), lineSize) + lineSize > total && 2 * lineSize <= total
  {
    hide Down, Times;
    TimesMonotone(2, MAX_LINES + 1, lineSize);
    TimesIsProduct(2, lineSize);
    var key := KeyOf(far, lineSize);
    LineOfOffset(far, lineSize);
    if key <= MAX_LINES {
      TimesMonotone(key, MAX_LINES + 1, lineSize);
    }
  }

  /** The offset of a line, its key and its place. */
  lemma LineAt(k: nat, lineSize: nat)
    requires lineSize > 0
    ensures KeyOf(k * lineSize, lineSize) == k && OffsetInLine(k * lineSize, lineSize) == 0
    ensures Down(k * lineSize, lineSize) == Times(k, lineSize) == k * lineSize
  {
    TimesIsProduct(k, lineSize);
    DownOfSector(k * lineSize, k, lineSize);
    DownIsFloor(k * lineSize, lineSize);
    TimesIsProduct(k * lineSize / lineSize, lineSize);
    SameTimes(k, k * lineSize / lineSize, lineSize);
  }

  lemma SecondLineLost(lines: seq<Line>, pool: seq<seq<byte>>, m: seq<byte>, farKey: nat, lineSize: nat, counting: bool)
    requires Coherent(lines, pool, m, lineSize) && Filling(lines, MAX_LINES, farKey, lineSize)
    requires Times(farKey, lineSize) + lineSize > |m| && 2 * lineSize <= |m|
    ensures Kept(lines, pool, m, lineSize, counting)[lineSize..2 * lineSize] == m[lineSize..2 * lineSize]
  {
    hide View, Coherent;
    assert Times(1, lineSize) == lineSize;
    BlockedCacheLoses(lines, lineSize, |m|, counting);
    ShapedLines(lines, pool, m, lineSize);
    ViewLength(lines, pool, m, lineSize);
    OverlaidRange(lines[1], lineSize, View(lines, pool, m, lineSize), Range(lines[1], lineSize, m));
  }

  // ---------------------------------------------------------------- facts about hidden definitions

  lemma TouchKeepsCoherent(a: seq<Line>, b: seq<Line>, pool: seq<seq<byte>>, m: seq<byte>, lineSize: nat)
    requires Coherent(a, pool, m, lineSize) && |a| == |b|
    requires forall e | 0 <= e < |a| :: b[e] == a[e].(lastAccess := b[e].lastAccess)
    ensures Coherent(b, pool, m, lineSize) && View(b, pool, m, lineSize) == View(a, pool, m, lineSize)
  {
    hide View, Times;
    ViewByKeys(a, b, pool, m, lineSize);
  }

  lemma NothingKeptAside(lines: seq<Line>, pool: seq<seq<byte>>, m: seq<byte>, lineSize: nat, counting: bool)
    requires Coherent(lines, pool, m, lineSize)
    ensures |lines| < MAX_LINES || (|lines| == MAX_LINES && !lines[OldestOf(lines, |lines|)].dirty) ==>
      Kept(lines, pool, m, lineSize, counting) == View(lines, pool, m, lineSize)
  {}

  lemma CleanDropUnseen(lines: seq<Line>, pool: seq<seq<byte>>, m: seq<byte>, lineSize: nat, e: nat)
    requires Coherent(lines, pool, m, lineSize) && e < |lines| && !lines[e].dirty
    ensures Without(lines, pool, m, lineSize, e) == View(lines, pool, m, lineSize)
  {
    hide View;
    WithoutMatching(lines, pool, m, lineSize, e);
  }

  lemma StopIs(lines: seq<Line>, lineSize: nat, total: nat, counting: bool)
    ensures var k := StopAt(lines, lineSize, total, counting);
      && k <= |lines| && (forall e | 0 <= e < k :: !Blocks(lines[e], lineSize, total, counting))
      && (k < |lines| ==> Blocks(lines[k], lineSize, total, counting))
  {}

  lemma BufferLength(lines: seq<Line>, pool: seq<seq<byte>>, m: seq<byte>, lineSize: nat, line: nat)
    requires Coherent(lines, pool, m, lineSize) && line < |lines|
    ensures line < |pool| && |pool[line]| == lineSize && Shaped(lines, pool, lineSize)
  {}

  lemma LineSeen(lines: seq<Line>, pool: seq<seq<byte>>, m: seq<byte>, lineSize: nat, line: nat)
    requires Coherent(lines, pool, m, lineSize) && line < |lines| && Inside(lines[line], lineSize, |m|)
    ensures |View(lines, pool, m, lineSize)| == |m| && Range(lines[line], lineSize, View(lines, pool, m, lineSize)) == pool[line]
  {
    hide View;
    ViewInLine(lines, pool, m, lineSize, line);
  }

  /** From m to n only line i of the flash has changed, as far as the cached lines go. */
  ghost predicate OnlyLine(lines: seq<Line>, m: seq<byte>, n: seq<byte>, lineSize: nat, i: nat) {
    && |n| == |m|
    && forall e | 0 <= e < |lines| && e != i && Inside(lines[e], lineSize, |m|) :: Range(lines[e], lineSize, n) == Range(lines[e], lineSize, m)
  }

  lemma NothingWritten(lines: seq<Line>, m: seq<byte>, lineSize: nat, i: nat)
    ensures OnlyLine(lines, m, m, lineSize, i)
  {}

  lemma ShapedLines(lines: seq<Line>, pool: seq<seq<byte>>, m: seq<byte>, lineSize: nat)
    requires Coherent(lines, pool, m, lineSize)
    ensures Shaped(lines, pool, lineSize)
  {}

  /** The first i lines have been flushed, and the flash of the later ones is the original one. */
  ghost predicate Progress(lines: seq<Line>, after: seq<Line>, m: seq<byte>, n: seq<byte>, lineSize: nat, i: nat) {
    && |after| == |lines| && |n| == |m|
    && (forall e | 0 <= e < |lines| :: after[e] == if e < i then lines[e].(dirty := false) else lines[e])
    && forall e | i <= e < |lines| && Inside(lines[e], lineSize, |m|) :: Range(lines[e], lineSize, n) == Range(lines[e], lineSize, m)
  }

  lemma ProgressStarts(lines: seq<Line>, m: seq<byte>, lineSize: nat)
    ensures Progress(lines, lines, m, m, lineSize, 0)
  {}

  lemma ProgressAt(lines: seq<Line>, after: seq<Line>, m: seq<byte>, n: seq<byte>, lineSize: nat, i: nat)
    requires Progress(lines, after, m, n, lineSize, i) && i < |lines|
    ensures |after| == |lines| && after[i] == lines[i] && |n| == |m|
  {}

  /** One more line: either the progress goes on, or this is where the flush stops. */
  lemma ProgressStep(lines: seq<Line>, before: seq<Line>, after: seq<Line>, pool: seq<seq<byte>>, m: seq<byte>, n: seq<byte>, n': seq<byte>,
      lineSize: nat, i: nat, counting: bool)
    requires Progress(lines, before, m, n, lineSize, i) && i < |lines| && OnlyLine(before, n, n', lineSize, i)
    requires i <= StopAt(lines, lineSize, |m|, counting)
    ensures after == before[i := lines[i].(dirty := false)] ==> Progress(lines, after, m, n', lineSize, i + 1)
    ensures !Blocks(lines[i], lineSize, |m|, counting) ==> i + 1 <= StopAt(lines, lineSize, |m|, counting)
    ensures Blocks(lines[i], lineSize, |m|, counting) && after == before && (Inside(lines[i], lineSize, |m|) ==> |lines| <= |pool| && Range(lines[i], lineSize, n') == pool[i])
      ==> Flushed(lines, after, pool, m, n', lineSize, counting)
  {
    hide Range, Times;
    StopIs(lines, lineSize, |m|, counting);
    forall e | i < e < |lines| && Inside(lines[e], lineSize, |m|)
      ensures Range(lines[e], lineSize, n') == Range(lines[e], lineSize, m)
    {
      assert before[e] == lines[e];
    }
  }

  lemma ProgressEnds(lines: seq<Line>, after: seq<Line>, pool: seq<seq<byte>>, m: seq<byte>, n: seq<byte>, lineSize: nat, counting: bool)
    requires Progress(lines, after, m, n, lineSize, |lines|) && StopAt(lines, lineSize, |m|, counting) == |lines|
    ensures Flushed(lines, after, pool, m, n, lineSize, counting)
    ensures |after| == |lines| && forall e | 0 <= e < |lines| :: !after[e].dirty
  {}

  /** Writing one line leaves the flash of the others as it was. */
  lemma OthersKept(lines: seq<Line>, pool: seq<seq<byte>>, m: seq<byte>, n: seq<byte>, lineSize: nat, i: nat)
    requires Shaped(lines, pool, lineSize) && i < |lines| && n == Shown(m, lines[i], lineSize, pool[i])
    ensures OnlyLine(lines, m, n, lineSize, i)
    ensures Inside(lines[i], lineSize, |m|) ==> Range(lines[i], lineSize, n) == pool[i]
  {
    hide Range, Overlaid, Times;
    if Inside(lines[i], lineSize, |m|) {
      OverlaidRange(lines[i], lineSize, m, pool[i]);
      forall e | 0 <= e < |lines| && e != i && Inside(lines[e], lineSize, |m|) ensures Range(lines[e], lineSize, n) == Range(lines[e], lineSize, m) {
        RangesApart(lines[i], lines[e], lineSize, m, pool[i]);
      }
    }
  }

  /** A line that has reached the flash may be marked clean. */
  lemma MarkedClean(lines: seq<Line>, after: seq<Line>, pool: seq<seq<byte>>, m: seq<byte>, lineSize: nat, i: nat)
    requires i < |after| == |lines| && Coherent(after[i := lines[i]], pool, m, lineSize) && after[i] == lines[i].(dirty := false)
    requires Inside(lines[i], lineSize, |m|) ==> pool[i] == Range(lines[i], lineSize, m)
    ensures Coherent(after, pool, m, lineSize) && View(after, pool, m, lineSize) == View(after[i := lines[i]], pool, m, lineSize)
  {
    hide View, Times;
    var before := after[i := lines[i]];
    assert forall e | 0 <= e < |after| && e != i :: before[e] == after[e];
    ViewByKeys(after, before, pool, m, lineSize);
  }

  lemma StillMissing(a: seq<Line>, b: seq<Line>, key: nat)
    requires Missing(a, key) && |a| == |b| && forall e | 0 <= e < |a| :: b[e].key == a[e].key
    ensures Missing(b, key)
  {}

  lemma SliceInLine(v: seq<byte>, s: nat, lineSize: nat, o: nat, n: nat)
    requires s + lineSize <= |v| && o + n <= lineSize
    ensures v[s..s + lineSize][o..o + n] == v[s + o..s + o + n]
  {
    var x, y := v[s..s + lineSize][o..o + n], v[s + o..s + o + n];
    assert forall i | 0 <= i < n :: x[i] == v[s..s + lineSize][o + i] == y[i];
  }

  lemma OverlayPart(v: seq<byte>, s: nat, line: seq<byte>, o: nat, data: seq<byte>)
    requires s + |line| <= |v| && v[s..s + |line|] == line && o + |data| <= |line|
    ensures Overlaid(v, s, Overlaid(line, o, data)) == Overlaid(v, s + o, data)
  {
    var a, b := Overlaid(v, s, Overlaid(line, o, data)), Overlaid(v, s + o, data);
    forall i | 0 <= i < |v| ensures a[i] == b[i] {
      if s <= i < s + |line| {
        assert v[i] == v[s..s + |line|][i - s];
      }
    }
  }

  /** Storing part of a line lays just that part over the view. */
  lemma StorePrefix(lines: seq<Line>, pool: seq<seq<byte>>, m: seq<byte>, lineSize: nat, e: nat, o: nat, data: seq<byte>)
    requires Coherent(lines, pool, m, lineSize) && e < |lines| && o + |data| <= lineSize
    ensures var after, p := lines[e := lines[e].(dirty := true)], pool[e := Overlaid(pool[e], o, data)]; var v := View(lines, pool, m, lineSize);
      && Coherent(after, p, m, lineSize)
      && (if Inside(lines[e], lineSize, |m|)
          then Patched(v, View(after, p, m, lineSize), Start(lines[e], lineSize) + o, data)
          else View(after, p, m, lineSize) == v)
  {
    hide View, Overlaid, Times;
    OverlaidLength(pool[e], o, data);
    StoreInLine(lines, pool, m, lineSize, e, Overlaid(pool[e], o, data));
    if Inside(lines[e], lineSize, |m|) {
      LineSeen(lines, pool, m, lineSize, e);
      OverlayPart(View(lines, pool, m, lineSize), Start(lines[e], lineSize), pool[e], o, data);
    }
  }
}
