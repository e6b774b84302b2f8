/** The stationary bootstrap of `scripts/gate_power_study.py`: a stream that keeps its
    position across draws, and the trade calendar filled from it chunk by chunk. */
module StationaryStream {
  import opened Sequences
  import opened Arithmetic

  const CHUNK: nat := 256
  const MAX_CHUNKS: nat := 100_000

  // ---------------------------------------------------------------- the stream

  predicate InRange(s: seq<int>, nObs: int) {
    forall i :: 0 <= i < |s| ==> 0 <= s[i] < nObs
  }

  /** One draw: a fresh block start, or the next observation, wrapping round. */
  function Next(p: int, nObs: int, coin: bool, start: int): (q: int)
    requires -1 <= p < nObs && 0 <= start < nObs
    ensures 0 <= q < nObs
  {
    if p < 0 || coin then start else if p + 1 == nObs then 0 else p + 1
  }

  /** Wrapping round is arithmetic modulo the number of observations. */
  lemma NextIsModular(p: int, nObs: int, coin: bool, start: int)
    requires -1 <= p < nObs && 0 <= start < nObs
    ensures Next(p, nObs, coin, start) == if p < 0 || coin then start else (p + 1) % nObs
  {
    if p + 1 < nObs {
    }
  }

  function DrawFrom(p: int, nObs: int, coins: seq<bool>, starts: seq<int>): (out: seq<int>)
    requires -1 <= p < nObs && |coins| == |starts| && InRange(starts, nObs)
    ensures |out| == |coins| && InRange(out, nObs)
    decreases |coins|
  {
    if coins == [] then []
    else
      var q := Next(p, nObs, coins[0], starts[0]);
      [q] + DrawFrom(q, nObs, coins[1..], starts[1..])
  }

  /** Where the stream stands after a draw. */
  function Last(p: int, out: seq<int>): int {
    if out == [] then p else out[|out| - 1]
  }

  /** Each index opens a block or continues the one before it. */
  lemma {:induction false} DrawAt(p: int, nObs: int, coins: seq<bool>, starts: seq<int>, t: nat)
    requires -1 <= p < nObs && |coins| == |starts| && InRange(starts, nObs) && t < |coins|
    ensures var out := DrawFrom(p, nObs, coins, starts);
            out[t] == Next(if t == 0 then p else out[t - 1], nObs, coins[t], starts[t])
    decreases t
  {
    if t > 0 {
      DrawAt(Next(p, nObs, coins[0], starts[0]), nObs, coins[1..], starts[1..], t - 1);
    }
  }

  /** Two consecutive draws are one longer draw: the position is all a stream remembers. */
  lemma {:induction false} DrawsCompose(p: int, nObs: int, c1: seq<bool>, s1: seq<int>, c2: seq<bool>, s2: seq<int>)
    requires -1 <= p < nObs && |c1| == |s1| && |c2| == |s2| && InRange(s1, nObs) && InRange(s2, nObs)
    ensures var out := DrawFrom(p, nObs, c1, s1);
            DrawFrom(p, nObs, c1 + c2, s1 + s2) == out + DrawFrom(Last(p, out), nObs, c2, s2)
    decreases |c1|
  {
    if c1 == [] {
      assert c1 + c2 == c2 && s1 + s2 == s2;
    } else {
      assert (c1 + c2)[1..] == c1[1..] + c2 && (s1 + s2)[1..] == s1[1..] + s2;
      DrawsCompose(Next(p, nObs, c1[0], s1[0]), nObs, c1[1..], s1[1..], c2, s2);
    }
  }

  class Stream {
    const nObs: int
    var pos: int

    ghost predicate Valid()
      reads this
    {
      nObs >= 1 && -1 <= pos < nObs
    }

    /** Raises unless the series holds an observation and the block length is at least one. */
    static method Open(nObs: int, blockLength: real) returns (r: Result<Stream>)
      ensures r.Ok? <==> nObs >= 1 && blockLength >= 1.0
      ensures r.Ok? ==> fresh(r.value) && r.value.Valid() && r.value.pos == -1 && r.value.nObs == nObs
    {
      if nObs < 1 {
        return Err("the series needs at least one observation");
      }
      if blockLength < 1.0 {
        return Err("block_length must be >= 1");
      }
      var s := new Stream(nObs);
      r := Ok(s);
    }

    constructor (nObs: int)
      requires nObs >= 1
      ensures Valid() && this.nObs == nObs && pos == -1
    {
      this.nObs := nObs;
      pos := -1;
    }

    /** The next |coins| indices; `coins` and `starts` are what the generator yields. */
    method Draw(coins: seq<bool>, starts: seq<int>) returns (out: array<int>)
      requires Valid() && |coins| == |starts| && InRange(starts, nObs)
      modifies `pos
      ensures Valid() && fresh(out)
      ensures out[..] == DrawFrom(old(pos), nObs, coins, starts)
      ensures pos == Last(old(pos), out[..]) && InRange(out[..], nObs)
    {
      out := new int[|coins|](_ => 0);
      var p := pos;
      ghost var spec := DrawFrom(pos, nObs, coins, starts);
      for t := 0 to |coins|
        invariant pos == old(pos)
        invariant forall i :: 0 <= i < t ==> out[i] == spec[i]
        invariant p == if t == 0 then pos else spec[t - 1]
      {
        DrawAt(pos, nObs, coins, starts, t);
        NextIsModular(p, nObs, coins[t], starts[t]);
        p := if p < 0 || coins[t] then starts[t] else (p + 1) % nObs;
        out[t] := p;
      }
      assert out[..] == spec;
      pos := p;
    }
  }

  // ---------------------------------------------------------------- the endless calendar

  /** What the generator yields at each draw, and the seed's own entry gaps and holding times. */
  datatype Source = Source(nObs: int, coin: nat -> bool, start: nat -> int, gap: seq<int>, hold: seq<int>)

  ghost predicate WellFormed(g: Source) {
    && g.nObs >= 1 && |g.gap| == |g.hold| == g.nObs
    && (forall t: nat :: 0 <= g.start(t) < g.nObs)
    && (forall i :: 0 <= i < |g.gap| ==> 0 <= g.gap[i])
  }

  /** The observation drawn at position t of the endless stream. */
  ghost function IndexAt(g: Source, t: nat): (i: int)
    requires WellFormed(g)
    ensures 0 <= i < g.nObs
  {
    Next(if t == 0 then -1 else IndexAt(g, t - 1), g.nObs, g.coin(t), g.start(t))
  }

  /** Time elapsed once n trades have been drawn. */
  ghost function Elapsed(g: Source, n: nat): int
    requires WellFormed(g)
  {
    if n == 0 then 0 else Elapsed(g, n - 1) + g.gap[IndexAt(g, n - 1)]
  }

  /** When trade t of the endless stream enters, counted from the start. */
  ghost function Arrival(g: Source, t: nat): int
    requires WellFormed(g)
  {
    Elapsed(g, t + 1)
  }

  lemma {:induction false} ElapsedMonotone(g: Source, m: nat, n: nat)
    requires WellFormed(g) && m <= n
    ensures Elapsed(g, m) <= Elapsed(g, n)
    decreases n
  {
    if m < n {
      ElapsedMonotone(g, m, n - 1);
    }
  }

  ghost function Prefix(g: Source, n: nat): (r: seq<int>)
    requires WellFormed(g)
    ensures |r| == n
  {
    seq(n, t requires 0 <= t < n => IndexAt(g, t))
  }

  function CoinsAt(g: Source, from: nat, n: nat): seq<bool> {
    seq(n, i requires 0 <= i < n => g.coin(from + i))
  }

  function StartsAt(g: Source, from: nat, n: nat): seq<int> {
    seq(n, i requires 0 <= i < n => g.start(from + i))
  }

  /** Where the endless stream stands before position `from`. */
  ghost function Before(g: Source, from: nat): (p: int)
    requires WellFormed(g)
    ensures -1 <= p < g.nObs
  {
    if from == 0 then -1 else IndexAt(g, from - 1)
  }

  /** idx is the stretch of the endless stream that starts at position `from`. */
  ghost predicate IsStretch(g: Source, from: nat, idx: seq<int>)
    requires WellFormed(g)
  {
    forall i :: 0 <= i < |idx| ==> idx[i] == IndexAt(g, from + i)
  }

  lemma {:induction false} ChunkAt(g: Source, from: nat, n: nat, i: nat)
    requires WellFormed(g) && i < n && InRange(StartsAt(g, from, n), g.nObs)
    ensures DrawFrom(Before(g, from), g.nObs, CoinsAt(g, from, n), StartsAt(g, from, n))[i] == IndexAt(g, from + i)
  {
    DrawAt(Before(g, from), g.nObs, CoinsAt(g, from, n), StartsAt(g, from, n), i);
    if i > 0 {
      ChunkAt(g, from, n, i - 1);
    }
  }

  /** A chunk drawn from where the endless stream stands is its next stretch. */
  lemma ChunkIsStretch(g: Source, from: nat, n: nat)
    requires WellFormed(g)
    ensures InRange(StartsAt(g, from, n), g.nObs)
    ensures IsStretch(g, from, DrawFrom(Before(g, from), g.nObs, CoinsAt(g, from, n), StartsAt(g, from, n)))
  {
    var out := DrawFrom(Before(g, from), g.nObs, CoinsAt(g, from, n), StartsAt(g, from, n));
    forall i | 0 <= i < n ensures out[i] == IndexAt(g, from + i) {
      ChunkAt(g, from, n, i);
    }
  }

  function GapSum(gap: seq<int>, idx: seq<int>): int
    requires InRange(idx, |gap|)
  {
    if idx == [] then 0 else gap[idx[0]] + GapSum(gap, idx[1..])
  }

  lemma StretchTail(g: Source, from: nat, idx: seq<int>)
    requires WellFormed(g) && IsStretch(g, from, idx) && idx != []
    ensures IsStretch(g, from + 1, idx[1..]) && Elapsed(g, from + 1) == Elapsed(g, from) + g.gap[idx[0]]
  {
    assert IndexAt(g, from) == idx[0];
    forall i | 0 <= i < |idx| - 1 ensures idx[1..][i] == IndexAt(g, from + 1 + i) {
      assert idx[i + 1] == IndexAt(g, from + (i + 1));
    }
  }

  lemma {:induction false} StretchElapsed(g: Source, from: nat, idx: seq<int>)
    requires WellFormed(g) && IsStretch(g, from, idx)
    ensures InRange(idx, |g.gap|)
    ensures Elapsed(g, from + |idx|) == Elapsed(g, from) + GapSum(g.gap, idx)
    decreases |idx|
  {
    assert InRange(idx, |g.gap|);
    if idx != [] {
      StretchTail(g, from, idx);
      StretchElapsed(g, from + 1, idx[1..]);
      assert from + 1 + |idx[1..]| == from + |idx|;
    }
  }

  lemma PrefixJoins(g: Source, drawn: seq<int>, idx: seq<int>, n: nat)
    requires WellFormed(g) && drawn == Prefix(g, |drawn|) && IsStretch(g, |drawn|, idx) && n == |drawn| + |idx|
    ensures drawn + idx == Prefix(g, n)
  {
    forall t | 0 <= t < n ensures (drawn + idx)[t] == IndexAt(g, t) {
      if t >= |drawn| {
        assert idx[t - |drawn|] == IndexAt(g, |drawn| + (t - |drawn|));
      }
    }
  }

  lemma LastAppend(p: int, a: seq<int>, b: seq<int>)
    ensures Last(p, a + b) == Last(Last(p, a), b)
  {
  }

  /** Everything drawn so far is a prefix of the endless stream, the time it took is known,
      and the stream stands at its end. */
  ghost predicate Drew(g: Source, drawn: seq<int>, elapsed: int, pos: int)
    requires WellFormed(g)
  {
    drawn == Prefix(g, |drawn|) && elapsed == Elapsed(g, |drawn|) && pos == Last(-1, drawn)
  }

  lemma ChunkAdvances(g: Source, drawn: seq<int>, elapsed: int, pos: int, idx: seq<int>)
    requires WellFormed(g) && Drew(g, drawn, elapsed, pos)
    requires IsStretch(g, |drawn|, idx)
    ensures InRange(idx, |g.gap|)
    ensures Drew(g, drawn + idx, elapsed + GapSum(g.gap, idx), Last(pos, idx))
  {
    StretchElapsed(g, |drawn|, idx);
    PrefixJoins(g, drawn, idx, |drawn + idx|);
    LastAppend(-1, drawn, idx);
  }

  /** One chunk of the calendar's loop. */
  method DrawChunk(s: Stream, g: Source, ghost drawn: seq<int>, ghost elapsed: int, from: nat, chunk: nat)
    returns (idx: seq<int>)
    requires WellFormed(g) && s.Valid() && s.nObs == g.nObs && Drew(g, drawn, elapsed, s.pos) && from == |drawn|
    modifies s
    ensures s.Valid() && |idx| == chunk && InRange(idx, |g.gap|)
    ensures Drew(g, drawn + idx, elapsed + GapSum(g.gap, idx), s.pos)
  {
    ChunkIsStretch(g, from, chunk);
    var out := s.Draw(CoinsAt(g, from, chunk), StartsAt(g, from, chunk));
    idx := out[..];
    ChunkAdvances(g, drawn, elapsed, old(s.pos), idx);
  }

  /** m chunks hold this many draws. */
  function Drawn(m: nat, chunk: nat): nat {
    if m == 0 then 0 else Drawn(m - 1, chunk) + chunk
  }

  lemma {:induction false} DrawnMonotone(m: nat, limit: nat, chunk: nat)
    requires m <= limit
    ensures Drawn(m, chunk) <= Drawn(limit, chunk)
    decreases limit
  {
    if m < limit {
      DrawnMonotone(m, limit - 1, chunk);
    }
  }

  /** `_chunked_calendar`: whole chunks until the gaps pass the span. It raises for an empty
      span (nothing to concatenate) and when `limit` chunks have not covered the span. */
  method ChunkedCalendar(s: Stream, g: Source, span: int, chunk: nat, limit: nat) returns (r: Result<seq<int>>)
    requires WellFormed(g) && s.Valid() && s.nObs == g.nObs && s.pos == -1 && chunk >= 1
    modifies s
    ensures r.Err? <==> span <= 0 || Elapsed(g, Drawn(limit, chunk)) < span
    ensures r.Ok? ==> r.value == Prefix(g, |r.value|) && span <= Elapsed(g, |r.value|)
    ensures r.Ok? ==> exists m: nat :: m <= limit && |r.value| == Drawn(m, chunk)
  {
    if span <= 0 {
      return Err("need at least one array to concatenate");
    }
    var drawn: seq<int>, elapsed, m: nat := [], 0, 0;
    while elapsed < span
      invariant |drawn| == Drawn(m, chunk) && m <= limit
      invariant s.Valid() && Drew(g, drawn, elapsed, s.pos)
      decreases limit - m
    {
      var idx := DrawChunk(s, g, drawn, elapsed, |drawn|, chunk);
      drawn := drawn + idx;
      elapsed := elapsed + GapSum(g.gap, idx);
      m := m + 1;
      if m > limit {
        return Err("the seed's entry gaps never advance the calendar");
      }
    }
    DrawnMonotone(m, limit, chunk);
    ElapsedMonotone(g, |drawn|, Drawn(limit, chunk));
    r := Ok(drawn);
  }

  // ---------------------------------------------------------------- the kept calendar

  /** The replicate's calendar: entry times before the end, exit times, and the trades they
      copy. */
  datatype Calendar = Calendar(entry: seq<int>, exit: seq<int>, common: seq<int>)

  function Entries(gap: seq<int>, idx: seq<int>, at: int): (r: seq<int>)
    requires InRange(idx, |gap|)
    ensures |r| == |idx|
  {
    if idx == [] then [] else [at + gap[idx[0]]] + Entries(gap, idx[1..], at + gap[idx[0]])
  }

  /** `x[entry < end]`. */
  function Mask(entry: seq<int>, x: seq<int>, end: int): seq<int>
    requires |entry| == |x|
  {
    if entry == [] then [] else (if entry[0] < end then [x[0]] else []) + Mask(entry[1..], x[1..], end)
  }

  /** `entry[keep] + hold[idx[keep]]`. */
  function Exits(hold: seq<int>, entry: seq<int>, common: seq<int>): (r: seq<int>)
    requires |entry| == |common| && InRange(common, |hold|)
    ensures |r| == |entry|
  {
    seq(|entry|, i requires 0 <= i < |entry| => entry[i] + hold[common[i]])
  }

  lemma {:induction false} MaskInRange(entry: seq<int>, x: seq<int>, end: int, n: int)
    requires |entry| == |x| && InRange(x, n)
    ensures InRange(Mask(entry, x, end), n) && |Mask(entry, x, end)| == |Mask(entry, entry, end)|
  {
    if entry != [] {
      MaskInRange(entry[1..], x[1..], end, n);
    }
  }

  function Keep(gap: seq<int>, hold: seq<int>, idx: seq<int>, start: int, end: int): Calendar
    requires InRange(idx, |gap|) && |hold| == |gap|
  {
    var entry := Entries(gap, idx, start);
    var kept, common := Mask(entry, entry, end), Mask(entry, idx, end);
    MaskInRange(entry, idx, end, |hold|);
    Calendar(kept, Exits(hold, kept, common), common)
  }

  lemma {:induction false} EntriesAt(gap: seq<int>, idx: seq<int>, at: int, i: nat)
    requires InRange(idx, |gap|) && i < |idx|
    ensures Entries(gap, idx, at)[i] == at + GapSum(gap, idx[..i + 1])
    decreases i
  {
    if i > 0 {
      EntriesAt(gap, idx[1..], at + gap[idx[0]], i - 1);
      assert idx[..i + 1][1..] == idx[1..][..i];
    } else {
      assert idx[..1][1..] == [];
    }
  }

  /** The first m entries, and only they, lie before the end. */
  ghost predicate CutAt(entry: seq<int>, end: int, m: nat) {
    m <= |entry| && forall i :: 0 <= i < |entry| ==> (entry[i] < end <==> i < m)
  }

  lemma CutTail(entry: seq<int>, end: int, m: nat)
    requires entry != [] && CutAt(entry, end, m)
    ensures CutAt(entry[1..], end, if m == 0 then 0 else m - 1)
  {
    forall i | 0 <= i < |entry| - 1 ensures entry[1..][i] < end <==> i < (if m == 0 then 0 else m - 1) {
      assert entry[1..][i] == entry[i + 1];
    }
  }

  lemma {:induction false} MaskIsPrefix(entry: seq<int>, x: seq<int>, end: int, m: nat)
    requires |entry| == |x| && CutAt(entry, end, m)
    ensures Mask(entry, x, end) == x[..m]
  {
    if entry != [] {
      CutTail(entry, end, m);
      MaskIsPrefix(entry[1..], x[1..], end, if m == 0 then 0 else m - 1);
      if m > 0 {
        assert x[..m] == [x[0]] + x[1..][..m - 1];
      }
    }
  }

  /** How many trades of the endless stream enter before the span is out. */
  lemma {:induction false} EnteredBefore(g: Source, span: int, n: nat) returns (m: nat)
    requires WellFormed(g) && span <= Elapsed(g, n)
    ensures m <= n
    ensures forall t: nat :: Arrival(g, t) < span <==> t < m
    decreases n
  {
    if n > 0 && span <= Elapsed(g, n - 1) {
      m := EnteredBefore(g, span, n - 1);
    } else {
      m := if n == 0 then 0 else n - 1;
      forall t: nat ensures Arrival(g, t) < span <==> t < m {
        if t < m {
          ElapsedMonotone(g, t + 1, m);
        } else {
          ElapsedMonotone(g, n, t + 1);
        }
      }
    }
  }

  /** Entry times of the first m trades of the endless stream. */
  ghost function EntryTimes(g: Source, start: int, m: nat): seq<int>
    requires WellFormed(g)
  {
    seq(m, t requires 0 <= t < m => start + Arrival(g, t))
  }

  /** Exit times of the first m trades: each its own entry plus the hold of the trade it
      copies. */
  ghost function ExitTimes(g: Source, start: int, m: nat): seq<int>
    requires WellFormed(g)
  {
    seq(m, t requires 0 <= t < m => start + Arrival(g, t) + g.hold[IndexAt(g, t)])
  }

  lemma EntriesAreArrivals(g: Source, start: int, n: nat)
    requires WellFormed(g)
    ensures InRange(Prefix(g, n), |g.gap|)
    ensures Entries(g.gap, Prefix(g, n), start) == EntryTimes(g, start, n)
  {
    var idx := Prefix(g, n);
    forall i | 0 <= i < n ensures Entries(g.gap, idx, start)[i] == EntryTimes(g, start, n)[i] {
      EntriesAt(g.gap, idx, start, i);
      StretchElapsed(g, 0, idx[..i + 1]);
    }
  }

  lemma EntryTimesSorted(g: Source, start: int, m: nat)
    requires WellFormed(g)
    ensures forall i, j :: 0 <= i < j < m ==> EntryTimes(g, start, m)[i] <= EntryTimes(g, start, m)[j]
  {
    forall i, j | 0 <= i < j < m ensures EntryTimes(g, start, m)[i] <= EntryTimes(g, start, m)[j] {
      ElapsedMonotone(g, i + 1, j + 1);
    }
  }

  /** However far the last chunk over-draws, the kept calendar is exactly the endless
      stream's trades that enter before the end, in order. */
  lemma KeptCalendarExact(g: Source, start: int, end: int, n: nat) returns (m: nat)
    requires WellFormed(g) && end - start <= Elapsed(g, n)
    ensures InRange(Prefix(g, n), |g.gap|)
    ensures Keep(g.gap, g.hold, Prefix(g, n), start, end)
            == Calendar(EntryTimes(g, start, m), ExitTimes(g, start, m), Prefix(g, m))
    ensures forall t: nat :: start + Arrival(g, t) < end <==> t < m
    ensures forall i, j :: 0 <= i < j < m ==> EntryTimes(g, start, m)[i] <= EntryTimes(g, start, m)[j]
  {
    m := EnteredBefore(g, end - start, n);
    EntriesAreArrivals(g, start, n);
    EntryTimesSorted(g, start, m);
    var entry := EntryTimes(g, start, n);
    assert forall i :: 0 <= i < n ==> entry[i] == start + Arrival(g, i);
    assert CutAt(entry, end, m);
    MaskIsPrefix(entry, entry, end, m);
    MaskIsPrefix(entry, Prefix(g, n), end, m);
    assert entry[..m] == EntryTimes(g, start, m);
    assert Prefix(g, n)[..m] == Prefix(g, m);
  }

  /** So the chunk size never shows: two calendars filled in chunks of different sizes keep
      the same trades at the same times. */
  lemma OverdrawIrrelevant(g: Source, start: int, end: int, n1: nat, n2: nat)
    requires WellFormed(g) && end - start <= Elapsed(g, n1) && end - start <= Elapsed(g, n2)
    ensures InRange(Prefix(g, n1), |g.gap|) && InRange(Prefix(g, n2), |g.gap|)
    ensures Keep(g.gap, g.hold, Prefix(g, n1), start, end) == Keep(g.gap, g.hold, Prefix(g, n2), start, end)
  {
    var m1 := KeptCalendarExact(g, start, end, n1);
    var m2 := KeptCalendarExact(g, start, end, n2);
    assert start + Arrival(g, m1) >= end && start + Arrival(g, m2) >= end;
  }

  /** `BootstrapReplicate.__post_init__` with the script's own chunk size and limit. */
  method BuildCalendar(g: Source, start: int, end: int) returns (r: Result<Calendar>)
    requires WellFormed(g)
    ensures r.Err? <==> end <= start || Elapsed(g, Drawn(100_000, 256)) < end - start
    ensures r.Ok? ==> forall n: nat :: end - start <= Elapsed(g, n) ==>
      InRange(Prefix(g, n), |g.gap|) && r.value == Keep(g.gap, g.hold, Prefix(g, n), start, end)
  {
    var s := new Stream(g.nObs);
    var idx := ChunkedCalendar(s, g, end - start, CHUNK, MAX_CHUNKS);
    if idx.Err? {
      return Err(idx.error);
    }
    var k := idx.value;
    forall n: nat | end - start <= Elapsed(g, n)
      ensures InRange(Prefix(g, n), |g.gap|) && InRange(k, |g.gap|)
      ensures Keep(g.gap, g.hold, k, start, end) == Keep(g.gap, g.hold, Prefix(g, n), start, end)
    {
      OverdrawIrrelevant(g, start, end, |k|, n);
    }
    assert end - start <= Elapsed(g, |k|);
    r := Ok(Keep(g.gap, g.hold, k, start, end));
  }
}
