/**
 * The stream reassembler: a sorted list of disjoint intervals closed by a sentinel, and the
 * sparse map from stream index to byte that it refines.
 */
module Reassembler {
  import opened Integers
  import opened Stream

  const MAX64: nat := 0xFFFF_FFFF_FFFF_FFFF

  /** A stored substring and the stream index of its first byte. */
  datatype Chunk = Chunk(start: nat, data: seq<byte>) {
    function End(): nat { start + |data| }
  }

  const SENTINEL := Chunk(MAX64, [])

  /** Total number of stored bytes. */
  function Total(cs: seq<Chunk>): nat {
    if cs == [] then 0 else |cs[0].data| + Total(cs[1..])
  }

  /** Non-empty, sorted, disjoint chunks from `lo` on, closed by the sentinel. */
  predicate Ordered(lo: nat, cs: seq<Chunk>)
    decreases |cs|
  {
    && cs != []
    && lo <= cs[0].start
    && if |cs| == 1 then cs[0] == SENTINEL
       else cs[0].data != [] && Ordered(cs[0].End(), cs[1..])
  }

  /** The list is closed by the sentinel: all that scanning it safely needs. */
  predicate Closed(cs: seq<Chunk>) {
    cs != [] && if |cs| == 1 then cs[0] == SENTINEL else cs[0].start < MAX64 && Closed(cs[1..])
  }

  // ---------------------------------------------------------------- the two scans of the list

  /** `push_unassembledString`, from the point where the scan reached `pos`. */
  function Insert(cs: seq<Chunk>, data: seq<byte>, index: nat, pos: nat): seq<Chunk> {
    if cs == [] || pos >= index + |data| then cs
    else
      var c := cs[0];
      if index <= c.start then
        var p := Max(pos, index);
        if c.start < p then [c] + Insert(cs[1..], data, index, p)
        else Gap(data, index, p, c.start) + [c] + Insert(cs[1..], data, index, c.End())
      else [c] + Insert(cs[1..], data, index, c.End())
  }

  /** The chunk that fills the hole from `p` up to `next`, if there is one. */
  function Gap(data: seq<byte>, index: nat, p: nat, next: nat): seq<Chunk>
    requires index <= p <= index + |data| && p <= next
  {
    var temp := Substr(data, p - index, next - p);
    if temp == [] then [] else [Chunk(p, temp)]
  }

  /** `pop_unassembledString`: the leading chunks that continue the stream from `from`. */
  function PopBytes(cs: seq<Chunk>, from: nat): seq<byte> {
    if cs == [] || cs[0].start >= MAX64 || cs[0].start != from then []
    else cs[0].data + PopBytes(cs[1..], cs[0].End())
  }

  function PopRest(cs: seq<Chunk>, from: nat): seq<Chunk> {
    if cs == [] || cs[0].start >= MAX64 || cs[0].start != from then cs
    else PopRest(cs[1..], cs[0].End())
  }

  // ---------------------------------------------------------------- the reassembler's value

  datatype ReassemblerState = ReassemblerState(
    capacity: nat, output: StreamState, chunks: seq<Chunk>, posEof: nat, unassembled: nat)
  {
    /** Holds after any pushes whatever, contradictory ones included. */
    predicate WellFormed() {
      && output.Valid() && output.capacity == capacity
      && Closed(chunks)
      && unassembled == Total(chunks)
      && posEof <= MAX64
    }

    /** First index the reassembler refuses. */
    function Limit(): nat {
      Min(output.totout + capacity, posEof)
    }

    /** The interval invariant. */
    ghost predicate Valid() {
      && WellFormed()
      && Ordered(output.totin, chunks) && Lookup(chunks, output.totin) == None
      && (forall i: nat :: Lookup(chunks, i).Some? ==> i < Limit())
      && output.totin <= posEof
      && (output.totin == posEof <==> output.ended)
    }

    /** `push_substring`, with the 64-bit sums of the source. */
    function PushSubstring(data: seq<byte>, index: nat, eof: bool): ReassemblerState
      requires WellFormed()
    {
      var st := Ending(data, index, eof);
      if data == [] then st.Finish()
      else if U64(index + |data|) < output.totin || index >= st.Limit() || index > st.posEof then st
      else st.Accept(data, index).Finish()
    }

    function Accept(data: seq<byte>, index: nat): ReassemblerState
      requires WellFormed() && output.totin <= index + |data|
    {
      Absorb(Cut(data, index), Max(index, output.totin))
    }

    /** The end of the stream becomes known. */
    function Ending(data: seq<byte>, index: nat, eof: bool): ReassemblerState {
      if eof then this.(posEof := U64(index + |data|)) else this
    }

    /** The part of a push from the first unassembled index up to the limit. */
    function Cut(data: seq<byte>, index: nat): seq<byte>
      requires output.totin <= index + |data|
    {
      var startPos := Max(index, output.totin);
      Substr(data, startPos - index, U64(Limit() - startPos))
    }

    function Absorb(news: seq<byte>, startPos: nat): ReassemblerState
      requires WellFormed()
    {
      var cs := Insert(chunks, news, startPos, startPos);
      var rest := PopRest(cs, output.totin);
      this.(chunks := rest, unassembled := Total(rest), output := output.Write(PopBytes(cs, output.totin)))
    }

    function Finish(): ReassemblerState {
      if output.totin == posEof then this.(output := output.(ended := true)) else this
    }
  }

  function NewReassembler(capacity: nat): ReassemblerState {
    ReassemblerState(capacity, NewStream(capacity), [SENTINEL], MAX64, 0)
  }

  // ---------------------------------------------------------------- the sparse map

  /** The sparse map a chunk list stands for: the byte held at index `i`, if any. */
  function Lookup(cs: seq<Chunk>, i: nat): Option<byte> {
    if cs == [] then None
    else if cs[0].start <= i < cs[0].End() then Some(cs[0].data[i - cs[0].start])
    else Lookup(cs[1..], i)
  }

  /** The byte that a push of `data` at `index` has for index `i` inside `[lo, hi)`, if any. */
  function Offered(data: seq<byte>, index: nat, lo: nat, hi: nat, i: nat): Option<byte> {
    if lo <= i < hi && index <= i < index + |data| then Some(data[i - index]) else None
  }

  /** Sparse-map update in which the bytes already held win. */
  function Prefer(held: Option<byte>, offered: Option<byte>): Option<byte> {
    if held.Some? then held else offered
  }

  // ---------------------------------------------------------------- the scans on ordered lists

  lemma {:induction false} LookupBounds(lo: nat, cs: seq<Chunk>, i: nat)
    requires Ordered(lo, cs)
    ensures cs[0].start <= MAX64
    ensures Lookup(cs, i).Some? ==> cs[0].start <= i < MAX64
    decreases |cs|
  {
    if |cs| > 1 {
      LookupBounds(cs[0].End(), cs[1..], i);
    } else {
      assert cs[1..] == [] && cs[0].data == [];
      assert Lookup(cs[1..], i) == None;
    }
  }

  lemma {:induction false} OrderedClosed(lo: nat, cs: seq<Chunk>)
    requires Ordered(lo, cs)
    ensures Closed(cs)
    decreases |cs|
  {
    if |cs| > 1 {
      OrderedClosed(cs[0].End(), cs[1..]);
      LookupBounds(cs[0].End(), cs[1..], 0);
    }
  }

  lemma OrderedPrepend(lo: nat, c: Chunk, cs: seq<Chunk>, i: nat)
    requires lo <= c.start && c.data != [] && Ordered(c.End(), cs)
    ensures Ordered(lo, [c] + cs)
    ensures Lookup([c] + cs, i) == Prefer(Lookup([c], i), Lookup(cs, i))
  {
    assert ([c] + cs)[1..] == cs;
  }

  /** One step of the scan on an ordered list: fill the hole in front of the first chunk. */
  function Hole(lo: nat, c: Chunk, data: seq<byte>, index: nat): seq<Chunk>
    requires lo <= c.start
  {
    if index <= c.start && lo < index + |data| then Gap(data, index, Max(lo, index), c.start) else []
  }

  lemma {:induction false} InsertNothing(cs: seq<Chunk>, index: nat, pos: nat)
    ensures Insert(cs, [], index, pos) == cs
    decreases |cs|
  {
    if cs != [] && pos < index {
      var c, rest := cs[0], cs[1..];
      InsertNothing(rest, index, c.End());
      InsertNothing(rest, index, index);
      assert [] + [c] + rest == [c] + rest == cs;
    }
  }

  lemma InsertStep(lo: nat, cs: seq<Chunk>, data: seq<byte>, index: nat, pos: nat)
    requires Ordered(lo, cs)
    requires Max(pos, index) == Max(lo, index)
    ensures Insert(cs, data, index, pos) ==
            Hole(lo, cs[0], data, index) + ([cs[0]] + Insert(cs[1..], data, index, cs[0].End()))
  {
    var c, rec := cs[0], Insert(cs[1..], data, index, cs[0].End());
    if pos >= index + |data| {
      if data == [] {
        InsertNothing(cs[1..], index, c.End());
      }
      assert cs == [c] + cs[1..];
    } else {
      assert Hole(lo, c, data, index) + ([c] + rec) == Hole(lo, c, data, index) + [c] + rec;
    }
  }

  lemma HoleSpec(lo: nat, c: Chunk, data: seq<byte>, index: nat, rest: seq<Chunk>, i: nat)
    requires lo <= c.start && Ordered(c.start, rest)
    ensures Ordered(lo, Hole(lo, c, data, index) + rest)
    ensures Lookup(Hole(lo, c, data, index) + rest, i) ==
            Prefer(Offered(data, index, lo, c.start, i), Lookup(rest, i))
  {
    var gap := Hole(lo, c, data, index);
    if gap == [] {
      assert gap + rest == rest;
    } else {
      OrderedPrepend(lo, gap[0], rest, i);
      assert gap + rest == [gap[0]] + rest;
    }
  }

  /** Inserting fills exactly the holes: bytes already held win. */
  lemma {:induction false} InsertSpec(lo: nat, cs: seq<Chunk>, data: seq<byte>, index: nat, pos: nat, i: nat)
    requires Ordered(lo, cs)
    requires Max(pos, index) == Max(lo, index)
    requires index + |data| <= MAX64
    ensures Ordered(lo, Insert(cs, data, index, pos))
    ensures Lookup(Insert(cs, data, index, pos), i) == Prefer(Lookup(cs, i), Offered(data, index, lo, MAX64, i))
    decreases |cs|
  {
    var c, rec := cs[0], Insert(cs[1..], data, index, cs[0].End());
    InsertStep(lo, cs, data, index, pos);
    LookupBounds(lo, cs, i);
    if |cs| > 1 {
      LookupBounds(c.End(), cs[1..], i);
      InsertSpec(c.End(), cs[1..], data, index, c.End(), i);
      OrderedPrepend(c.start, c, rec, i);
    } else {
      assert cs[1..] == [] && rec == [];
      assert [c] + rec == cs;
    }
    HoleSpec(lo, c, data, index, [c] + rec, i);
  }

  /** Popping takes the run that starts at `from`, maximal, and leaves the bytes after it. */
  lemma {:induction false} PopSpec(cs: seq<Chunk>, from: nat, i: nat)
    requires Ordered(from, cs)
    ensures var run, rest := PopBytes(cs, from), PopRest(cs, from);
            && Ordered(from + |run|, rest)
            && Lookup(cs, from + |run|) == None
            && (from <= i < from + |run| ==> Lookup(cs, i) == Some(run[i - from]))
            && Lookup(rest, i) == if i < from + |run| then None else Lookup(cs, i)
    decreases |cs|
  {
    LookupBounds(from, cs, i);
    LookupBounds(from, cs, from);
    if cs[0].start < MAX64 && cs[0].start == from {
      PopSpec(cs[1..], cs[0].End(), i);
    }
  }

  // ---------------------------------------------------------------- every push is safe

  lemma ClosedPrepend(c: Chunk, cs: seq<Chunk>)
    requires c.start < MAX64 && Closed(cs)
    ensures Closed([c] + cs)
  {
    assert ([c] + cs)[1..] == cs;
  }

  lemma ClosedGap(data: seq<byte>, index: nat, p: nat, rest: seq<Chunk>)
    requires Closed(rest) && index <= p <= index + |data| && p <= rest[0].start
    ensures Closed(Gap(data, index, p, rest[0].start) + rest)
  {
    var gap := Gap(data, index, p, rest[0].start);
    if gap == [] {
      assert gap + rest == rest;
    } else {
      ClosedPrepend(gap[0], rest);
      assert gap + rest == [gap[0]] + rest;
    }
  }

  lemma {:induction false} InsertClosed(cs: seq<Chunk>, data: seq<byte>, index: nat, pos: nat)
    requires Closed(cs)
    ensures Closed(Insert(cs, data, index, pos))
    decreases |cs|
  {
    if pos < index + |data| {
      var c, p := cs[0], Max(pos, index);
      var next := if index <= c.start < p then p else c.End();
      if |cs| > 1 {
        InsertClosed(cs[1..], data, index, next);
      }
      InsertClosedStep(cs, data, index, pos, next, Insert(cs[1..], data, index, next));
    }
  }

  lemma InsertClosedStep(cs: seq<Chunk>, data: seq<byte>, index: nat, pos: nat, next: nat, rec: seq<Chunk>)
    requires Closed(cs) && pos < index + |data| && rec == Insert(cs[1..], data, index, next)
    requires next == if index <= cs[0].start < Max(pos, index) then Max(pos, index) else cs[0].End()
    requires |cs| > 1 ==> Closed(rec)
    ensures Closed(Insert(cs, data, index, pos))
  {
    var c, p := cs[0], Max(pos, index);
    if |cs| > 1 {
      ClosedPrepend(c, rec);
    } else {
      assert [c] + rec == cs;
    }
    if index <= c.start && p <= c.start {
      ClosedGap(data, index, p, [c] + rec);
      assert Insert(cs, data, index, pos) == Gap(data, index, p, c.start) + ([c] + rec);
    } else {
      assert Insert(cs, data, index, pos) == [c] + rec;
    }
  }

  lemma {:induction false} PopClosed(cs: seq<Chunk>, from: nat)
    requires Closed(cs)
    ensures Closed(PopRest(cs, from))
    ensures Total(PopRest(cs, from)) + |PopBytes(cs, from)| == Total(cs)
    decreases |cs|
  {
    if cs[0].start < MAX64 && cs[0].start == from {
      PopClosed(cs[1..], cs[0].End());
    }
  }

  /** Any push at all, contradictory ones included, leaves a list that can be scanned again. */
  lemma PushWellFormed(st: ReassemblerState, data: seq<byte>, index: nat, eof: bool)
    requires st.WellFormed()
    ensures st.PushSubstring(data, index, eof).WellFormed()
  {
    var st0, startPos := st.Ending(data, index, eof), Max(index, st.output.totin);
    assert st0.WellFormed() && st0.Finish().WellFormed();
    if data != [] && U64(index + |data|) >= st.output.totin {
      AbsorbWellFormed(st0, st0.Cut(data, index), startPos);
    }
  }

  lemma AbsorbWellFormed(st: ReassemblerState, news: seq<byte>, startPos: nat)
    requires st.WellFormed()
    ensures st.Absorb(news, startPos).Finish().WellFormed()
  {
    InsertClosed(st.chunks, news, startPos, startPos);
    PopClosed(Insert(st.chunks, news, startPos, startPos), st.output.totin);
  }

  /** The output stream has only been added to. */
  predicate OnlyGrows(out: StreamState, out': StreamState) {
    && out'.totout == out.totout && out.totin <= out'.totin && out'.capacity == out.capacity
    && (out.ended ==> out'.ended) && out'.error == out.error && out.buf <= out'.buf
  }

  lemma AbsorbMonotone(st: ReassemblerState, news: seq<byte>, startPos: nat)
    requires st.WellFormed()
    ensures OnlyGrows(st.output, st.Absorb(news, startPos).Finish().output)
  {
  }

  /** No push takes anything back from the output stream. */
  lemma PushMonotone(st: ReassemblerState, data: seq<byte>, index: nat, eof: bool)
    requires st.WellFormed()
    ensures OnlyGrows(st.output, st.PushSubstring(data, index, eof).output)
  {
    var st0 := st.Ending(data, index, eof);
    assert OnlyGrows(st.output, st0.Finish().output);
    if U64(index + |data|) >= st.output.totin {
      AbsorbMonotone(st0, st0.Cut(data, index), Max(index, st.output.totin));
    }
  }

  // ---------------------------------------------------------------- refinement of the sparse map

  /** The sparse map after offering it a push, before anything is popped. */
  function Merged(st: ReassemblerState, data: seq<byte>, index: nat, hi: nat, i: nat): Option<byte> {
    Prefer(Lookup(st.chunks, i), Offered(data, index, st.output.totin, hi, i))
  }

  /**
   * One push of the reference machine, seen at index `i`: the map takes every in-window byte it
   * lacks, then the output takes the maximal contiguous run and the map keeps what lies beyond it.
   */
  predicate SparsePush(before: Option<byte>, totin: nat, run: seq<byte>, after: Option<byte>, i: nat) {
    && (totin <= i < totin + |run| ==> before == Some(run[i - totin]))
    && (i == totin + |run| ==> before == None)
    && after == if i < totin + |run| then None else before
  }

  /** What the insert and pop scans together do to the byte at index `i`. */
  lemma ScanSpec(st: ReassemblerState, news: seq<byte>, startPos: nat, hi: nat, i: nat)
    requires Ordered(st.output.totin, st.chunks)
    requires st.output.totin <= startPos && startPos + |news| <= hi <= MAX64
    ensures var totin, cs := st.output.totin, Insert(st.chunks, news, startPos, startPos);
            var run, rest := PopBytes(cs, totin), PopRest(cs, totin);
            && SparsePush(Merged(st, news, startPos, hi, i), totin, run, Lookup(rest, i), i)
            && Ordered(totin + |run|, rest)
  {
    var cs := Insert(st.chunks, news, startPos, startPos);
    InsertSpec(st.output.totin, st.chunks, news, startPos, startPos, i);
    PopSpec(cs, st.output.totin, i);
  }

  /** The run that the scans pop fits into the output stream. */
  lemma RunFits(st: ReassemblerState, news: seq<byte>, startPos: nat)
    requires st.WellFormed() && Ordered(st.output.totin, st.chunks)
    requires forall i: nat :: Lookup(st.chunks, i).Some? ==> i < st.Limit()
    requires st.output.totin <= startPos && startPos + |news| <= st.Limit()
    ensures var run := PopBytes(Insert(st.chunks, news, startPos, startPos), st.output.totin);
            st.output.totin + |run| <= st.Limit() && st.output.Accepted(run) == run
  {
    var run := PopBytes(Insert(st.chunks, news, startPos, startPos), st.output.totin);
    if run != [] {
      ScanSpec(st, news, startPos, st.Limit(), st.output.totin + |run| - 1);
    }
  }

  /** The push keeps to one end of the stream, at or after everything already received. */
  ghost predicate Admissible(st: ReassemblerState, data: seq<byte>, index: nat, eof: bool) {
    && index + |data| < TWO64
    && (eof ==> && (st.posEof == MAX64 || st.posEof == index + |data|)
                && st.output.totin <= index + |data|
                && forall i: nat :: Lookup(st.chunks, i).Some? ==> i < index + |data|)
  }

  /** What a stream gained on its input side while nothing was read. */
  function Growth(before: StreamState, after: StreamState): seq<byte> {
    if |before.buf| <= |after.buf| then after.buf[|before.buf|..] else []
  }

  lemma NewValid(capacity: nat)
    ensures NewReassembler(capacity).Valid()
  {
    assert [SENTINEL][1..] == [];
    assert forall i: nat :: Lookup([SENTINEL], i) == None;
  }

  lemma CutSpec(st: ReassemblerState, data: seq<byte>, index: nat, i: nat)
    requires st.output.totin <= index + |data| && index < st.Limit() && st.output.totin <= st.Limit() <= MAX64
    ensures var startPos, news := Max(index, st.output.totin), st.Cut(data, index);
            && startPos + |news| <= st.Limit()
            && Offered(data, index, st.output.totin, st.Limit(), i)
               == Offered(news, startPos, st.output.totin, st.Limit(), i)
  {
    var startPos, news := Max(index, st.output.totin), st.Cut(data, index);
    if startPos <= i < startPos + |news| {
      assert news[i - startPos] == data[i - index];
    }
  }

  /** What a push from `st` to `st'` that pops `run` must do at index `i`. */
  predicate PushEffect(st: ReassemblerState, data: seq<byte>, index: nat, run: seq<byte>,
                       st': ReassemblerState, i: nat)
  {
    var totin := st.output.totin;
    && SparsePush(Merged(st, data, index, st'.Limit(), i), totin, run, Lookup(st'.chunks, i), i)
    && Ordered(totin + |run|, st'.chunks)
    && totin + |run| <= st'.Limit()
    && st'.output == st.output.(buf := st.output.buf + run, totin := totin + |run|,
                                ended := totin + |run| == st'.posEof)
  }

  /** A reassembler that has just learnt where the stream ends and has not acted on it. */
  ghost predicate Ready(st: ReassemblerState) {
    && st.WellFormed()
    && Ordered(st.output.totin, st.chunks) && Lookup(st.chunks, st.output.totin) == None
    && (forall i: nat :: Lookup(st.chunks, i).Some? ==> i < st.Limit())
    && st.output.totin <= st.Limit()
    && (st.output.ended ==> st.output.totin == st.posEof)
  }

  /** Learning where the stream ends cuts off nothing that is already held. */
  lemma EndingKeeps(st: ReassemblerState, data: seq<byte>, index: nat, eof: bool)
    requires st.Valid() && Admissible(st, data, index, eof)
    ensures st.Ending(data, index, eof) == st.(posEof := if eof then index + |data| else st.posEof)
    ensures Ready(st.Ending(data, index, eof))
  {
  }

  /** A push with nothing in the window pops nothing. */
  lemma IgnoreEffect(st: ReassemblerState, data: seq<byte>, index: nat, i: nat)
    requires Ready(st)
    requires data == [] || index + |data| < st.output.totin || index >= st.Limit()
    ensures PushEffect(st, data, index, [], st.Finish(), i)
  {
    LookupBounds(st.output.totin, st.chunks, i);
    assert st.output.buf + [] == st.output.buf;
  }

  /** Any other push is cut to the window, inserted, and the run it completes is popped. */
  lemma AbsorbEffect(st: ReassemblerState, data: seq<byte>, index: nat, i: nat)
    requires Ready(st)
    requires st.output.totin <= index + |data| && index < st.Limit()
    ensures var startPos, news := Max(index, st.output.totin), st.Cut(data, index);
            var run := PopBytes(Insert(st.chunks, news, startPos, startPos), st.output.totin);
            PushEffect(st, data, index, run, st.Absorb(news, startPos).Finish(), i)
  {
    var startPos, news := Max(index, st.output.totin), st.Cut(data, index);
    var cs := Insert(st.chunks, news, startPos, startPos);
    CutSpec(st, data, index, i);
    RunFits(st, news, startPos);
    ScanSpec(st, news, startPos, st.Limit(), i);
    RunEffect(st, data, index, PopBytes(cs, st.output.totin), PopRest(cs, st.output.totin), i);
  }

  /** Writing a popped run and keeping the rest has the effect of a push. */
  lemma RunEffect(st: ReassemblerState, data: seq<byte>, index: nat, run: seq<byte>, rest: seq<Chunk>, i: nat)
    requires st.output.Valid() && st.output.Accepted(run) == run
    requires st.output.ended ==> st.output.totin + |run| == st.posEof
    requires && SparsePush(Merged(st, data, index, st.Limit(), i), st.output.totin, run, Lookup(rest, i), i)
             && Ordered(st.output.totin + |run|, rest)
             && st.output.totin + |run| <= st.Limit()
    ensures var st' := st.(chunks := rest, unassembled := Total(rest), output := st.output.Write(run));
            PushEffect(st, data, index, run, st'.Finish(), i)
  {
  }

  /** `push_substring` refines the sparse map. */
  lemma PushRefines(st: ReassemblerState, data: seq<byte>, index: nat, eof: bool, i: nat)
    requires st.Valid() && Admissible(st, data, index, eof)
    ensures var st' := st.PushSubstring(data, index, eof);
            && PushEffect(st, data, index, Growth(st.output, st'.output), st', i)
            && st'.posEof == (if eof then index + |data| else st.posEof)
  {
    var st0 := st.Ending(data, index, eof);
    EndingKeeps(st, data, index, eof);
    PushCases(st, data, index, eof);
    var totin := st.output.totin;
    if data == [] || index + |data| < totin || index >= st0.Limit() {
      IgnoreEffect(st0, data, index, i);
      GrowthIs(st.output, st0.Finish().output, []);
    } else {
      var startPos, news := Max(index, totin), st0.Cut(data, index);
      AbsorbEffect(st0, data, index, i);
      GrowthIs(st.output, st0.Absorb(news, startPos).Finish().output,
               PopBytes(Insert(st.chunks, news, startPos, startPos), totin));
    }
  }

  /** The ways through `push_substring`; the early return skips no end of input. */
  lemma PushCases(st: ReassemblerState, data: seq<byte>, index: nat, eof: bool)
    requires st.WellFormed() && index + |data| < TWO64
    requires if eof then st.output.totin <= index + |data| else st.output.totin == st.posEof ==> st.output.ended
    ensures var st0, st' := st.Ending(data, index, eof), st.PushSubstring(data, index, eof);
            if data == [] || index + |data| < st.output.totin || index >= st0.Limit() then st' == st0.Finish()
            else st' == st0.Absorb(st0.Cut(data, index), Max(index, st.output.totin)).Finish()
  {
    var st0 := st.Ending(data, index, eof);
    assert U64(index + |data|) == index + |data|;
    if data == [] {
    } else if index + |data| < st.output.totin || index >= st0.Limit() {
      assert st0.Finish() == st0;
    } else {
      assert st.PushSubstring(data, index, eof) == st0.Accept(data, index).Finish();
    }
  }

  lemma GrowthIs(before: StreamState, after: StreamState, run: seq<byte>)
    requires after.buf == before.buf + run
    ensures Growth(before, after) == run
  {
  }

  /** With nothing pending, the next bytes of the stream go straight through. */
  lemma InOrderPush(st: ReassemblerState, data: seq<byte>)
    requires st.WellFormed() && st.chunks == [SENTINEL] && st.posEof == MAX64 && data != []
    requires |data| <= st.output.RemainingCapacity() && st.output.totin + |data| < MAX64
    ensures st.PushSubstring(data, st.output.totin, false) == st.(output := st.output.Write(data))
  {
    var totin := st.output.totin;
    assert U64(totin + |data|) == totin + |data|;
    assert st.Cut(data, totin) == data;
    InOrderScan(data, totin);
  }

  lemma InOrderScan(data: seq<byte>, totin: nat)
    requires data != [] && totin + |data| < MAX64
    ensures var cs := Insert([SENTINEL], data, totin, totin);
            PopBytes(cs, totin) == data && PopRest(cs, totin) == [SENTINEL]
    ensures Total([SENTINEL]) == 0
  {
    var cs, c := [SENTINEL], Chunk(totin, data);
    assert cs[1..] == [] && Insert([], data, totin, SENTINEL.End()) == [];
    assert Substr(data, 0, MAX64 - totin) == data;
    assert Gap(data, totin, totin, MAX64) == [c];
    assert Insert(cs, data, totin, totin) == [c] + [SENTINEL] + [] == [c, SENTINEL];
    assert [c, SENTINEL][1..] == [SENTINEL];
    assert PopBytes([SENTINEL], c.End()) == [] && data + [] == data;
  }

  // ---------------------------------------------------------------- the interval invariant

  /** Every push keeps the interval invariant. */
  lemma PushKeeps(st: ReassemblerState, data: seq<byte>, index: nat, eof: bool)
    requires st.Valid() && Admissible(st, data, index, eof)
    ensures st.PushSubstring(data, index, eof).Valid()
  {
    var st' := st.PushSubstring(data, index, eof);
    PushWellFormed(st, data, index, eof);
    forall i: nat
      ensures Lookup(st'.chunks, i).Some? ==> i < st'.Limit()
    {
      PushRefines(st, data, index, eof, i);
      EndingKeeps(st, data, index, eof);
    }
    PushRefines(st, data, index, eof, st'.output.totin);
  }

  /** Reading keeps the invariant: it moves the window right and touches nothing else. */
  lemma ReadKeeps(st: ReassemblerState, len: nat)
    requires st.Valid()
    ensures st.(output := st.output.Pop(len)).Valid()
  {
  }

  lemma {:induction false} TotalBound(lo: nat, cs: seq<Chunk>, hi: nat)
    requires Ordered(lo, cs) && lo <= hi
    requires forall i: nat :: Lookup(cs, i).Some? ==> i < hi
    ensures Total(cs) <= hi - lo
    decreases |cs|
  {
    if |cs| > 1 {
      assert Lookup(cs, cs[0].End() - 1).Some?;
      forall i: nat | Lookup(cs[1..], i).Some?
        ensures i < hi
      {
        assert Lookup(cs, i).Some?;
      }
      TotalBound(cs[0].End(), cs[1..], hi);
    } else {
      assert cs[1..] == [];
    }
  }

  /** Assembled and unassembled bytes together never exceed the capacity. */
  lemma WithinCapacity(st: ReassemblerState)
    requires st.Valid()
    ensures |st.output.buf| + st.unassembled <= st.capacity
  {
    TotalBound(st.output.totin, st.chunks, st.Limit());
  }

  // ---------------------------------------------------------------- slices of one stream

  /** `data` at `index` is a slice of `w`, flagged as its end only at its end. */
  predicate Slice(w: seq<byte>, data: seq<byte>, index: nat, eof: bool) {
    && index + |data| <= |w| && data == w[index..index + |data|]
    && (eof ==> index + |data| == |w|)
  }

  /** Everything held and assembled is taken from `w`. */
  ghost predicate Agrees(st: ReassemblerState, w: seq<byte>) {
    && |w| < MAX64
    && st.output.totin <= |w| && st.output.Holds(w[..st.output.totin])
    && (forall i: nat :: Lookup(st.chunks, i).Some? ==> i < |w| && Lookup(st.chunks, i) == Some(w[i]))
    && (st.posEof == MAX64 || st.posEof == |w|)
  }

  lemma NewAgrees(capacity: nat)
    ensures Agrees(NewReassembler(capacity), [])
  {
    assert [SENTINEL][1..] == [];
    assert forall i: nat :: Lookup([SENTINEL], i) == None;
  }

  /** The bytes that index `i` has been received for. */
  predicate Has(st: ReassemblerState, i: nat) {
    i < st.output.totin || Lookup(st.chunks, i).Some?
  }

  /** A push makes it have exactly what it had and what the push brings inside the window. */
  lemma PushHasIff(st: ReassemblerState, data: seq<byte>, index: nat, eof: bool, i: nat)
    requires st.Valid() && Admissible(st, data, index, eof)
    ensures var st' := st.PushSubstring(data, index, eof);
            Has(st', i) <==> Has(st, i) || (index <= i < index + |data| && i < st'.Limit())
  {
    PushRefines(st, data, index, eof, i);
    PushKeeps(st, data, index, eof);
  }

  /** Whatever it has from the start on without a gap is assembled. */
  lemma GaplessAssembled(st: ReassemblerState, n: nat)
    requires st.Valid() && forall i: nat :: i < n ==> Has(st, i)
    ensures st.output.totin >= n
  {
    assert !Has(st, st.output.totin);
  }

  lemma SliceAdmissible(st: ReassemblerState, w: seq<byte>, data: seq<byte>, index: nat, eof: bool)
    requires Agrees(st, w) && Slice(w, data, index, eof)
    ensures Admissible(st, data, index, eof)
  {
  }

  lemma SlicePoint(st: ReassemblerState, w: seq<byte>, data: seq<byte>, index: nat, eof: bool, i: nat)
    requires st.Valid() && Agrees(st, w) && Slice(w, data, index, eof)
    ensures var st' := st.PushSubstring(data, index, eof);
            && SliceEffect(st, w, Growth(st.output, st'.output), st', i)
            && (Has(st, i) || (index <= i < index + |data| && i < st'.Limit()) ==> Has(st', i))
  {
    SliceAdmissible(st, w, data, index, eof);
    PushRefines(st, data, index, eof, i);
    assert Lookup(st.chunks, i).Some? ==> i < |w|;
    assert index <= i < index + |data| ==> data[i - index] == w[i];
  }

  /** Pushing slices of one stream assembles nothing but that stream, and forgets nothing. */
  lemma PushSlice(st: ReassemblerState, w: seq<byte>, data: seq<byte>, index: nat, eof: bool)
    requires st.Valid() && Agrees(st, w) && Slice(w, data, index, eof)
    ensures var st' := st.PushSubstring(data, index, eof);
            && st'.Valid() && Agrees(st', w)
            && st.output.totin <= st'.output.totin && st'.output.totout == st.output.totout
            && st'.posEof == (if eof then |w| else st.posEof)
            && forall i: nat :: Has(st, i) || (index <= i < index + |data| && i < st'.Limit()) ==> Has(st', i)
  {
    var st' := st.PushSubstring(data, index, eof);
    SliceAdmissible(st, w, data, index, eof);
    PushKeeps(st, data, index, eof);
    PushRefines(st, data, index, eof, 0);
    forall i: nat
      ensures SliceEffect(st, w, Growth(st.output, st'.output), st', i)
      ensures Has(st, i) || (index <= i < index + |data| && i < st'.Limit()) ==> Has(st', i)
    {
      SlicePoint(st, w, data, index, eof, i);
    }
    SliceAgrees(st, w, Growth(st.output, st'.output), st');
  }

  /** Everything a push leaves held or pops at index `i` is taken from `w`. */
  predicate SliceEffect(st: ReassemblerState, w: seq<byte>, run: seq<byte>, st': ReassemblerState, i: nat) {
    var totin := st.output.totin;
    && (Lookup(st'.chunks, i).Some? ==> i < |w| && Lookup(st'.chunks, i) == Some(w[i]))
    && (totin <= i < totin + |run| ==> i < |w| && run[i - totin] == w[i])
  }

  lemma SliceAgrees(st: ReassemblerState, w: seq<byte>, run: seq<byte>, st': ReassemblerState)
    requires Agrees(st, w)
    requires st'.output.buf == st.output.buf + run && st'.output.totin == st.output.totin + |run|
    requires st'.output.totout == st.output.totout && (st'.posEof == MAX64 || st'.posEof == |w|)
    requires forall i: nat :: SliceEffect(st, w, run, st', i)
    ensures Agrees(st', w)
  {
    forall k: nat | k < |run|
      ensures SameByte(w, st.output.totin, run, k)
    {
      assert SliceEffect(st, w, run, st', st.output.totin + k);
    }
    HoldsMore(st.output, st'.output, w, run);
    forall i: nat
      ensures Lookup(st'.chunks, i).Some? ==> i < |w| && Lookup(st'.chunks, i) == Some(w[i])
    {
      assert SliceEffect(st, w, run, st', i);
    }
  }

  predicate SameByte(w: seq<byte>, at: nat, run: seq<byte>, k: nat)
    requires k < |run|
  {
    at + k < |w| && run[k] == w[at + k]
  }

  lemma HoldsMore(before: StreamState, after: StreamState, w: seq<byte>, run: seq<byte>)
    requires before.totin <= |w| && before.Holds(w[..before.totin])
    requires after.buf == before.buf + run && after.totin == before.totin + |run| && after.totout == before.totout
    requires forall k: nat :: k < |run| ==> SameByte(w, before.totin, run, k)
    ensures after.totin <= |w| && after.Holds(w[..after.totin])
  {
    if run != [] {
      assert SameByte(w, before.totin, run, |run| - 1);
    }
    forall k: nat | k < |run|
      ensures run[k] == w[before.totin..after.totin][k]
    {
      assert SameByte(w, before.totin, run, k);
    }
    assert run == w[before.totin..after.totin];
    SliceExtends(w, before.totout, before.totin, after.totin);
  }

  lemma SliceExtends(w: seq<byte>, from: nat, mid: nat, to: nat)
    requires from <= mid <= to <= |w|
    ensures w[..to][from..] == w[..mid][from..] + w[mid..to]
  {
  }

  // ---------------------------------------------------------------- order independence

  datatype Op = Push(data: seq<byte>, index: nat, eof: bool) | Read(len: nat)

  function Apply(st: ReassemblerState, op: Op): ReassemblerState
    requires st.WellFormed()
    ensures Apply(st, op).WellFormed()
  {
    match op
    case Push(data, index, eof) => PushWellFormed(st, data, index, eof); st.PushSubstring(data, index, eof)
    case Read(len) => st.(output := st.output.Pop(len))
  }

  function ApplyAll(st: ReassemblerState, ops: seq<Op>): ReassemblerState
    requires st.WellFormed()
    ensures ApplyAll(st, ops).WellFormed()
    decreases |ops|
  {
    if ops == [] then st else ApplyAll(Apply(st, ops[0]), ops[1..])
  }

  predicate Slices(w: seq<byte>, ops: seq<Op>) {
    forall k :: 0 <= k < |ops| && ops[k].Push? ==> Slice(w, ops[k].data, ops[k].index, ops[k].eof)
  }

  predicate Covers(op: Op, i: nat) {
    op.Push? && op.index <= i < op.index + |op.data|
  }

  predicate Covered(ops: seq<Op>, i: nat) {
    exists k :: 0 <= k < |ops| && Covers(ops[k], i)
  }

  predicate Ends(ops: seq<Op>) {
    exists k :: 0 <= k < |ops| && ops[k].Push? && ops[k].eof
  }

  lemma ApplySlice(st: ReassemblerState, w: seq<byte>, op: Op, i: nat)
    requires st.Valid() && Agrees(st, w) && |w| <= st.capacity
    requires op.Push? ==> Slice(w, op.data, op.index, op.eof)
    ensures var st' := Apply(st, op);
            && st'.Valid() && Agrees(st', w) && st'.capacity == st.capacity
            && (Has(st, i) || Covers(op, i) ==> Has(st', i))
            && (st.posEof == |w| || (op.Push? && op.eof) ==> st'.posEof == |w|)
  {
    match op
    case Push(data, index, eof) =>
      PushSlice(st, w, data, index, eof);
    case Read(len) =>
      st.output.PopHolds(w[..st.output.totin], len);
      ReadKeeps(st, len);
  }

  lemma {:induction false} ApplyAllSlices(st: ReassemblerState, w: seq<byte>, ops: seq<Op>, i: nat)
    requires st.Valid() && Agrees(st, w) && |w| <= st.capacity && Slices(w, ops)
    ensures var st' := ApplyAll(st, ops);
            && st'.Valid() && Agrees(st', w)
            && (Has(st, i) || Covered(ops, i) ==> Has(st', i))
            && (st.posEof == |w| || Ends(ops) ==> st'.posEof == |w|)
    decreases |ops|
  {
    if ops == [] {
    } else {
      ApplySlice(st, w, ops[0], i);
      ApplyAllSlices(Apply(st, ops[0]), w, ops[1..], i);
      assert forall k :: 0 < k < |ops| ==> ops[k] == ops[1..][k - 1];
    }
  }

  /**
   * Order independence: slices of `w` pushed in any order, with overlaps, duplicates and reads in
   * between, assemble exactly `w` once they cover it and its end has been pushed.
   */
  lemma OrderIndependence(capacity: nat, w: seq<byte>, ops: seq<Op>)
    requires |w| <= capacity && |w| < MAX64 && Slices(w, ops)
    requires forall i: nat :: i < |w| ==> Covered(ops, i)
    requires Ends(ops)
    ensures NewReassembler(capacity).WellFormed()
    ensures var st := ApplyAll(NewReassembler(capacity), ops);
            st.output.totin == |w| && st.output.Holds(w) && st.output.ended && st.unassembled == 0
  {
    NewValid(capacity);
    var st := ApplyAll(NewReassembler(capacity), ops);
    ApplyAllSlices(NewReassembler(capacity), w, ops, st.output.totin);
    TotalBound(st.output.totin, st.chunks, st.Limit());
    assert w[..|w|] == w;
  }

  // ---------------------------------------------------------------- the object

  lemma {:induction false} TotalConcat(a: seq<Chunk>, b: seq<Chunk>)
    ensures Total(a + b) == Total(a) + Total(b)
  {
    if a == [] {
      assert a + b == b;
    } else {
      assert (a + b)[1..] == a[1..] + b;
      TotalConcat(a[1..], b);
    }
  }

  /** The insertion scan has reached position `k` of the list and index `pos` of the stream. */
  predicate Scanning(cs0: seq<Chunk>, cs: seq<Chunk>, k: nat, data: seq<byte>, index: nat, pos: nat) {
    k <= |cs| && cs[..k] + Insert(cs[k..], data, index, pos) == Insert(cs0, data, index, index)
  }

  /** One step of the insertion, at position `k` of the list. */
  lemma InsertAt(cs: seq<Chunk>, k: nat, data: seq<byte>, index: nat, pos: nat)
    requires k < |cs| && pos < index + |data|
    ensures var c, p := cs[k], Max(pos, index);
            Insert(cs[k..], data, index, pos) ==
            if index <= c.start < p then [c] + Insert(cs[k + 1..], data, index, p)
            else if index <= c.start then Gap(data, index, p, c.start) + [c] + Insert(cs[k + 1..], data, index, c.End())
            else [c] + Insert(cs[k + 1..], data, index, c.End())
  {
    assert cs[k..][0] == cs[k] && cs[k..][1..] == cs[k + 1..];
  }

  lemma Regroup(a: seq<Chunk>, b: seq<Chunk>, c: seq<Chunk>)
    ensures a + (b + c) == (a + b) + c
  {
  }

  /** One turn of the scan over a chunk that it passes by. */
  lemma TurnPasses(cs0: seq<Chunk>, cs: seq<Chunk>, k: nat, data: seq<byte>, index: nat, pos: nat, next: nat)
    requires Scanning(cs0, cs, k, data, index, pos) && k < |cs| && pos < index + |data|
    requires index > cs[k].start || cs[k].start < Max(pos, index)
    requires next == if index <= cs[k].start then Max(pos, index) else cs[k].End()
    ensures Scanning(cs0, cs, k + 1, data, index, next)
  {
    InsertAt(cs, k, data, index, pos);
    Regroup(cs[..k], [cs[k]], Insert(cs[k + 1..], data, index, next));
    assert cs[..k + 1] == cs[..k] + [cs[k]];
  }

  lemma Spliced(cs: seq<Chunk>, k: nat, gap: seq<Chunk>)
    requires k < |cs|
    ensures var cs' := cs[..k] + gap + cs[k..];
            cs'[..k + |gap| + 1] == cs[..k] + (gap + [cs[k]]) && cs'[k + |gap| + 1..] == cs[k + 1..]
  {
  }

  /** One turn of the scan that fills the hole in front of a chunk, if there is one. */
  lemma TurnFills(cs0: seq<Chunk>, cs: seq<Chunk>, k: nat, data: seq<byte>, index: nat, pos: nat, gap: seq<Chunk>)
    requires Scanning(cs0, cs, k, data, index, pos) && k < |cs| && pos < index + |data|
    requires index <= cs[k].start && Max(pos, index) <= cs[k].start
    requires gap == Gap(data, index, Max(pos, index), cs[k].start)
    ensures Scanning(cs0, cs[..k] + gap + cs[k..], k + |gap| + 1, data, index, cs[k].End())
  {
    InsertAt(cs, k, data, index, pos);
    Spliced(cs, k, gap);
    Regroup(cs[..k], gap + [cs[k]], Insert(cs[k + 1..], data, index, cs[k].End()));
  }

  lemma TurnFillsNothing(cs0: seq<Chunk>, cs: seq<Chunk>, k: nat, data: seq<byte>, index: nat, pos: nat)
    requires Scanning(cs0, cs, k, data, index, pos) && k < |cs| && pos < index + |data|
    requires index <= cs[k].start && Max(pos, index) <= cs[k].start
    requires Gap(data, index, Max(pos, index), cs[k].start) == []
    ensures Scanning(cs0, cs, k + 1, data, index, cs[k].End())
  {
    assert cs[..k] + [] + cs[k..] == cs;
    TurnFills(cs0, cs, k, data, index, pos, []);
  }

  /** The push lies outside the window, by the test that `push_substring` makes. */
  predicate Outside(st: ReassemblerState, data: seq<byte>, index: nat) {
    U64(index + |data|) < st.output.totin || index >= st.Limit() || index > st.posEof
  }

  /** The three ways through `push_substring`, as the object takes them. */
  lemma PushResult(s: ReassemblerState, data: seq<byte>, index: nat, eof: bool, s': ReassemblerState)
    requires s.WellFormed()
    requires var st := s.Ending(data, index, eof);
             if data == [] then s' == st.Finish()
             else if Outside(st, data, index) then s' == st
             else s' == st.Accept(data, index).Finish()
    ensures s' == s.PushSubstring(data, index, eof) && s'.WellFormed()
  {
    PushWellFormed(s, data, index, eof);
  }

  lemma ScanDone(cs0: seq<Chunk>, cs: seq<Chunk>, k: nat, data: seq<byte>, index: nat, pos: nat)
    requires Scanning(cs0, cs, k, data, index, pos) && (k == |cs| || pos >= index + |data|)
    ensures cs == Insert(cs0, data, index, index)
  {
    assert cs == cs[..k] + cs[k..];
  }

  /** The body of the insertion loop: look at one chunk and fill the hole in front of it. */
  method Turn(ghost cs0: seq<Chunk>, cs: seq<Chunk>, k: nat, data: seq<byte>, index: nat, pos: nat)
    returns (cs': seq<Chunk>, k': nat, pos': nat, added: nat)
    requires Scanning(cs0, cs, k, data, index, pos) && k < |cs| && pos < index + |data|
    ensures Scanning(cs0, cs', k', data, index, pos')
    ensures Total(cs') == Total(cs) + added && |cs'| - k' == |cs| - k - 1
  {
    var c, p := cs[k], Max(pos, index);
    cs', k', pos', added := cs, k + 1, c.End(), 0;
    if index > c.start {
      TurnPasses(cs0, cs, k, data, index, pos, c.End());
    } else if c.start < p {
      TurnPasses(cs0, cs, k, data, index, pos, p);
      pos' := p;
    } else {
      var temp := Substr(data, p - index, c.start - p);
      if temp == [] {
        TurnFillsNothing(cs0, cs, k, data, index, pos);
      } else {
        TurnFills(cs0, cs, k, data, index, pos, [Chunk(p, temp)]);
        InsertOne(cs, k, Chunk(p, temp));
        cs', k', added := cs[..k] + [Chunk(p, temp)] + cs[k..], k + 2, |temp|;
      }
    }
  }

  class StreamReassembler {
    const output: ByteStream
    const capacity: nat
    var chunks: seq<Chunk>
    var posEof: nat
    var unassembled: nat

    ghost function View(): ReassemblerState
      reads this, output
    {
      ReassemblerState(capacity, output.View(), chunks, posEof, unassembled)
    }

    constructor (capacity: nat)
      ensures View() == NewReassembler(capacity) && View().WellFormed() && fresh(output)
    {
      output := new ByteStream(capacity);
      this.capacity := capacity;
      chunks, posEof, unassembled := [SENTINEL], MAX64, 0;
      new;
      NewValid(capacity);
    }

    method PushUnassembled(data: seq<byte>, index: nat) returns (appended: nat)
      modifies this`chunks
      ensures chunks == Insert(old(chunks), data, index, index)
      ensures Total(chunks) == Total(old(chunks)) + appended
    {
      appended := 0;
      var pos: nat, k: nat := index, 0;
      while k < |chunks| && pos < index + |data|
        invariant Scanning(old(chunks), chunks, k, data, index, pos)
        invariant Total(chunks) == Total(old(chunks)) + appended
        decreases |chunks| - k
      {
        var added;
        chunks, k, pos, added := Turn(old(chunks), chunks, k, data, index, pos);
        appended := appended + added;
      }
      ScanDone(old(chunks), chunks, k, data, index, pos);
    }

    method PopUnassembled(firstUnassembled: nat) returns (temp: seq<byte>)
      requires Closed(chunks)
      modifies this`chunks
      ensures temp == PopBytes(old(chunks), firstUnassembled)
      ensures chunks == PopRest(old(chunks), firstUnassembled)
    {
      temp := [];
      var from: nat := firstUnassembled;
      while chunks[0].start < MAX64 && chunks[0].start == from
        invariant Closed(chunks)
        invariant temp + PopBytes(chunks, from) == PopBytes(old(chunks), firstUnassembled)
        invariant PopRest(chunks, from) == PopRest(old(chunks), firstUnassembled)
        decreases |chunks|
      {
        assert temp + PopBytes(chunks, from) == (temp + chunks[0].data) + PopBytes(chunks[1..], chunks[0].End());
        temp := temp + chunks[0].data;
        from := from + |chunks[0].data|;
        chunks := chunks[1..];
      }
    }

    method PushSubstring(data: seq<byte>, index: nat, eof: bool)
      requires View().WellFormed()
      modifies this, output
      ensures View() == old(View()).PushSubstring(data, index, eof) && View().WellFormed()
    {
      ghost var s := View();
      if eof {
        posEof := U64(index + |data|);
      }
      ghost var st := View();
      assert st == s.Ending(data, index, eof);
      if data != [] {
        var firstUnassembled := output.totout + |output.buf|;
        var firstUnacceptable := Min(output.totout + capacity, posEof);
        if U64(index + |data|) < firstUnassembled || index >= firstUnacceptable || index > posEof {
          PushResult(s, data, index, eof, View());
          return;
        }
        AcceptPart(data, index, firstUnassembled, firstUnacceptable);
      }
      FinishInput();
      PushResult(s, data, index, eof, View());
    }

    /** Cut the push to the window, then absorb it. */
    method AcceptPart(data: seq<byte>, index: nat, firstUnassembled: nat, firstUnacceptable: nat)
      requires View().WellFormed() && output.totin <= index + |data|
      requires firstUnassembled == output.totin && firstUnacceptable == View().Limit()
      modifies this, output
      ensures View() == old(View()).Accept(data, index)
    {
      var startPos := Max(index, firstUnassembled);
      var newString := Substr(data, startPos - index, U64(firstUnacceptable - startPos));
      ghost var st := View();
      assert newString == st.Cut(data, index);
      Absorb(newString, startPos);
      assert View() == st.Absorb(newString, startPos);
    }

    method FinishInput()
      modifies output
      ensures View() == old(View()).Finish()
    {
      if output.totin == posEof {
        output.EndInput();
      }
    }

    /** Insert, pop, and write out what was popped. */
    method Absorb(news: seq<byte>, startPos: nat)
      requires View().WellFormed()
      modifies this, output
      ensures View() == old(View()).Absorb(news, startPos)
    {
      var appended := PushUnassembled(news, startPos);
      unassembled := unassembled + appended;
      InsertClosed(old(chunks), news, startPos, startPos);
      PopClosed(chunks, output.totin);
      var temp := PopUnassembled(output.totin);
      unassembled := unassembled - |temp|;
      var n := output.Write(temp);
    }
  }

  lemma InsertOne(cs: seq<Chunk>, k: nat, c: Chunk)
    requires k <= |cs|
    ensures Total(cs[..k] + [c] + cs[k..]) == Total(cs) + |c.data|
  {
    TotalConcat(cs[..k], [c]);
    TotalConcat(cs[..k] + [c], cs[k..]);
    TotalConcat(cs[..k], cs[k..]);
    assert cs[..k] + cs[k..] == cs && [c][1..] == [];
  }
}
