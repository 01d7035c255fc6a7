/** The buffer of fixes between the parser (`storeFix`) and the application (`read`), for any size,
    merging technique and overrun policy. */
module FixRing {
  import opened Widths
  import opened Options
  import opened Fixes

  datatype Merging = NoMerging | ExplicitMerging | ImplicitMerging

  datatype Config = Config(max: nat, merging: Merging, keepNewest: bool)
  {
    ghost predicate Valid() { 1 <= max < 256 }
  }

  /** What the ring stands for: the fixes ready to read, oldest first, and the fix being assembled
      for the current interval (explicit merging with a free slot; EMPTY otherwise). */
  datatype Fifo = Fifo(queue: seq<Fix>, pending: Fix, overrun: bool)

  /** `storeFix`, once the parser has completed a sentence. When the ring is full and the newest is
      to be kept, the oldest fix is dropped and its slot reused as it is: with explicit merging the
      new sentence is merged on top of the dropped fix. */
  function Store(c: Config, a: Fifo, f: Fix, complete: bool): (b: Fifo)
    requires c.Valid() && |a.queue| <= c.max
    ensures |b.queue| <= c.max
  {
    var full := |a.queue| == c.max;
    if full && !c.keepNewest then a.(overrun := true)
    else
      var q := if full then a.queue[1..] else a.queue;
      var slot := if full then a.queue[0] else a.pending;
      var overrun := a.overrun || full;
      match c.merging
      case NoMerging => Fifo(q + [f], EMPTY, overrun)
      case ImplicitMerging => Fifo(if complete then q + [f] else q, EMPTY, overrun)
      case ExplicitMerging =>
        var m := Merge(slot, f);
        if complete then Fifo(q + [m], EMPTY, overrun) else Fifo(q, m, overrun)
  }

  /** `read`: an empty fix when nothing is ready. */
  function Read(a: Fifo): (r: (Fifo, Option<Fix>)) {
    if a.queue == [] then (a, None) else (a.(queue := a.queue[1..]), Some(a.queue[0]))
  }

  class Ring {
    const config: Config
    const buffer: array<Fix>
    var fixesAvailable: uint8
    var firstFix: uint8
    var currentFix: uint8
    var overrun: bool

    /** The slot `i` places after the oldest fix. */
    function Slot(i: int): (k: int)
      requires 0 <= i <= config.max && (firstFix as int) < config.max
      reads this`firstFix
      ensures 0 <= k < config.max
    {
      if firstFix as int + i < config.max then firstFix as int + i else firstFix as int + i - config.max
    }

    ghost predicate Valid()
      reads this, buffer
    {
      && config.Valid() && buffer.Length == config.max
      && (firstFix as int) < config.max && (fixesAvailable as int) <= config.max
      && currentFix as int == Slot(fixesAvailable as int)
      && (config.merging.ExplicitMerging? ==>
            forall i :: fixesAvailable as int < i < config.max ==> buffer[Slot(i)] == EMPTY)
    }

    ghost function Contents(): (a: Fifo)
      requires Valid()
      reads this, buffer
      ensures |a.queue| == fixesAvailable as int
    {
      Fifo(seq(fixesAvailable as int, i requires 0 <= i < fixesAvailable as int reads this, buffer
                                        requires Valid() => buffer[Slot(i)]),
           if config.merging.ExplicitMerging? && (fixesAvailable as int) < config.max
           then buffer[currentFix] else EMPTY,
           overrun)
    }

    constructor (config: Config)
      requires config.Valid()
      ensures this.config == config && fresh(buffer)
      ensures Valid() && Contents() == Fifo([], EMPTY, false)
    {
      this.config := config;
      buffer := new Fix[config.max](_ => EMPTY);
      fixesAvailable, firstFix, currentFix, overrun := 0, 0, 0, false;
    }

    /** The oldest slot is given up, not cleared. */
    method DropOldest()
      requires Valid() && fixesAvailable as int == config.max
      modifies this`firstFix, this`fixesAvailable
      ensures Valid()
      ensures Contents().queue == old(Contents()).queue[1..]
      ensures config.merging.ExplicitMerging? ==> Contents().pending == old(Contents()).queue[0]
      ensures Contents().overrun == old(overrun)
    {
      var next := firstFix as int + 1;
      firstFix := if next >= config.max then 0 else next as uint8;
      fixesAvailable := fixesAvailable - 1;
      assert forall i :: 0 <= i < fixesAvailable as int ==> Slot(i) == old(Slot(i + 1));
    }

    /** The assembled slot becomes the newest fix. */
    method Advance()
      requires Valid() && (fixesAvailable as int) < config.max
      modifies this`currentFix, this`fixesAvailable
      ensures Valid()
      ensures Contents().queue == old(Contents().queue) + [old(buffer[currentFix])]
      ensures Contents().pending == EMPTY
      ensures Contents().overrun == old(overrun)
    {
      ghost var q, k := Contents().queue, fixesAvailable as int;
      assert forall i :: 0 <= i < k ==> q[i] == buffer[Slot(i)];
      var next := currentFix as int + 1;
      currentFix := if next >= config.max then 0 else next as uint8;
      fixesAvailable := fixesAvailable + 1;
      assert currentFix as int == Slot(k + 1);
      assert Contents().queue[..k] == q;
    }

    method StoreFix(fix: Fix, intervalComplete: bool)
      requires Valid()
      modifies this`firstFix, this`fixesAvailable, this`currentFix, this`overrun, buffer
      ensures Valid()
      ensures Contents() == Store(config, old(Contents()), fix, intervalComplete)
    {
      var room := (fixesAvailable as int) < config.max;
      if !room {
        overrun := true;
        if config.keepNewest {
          DropOldest();
          room := true;
        }
      }
      if room {
        if config.merging.ExplicitMerging? {
          WriteCurrent(Merge(buffer[currentFix], fix));
        }
        if config.merging.NoMerging? || intervalComplete {
          if !config.merging.ExplicitMerging? {
            WriteCurrent(fix);
          }
          Advance();
        }
      }
    }

    /** `buffer[ _currentFix ] = fix`. */
    method WriteCurrent(fix: Fix)
      requires Valid() && (fixesAvailable as int) < config.max
      modifies buffer
      ensures Valid() && buffer[currentFix] == fix
      ensures Contents().queue == old(Contents()).queue
      ensures config.merging.ExplicitMerging? ==> Contents().pending == fix
    {
      buffer[currentFix] := fix;
    }

    method ReadFix() returns (fix: Fix)
      requires Valid()
      modifies this`firstFix, this`fixesAvailable, buffer
      ensures Valid()
      ensures var r := Read(old(Contents()));
              Contents() == r.0 && fix == (if r.1.Some? then r.1.value else EMPTY)
    {
      fix := EMPTY;
      if fixesAvailable > 0 {
        fixesAvailable := fixesAvailable - 1;
        fix := buffer[firstFix];
        if config.merging.ExplicitMerging? {
          buffer[firstFix] := EMPTY;
        }
        var next := firstFix as int + 1;
        firstFix := if next >= config.max then 0 else next as uint8;
        assert forall i :: 0 <= i < config.max - 1 ==> Slot(i) == old(Slot(i + 1));
      }
    }

    /** `overrun( false )`. */
    method AcknowledgeOverrun()
      requires Valid()
      modifies this`overrun
      ensures Valid() && Contents() == old(Contents()).(overrun := false)
    {
      overrun := false;
    }

    /** The three indices agree modulo the size. */
    lemma IndexLaw()
      requires Valid()
      ensures currentFix as int == (firstFix as int + fixesAvailable as int) % config.max
    {
      ModuloWrap(firstFix as int + fixesAvailable as int, config.max);
    }
  }

  lemma ModuloWrap(m: int, n: int)
    requires 0 <= m < 2 * n
    ensures m % n == if m < n then m else m - n
  {
    Quotient(m / n, n, m % n);
  }

  lemma Quotient(q: int, n: int, r: int)
    requires 0 <= r < n && 0 <= q * n + r < 2 * n
    ensures 0 <= q <= 1
  {}

  // ---- Whole runs ----

  /** What happens to the ring: a sentence is stored, the application reads, or it calls `overrun(false)`. */
  datatype Op = Sentence(fix: Fix, complete: bool) | Take | ClearOverrun

  /** A run from the empty ring, with the fixes read so far. */
  datatype Trace = Trace(ring: Fifo, taken: seq<Fix>)

  function Perform(c: Config, t: Trace, op: Op): (u: Trace)
    requires c.Valid() && |t.ring.queue| <= c.max
    ensures |u.ring.queue| <= c.max
  {
    match op
    case Sentence(f, complete) => t.(ring := Store(c, t.ring, f, complete))
    case Take =>
      var (ring, got) := Read(t.ring);
      Trace(ring, if got.Some? then t.taken + [got.value] else t.taken)
    case ClearOverrun => t.(ring := t.ring.(overrun := false))
  }

  function Run(c: Config, ops: seq<Op>): (t: Trace)
    requires c.Valid()
    ensures |t.ring.queue| <= c.max
  {
    if ops == [] then Trace(Fifo([], EMPTY, false), [])
    else Perform(c, Run(c, ops[..|ops| - 1]), ops[|ops| - 1])
  }

  /** The sentences received, cut at the ends of intervals: the merges of the finished intervals, and
      the sentences of the unfinished one. */
  datatype Intervals = Intervals(finished: seq<Fix>, open: seq<Fix>)

  function Cut(ops: seq<Op>): Intervals {
    if ops == [] then Intervals([], [])
    else
      var v := Cut(ops[..|ops| - 1]);
      match ops[|ops| - 1]
      case Sentence(f, complete) =>
        if complete then Intervals(v.finished + [MergeAll(EMPTY, v.open + [f])], [])
        else Intervals(v.finished, v.open + [f])
      case _ => v
  }

  /** The fixes a run stores one by one: every sentence, or with implicit merging (where the parser's fix
      already holds the interval) those that end one. */
  function Sentences(m: Merging, ops: seq<Op>): seq<Fix> {
    if ops == [] then []
    else
      var rest := Sentences(m, ops[..|ops| - 1]);
      match ops[|ops| - 1]
      case Sentence(f, complete) => if m.NoMerging? || complete then rest + [f] else rest
      case _ => rest
  }

  // ---- When there is room ----

  /** How many fixes wait to be read, counted from the operations alone. */
  function Waiting(c: Config, ops: seq<Op>): (n: nat)
    requires c.Valid()
    ensures n <= c.max
  {
    if ops == [] then 0
    else
      var n := Waiting(c, ops[..|ops| - 1]);
      match ops[|ops| - 1]
      case Sentence(_, complete) =>
        if n == c.max && !c.keepNewest then n
        else (if n == c.max then n - 1 else n) + (if c.merging.NoMerging? || complete then 1 else 0)
      case Take => if n == 0 then 0 else n - 1
      case ClearOverrun => n
  }

  /** Operation `i` is a sentence that finds the ring full. */
  ghost predicate Overflows(c: Config, ops: seq<Op>, i: nat)
    requires c.Valid() && i < |ops|
  {
    ops[i].Sentence? && Waiting(c, ops[..i]) == c.max
  }

  ghost predicate Roomy(c: Config, ops: seq<Op>)
    requires c.Valid()
  {
    forall i | 0 <= i < |ops| :: !Overflows(c, ops, i)
  }

  /** The operations without the sentences that find the ring full. */
  function Accepted(c: Config, ops: seq<Op>): seq<Op>
    requires c.Valid()
  {
    if ops == [] then []
    else
      var front, op := ops[..|ops| - 1], ops[|ops| - 1];
      Accepted(c, front) + if op.Sentence? && Waiting(c, front) == c.max then [] else [op]
  }

  lemma {:induction false} QueueIsWaiting(c: Config, ops: seq<Op>)
    requires c.Valid()
    ensures |Run(c, ops).ring.queue| == Waiting(c, ops)
  {
    if ops != [] {
      QueueIsWaiting(c, ops[..|ops| - 1]);
    }
  }

  lemma RoomyFront(c: Config, ops: seq<Op>)
    requires c.Valid() && ops != []
    ensures var n := |ops| - 1; Roomy(c, ops) <==> Roomy(c, ops[..n]) && !Overflows(c, ops, n)
  {
    var n := |ops| - 1;
    forall i | 0 <= i < n
      ensures Overflows(c, ops[..n], i) == Overflows(c, ops, i)
    {
      assert ops[..n][..i] == ops[..i];
    }
  }

  lemma {:induction false} RoomyAccepts(c: Config, ops: seq<Op>)
    requires c.Valid() && Roomy(c, ops)
    ensures Accepted(c, ops) == ops
  {
    if ops != [] {
      RoomyFront(c, ops);
      RoomyAccepts(c, ops[..|ops| - 1]);
    }
  }

  /** There was an overflow that the application has not acknowledged. */
  ghost predicate Unacknowledged(c: Config, ops: seq<Op>)
    requires c.Valid()
  {
    exists i | 0 <= i < |ops| :: Overflows(c, ops, i) && ClearOverrun !in ops[i..]
  }

  /** The overrun flag says exactly that. */
  lemma {:induction false} OverrunMeans(c: Config, ops: seq<Op>)
    requires c.Valid()
    ensures Run(c, ops).ring.overrun <==> Unacknowledged(c, ops)
  {
    if ops != [] {
      var n := |ops| - 1;
      OverrunMeans(c, ops[..n]);
      QueueIsWaiting(c, ops[..n]);
      AcknowledgedFront(c, ops);
    }
  }

  lemma AcknowledgedFront(c: Config, ops: seq<Op>)
    requires c.Valid() && ops != []
    ensures var n := |ops| - 1;
            Unacknowledged(c, ops) <==> (ops[n] != ClearOverrun && Unacknowledged(c, ops[..n])) || Overflows(c, ops, n)
  {
    var n := |ops| - 1;
    var front := ops[..n];
    forall i | 0 <= i < n
      ensures Overflows(c, front, i) == Overflows(c, ops, i)
      ensures ClearOverrun in ops[i..] <==> ClearOverrun in front[i..] || ops[n] == ClearOverrun
    {
      assert front[..i] == ops[..i];
      assert ops[i..] == front[i..] + [ops[n]];
    }
    assert ops[n..] == [ops[n]];
  }

  // ---- Explicit merging ----

  ghost predicate Exact(c: Config, t: Trace, v: Intervals) {
    && t.taken + t.ring.queue == v.finished
    && t.ring.pending == MergeAll(EMPTY, v.open)
    && (|t.ring.queue| == c.max ==> v.open == [])
  }

  lemma ExactSentence(c: Config, t: Trace, v: Intervals, f: Fix, complete: bool)
    requires c.Valid() && c.merging.ExplicitMerging? && |t.ring.queue| < c.max && Exact(c, t, v)
    ensures Exact(c, t.(ring := Store(c, t.ring, f, complete)),
                  if complete then Intervals(v.finished + [MergeAll(EMPTY, v.open + [f])], [])
                  else Intervals(v.finished, v.open + [f]))
  {
    var m := MergeAll(EMPTY, v.open + [f]);
    assert (v.open + [f])[..|v.open|] == v.open;
    assert m == Merge(t.ring.pending, f);
    assert t.taken + (t.ring.queue + [m]) == t.taken + t.ring.queue + [m];
  }

  lemma ExactTake(c: Config, t: Trace, v: Intervals)
    requires c.Valid() && |t.ring.queue| <= c.max && Exact(c, t, v)
    ensures Exact(c, Perform(c, t, Take), v)
  {
    if t.ring.queue != [] {
      assert t.taken + [t.ring.queue[0]] + t.ring.queue[1..] == t.taken + t.ring.queue;
    }
  }

  /** The operation that is not an overflow keeps the law. */
  lemma ExactStep(c: Config, t: Trace, seen: seq<Op>, op: Op)
    requires c.Valid() && c.merging.ExplicitMerging? && |t.ring.queue| <= c.max && Exact(c, t, Cut(seen))
    requires op.Sentence? ==> |t.ring.queue| < c.max
    ensures Exact(c, Perform(c, t, op), Cut(seen + [op]))
  {
    assert (seen + [op])[..|seen|] == seen;
    match op
    case Sentence(f, complete) => ExactSentence(c, t, Cut(seen), f, complete);
    case Take => ExactTake(c, t, Cut(seen));
    case ClearOverrun =>
  }

  /** Explicit merging, for any size, policy and interleaving, while no sentence finds the ring full: the
      fixes read, followed by those still waiting, are exactly the intervals received, each the left-to-right
      merge of its own sentences and of nothing else; the slot being filled holds the open interval. */
  lemma {:induction false} ExplicitMergingExact(c: Config, ops: seq<Op>)
    requires c.Valid() && c.merging.ExplicitMerging? && Roomy(c, ops)
    ensures Exact(c, Run(c, ops), Cut(ops))
  {
    if ops != [] {
      var front, op := ops[..|ops| - 1], ops[|ops| - 1];
      RoomyFront(c, ops);
      ExplicitMergingExact(c, front);
      QueueIsWaiting(c, front);
      ExactStep(c, Run(c, front), front, op);
      assert front + [op] == ops;
    }
  }

  /** When the newest is dropped the law holds over every run, of the sentences that found room. */
  lemma {:induction false} DropNewestExact(c: Config, ops: seq<Op>)
    requires c.Valid() && c.merging.ExplicitMerging? && !c.keepNewest
    ensures Exact(c, Run(c, ops), Cut(Accepted(c, ops)))
  {
    if ops != [] {
      var front, op := ops[..|ops| - 1], ops[|ops| - 1];
      DropNewestExact(c, front);
      QueueIsWaiting(c, front);
      if op.Sentence? && Waiting(c, front) == c.max {
        assert Accepted(c, front) + [] == Accepted(c, front);
      } else {
        ExactStep(c, Run(c, front), Accepted(c, front), op);
      }
    }
  }

  /** When the newest is kept (the configured policy), the premise is exact: an interval is lost, never to
      be read, as soon as one sentence finds the ring full. */
  lemma OverrunLosesAnInterval(c: Config, ops: seq<Op>)
    requires c.Valid() && c.merging.ExplicitMerging? && c.keepNewest
    ensures var t := Run(c, ops); t.taken + t.ring.queue == Cut(ops).finished <==> Roomy(c, ops)
    ensures var t := Run(c, ops); |t.taken| + |t.ring.queue| < |Cut(ops).finished| <==> !Roomy(c, ops)
  {
    FinishedCount(ops);
    StoredCount(c, ops);
    if Roomy(c, ops) {
      ExplicitMergingExact(c, ops);
    }
  }

  lemma {:induction false} FinishedCount(ops: seq<Op>)
    ensures |Cut(ops).finished| == |Sentences(ExplicitMerging, ops)|
  {
    if ops != [] {
      FinishedCount(ops[..|ops| - 1]);
    }
  }

  /** Keeping the newest, each overflow costs one fix. */
  lemma {:induction false} StoredCount(c: Config, ops: seq<Op>)
    requires c.Valid() && c.keepNewest
    ensures var t := Run(c, ops); var n := |t.taken| + |t.ring.queue|; var all := |Sentences(c.merging, ops)|;
            n <= all && (n == all <==> Roomy(c, ops))
  {
    if ops != [] {
      var front := ops[..|ops| - 1];
      StoredCount(c, front);
      QueueIsWaiting(c, front);
      RoomyFront(c, ops);
    }
  }

  /** Where each fix comes from when the newest is kept: the sentences of its interval, and before them, when the
      first of those found the ring full, all that the dropped fix came from. */
  datatype Origins = Origins(taken: seq<seq<Fix>>, waiting: seq<seq<Fix>>, open: seq<Fix>)

  function Follow(max: nat, o: Origins, op: Op): (p: Origins)
    requires 1 <= max && |o.waiting| <= max
    ensures |p.waiting| <= max
  {
    match op
    case Sentence(f, complete) =>
      var full := |o.waiting| == max;
      var rest := if full then o.waiting[1..] else o.waiting;
      var own := (if full then o.waiting[0] else o.open) + [f];
      if complete then Origins(o.taken, rest + [own], []) else Origins(o.taken, rest, own)
    case Take =>
      if o.waiting == [] then o else Origins(o.taken + [o.waiting[0]], o.waiting[1..], o.open)
    case ClearOverrun => o
  }

  function OriginsOf(max: nat, ops: seq<Op>): (o: Origins)
    requires 1 <= max
    ensures |o.waiting| <= max
  {
    if ops == [] then Origins([], [], []) else Follow(max, OriginsOf(max, ops[..|ops| - 1]), ops[|ops| - 1])
  }

  function Merged(lists: seq<seq<Fix>>): (fixes: seq<Fix>)
    ensures |fixes| == |lists|
  {
    seq(|lists|, i requires 0 <= i < |lists| => MergeAll(EMPTY, lists[i]))
  }

  ghost predicate ComesFrom(max: nat, t: Trace, o: Origins) {
    && t.taken == Merged(o.taken) && t.ring.queue == Merged(o.waiting) && t.ring.pending == MergeAll(EMPTY, o.open)
    && (|o.waiting| == max ==> o.open == [])
  }

  lemma MergedSnoc(a: seq<seq<Fix>>, b: seq<Fix>)
    ensures Merged(a + [b]) == Merged(a) + [MergeAll(EMPTY, b)]
  {
    hide MergeAll;
  }

  lemma MergedFirst(a: seq<seq<Fix>>)
    requires a != []
    ensures Merged(a[1..]) == Merged(a)[1..] && Merged(a)[0] == MergeAll(EMPTY, a[0])
  {
    hide MergeAll;
  }

  lemma MergeAllSnoc(fixes: seq<Fix>, f: Fix)
    ensures MergeAll(EMPTY, fixes + [f]) == Merge(MergeAll(EMPTY, fixes), f)
  {
    assert (fixes + [f])[..|fixes|] == fixes;
  }

  lemma MergeAllNone()
    ensures MergeAll(EMPTY, []) == EMPTY && Merged([]) == []
  {}

  /** A sentence on the slot `base`, with `rest` waiting before it. */
  lemma SentenceComes(taken: seq<seq<Fix>>, rest: seq<seq<Fix>>, base: seq<Fix>, f: Fix)
    ensures var m := Merge(MergeAll(EMPTY, base), f);
            && Merged(rest) + [m] == Merged(rest + [base + [f]]) && m == MergeAll(EMPTY, base + [f])
  {
    hide MergeAll, Merged, Merge;
    MergeAllSnoc(base, f);
    MergedSnoc(rest, base + [f]);
  }

  lemma StoreComes(c: Config, t: Trace, o: Origins, f: Fix, complete: bool)
    requires c.Valid() && c.merging.ExplicitMerging? && c.keepNewest && |t.ring.queue| <= c.max
    requires |o.waiting| <= c.max && ComesFrom(c.max, t, o)
    ensures ComesFrom(c.max, t.(ring := Store(c, t.ring, f, complete)), Follow(c.max, o, Sentence(f, complete)))
  {
    hide MergeAll, Merged, Merge;
    MergeAllNone();
    if |o.waiting| == c.max {
      MergedFirst(o.waiting);
      SentenceComes(o.taken, o.waiting[1..], o.waiting[0], f);
    } else {
      SentenceComes(o.taken, o.waiting, o.open, f);
    }
  }

  lemma TakeComes(c: Config, t: Trace, o: Origins)
    requires c.Valid() && |t.ring.queue| <= c.max && |o.waiting| <= c.max && ComesFrom(c.max, t, o)
    ensures ComesFrom(c.max, Perform(c, t, Take), Follow(c.max, o, Take))
  {
    hide MergeAll, Merged;
    if o.waiting != [] {
      MergedFirst(o.waiting);
      MergedSnoc(o.taken, o.waiting[0]);
    }
  }

  lemma OriginStep(c: Config, t: Trace, o: Origins, op: Op)
    requires c.Valid() && c.merging.ExplicitMerging? && c.keepNewest && |t.ring.queue| <= c.max
    requires |o.waiting| <= c.max && ComesFrom(c.max, t, o)
    ensures ComesFrom(c.max, Perform(c, t, op), Follow(c.max, o, op))
  {
    match op
    case Sentence(f, complete) => hide ComesFrom, Store, Follow; StoreComes(c, t, o, f, complete);
    case Take => hide ComesFrom, Follow; TakeComes(c, t, o);
    case ClearOverrun => hide Merged, MergeAll;
  }

  /** Over every run with the newest kept, whatever overflows: every fix read, every fix waiting and the one being
      assembled is the merge of exactly those sentences, in order. */
  lemma {:induction false} OverrunExact(c: Config, ops: seq<Op>)
    requires c.Valid() && c.merging.ExplicitMerging? && c.keepNewest
    ensures ComesFrom(c.max, Run(c, ops), OriginsOf(c.max, ops))
  {
    if ops == [] {
      hide MergeAll, Merged;
      MergeAllNone();
    } else {
      hide ComesFrom, Perform, Follow;
      var front, op := ops[..|ops| - 1], ops[|ops| - 1];
      OverrunExact(c, front);
      OriginStep(c, Run(c, front), OriginsOf(c.max, front), op);
    }
  }

  /** The intervals sentence by sentence. */
  datatype Spans = Spans(finished: seq<seq<Fix>>, open: seq<Fix>)

  function Extend(v: Spans, op: Op): Spans {
    match op
    case Sentence(f, complete) =>
      if complete then Spans(v.finished + [v.open + [f]], []) else Spans(v.finished, v.open + [f])
    case _ => v
  }

  function SpansOf(ops: seq<Op>): Spans {
    if ops == [] then Spans([], []) else Extend(SpansOf(ops[..|ops| - 1]), ops[|ops| - 1])
  }

  predicate EndsIn(list: seq<Fix>, span: seq<Fix>) { |span| <= |list| && list[|list| - |span|..] == span }

  ghost predicate Kept(max: nat, o: Origins, v: Spans) {
    && |o.waiting| <= |v.finished| && EndsIn(o.open, v.open) && (|o.waiting| == max ==> v.open == [])
    && forall k | 0 <= k < |o.waiting| :: EndsIn(o.waiting[k], v.finished[|v.finished| - |o.waiting| + k])
  }

  lemma EndsSnoc(list: seq<Fix>, span: seq<Fix>, f: Fix)
    requires EndsIn(list, span)
    ensures EndsIn(list + [f], span + [f])
  {
    var n := |list| - |span|;
    assert (list + [f])[n..] == list[n..] + [f];
  }

  lemma KeptStep(max: nat, o: Origins, v: Spans, op: Op)
    requires 1 <= max && |o.waiting| <= max && Kept(max, o, v)
    ensures Kept(max, Follow(max, o, op), Extend(v, op))
  {
    hide EndsIn;
    AllEnds([]);
    if op.Sentence? {
      var base := if |o.waiting| == max then o.waiting[0] else o.open;
      AllEnds(base);
      EndsSnoc(base, v.open, op.fix);
    }
  }

  lemma AllEnds(list: seq<Fix>)
    ensures EndsIn(list, [])
  {}

  lemma NothingKept(max: nat)
    requires 1 <= max
    ensures Kept(max, OriginsOf(max, []), SpansOf([]))
  {
    AllEnds([]);
  }

  lemma OneMore(max: nat, ops: seq<Op>)
    requires 1 <= max && ops != []
    ensures var front, op := ops[..|ops| - 1], ops[|ops| - 1];
            OriginsOf(max, ops) == Follow(max, OriginsOf(max, front), op) && SpansOf(ops) == Extend(SpansOf(front), op)
  {}

  /** The fixes waiting are those of the last intervals, and each has every sentence of its own interval last: what
      an overrun loses is an older interval, and what it mixes in comes before. */
  lemma {:induction false} OwnIntervalKept(max: nat, ops: seq<Op>)
    requires 1 <= max
    ensures Kept(max, OriginsOf(max, ops), SpansOf(ops))
  {
    hide Kept, Follow, Extend, OriginsOf, SpansOf;
    if ops == [] {
      NothingKept(max);
    } else {
      var front, op := ops[..|ops| - 1], ops[|ops| - 1];
      OwnIntervalKept(max, front);
      KeptStep(max, OriginsOf(max, front), SpansOf(front), op);
      OneMore(max, ops);
    }
  }

  /** What goes wrong then: one slot, newest kept, and the first sentence of an interval arriving
      before the previous fix was read. The next fix read carries the old interval's altitude. */
  lemma OverrunMixesIntervals(lat: int, alt: int)
    ensures var c := Config(1, ExplicitMerging, true);
            var first := EMPTY.(valid := NOTHING.(altitude := true), altitude := Decimal(alt, 0));
            var second := EMPTY.(valid := NOTHING.(location := true), location := Place(lat, 0));
            var t := Run(c, [Sentence(first, true), Sentence(second, true), Take]);
            t.taken == [Merge(first, second)] && t.taken[0].valid.altitude
            && t.taken[0] != MergeAll(EMPTY, [second])
  {
    var c := Config(1, ExplicitMerging, true);
    var first := EMPTY.(valid := NOTHING.(altitude := true), altitude := Decimal(alt, 0));
    var second := EMPTY.(valid := NOTHING.(location := true), location := Place(lat, 0));
    var ops := [Sentence(first, true), Sentence(second, true), Take];
    assert ops[..2] == [Sentence(first, true), Sentence(second, true)];
    assert ops[..2][..1] == [Sentence(first, true)] && ops[..2][..1][..0] == [];
    assert Run(c, []) == Trace(Fifo([], EMPTY, false), []);
    assert Run(c, ops[..2][..1]).ring.queue == [Merge(EMPTY, first)];
    assert Run(c, ops[..2]).ring.queue == [Merge(Merge(EMPTY, first), second)];
    MergeAllGroups(EMPTY, second, []);
  }

  // ---- No merging, and implicit merging ----

  /** One slot a fix: the operation that is not an overflow adds what it stores. */
  lemma PlainStep(c: Config, t: Trace, seen: seq<Op>, op: Op)
    requires c.Valid() && !c.merging.ExplicitMerging? && |t.ring.queue| <= c.max
    requires t.taken + t.ring.queue == Sentences(c.merging, seen)
    requires op.Sentence? ==> |t.ring.queue| < c.max
    ensures var u := Perform(c, t, op); u.taken + u.ring.queue == Sentences(c.merging, seen + [op])
  {
    assert (seen + [op])[..|seen|] == seen;
    match op
    case Sentence(f, _) => assert t.taken + (t.ring.queue + [f]) == t.taken + t.ring.queue + [f];
    case Take =>
      if t.ring.queue != [] {
        assert t.taken + [t.ring.queue[0]] + t.ring.queue[1..] == t.taken + t.ring.queue;
      }
    case ClearOverrun =>
  }

  /** When the newest is dropped, over every run: what was read and what waits are exactly the fixes that
      found room, in order. */
  lemma {:induction false} DropNewestLaw(c: Config, ops: seq<Op>)
    requires c.Valid() && !c.merging.ExplicitMerging? && !c.keepNewest
    ensures var t := Run(c, ops); t.taken + t.ring.queue == Sentences(c.merging, Accepted(c, ops))
  {
    if ops != [] {
      var front, op := ops[..|ops| - 1], ops[|ops| - 1];
      DropNewestLaw(c, front);
      QueueIsWaiting(c, front);
      if op.Sentence? && Waiting(c, front) == c.max {
        assert Accepted(c, front) + [] == Accepted(c, front);
      } else {
        PlainStep(c, Run(c, front), Accepted(c, front), op);
      }
    }
  }

  /** With room for every sentence nothing is lost, whatever the policy. */
  lemma {:induction false} LosslessWhenRoomy(c: Config, ops: seq<Op>)
    requires c.Valid() && !c.merging.ExplicitMerging? && Roomy(c, ops)
    ensures var t := Run(c, ops); t.taken + t.ring.queue == Sentences(c.merging, ops)
  {
    if ops != [] {
      var front, op := ops[..|ops| - 1], ops[|ops| - 1];
      RoomyFront(c, ops);
      LosslessWhenRoomy(c, front);
      QueueIsWaiting(c, front);
      PlainStep(c, Run(c, front), front, op);
      assert front + [op] == ops;
    }
  }

  /** Operation `i` finds the ring full and costs a fix: any sentence does, but with implicit merging and the
      newest dropped only one that ends an interval, since the others store nothing. */
  ghost predicate Costs(c: Config, ops: seq<Op>, i: nat)
    requires c.Valid() && i < |ops|
  {
    Overflows(c, ops, i) && (c.merging.NoMerging? || c.keepNewest || ops[i].complete)
  }

  ghost predicate NothingLost(c: Config, ops: seq<Op>)
    requires c.Valid()
  {
    forall i | 0 <= i < |ops| :: !Costs(c, ops, i)
  }

  lemma NothingLostFront(c: Config, ops: seq<Op>)
    requires c.Valid() && ops != []
    ensures var n := |ops| - 1; NothingLost(c, ops) <==> NothingLost(c, ops[..n]) && !Costs(c, ops, n)
  {
    var n := |ops| - 1;
    forall i | 0 <= i < n
      ensures Costs(c, ops[..n], i) == Costs(c, ops, i)
    {
      assert ops[..n][..i] == ops[..i];
    }
  }

  lemma KeepingLosesWhenFull(c: Config, ops: seq<Op>)
    requires c.Valid() && c.keepNewest
    ensures NothingLost(c, ops) <==> Roomy(c, ops)
  {
    if i :| 0 <= i < |ops| && Overflows(c, ops, i) {
      assert Costs(c, ops, i);
    }
  }

  /** For every policy, and with and without implicit merging: the fixes read and waiting are all those to be
      stored, in order, exactly when no sentence that costs one finds the ring full. */
  lemma LosslessExactly(c: Config, ops: seq<Op>)
    requires c.Valid() && !c.merging.ExplicitMerging?
    ensures var t := Run(c, ops); t.taken + t.ring.queue == Sentences(c.merging, ops) <==> NothingLost(c, ops)
  {
    hide Run, Roomy, NothingLost;
    if c.keepNewest {
      KeepingLosesWhenFull(c, ops);
      StoredCount(c, ops);
      if Roomy(c, ops) {
        LosslessWhenRoomy(c, ops);
      }
    } else {
      DropNewestLaw(c, ops);
      AcceptedFewer(c, ops);
    }
  }

  lemma {:induction false} AcceptedFewer(c: Config, ops: seq<Op>)
    requires c.Valid() && !c.merging.ExplicitMerging? && !c.keepNewest
    ensures var kept, all := Sentences(c.merging, Accepted(c, ops)), Sentences(c.merging, ops);
            |kept| <= |all| && (if NothingLost(c, ops) then kept == all else |kept| < |all|)
  {
    if ops != [] {
      hide NothingLost;
      var front, op := ops[..|ops| - 1], ops[|ops| - 1];
      AcceptedFewer(c, front);
      NothingLostFront(c, ops);
      if op.Sentence? && Waiting(c, front) == c.max {
        assert Accepted(c, front) + [] == Accepted(c, front);
      } else {
        SentencesSnoc(c.merging, Accepted(c, front), op);
        SentencesSnoc(c.merging, front, op);
        assert front + [op] == ops;
      }
    }
  }

  lemma SentencesSnoc(m: Merging, ops: seq<Op>, op: Op)
    ensures Sentences(m, ops + [op]) ==
            Sentences(m, ops) + if op.Sentence? && (m.NoMerging? || op.complete) then [op.fix] else []
  {
    assert (ops + [op])[..|ops|] == ops;
  }

  /** Which sentences have been read when the newest is kept: each read takes the oldest of the `Waiting`
      last ones. */
  function TakenAt(c: Config, ops: seq<Op>): (indices: seq<int>)
    requires c.Valid()
  {
    if ops == [] then []
    else
      var front := ops[..|ops| - 1];
      var n := Waiting(c, front);
      TakenAt(c, front) + if ops[|ops| - 1] == Take && n > 0 then [|Sentences(NoMerging, front)| - n] else []
  }

  lemma {:induction false} QueueIsNewest(c: Config, ops: seq<Op>)
    requires c.Valid() && c.merging.NoMerging? && c.keepNewest
    ensures var s := Sentences(NoMerging, ops); var n := Waiting(c, ops);
            n <= |s| && Run(c, ops).ring.queue == s[|s| - n..]
  {
    if ops != [] {
      hide Run, Sentences, Waiting;
      var front, op := ops[..|ops| - 1], ops[|ops| - 1];
      QueueIsNewest(c, front);
      QueueIsWaiting(c, front);
      QueueIsWaiting(c, ops);
      SentencesSnoc(NoMerging, front, op);
      assert front + [op] == ops;
      NewestStep(c, Run(c, front), Sentences(NoMerging, front), op);
      RunSnoc(c, ops);
    }
  }

  lemma RunSnoc(c: Config, ops: seq<Op>)
    requires c.Valid() && ops != []
    ensures Run(c, ops) == Perform(c, Run(c, ops[..|ops| - 1]), ops[|ops| - 1])
  {}

  lemma NewestStep(c: Config, t: Trace, s: seq<Fix>, op: Op)
    requires c.Valid() && c.merging.NoMerging? && c.keepNewest && |t.ring.queue| <= c.max
    requires |t.ring.queue| <= |s| && t.ring.queue == s[|s| - |t.ring.queue|..]
    ensures var q := Perform(c, t, op).ring.queue; var s' := if op.Sentence? then s + [op.fix] else s;
            |q| <= |s'| && q == s'[|s'| - |q|..]
  {}

  /** What was read is a selection of the sentences no longer waiting, each at most once and in order. */
  ghost predicate Selected(taken: seq<Fix>, at: seq<int>, s: seq<Fix>, n: nat)
    requires n <= |s|
  {
    && |taken| == |at|
    && (forall i | 0 <= i < |at| :: 0 <= at[i] < |s| - n && taken[i] == s[at[i]])
    && (forall i, k | 0 <= i < k < |at| :: at[i] < at[k])
  }

  lemma SelectedStep(c: Config, t: Trace, at: seq<int>, s: seq<Fix>, op: Op)
    requires c.Valid() && c.merging.NoMerging? && c.keepNewest && |t.ring.queue| <= c.max
    requires |t.ring.queue| <= |s| && t.ring.queue == s[|s| - |t.ring.queue|..]
    requires Selected(t.taken, at, s, |t.ring.queue|)
    ensures var u := Perform(c, t, op); var n := |t.ring.queue|;
            var more := if op == Take && n > 0 then [|s| - n] else [];
            var s' := if op.Sentence? then s + [op.fix] else s;
            |u.ring.queue| <= |s'| && Selected(u.taken, at + more, s', |u.ring.queue|)
  {}

  /** No merging, newest kept, over every run: the ring holds the most recent sentences, and the reads
      took earlier ones in order. */
  lemma {:induction false} NoMergingKeepsNewest(c: Config, ops: seq<Op>)
    requires c.Valid() && c.merging.NoMerging? && c.keepNewest
    ensures var t := Run(c, ops); var s := Sentences(NoMerging, ops); var n := Waiting(c, ops);
            && n <= |s| && t.ring.queue == s[|s| - n..]
            && Selected(t.taken, TakenAt(c, ops), s, n)
  {
    hide Run, Sentences, Waiting, TakenAt, Perform, Selected;
    QueueIsNewest(c, ops);
    if ops == [] {
      NothingSelected(c);
    } else {
      var front, op := ops[..|ops| - 1], ops[|ops| - 1];
      NoMergingKeepsNewest(c, front);
      QueueIsWaiting(c, front);
      QueueIsWaiting(c, ops);
      RunSnoc(c, ops);
      TakenSnoc(c, ops);
      SentencesSnoc(NoMerging, front, op);
      assert front + [op] == ops && Sentences(NoMerging, front) + [] == Sentences(NoMerging, front);
      SelectedStep(c, Run(c, front), TakenAt(c, front), Sentences(NoMerging, front), op);
    }
  }

  lemma TakenSnoc(c: Config, ops: seq<Op>)
    requires c.Valid() && ops != []
    ensures var front := ops[..|ops| - 1]; var n := Waiting(c, front);
            TakenAt(c, ops) ==
            TakenAt(c, front) + if ops[|ops| - 1] == Take && n > 0 then [|Sentences(NoMerging, front)| - n] else []
  {}

  lemma NothingSelected(c: Config)
    requires c.Valid()
    ensures Selected(Run(c, []).taken, TakenAt(c, []), Sentences(NoMerging, []), Waiting(c, []))
  {}
}
