/** Which headers the receiver takes for which sentence type: every table, every header. */
module NmeaHeader {
  import opened Widths
  import opened Options
  import opened NmeaTable
  import opened NmeaDecoder
  import opened NmeaLink

  /** Entry `e` is the first at or after `from` whose character at `at` is not less than `c`. */
  ghost predicate Stop(table: seq<name>, from: nat, at: nat, c: code, e: nat) {
    && from <= e < |table| && !Less(CharAt(table[e], at), c)
    && forall i | from <= i < e :: Less(CharAt(table[i], at), c)
  }

  /** And it has that character. */
  ghost predicate Match(table: seq<name>, from: nat, at: nat, c: code, e: nat) {
    Stop(table, from, at, c, e) && CharAt(table[e], at) == c
  }

  function Before(es: seq<nat>, j: nat): nat
    requires j <= |es|
  {
    if j == 0 then 0 else es[j - 1]
  }

  /** The entries a header leads through, from the start of the table: each is where its next character stops,
      and has it. */
  ghost predicate Chain(table: seq<name>, q: seq<code>, es: seq<nat>) {
    |es| == |q| && forall j | 0 <= j < |q| :: Match(table, Before(es, j), j, q[j], es[j])
  }

  ghost predicate LeadsTo(table: seq<name>, q: seq<code>, k: nat) {
    q != [] && exists es :: |es| == |q| && Chain(table, q, es) && es[|q| - 1] == k
  }

  lemma {:induction false} SearchMatches(table: seq<name>, i: nat, at: nat, c: code, e: nat)
    requires i < |table|
    ensures Search(table, i, at, c) == Some(e) <==> Match(table, i, at, c, e)
    decreases |table| - i
  {
    var rc := CharAt(table[i], at);
    LessIsStrictTotal(c, rc, c);
    if c != rc && !Less(c, rc) && i + 1 < |table| {
      SearchMatches(table, i + 1, at, c, e);
    }
  }

  lemma ChainSnoc(table: seq<name>, q: seq<code>, es: seq<nat>)
    requires |es| == |q| > 0
    ensures var n := |q| - 1;
            Chain(table, q, es) <==> Chain(table, q[..n], es[..n]) && Match(table, Before(es, n), n, q[n], es[n])
  {
    hide Match;
    var n := |q| - 1;
    forall j | 0 <= j < n
      ensures Before(es[..n], j) == Before(es, j)
    {}
    if Chain(table, q[..n], es[..n]) && Match(table, Before(es, n), n, q[n], es[n]) {
      forall j | 0 <= j < |q|
        ensures Match(table, Before(es, j), j, q[j], es[j])
      {
        assert j < n ==> Match(table, Before(es[..n], j), j, q[..n][j], es[..n][j]);
      }
    }
    if Chain(table, q, es) {
      assert Match(table, Before(es, n), n, q[n], es[n]);
      forall j | 0 <= j < n
        ensures Match(table, Before(es[..n], j), j, q[..n][j], es[..n][j])
      {
        assert Match(table, Before(es, j), j, q[j], es[j]);
      }
    }
  }

  lemma WalkIsChain(table: seq<name>, q: seq<code>, k: nat)
    requires 0 < |table| && q != []
    ensures Walk(table, q) == Some(k) <==> LeadsTo(table, q, k)
  {
    hide Walk, Chain;
    if Walk(table, q) == Some(k) {
      WalkHasChain(table, q, k);
    }
    if LeadsTo(table, q, k) {
      var es :| |es| == |q| && Chain(table, q, es) && es[|q| - 1] == k;
      ChainWalks(table, q, es);
    }
  }

  lemma WalkStep(table: seq<name>, q: seq<code>)
    requires 0 < |table| && q != []
    ensures var n := |q| - 1; var w := Walk(table, q[..n]);
            && (w.Some? ==> w.value < |table| && (n == 0 ==> w.value == 0))
            && Walk(table, q) == if w.Some? then Search(table, w.value, n, q[n]) else None
  {
    hide Search;
  }

  lemma {:induction false} WalkHasChain(table: seq<name>, q: seq<code>, k: nat)
    requires 0 < |table| && q != [] && Walk(table, q) == Some(k)
    ensures LeadsTo(table, q, k)
    decreases |q|
  {
    hide Walk, Search, Match, Chain;
    var n := |q| - 1;
    WalkStep(table, q);
    var from := Walk(table, q[..n]).value;
    SearchMatches(table, from, n, q[n], k);
    if n == 0 {
      EmptyChain(table);
      ChainSnoc(table, q, [k]);
      assert q[..0] == [] && [k][..0] == [];
    } else {
      WalkHasChain(table, q[..n], from);
      var es :| |es| == n && Chain(table, q[..n], es) && es[n - 1] == from;
      ChainSnoc(table, q, es + [k]);
      assert (es + [k])[..n] == es;
    }
  }

  lemma EmptyChain(table: seq<name>)
    ensures Chain(table, [], [])
  {}

  lemma {:induction false} ChainWalks(table: seq<name>, q: seq<code>, es: seq<nat>)
    requires 0 < |table| && q != [] && |es| == |q| && Chain(table, q, es)
    ensures Walk(table, q) == Some(es[|q| - 1])
    decreases |q|
  {
    hide Walk, Search, Match, Chain;
    var n := |q| - 1;
    ChainSnoc(table, q, es);
    if n > 0 {
      ChainWalks(table, q[..n], es[..n]);
    } else {
      assert Walk(table, q[..0]) == Some(0) by { NothingWalked(table, q); }
    }
    WalkStep(table, q);
    SearchMatches(table, Before(es, n), n, q[n], es[n]) by { MatchInside(table, q, es); }
  }

  lemma NothingWalked(table: seq<name>, q: seq<code>)
    requires 0 < |table|
    ensures Walk(table, q[..0]) == Some(0)
  {}

  lemma MatchInside(table: seq<name>, q: seq<code>, es: seq<nat>)
    requires 0 < |table| && q != [] && |es| == |q| && Chain(table, q, es)
    ensures Before(es, |q| - 1) < |table|
  {
    var n := |q| - 1;
    assert n > 0 ==> Match(table, Before(es, n - 1), n - 1, q[n - 1], es[n - 1]);
  }

  // ---- The receiver ----

  /** Names of one length, moderate enough for the eight-bit counter. */
  ghost predicate Names(g: Config, length: nat) {
    0 < |g.names| < 256 && length <= 250 && forall i | 0 <= i < |g.names| :: |g.names[i]| == length
  }

  /** A header: no '$', no comma, and nothing after a NUL in the place of a name's terminator (the source
      would compare it with what lies behind the name). */
  ghost predicate Header(length: nat, q: seq<code>) {
    DOLLAR !in q && COMMA !in q && forall j | length <= j < |q| - 1 :: q[j] != 0
  }

  predicate Talker(c: code) { c != DOLLAR && c != COMMA }

  function Opening(a: code, b: code): seq<code> { [DOLLAR, a, b] }

  /** After the header `q` and its comma the receiver is in the fields of sentence `k`. */
  ghost predicate TakenFor(g: Config, s: Rx, a: code, b: code, q: seq<code>, k: nat)
    requires Sane(g, s)
  {
    var t := Run(g, s, Opening(a, b) + q + [COMMA]); t.state.Data? && t.msg == k + 1
  }

  /** The state after a header is where the search has got to, or idle once it has failed. */
  ghost predicate Searching(t: Rx, q: seq<code>, length: nat, w: Option<nat>) {
    if w.Some? then
      t.state.Header? && (|q| > length ==> |q| == length + 1 && q[length] == 0) && t.chrCount as int == |q| + 2
      && t.msg == if q == [] then 0 else w.value + 1
    else t.state.Idle?
  }

  lemma OpeningRuns(g: Config, s: Rx, a: code, b: code)
    requires Sane(g, s) && Talker(a) && Talker(b)
    ensures Run(g, s, Opening(a, b)) == Rx(RxState.Header, a ^ b, 2, 0, false)
  {
    hide Run;
    assert [] + [DOLLAR] == [DOLLAR] && [DOLLAR] + [a] == [DOLLAR, a] && [DOLLAR, a] + [b] == Opening(a, b);
    RunSnoc(g, s, [], DOLLAR);
    RunSnoc(g, s, [DOLLAR], a);
    RunSnoc(g, s, [DOLLAR, a], b);
    assert 0 ^ a == a;
  }

  lemma HeaderSearches(g: Config, t: Rx, c: code)
    requires Sane(g, t) && t.state.Header? && t.chrCount >= 2 && c != COMMA
    ensures var found := Search(g.names, if t.msg == 0 then 0 else t.msg - 1, t.chrCount as int - 2, c);
            HeaderStep(g, t, c) ==
            if found.Some? then t.(chrCount := Incremented(t.chrCount), msg := found.value + 1)
            else t.(state := Idle, msg := 0)
  {
    hide Search;
  }

  lemma SearchingStep(g: Config, length: nat, t: Rx, q: seq<code>, c: code)
    requires Names(g, length) && Sane(g, t) && Searching(t, q, length, Walk(g.names, q))
    requires c != DOLLAR && c != COMMA && (|q| > length ==> q[length] != 0)
    ensures Searching(Decode(g, t, c).0, q + [c], length, Walk(g.names, q + [c]))
  {
    hide Walk, Decode;
    assert (q + [c])[..|q|] == q;
    WalkStep(g.names, q + [c]);
    if Walk(g.names, q).Some? {
      FoundStep(g, length, t, q, c, Walk(g.names, q).value);
    } else {
      IdleIgnores(g, t, c);
    }
  }

  /** Still searching: the next character is found or ends the header. */
  lemma FoundStep(g: Config, length: nat, t: Rx, q: seq<code>, c: code, e: nat)
    requires Names(g, length) && Sane(g, t) && Searching(t, q, length, Some(e)) && e < |g.names|
    requires c != DOLLAR && c != COMMA && |q| <= length && (q == [] ==> e == 0)
    ensures Searching(Decode(g, t, c).0, q + [c], length, Search(g.names, e, |q|, c))
  {
    hide Search, Decode, HeaderStep;
    DecodeHeaderIs(g, t, c);
    HeaderSearches(g, t.(crc := t.crc ^ c), c);
    if |q| == length && c != 0 {
      PastTheNames(g.names, length, e, |q|, c);
    }
  }

  lemma {:induction false} HeaderRuns(g: Config, length: nat, s: Rx, a: code, b: code, q: seq<code>)
    requires Names(g, length) && Sane(g, s) && Talker(a) && Talker(b) && Header(length, q)
    ensures Searching(Run(g, s, Opening(a, b) + q), q, length, Walk(g.names, q))
    decreases |q|
  {
    hide Run, Decode, Walk, Opening, Searching;
    if q == [] {
      assert Opening(a, b) + q == Opening(a, b);
      OpeningRuns(g, s, a, b);
      NothingSearched(g.names, length, a ^ b);
    } else {
      var n := |q| - 1;
      var front, c := q[..n], q[n];
      assert front + [c] == q && Opening(a, b) + q == Opening(a, b) + front + [c];
      HeaderRuns(g, length, s, a, b, front);
      RunSnoc(g, s, Opening(a, b) + front, c);
      SearchingStep(g, length, Run(g, s, Opening(a, b) + front), front, c);
    }
  }

  lemma NothingSearched(table: seq<name>, length: nat, x: code)
    requires 0 < |table|
    ensures Searching(Rx(RxState.Header, x, 2, 0, false), [], length, Walk(table, []))
  {}

  lemma CommaEnds(g: Config, length: nat, t: Rx, q: seq<code>, w: Option<nat>, k: nat)
    requires Sane(g, t) && Searching(t, q, length, w)
    ensures var u := Decode(g, t, COMMA).0;
            && (u.state.Data? && u.msg == k + 1 <==> q != [] && w == Some(k))
            && (!u.state.Data? ==> u.state.Idle?)
  {}

  /** Recognition, exactly: for every table of names of one length, any talker and any header, the header is
      taken for entry `k` if and only if its chain of entries ends there. */
  lemma TakenExactly(g: Config, length: nat, s: Rx, a: code, b: code, q: seq<code>, k: nat)
    requires Names(g, length) && Sane(g, s) && Talker(a) && Talker(b) && Header(length, q)
    ensures TakenFor(g, s, a, b, q, k) <==> LeadsTo(g.names, q, k)
  {
    hide Run, Decode, Walk, Searching, Chain;
    HeaderRuns(g, length, s, a, b, q);
    RunSnoc(g, s, Opening(a, b) + q, COMMA);
    CommaEnds(g, length, Run(g, s, Opening(a, b) + q), q, Walk(g.names, q), k);
    if q != [] {
      WalkIsChain(g.names, q, k);
    }
  }

  /** A header is taken for what it says. */
  ghost predicate TypeRight(g: Config, s: Rx, a: code, b: code, q: seq<code>)
    requires Sane(g, s)
  {
    forall k | 0 <= k < |g.names| :: TakenFor(g, s, a, b, q, k) <==> g.names[k] == q
  }

  lemma OnlyOwnEntry(table: seq<name>, length: nat, q: seq<code>, i: nat)
    requires Alphabetical(table, length) && length > 0 && i < |table| && table[i] == q
    ensures forall k: nat :: LeadsTo(table, q, k) <==> k == i
    ensures forall k: nat | k < |table| :: table[k] == q <==> k == i
  {
    hide LeadsTo;
    SearchComplete(table, length, i);
    forall k: nat ensures LeadsTo(table, q, k) <==> k == i {
      WalkIsChain(table, q, k);
    }
    forall k: nat | k < |table| && table[k] == q ensures k == i {
      SearchComplete(table, length, k);
    }
  }

  lemma MatchIn(table: seq<name>, from: nat, at: nat, c: code, e: nat)
    requires Match(table, from, at, c, e)
    ensures e < |table|
  {}

  lemma LeadsInside(table: seq<name>, q: seq<code>, k: nat)
    requires LeadsTo(table, q, k)
    ensures k < |table|
  {
    hide Match, Chain;
    var es :| |es| == |q| && Chain(table, q, es) && es[|q| - 1] == k;
    var n := |q| - 1;
    ChainSnoc(table, q, es);
    MatchIn(table, Before(es, n), n, q[n], es[n]);
  }

  /** The type is right exactly when the header is a name of the table or its chain breaks: every other
      header that gets through is taken for a sentence it is not. */
  lemma TypeRightExactly(g: Config, length: nat, s: Rx, a: code, b: code, q: seq<code>)
    requires Names(g, length) && Alphabetical(g.names, length) && length > 0
    requires Sane(g, s) && Talker(a) && Talker(b) && Header(length, q)
    ensures TypeRight(g, s, a, b, q) <==> q in g.names || forall k: nat :: !LeadsTo(g.names, q, k)
  {
    hide TakenFor, LeadsTo, Alphabetical;
    forall k: nat
      ensures TakenFor(g, s, a, b, q, k) <==> LeadsTo(g.names, q, k)
    {
      TakenExactly(g, length, s, a, b, q, k);
    }
    if q in g.names {
      var i: nat :| i < |g.names| && g.names[i] == q;
      OnlyOwnEntry(g.names, length, q, i);
    } else {
      forall k: nat | LeadsTo(g.names, q, k) ensures k < |g.names| {
        LeadsInside(g.names, q, k);
      }
    }
  }

  // ---- Headers that get through ----

  /** A name cut short, for every name of every table: it is taken for the first name it begins. */
  lemma ShortNameAccepted(g: Config, length: nat, s: Rx, a: code, b: code, k: nat, j: nat)
    requires Usable(g, length) && Sane(g, s) && Talker(a) && Talker(b) && k < |g.names| && 0 < j < length
    ensures var q := g.names[k][..j]; var f := First(g.names, q, 0);
            TakenFor(g, s, a, b, q, f) && g.names[f] != q && q !in g.names
  {
    var q := g.names[k][..j];
    WalkIsFirst(g.names, length, k, j);
    WalkIsChain(g.names, q, First(g.names, q, 0));
    TakenExactly(g, length, s, a, b, q, First(g.names, q, 0));
  }

  /** "GTG": from GGA the second character slides past all names but VTG, whose third one fits. */
  lemma OtherNameLeads()
    ensures var q := [0x47, 0x54, 0x47]; LeadsTo(NAMES, q, 6)
  {
    var q: seq<code> := [0x47, 0x54, 0x47];
    var es := [0, 6, 6];
    assert Match(NAMES, 0, 0, q[0], 0);
    assert Match(NAMES, 0, 1, q[1], 6);
    assert Match(NAMES, 6, 2, q[2], 6);
    assert Chain(NAMES, q, es);
  }

  /** So a full-length header that is no name gets through too. */
  lemma OtherNameAccepted(s: Rx, a: code, b: code)
    requires Sane(BUILD, s) && Talker(a) && Talker(b)
    ensures var q := [0x47, 0x54, 0x47]; TakenFor(BUILD, s, a, b, q, 6) && q !in NAMES
  {
    hide TakenFor, LeadsTo;
    BuildUsable();
    OtherNameLeads();
    TakenExactly(BUILD, 3, s, a, b, [0x47, 0x54, 0x47], 6);
  }
}
