/** The incremental search for the sentence type in an alphabetical table of names. */
module NmeaTable {
  import opened Widths
  import opened Options

  /** A C `char`, eight bits. It is signed on the target, so `<` compares with the top bit flipped. */
  type code = bv8

  type name = seq<code>

  predicate Less(a: code, b: code) { a ^ 0x80 < b ^ 0x80 }

  lemma LessIsStrictTotal(a: code, b: code, c: code)
    ensures !Less(a, a)
    ensures a != b ==> Less(a, b) || Less(b, a)
    ensures !(Less(a, b) && Less(b, a))
    ensures Less(a, b) && Less(b, c) ==> Less(a, c)
  {}

  ghost predicate Before(a: name, b: name, d: nat) {
    d < |a| == |b| && a[..d] == b[..d] && Less(a[d], b[d])
  }

  /** Alphabetical order of two names of one length. */
  ghost predicate Ordered(a: name, b: name) { exists d: nat :: Before(a, b, d) }

  /** Names of one length in strict alphabetical order: sorted, and no two equal. */
  ghost predicate Alphabetical(table: seq<name>, length: nat) {
    && 0 < |table| < 256
    && (forall i :: 0 <= i < |table| ==> |table[i]| == length)
    && (forall i, k :: 0 <= i < k < |table| ==> Ordered(table[i], table[k]))
  }

  /** The character at `at`, where a name is followed by its NUL. */
  function CharAt(n: name, at: nat): code { if at < |n| then n[at] else 0 }

  /** The inner search loop of `parseCommand`, from entry `i`, for the character at position `at`. The
      source compares the next entry's earlier characters too, but the `break` there only leaves that
      comparison: the loop goes on to the next entry in every case. */
  function Search(table: seq<name>, i: nat, at: nat, c: code): (r: Option<nat>)
    requires i < |table|
    ensures r.Some? ==> i <= r.value < |table|
    decreases |table| - i
  {
    var rc := CharAt(table[i], at);
    if c == rc then Some(i)
    else if Less(c, rc) then None
    else if i + 1 >= |table| then None
    else Search(table, i + 1, at, c)
  }

  /** The same loop in the source's form. */
  method SearchLoop(table: seq<name>, entry: uint8, at: nat, c: code) returns (found: Option<nat>)
    requires (entry as int) < |table| < 256
    ensures found == Search(table, entry as int, at, c)
  {
    var i := entry;
    while true
      invariant (i as int) < |table|
      invariant Search(table, i as int, at, c) == Search(table, entry as int, at, c)
      decreases |table| - i as int
    {
      var rc := CharAt(table[i], at);
      if c == rc {
        return Some(i as int);
      }
      if Less(c, rc) {
        return None;
      }
      if i as int + 1 >= |table| {
        return None;
      }
      i := i + 1;
    }
  }

  predicate HasPrefix(n: name, p: name) { p <= n }

  /** The first entry at or after `i` that starts with `p`. */
  function First(table: seq<name>, p: name, i: nat): (f: nat)
    requires i < |table|
    ensures i <= f < |table|
    decreases |table| - i
  {
    if HasPrefix(table[i], p) || i + 1 == |table| then i else First(table, p, i + 1)
  }

  lemma {:induction false} FirstIs(table: seq<name>, p: name, i: nat, k: nat)
    requires i <= k < |table| && HasPrefix(table[k], p)
    requires forall m :: i <= m < k ==> !HasPrefix(table[m], p)
    ensures First(table, p, i) == k
    decreases k - i
  {
    if i < k {
      FirstIs(table, p, i + 1, k);
    }
  }

  lemma {:induction false} FirstFound(table: seq<name>, p: name, i: nat, k: nat)
    requires i <= k < |table| && HasPrefix(table[k], p)
    ensures var f := First(table, p, i);
            i <= f <= k && HasPrefix(table[f], p) && forall m :: i <= m < f ==> !HasPrefix(table[m], p)
    decreases k - i
  {
    if !HasPrefix(table[i], p) {
      FirstFound(table, p, i + 1, k);
    }
  }

  lemma SharedPrefixOrder(table: seq<name>, length: nat, p: name, i: nat, k: nat)
    requires Alphabetical(table, length) && i < k < |table| && |p| < length
    requires HasPrefix(table[i], p) && HasPrefix(table[k], p)
    ensures !Less(table[k][|p|], table[i][|p|])
  {
    var d: nat :| Before(table[i], table[k], d);
    DifferenceOutside(table[i], table[k], p, d);
    if d > |p| {
      assert table[i][|p|] == table[i][..d][|p|] == table[k][..d][|p|] == table[k][|p|];
    }
  }

  /** Entries sharing a prefix stand together. */
  lemma PrefixRange(table: seq<name>, length: nat, p: name, i: nat, m: nat, k: nat)
    requires Alphabetical(table, length) && i <= m <= k < |table|
    requires HasPrefix(table[i], p) && HasPrefix(table[k], p)
    ensures HasPrefix(table[m], p)
  {
    if i < m < k {
      var d: nat :| Before(table[i], table[m], d);
      var e: nat :| Before(table[m], table[k], e);
      PrefixBetween(table[i], table[m], table[k], p, d, e);
    }
  }

  lemma BeforeTransitive(a: name, b: name, c: name, d: nat, e: nat)
    requires Before(a, b, d) && Before(b, c, e)
    ensures Before(a, c, if d < e then d else e)
  {
    LessIsStrictTotal(a[d], b[d], c[d]);
    var m := if d < e then d else e;
    assert a[..m] == a[..d][..m] == b[..d][..m] == b[..e][..m] == c[..m];
    if d < e {
      assert b[d] == b[..e][d] == c[..e][d] == c[d];
    } else if e < d {
      assert a[e] == a[..d][e] == b[..d][e] == b[e];
    }
  }

  /** No name between two that share a prefix can leave it. */
  lemma PrefixBetween(a: name, b: name, c: name, p: name, d: nat, e: nat)
    requires Before(a, b, d) && Before(b, c, e) && HasPrefix(a, p) && HasPrefix(c, p)
    ensures HasPrefix(b, p)
  {
    BeforeTransitive(a, b, c, d, e);
    var m := if d < e then d else e;
    assert |p| <= m by {
      DifferenceOutside(a, c, p, m);
    }
    assert b[..|p|] == a[..d][..|p|] == p;
  }

  lemma DifferenceOutside(a: name, c: name, p: name, m: nat)
    requires Before(a, c, m) && HasPrefix(a, p) && HasPrefix(c, p)
    ensures |p| <= m
  {
    assert forall i :: 0 <= i < |p| ==> a[i] == c[i];
  }

  lemma OtherPrefix(t: name, p: name, c: code)
    requires |p| < |t| && t[|p|] != c
    ensures !HasPrefix(t, p + [c])
  {
    assert (p + [c])[|p|] == c;
  }

  lemma {:induction false} SearchStops(table: seq<name>, length: nat, p: name, i: nat, k: nat)
    requires Alphabetical(table, length) && i <= k < |table| && |p| < length
    requires HasPrefix(table[i], p) && HasPrefix(table[k], p)
    ensures var c := table[k][|p|]; var r := Search(table, i, |p|, c);
            r.Some? && r.value <= k && HasPrefix(table[r.value], p + [c])
            && forall m :: i <= m < r.value ==> !HasPrefix(table[m], p + [c])
    decreases k - i
  {
    var c := table[k][|p|];
    if table[i][|p|] == c {
      assert table[i][..|p| + 1] == p + [c];
    } else {
      OtherPrefix(table[i], p, c);
      SharedPrefixOrder(table, length, p, i, k);
      PrefixRange(table, length, p, i, i + 1, k);
      SearchStops(table, length, p, i + 1, k);
    }
  }

  /** Feeding the characters of entry `k` one at a time: if the stored entry is the first one with the
      prefix read so far, the search moves it to the first one with the longer prefix. */
  lemma SearchExtends(table: seq<name>, length: nat, p: name, k: nat)
    requires Alphabetical(table, length) && k < |table| && |p| < length && HasPrefix(table[k], p)
    ensures var c := table[k][|p|];
            Search(table, First(table, p, 0), |p|, c) == Some(First(table, p + [c], 0))
  {
    var c := table[k][|p|];
    var f := First(table, p, 0);
    FirstFound(table, p, 0, k);
    SearchStops(table, length, p, f, k);
    var r := Search(table, f, |p|, c).value;
    forall m | 0 <= m < f
      ensures !HasPrefix(table[m], p + [c])
    {
      assert p <= p + [c];
    }
    FirstIs(table, p + [c], 0, r);
  }

  /** The whole name leads to its own entry. */
  lemma FirstOfWholeName(table: seq<name>, length: nat, k: nat)
    requires Alphabetical(table, length) && k < |table|
    ensures First(table, table[k], 0) == k
  {
    forall m | 0 <= m < k
      ensures !HasPrefix(table[m], table[k])
    {
      var d: nat :| Before(table[m], table[k], d);
      assert table[m][d] != table[k][d];
    }
    FirstIs(table, table[k], 0, k);
  }

  /** The characters of a name one by one, from the start of the table. */
  function Walk(table: seq<name>, n: name): Option<nat>
    requires 0 < |table|
  {
    if n == [] then Some(0)
    else
      var entry :- Walk(table, n[..|n| - 1]);
      if entry < |table| then Search(table, entry, |n| - 1, n[|n| - 1]) else None
  }

  lemma {:induction false} WalkIsFirst(table: seq<name>, length: nat, k: nat, j: nat)
    requires Alphabetical(table, length) && k < |table| && j <= length
    ensures Walk(table, table[k][..j]) == Some(First(table, table[k][..j], 0))
    decreases j
  {
    var p := table[k][..j];
    if j > 0 {
      WalkIsFirst(table, length, k, j - 1);
      SearchExtends(table, length, table[k][..j - 1], k);
      assert p[..j - 1] == table[k][..j - 1];
      assert p == table[k][..j - 1] + [table[k][j - 1]];
    }
  }

  /** Completeness of the search, for every alphabetical table: the name of entry `k` always ends at
      entry `k`. */
  lemma SearchComplete(table: seq<name>, length: nat, k: nat)
    requires Alphabetical(table, length) && k < |table|
    ensures Walk(table, table[k]) == Some(k)
  {
    WalkIsFirst(table, length, k, length);
    assert table[k][..length] == table[k];
    FirstOfWholeName(table, length, k);
  }

  /** The eight sentence names of this build. */
  const NAMES: seq<name> := [
    [0x47, 0x47, 0x41], [0x47, 0x4C, 0x4C], [0x47, 0x53, 0x41], [0x47, 0x53, 0x54],
    [0x47, 0x53, 0x56], [0x52, 0x4D, 0x43], [0x56, 0x54, 0x47], [0x5A, 0x44, 0x41]]

  /** Where each pair of neighbours first differs. */
  const FIRST_DIFFERENCE: seq<nat> := [1, 1, 2, 2, 0, 0, 0]

  lemma {:induction false} NamesOrdered(i: nat, k: nat)
    requires i < k < |NAMES|
    ensures Ordered(NAMES[i], NAMES[k])
    decreases k - i
  {
    assert Before(NAMES[k - 1], NAMES[k], FIRST_DIFFERENCE[k - 1]);
    if i < k - 1 {
      NamesOrdered(i, k - 1);
      var d: nat :| Before(NAMES[i], NAMES[k - 1], d);
      BeforeTransitive(NAMES[i], NAMES[k - 1], NAMES[k], d, FIRST_DIFFERENCE[k - 1]);
    }
  }

  /** The build's table meets the premise. */
  lemma NamesAlphabetical()
    ensures Alphabetical(NAMES, 3)
  {
    assert |NAMES| == 8;
    forall i | 0 <= i < |NAMES|
      ensures |NAMES[i]| == 3
    {
      assert NAMES[i] == NAMES[0] || NAMES[i] == NAMES[1] || NAMES[i] == NAMES[2] || NAMES[i] == NAMES[3]
          || NAMES[i] == NAMES[4] || NAMES[i] == NAMES[5] || NAMES[i] == NAMES[6] || NAMES[i] == NAMES[7];
    }
    forall i, k | 0 <= i < k < |NAMES|
      ensures Ordered(NAMES[i], NAMES[k])
    {
      NamesOrdered(i, k);
    }
  }
}
