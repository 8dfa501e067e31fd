/**
 * `rearrangeOverlappingEvents`: events are taken in order of their top edge (a stable
 * sort) and each goes into the first column none of whose members it overlaps; when
 * every column conflicts, a new column is opened. Columns hold event indices.
 */
module Packer {

  /** The rows an event covers: from `top` up to, not including, `bottom`. */
  datatype Span = Span(top: int, bottom: int)

  /** Two spans share no row. Spans that only touch are apart. */
  predicate Apart(a: Span, b: Span) {
    a.bottom <= b.top || a.top >= b.bottom
  }

  // ---------------------------------------------------------------------------
  // The processing order: `events.sort((a, b) => a.top - b.top)`, a stable sort.

  /** `i` is processed before `j`: a higher top edge, or the same top edge and earlier in the document. */
  predicate Before(spans: seq<Span>, i: nat, j: nat)
    requires i < |spans| && j < |spans|
  {
    spans[i].top < spans[j].top || (spans[i].top == spans[j].top && i < j)
  }

  predicate Indices(spans: seq<Span>, s: seq<nat>) {
    forall i :: 0 <= i < |s| ==> s[i] < |spans|
  }

  /** `s` lists event indices strictly in processing order (so no index twice). */
  predicate Ascending(spans: seq<Span>, s: seq<nat>) {
    Indices(spans, s) && forall i, j :: 0 <= i < j < |s| ==> Before(spans, s[i], s[j])
  }

  /** Insert `x`, later in the document than everything in `s`, after every element whose top is not below its own. */
  function Insert(spans: seq<Span>, s: seq<nat>, x: nat): (r: seq<nat>)
    requires x < |spans| && Ascending(spans, s)
    requires forall i :: 0 <= i < |s| ==> s[i] < x
    ensures |r| == |s| + 1 && Ascending(spans, r)
    ensures forall y :: y in r <==> y in s || y == x
    decreases |s|
  {
    if s == [] || spans[s[|s| - 1]].top <= spans[x].top then
      s + [x]
    else
      var last := s[|s| - 1];
      var init := s[..|s| - 1];
      assert forall i :: 0 <= i < |init| ==> init[i] == s[i];
      var rest := Insert(spans, init, x);
      assert s == init + [last];
      forall y | y in rest ensures Before(spans, y, last) {
        if y in init {
          var k :| 0 <= k < |init| && init[k] == y;
          assert Before(spans, s[k], s[|s| - 1]);
        }
      }
      rest + [last]
  }

  /** The indices `0 .. n - 1` sorted by top edge, ties kept in document order. */
  function SortedPrefix(spans: seq<Span>, n: nat): (r: seq<nat>)
    requires n <= |spans|
    ensures |r| == n && Ascending(spans, r)
    ensures forall y: nat :: y in r <==> y < n
  {
    if n == 0 then []
    else
      var prev := SortedPrefix(spans, n - 1);
      assert forall i :: 0 <= i < |prev| ==> prev[i] in prev;
      Insert(spans, prev, n - 1)
  }

  /** The order in which the packer visits the events. */
  function Order(spans: seq<Span>): (r: seq<nat>)
    ensures |r| == |spans| && Ascending(spans, r)
    ensures forall y: nat :: y in r <==> y < |spans|
  {
    SortedPrefix(spans, |spans|)
  }

  /**
   * Any two lists that hold the same indices strictly in processing order are equal:
   * every stable sort by top edge yields `Order`.
   */
  lemma {:induction false} AscendingUnique(spans: seq<Span>, a: seq<nat>, b: seq<nat>)
    requires Ascending(spans, a) && Ascending(spans, b)
    requires forall y :: y in a <==> y in b
    ensures a == b
    decreases |a|
  {
    assert a != [] ==> a[0] in b;
    assert b != [] ==> b[0] in a;
    if a != [] && b != [] {
      var x, y := a[0], b[0];
      assert x in a && y in b;
      assert x == y;
      assert forall z :: z in a[1..] <==> z in a && z != x by {
        assert a == [x] + a[1..];
        forall k | 1 <= k < |a| ensures a[k] != x { assert Before(spans, a[0], a[k]); }
      }
      assert forall z :: z in b[1..] <==> z in b && z != x by {
        assert b == [x] + b[1..];
        forall k | 1 <= k < |b| ensures b[k] != x { assert Before(spans, b[0], b[k]); }
      }
      AscendingUnique(spans, a[1..], b[1..]);
      assert a == [x] + a[1..] && b == [x] + b[1..];
    }
  }

  // ---------------------------------------------------------------------------
  // First-fit placement.

  /** Every entry of every column is an event index. */
  predicate ValidColumns(spans: seq<Span>, cols: seq<seq<nat>>) {
    forall k, j :: 0 <= k < |cols| && 0 <= j < |cols[k]| ==> cols[k][j] < |spans|
  }

  /** `column.every(m => eventBottom <= m.top || eventTop >= m.bottom)`. */
  predicate Fits(spans: seq<Span>, column: seq<nat>, e: nat)
    requires e < |spans| && Indices(spans, column)
  {
    forall j :: 0 <= j < |column| ==> Apart(spans[e], spans[column[j]])
  }

  /** `columns.findIndex(...)` from `k` on, with `|cols|` standing for -1 (a new column). */
  function FirstFitFrom(spans: seq<Span>, cols: seq<seq<nat>>, e: nat, k: nat): (c: nat)
    requires e < |spans| && ValidColumns(spans, cols) && k <= |cols|
    ensures k <= c <= |cols|
    ensures forall i :: k <= i < c ==> !Fits(spans, cols[i], e)
    ensures c < |cols| ==> Fits(spans, cols[c], e)
    decreases |cols| - k
  {
    if k == |cols| then k
    else if Fits(spans, cols[k], e) then k
    else FirstFitFrom(spans, cols, e, k + 1)
  }

  /** The lowest column `e` fits in, or `|cols|` when it fits in none. */
  function FirstFit(spans: seq<Span>, cols: seq<seq<nat>>, e: nat): (c: nat)
    requires e < |spans| && ValidColumns(spans, cols)
    ensures c <= |cols|
    ensures forall i :: 0 <= i < c ==> !Fits(spans, cols[i], e)
    ensures c < |cols| ==> Fits(spans, cols[c], e)
  {
    FirstFitFrom(spans, cols, e, 0)
  }

  /** One step of the packer: `e` joins its first-fit column, or a new one. */
  function Place(spans: seq<Span>, cols: seq<seq<nat>>, e: nat): (r: seq<seq<nat>>)
    requires e < |spans| && ValidColumns(spans, cols)
    ensures ValidColumns(spans, r)
  {
    var c := FirstFit(spans, cols, e);
    if c == |cols| then cols + [[e]] else cols[c := cols[c] + [e]]
  }

  /** The columns after placing the events of `order`, one by one. */
  function Greedy(spans: seq<Span>, order: seq<nat>): (r: seq<seq<nat>>)
    requires Indices(spans, order)
    ensures ValidColumns(spans, r)
    decreases |order|
  {
    if order == [] then []
    else Place(spans, Greedy(spans, order[..|order| - 1]), order[|order| - 1])
  }

  /** The columns `rearrangeOverlappingEvents` builds. */
  function Columns(spans: seq<Span>): (r: seq<seq<nat>>)
    ensures ValidColumns(spans, r)
  {
    Greedy(spans, Order(spans))
  }

  /** Index of the first column holding `x`, or `|cols|` when none does. */
  function Lane(cols: seq<seq<nat>>, x: nat): (k: nat)
    ensures k <= |cols|
    ensures k < |cols| ==> x in cols[k]
    ensures forall i :: 0 <= i < k ==> x !in cols[i]
  {
    if cols == [] then 0 else if x in cols[0] then 0 else 1 + Lane(cols[1..], x)
  }

  // ---------------------------------------------------------------------------
  // What the packer guarantees.

  predicate Distinct(s: seq<nat>) {
    forall i, j :: 0 <= i < j < |s| ==> s[i] != s[j]
  }

  /**
   * The shape of the columns after the events of `done` were placed: every column is
   * non-empty, holds only events of `done`, no two of them alike or overlapping;
   * every event of `done` is in exactly one column; there are no more columns than events.
   */
  ghost predicate Packed(spans: seq<Span>, cols: seq<seq<nat>>, done: seq<nat>) {
    && ValidColumns(spans, cols)
    && |cols| <= |done|
    && (forall k :: 0 <= k < |cols| ==> |cols[k]| > 0)
    && (forall k, j :: 0 <= k < |cols| && 0 <= j < |cols[k]| ==> cols[k][j] in done)
    && (forall x :: x in done ==> Lane(cols, x) < |cols|)
    && (forall k, j :: 0 <= k < |cols| && 0 <= j < |cols[k]| ==> Lane(cols, cols[k][j]) == k)
    && (forall k, i, j :: 0 <= k < |cols| && 0 <= i < j < |cols[k]| ==>
          cols[k][i] != cols[k][j] && Apart(spans[cols[k][i]], spans[cols[k][j]]))
  }

  /** In columns whose members are pairwise apart, two events with the same lane do not overlap. */
  lemma LaneMatesApart(spans: seq<Span>, cols: seq<seq<nat>>, x: nat, y: nat)
    requires ValidColumns(spans, cols)
    requires forall k, i, j :: 0 <= k < |cols| && 0 <= i < j < |cols[k]| ==>
      Apart(spans[cols[k][i]], spans[cols[k][j]])
    requires x < |spans| && y < |spans| && x != y
    requires Lane(cols, x) == Lane(cols, y) < |cols|
    ensures Apart(spans[x], spans[y])
  {
    var k := Lane(cols, x);
    var a :| 0 <= a < |cols[k]| && cols[k][a] == x;
    var b :| 0 <= b < |cols[k]| && cols[k][b] == y;
    if a > b {
      assert Apart(spans[y], spans[x]);
    }
  }

  /** Column `k` holds an event placed before `done[t]` that overlaps it. */
  ghost predicate Blocked(spans: seq<Span>, cols: seq<seq<nat>>, done: seq<nat>, t: nat, k: nat)
    requires t < |done| && k < |cols| && Indices(spans, done) && ValidColumns(spans, cols)
  {
    exists m :: m in cols[k] && m in done[..t] && !Apart(spans[done[t]], spans[m])
  }

  /** First fit: every column to the left of an event's own holds an earlier event it overlaps. */
  ghost predicate FirstFitted(spans: seq<Span>, cols: seq<seq<nat>>, done: seq<nat>)
    requires Indices(spans, done) && ValidColumns(spans, cols)
  {
    forall t, k :: 0 <= t < |done| && 0 <= k < Lane(cols, done[t]) && k < |cols| ==>
      Blocked(spans, cols, done, t, k)
  }

  /** Membership in a column after `e` was appended to column `c`. */
  lemma MembersAfterPlace(spans: seq<Span>, cols: seq<seq<nat>>, e: nat, x: nat, k: nat)
    requires e < |spans| && ValidColumns(spans, cols)
    requires k < |Place(spans, cols, e)|
    ensures x in Place(spans, cols, e)[k] <==>
      (k < |cols| && x in cols[k]) || (x == e && k == FirstFit(spans, cols, e))
  {
  }

  /** Where an event is after a placement: the new event in its first-fit column, the others where they were. */
  lemma LaneAfterPlace(spans: seq<Span>, cols: seq<seq<nat>>, e: nat, x: nat)
    requires e < |spans| && ValidColumns(spans, cols)
    requires forall k :: 0 <= k < |cols| ==> e !in cols[k]
    requires x == e || Lane(cols, x) < |cols|
    ensures Lane(Place(spans, cols, e), x) == if x == e then FirstFit(spans, cols, e) else Lane(cols, x)
  {
    var after := Place(spans, cols, e);
    var l := if x == e then FirstFit(spans, cols, e) else Lane(cols, x);
    forall i | 0 <= i < l ensures x !in after[i] {
      MembersAfterPlace(spans, cols, e, x, i);
    }
    MembersAfterPlace(spans, cols, e, x, l);
  }

  /** Placing a new event keeps the columns packed. */
  lemma PlaceKeepsPacked(spans: seq<Span>, cols: seq<seq<nat>>, done: seq<nat>, e: nat)
    requires Indices(spans, done) && e < |spans| && e !in done
    requires Packed(spans, cols, done)
    ensures Packed(spans, Place(spans, cols, e), done + [e])
  {
    var after := Place(spans, cols, e);
    assert forall k :: 0 <= k < |cols| ==> e !in cols[k];
    assert |after| <= |cols| + 1;
    assert forall k :: 0 <= k < |after| ==> |after[k]| > 0;
    PlaceKeepsMembers(spans, cols, done, e);
    PlaceKeepsLanes(spans, cols, done, e);
    PlaceKeepsApart(spans, cols, done, e);
  }

  /** After a placement every column member is placed and its lane is its column. */
  lemma PlaceKeepsMembers(spans: seq<Span>, cols: seq<seq<nat>>, done: seq<nat>, e: nat)
    requires Indices(spans, done) && e < |spans| && e !in done
    requires Packed(spans, cols, done)
    ensures forall k, j :: 0 <= k < |Place(spans, cols, e)| && 0 <= j < |Place(spans, cols, e)[k]| ==>
      Place(spans, cols, e)[k][j] in done + [e] && Lane(Place(spans, cols, e), Place(spans, cols, e)[k][j]) == k
  {
    var after := Place(spans, cols, e);
    assert forall k :: 0 <= k < |cols| ==> e !in cols[k];
    forall k, j | 0 <= k < |after| && 0 <= j < |after[k]|
      ensures after[k][j] in done + [e] && Lane(after, after[k][j]) == k
    {
      var x := after[k][j];
      MembersAfterPlace(spans, cols, e, x, k);
      if x != e {
        var j' :| 0 <= j' < |cols[k]| && cols[k][j'] == x;
      }
      LaneAfterPlace(spans, cols, e, x);
    }
  }

  /** After a placement every placed event has a lane. */
  lemma PlaceKeepsLanes(spans: seq<Span>, cols: seq<seq<nat>>, done: seq<nat>, e: nat)
    requires Indices(spans, done) && e < |spans| && e !in done
    requires Packed(spans, cols, done)
    ensures forall x :: x in done + [e] ==> Lane(Place(spans, cols, e), x) < |Place(spans, cols, e)|
  {
    assert forall k :: 0 <= k < |cols| ==> e !in cols[k];
    forall x | x in done + [e] ensures Lane(Place(spans, cols, e), x) < |Place(spans, cols, e)| {
      LaneAfterPlace(spans, cols, e, x);
    }
  }

  /** After a placement no column holds the same event twice or two overlapping events. */
  lemma PlaceKeepsApart(spans: seq<Span>, cols: seq<seq<nat>>, done: seq<nat>, e: nat)
    requires Indices(spans, done) && e < |spans| && e !in done
    requires Packed(spans, cols, done)
    ensures forall k, i, j :: 0 <= k < |Place(spans, cols, e)| && 0 <= i < j < |Place(spans, cols, e)[k]| ==>
      Place(spans, cols, e)[k][i] != Place(spans, cols, e)[k][j] &&
      Apart(spans[Place(spans, cols, e)[k][i]], spans[Place(spans, cols, e)[k][j]])
  {
    var after := Place(spans, cols, e);
    var c := FirstFit(spans, cols, e);
    assert forall k :: 0 <= k < |cols| ==> e !in cols[k];
    assert forall k :: 0 <= k < |cols| && k != c ==> after[k] == cols[k];
    assert after[c] == (if c == |cols| then [] else cols[c]) + [e];
    forall k, i, j | 0 <= k < |after| && 0 <= i < j < |after[k]|
      ensures after[k][i] != after[k][j] && Apart(spans[after[k][i]], spans[after[k][j]])
    {
      if k == c && j == |after[k]| - 1 {
        assert after[k][i] in cols[k];
      }
    }
  }

  /** Placing a new event keeps the columns first-fit. */
  lemma PlaceKeepsFirstFitted(spans: seq<Span>, cols: seq<seq<nat>>, done: seq<nat>, e: nat)
    requires Indices(spans, done) && e < |spans| && e !in done
    requires Packed(spans, cols, done) && FirstFitted(spans, cols, done)
    ensures FirstFitted(spans, Place(spans, cols, e), done + [e])
  {
    var after := Place(spans, cols, e);
    var done' := done + [e];
    assert forall k :: 0 <= k < |cols| ==> e !in cols[k];
    forall t, k | 0 <= t < |done'| && 0 <= k < Lane(after, done'[t]) && k < |after|
      ensures Blocked(spans, after, done', t, k)
    {
      LaneAfterPlace(spans, cols, e, done'[t]);
      if t < |done| {
        assert done'[t] == done[t] && done'[..t] == done[..t];
        assert Blocked(spans, cols, done, t, k);
        var m :| m in cols[k] && m in done[..t] && !Apart(spans[done[t]], spans[m]);
        MembersAfterPlace(spans, cols, e, m, k);
      } else {
        assert !Fits(spans, cols[k], e);
        var j :| 0 <= j < |cols[k]| && !Apart(spans[e], spans[cols[k][j]]);
        var m := cols[k][j];
        assert m in done && done'[..t] == done;
        MembersAfterPlace(spans, cols, e, m, k);
      }
    }
  }

  /** Greedy placement of distinct events in any order yields packed, first-fit columns. */
  lemma {:induction false} GreedyPacked(spans: seq<Span>, order: seq<nat>)
    requires Indices(spans, order) && Distinct(order)
    ensures Packed(spans, Greedy(spans, order), order)
    ensures FirstFitted(spans, Greedy(spans, order), order)
    decreases |order|
  {
    if order != [] {
      var n := |order| - 1;
      var pre := order[..n];
      GreedyPacked(spans, pre);
      assert order == pre + [order[n]];
      PlaceKeepsPacked(spans, Greedy(spans, pre), pre, order[n]);
      PlaceKeepsFirstFitted(spans, Greedy(spans, pre), pre, order[n]);
    }
  }

  /**
   * The packer's columns, in the events' own terms: every event is in exactly one
   * column; events sharing a column do not overlap; there is at least one column when
   * there is an event and never more columns than events; and an event is to the right
   * of a column only if that column holds an event processed earlier that it overlaps.
   */
  lemma ColumnsPacked(spans: seq<Span>)
    ensures Packed(spans, Columns(spans), Order(spans))
    ensures FirstFitted(spans, Columns(spans), Order(spans))
    ensures forall x :: 0 <= x < |spans| ==> Lane(Columns(spans), x) < |Columns(spans)|
    ensures |spans| > 0 ==> |Columns(spans)| >= 1
    ensures |Columns(spans)| <= |spans|
  {
    var order := Order(spans);
    GreedyPacked(spans, order);
    if |spans| > 0 {
      assert order[0] in order;
    }
  }

  // ---------------------------------------------------------------------------
  // The packer as the code runs it.

  /** `columns.findIndex(column => column.every(...))`, with `|cols|` for -1. */
  method FindColumn(spans: seq<Span>, cols: seq<seq<nat>>, e: nat) returns (c: nat)
    requires e < |spans| && ValidColumns(spans, cols)
    ensures c == FirstFit(spans, cols, e)
  {
    c := 0;
    while c < |cols| && !Fits(spans, cols[c], e)
      invariant c <= |cols|
      invariant forall i :: 0 <= i < c ==> !Fits(spans, cols[i], e)
    {
      c := c + 1;
    }
  }

  /** `Place` as the loop writes it: open an empty column when none fits, then push onto the chosen one. */
  lemma PlaceByPush(spans: seq<Span>, cols: seq<seq<nat>>, e: nat)
    requires e < |spans| && ValidColumns(spans, cols)
    ensures var c := FirstFit(spans, cols, e);
      var grown := if c == |cols| then cols + [[]] else cols;
      Place(spans, cols, e) == grown[c := grown[c] + [e]]
  {
    var c := FirstFit(spans, cols, e);
    if c == |cols| {
      var grown := cols + [[]];
      assert grown[c] + [e] == [e];
      assert forall k :: 0 <= k < |cols| ==> grown[c := [e]][k] == cols[k];
      assert grown[c := [e]] == cols + [[e]];
    }
  }

  /** The column-building loop of `rearrangeOverlappingEvents`. */
  method PackColumns(spans: seq<Span>) returns (columns: seq<seq<nat>>)
    ensures columns == Columns(spans)
  {
    var order := Order(spans);
    columns := [];
    var t := 0;
    while t < |order|
      invariant t <= |order|
      invariant columns == Greedy(spans, order[..t])
    {
      var e := order[t];
      ghost var before := columns;
      var c := FindColumn(spans, columns, e);
      if c == |columns| {
        columns := columns + [[]];
      }
      columns := columns[c := columns[c] + [e]];
      PlaceByPush(spans, before, e);
      assert order[..t + 1][..t] == order[..t];
      t := t + 1;
    }
    assert order[..t] == order;
  }
}
