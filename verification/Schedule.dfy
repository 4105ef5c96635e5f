/** The order and control flow of a type's field parsers (internal/tdp/compiler/ir.go, doSchedule). */
module Schedule {
  import opened VmSpec
  import opened Wrappers

  /** One of the parsers of a field's archetype. */
  datatype Parser = Parser(kind: nat, retry: bool, thunk: Thunk)

  /**
   A field: its index, the index of the oneof it is stored in, its number, whether it is decoded at least half
   the time, and its parsers.
   */
  datatype Field = Field(index: nat, oneof: Option<nat>, number: nat, likely: bool, parsers: seq<Parser>)

  /** A scheduled parser: its field, its index among the field's parsers, its side, and its successor. */
  datatype Scheduled = Scheduled(tIdx: nat, aIdx: nat, hot: bool, next: nat)

  /** What successors tell apart: the field, or the complement of its oneof. */
  function Slot(f: Field): int {
    if f.oneof.Some? then -1 - f.oneof.value else f.index
  }

  ghost predicate Belongs(ts: seq<Field>, p: Scheduled) {
    p.tIdx < |ts| && p.aIdx < |ts[p.tIdx].parsers| && (p.hot <==> p.aIdx == 0 && ts[p.tIdx].likely)
  }

  predicate Has(ps: seq<Scheduled>, t: nat, a: nat) {
    exists i :: 0 <= i < |ps| && ps[i].tIdx == t && ps[i].aIdx == a
  }

  ghost predicate Before(p: Scheduled, q: Scheduled) {
    p.tIdx < q.tIdx || (p.tIdx == q.tIdx && p.aIdx < q.aIdx)
  }

  /** Every parser of every field, in field order. */
  ghost predicate InFieldOrder(ts: seq<Field>, ps: seq<Scheduled>) {
    && (forall i :: 0 <= i < |ps| ==> Belongs(ts, ps[i]))
    && (forall i, j :: 0 <= i < j < |ps| ==> Before(ps[i], ps[j]))
    && (forall t, a :: 0 <= t < |ts| && 0 <= a < |ts[t].parsers| ==> Has(ps, t, a))
  }

  /** Every parser of every field once: hot ones before cold ones, and each side in field order. */
  ghost predicate HotFirst(ts: seq<Field>, ps: seq<Scheduled>) {
    && (forall i :: 0 <= i < |ps| ==> Belongs(ts, ps[i]))
    && (forall i, j :: 0 <= i < j < |ps| ==>
       (ps[i].hot == ps[j].hot && Before(ps[i], ps[j])) || (ps[i].hot && !ps[j].hot))
    && (forall t, a :: 0 <= t < |ts| && 0 <= a < |ts[t].parsers| ==> Has(ps, t, a))
  }

  // ----- Collecting and sorting -----

  method Collect(ts: seq<Field>) returns (ps: seq<Scheduled>)
    ensures InFieldOrder(ts, ps)
  {
    ps := [];
    for t := 0 to |ts|
      invariant InFieldOrder(ts[..t], ps)
    {
      ghost var before := ps;
      for a := 0 to |ts[t].parsers|
        invariant |before| <= |ps| && ps[..|before|] == before
        invariant forall i :: |before| <= i < |ps| ==> ps[i].tIdx == t && ps[i].aIdx < a && Belongs(ts, ps[i])
        invariant forall i, j :: |before| <= i < j < |ps| ==> ps[i].aIdx < ps[j].aIdx
        invariant forall b :: 0 <= b < a ==> Has(ps, t, b)
      {
        ghost var shorter := ps;
        ps := ps + [Scheduled(t, a, a == 0 && ts[t].likely, 0)];
        forall b | 0 <= b <= a
          ensures Has(ps, t, b)
        {
          if b == a {
            assert ps[|ps| - 1].aIdx == a;
          } else {
            HasMore(shorter, ps, t, b);
          }
        }
      }
      OneMoreField(ts, t, before, ps);
    }
    assert ts[..|ts|] == ts;
  }

  lemma HasMore(shorter: seq<Scheduled>, ps: seq<Scheduled>, t: nat, a: nat)
    requires |shorter| <= |ps| && ps[..|shorter|] == shorter && Has(shorter, t, a)
    ensures Has(ps, t, a)
  {
    var i :| 0 <= i < |shorter| && shorter[i].tIdx == t && shorter[i].aIdx == a;
    assert ps[i] == shorter[i];
  }

  lemma OneMoreField(ts: seq<Field>, t: nat, before: seq<Scheduled>, ps: seq<Scheduled>)
    requires t < |ts| && InFieldOrder(ts[..t], before) && |before| <= |ps| && ps[..|before|] == before
    requires forall i :: |before| <= i < |ps| ==> ps[i].tIdx == t && Belongs(ts, ps[i])
    requires forall i, j :: |before| <= i < j < |ps| ==> ps[i].aIdx < ps[j].aIdx
    requires forall b :: 0 <= b < |ts[t].parsers| ==> Has(ps, t, b)
    ensures InFieldOrder(ts[..t + 1], ps)
  {
    hide Has;
    forall i | 0 <= i < |ps|
      ensures Belongs(ts[..t + 1], ps[i])
    {
      if i < |before| {
        assert ps[i] == before[i] && Belongs(ts[..t], before[i]);
      }
    }
    forall i, j | 0 <= i < j < |ps|
      ensures Before(ps[i], ps[j])
    {
      if i < |before| {
        assert ps[i] == before[i] && Belongs(ts[..t], before[i]);
        if j < |before| {
          assert ps[j] == before[j];
        }
      }
    }
    forall u, a | 0 <= u < t + 1 && 0 <= a < |ts[..t + 1][u].parsers|
      ensures Has(ps, u, a)
    {
      if u < t {
        assert ts[..t][u] == ts[u];
        HasMore(before, ps, u, a);
      }
    }
  }

  /** The parsers of one side, in order. */
  function Side(ps: seq<Scheduled>, hot: bool): seq<Scheduled> {
    if ps == [] then []
    else Side(ps[..|ps| - 1], hot) + if ps[|ps| - 1].hot == hot then [ps[|ps| - 1]] else []
  }

  lemma {:induction false} SideKeeps(ts: seq<Field>, ps: seq<Scheduled>, hot: bool)
    requires forall i :: 0 <= i < |ps| ==> Belongs(ts, ps[i])
    requires forall i, j :: 0 <= i < j < |ps| ==> Before(ps[i], ps[j])
    ensures var s := Side(ps, hot);
            && (forall i :: 0 <= i < |s| ==> s[i] in ps && s[i].hot == hot)
            && (forall i, j :: 0 <= i < j < |s| ==> Before(s[i], s[j]))
            && (forall p :: p in ps && p.hot == hot ==> p in s)
  {
    if ps != [] {
      var shorter, last := ps[..|ps| - 1], ps[|ps| - 1];
      SideKeeps(ts, shorter, hot);
      forall p | p in shorter
        ensures Before(p, last)
      {
        var i :| 0 <= i < |shorter| && shorter[i] == p;
        assert ps[i] == p && Before(ps[i], ps[|ps| - 1]);
      }
      assert ps == shorter + [last];
    }
  }

  /** The stable sort by side of a list in field order. */
  lemma SortedBySide(ts: seq<Field>, ps: seq<Scheduled>)
    requires InFieldOrder(ts, ps)
    ensures HotFirst(ts, Side(ps, true) + Side(ps, false))
  {
    hide Side, Before, Belongs;
    SideKeeps(ts, ps, true);
    SideKeeps(ts, ps, false);
    var sorted := Side(ps, true) + Side(ps, false);
    forall t, a | 0 <= t < |ts| && 0 <= a < |ts[t].parsers|
      ensures Has(sorted, t, a)
    {
      assert Has(ps, t, a);
      var i :| 0 <= i < |ps| && ps[i].tIdx == t && ps[i].aIdx == a;
      assert ps[i] in sorted;
    }
  }

  // ----- Successors -----

  ghost predicate SlotOk(ts: seq<Field>, ps: seq<Scheduled>, k: int, slot: int) {
    0 <= k < |ps| && ps[k].hot && ps[k].tIdx < |ts| && Slot(ts[ps[k].tIdx]) == slot
  }

  /** The table names, for each slot that has one, its first hot parser. */
  ghost predicate FirstHot(ts: seq<Field>, ps: seq<Scheduled>, table: map<int, nat>, count: int) {
    && (forall s :: s in table ==> table[s] < count && SlotOk(ts, ps, table[s], s))
    && (forall k, s :: 0 <= k < count && SlotOk(ts, ps, k, s) ==> s in table && table[s] <= k)
  }

  method FirstHotTable(ts: seq<Field>, ps: seq<Scheduled>) returns (table: map<int, nat>)
    requires HotFirst(ts, ps)
    ensures FirstHot(ts, ps, table, |ps|)
  {
    table := map[];
    for i := 0 to |ps|
      invariant FirstHot(ts, ps, table, i)
    {
      assert Belongs(ts, ps[i]);
      if !ps[i].hot {
        continue;
      }
      var j := Slot(ts[ps[i].tIdx]);
      if j !in table {
        table := table[j := i];
      }
    }
  }

  /** Parser k is hot, belongs to a later field than parser i, and is not for the same field or oneof. */
  ghost predicate Follows(ts: seq<Field>, ps: seq<Scheduled>, i: nat, k: int)
    requires i < |ps| && ps[i].tIdx < |ts|
  {
    && 0 <= k < |ps| && ps[k].hot && ps[i].tIdx < ps[k].tIdx < |ts|
    && Slot(ts[ps[k].tIdx]) != Slot(ts[ps[i].tIdx])
  }

  /** The first such parser, or the first of all when there is none. */
  ghost predicate IsNext(ts: seq<Field>, ps: seq<Scheduled>, i: nat, n: nat)
    requires i < |ps| && ps[i].tIdx < |ts|
  {
    || (Follows(ts, ps, i, n) && forall k :: 0 <= k < n ==> !Follows(ts, ps, i, k))
    || (n == 0 && forall k :: 0 <= k < |ps| ==> !Follows(ts, ps, i, k))
  }

  /** The fields of a oneof are listed one after another, and no two other fields share an index. */
  ghost predicate Contiguous(ts: seq<Field>) {
    forall a, b, c :: 0 <= a < b < c < |ts| && Slot(ts[a]) == Slot(ts[c]) ==> Slot(ts[b]) == Slot(ts[a])
  }

  method Next(ts: seq<Field>, ps: seq<Scheduled>, table: map<int, nat>, i: nat) returns (n: nat)
    requires HotFirst(ts, ps) && FirstHot(ts, ps, table, |ps|) && i < |ps| && Belongs(ts, ps[i])
    ensures n < |ps|
    ensures ts[ps[i].tIdx].parsers[ps[i].aIdx].retry ==> n == i
    ensures !ts[ps[i].tIdx].parsers[ps[i].aIdx].retry ==>
              n == 0 || (ps[n].hot && ps[n].tIdx < |ts| && Slot(ts[ps[n].tIdx]) != Slot(ts[ps[i].tIdx]))
    ensures !ts[ps[i].tIdx].parsers[ps[i].aIdx].retry && Contiguous(ts) ==> IsNext(ts, ps, i, n)
  {
    hide HotFirst, FirstHot, Contiguous, IsNext;
    if ts[ps[i].tIdx].parsers[ps[i].aIdx].retry {
      return i;
    }
    var orig := Slot(ts[ps[i].tIdx]);
    for t := ps[i].tIdx to |ts|
      invariant forall u :: ps[i].tIdx <= u < t ==> Slot(ts[u]) !in table
    {
      var s := Slot(ts[t]);
      if s !in table {
        continue;
      }
      TableAt(ts, ps, table, s);
      var j := table[s];
      while true
        invariant table[s] <= j <= |ps|
        invariant forall k :: table[s] <= k < j ==> SlotOk(ts, ps, k, orig)
        decreases |ps| - j
      {
        if j == |ps| || !ps[j].hot {
          if Contiguous(ts) {
            NoneFollows(ts, ps, table, i, t, j);
          }
          return 0;
        }
        BelongsAt(ts, ps, j);
        if Slot(ts[ps[j].tIdx]) != orig {
          if Contiguous(ts) {
            FirstFollows(ts, ps, table, i, t, j);
          }
          return j;
        }
        j := j + 1;
      }
    }
    if Contiguous(ts) {
      NothingFollows(ts, ps, table, i);
    }
    n := 0;
  }

  lemma TableAt(ts: seq<Field>, ps: seq<Scheduled>, table: map<int, nat>, s: int)
    requires FirstHot(ts, ps, table, |ps|) && s in table
    ensures table[s] < |ps| && SlotOk(ts, ps, table[s], s)
  {
  }

  lemma BelongsAt(ts: seq<Field>, ps: seq<Scheduled>, j: nat)
    requires HotFirst(ts, ps) && j < |ps|
    ensures Belongs(ts, ps[j])
  {
  }

  /** Hot parsers are one to a field, in field order, before the cold ones. */
  lemma HotOrder(ts: seq<Field>, ps: seq<Scheduled>, j: nat, k: nat)
    requires HotFirst(ts, ps) && j < |ps| && k < |ps| && ps[k].hot
    ensures !ps[j].hot ==> k < j
    ensures ps[j].hot && j < k ==> ps[j].tIdx < ps[k].tIdx
  {
    BelongsAt(ts, ps, j);
    BelongsAt(ts, ps, k);
  }

  lemma ContiguousAt(ts: seq<Field>, a: nat, b: nat, c: nat)
    requires Contiguous(ts) && a <= b <= c < |ts| && Slot(ts[a]) == Slot(ts[c])
    ensures Slot(ts[b]) == Slot(ts[a])
  {
    if a < b < c {
      assert Slot(ts[b]) == Slot(ts[a]);
    }
  }

  /** A parser that follows has its slot in the table, at or before it. */
  lemma FollowerInTable(ts: seq<Field>, ps: seq<Scheduled>, table: map<int, nat>, i: nat, k: nat)
    requires FirstHot(ts, ps, table, |ps|) && i < |ps| && ps[i].tIdx < |ts| && Follows(ts, ps, i, k)
    ensures Slot(ts[ps[k].tIdx]) in table && table[Slot(ts[ps[k].tIdx])] <= k
  {
    assert SlotOk(ts, ps, k, Slot(ts[ps[k].tIdx]));
  }

  lemma NothingFollows(ts: seq<Field>, ps: seq<Scheduled>, table: map<int, nat>, i: nat)
    requires FirstHot(ts, ps, table, |ps|) && i < |ps| && ps[i].tIdx < |ts|
    requires forall u :: ps[i].tIdx <= u < |ts| ==> Slot(ts[u]) !in table
    ensures IsNext(ts, ps, i, 0)
  {
    hide FirstHot;
    forall k | 0 <= k < |ps|
      ensures !Follows(ts, ps, i, k)
    {
      if Follows(ts, ps, i, k) {
        FollowerInTable(ts, ps, table, i, k);
      }
    }
  }

  /** The search at field t has passed only the slot of parser i, and nothing before the search follows i. */
  lemma NoneBefore(ts: seq<Field>, ps: seq<Scheduled>, table: map<int, nat>, i: nat, t: nat, j: nat, k: nat)
    requires HotFirst(ts, ps) && FirstHot(ts, ps, table, |ps|) && Contiguous(ts)
    requires i < |ps| && ps[i].tIdx <= t < |ts| && Slot(ts[t]) in table
    requires forall u :: ps[i].tIdx <= u < t ==> Slot(ts[u]) !in table
    requires table[Slot(ts[t])] <= j <= |ps|
    requires forall q :: table[Slot(ts[t])] <= q < j ==> SlotOk(ts, ps, q, Slot(ts[ps[i].tIdx]))
    requires k < j
    ensures !Follows(ts, ps, i, k)
  {
    hide HotFirst, FirstHot, Contiguous;
    var first := table[Slot(ts[t])];
    if k >= first {
      assert SlotOk(ts, ps, k, Slot(ts[ps[i].tIdx]));
    } else if Follows(ts, ps, i, k) {
      TableAt(ts, ps, table, Slot(ts[t]));
      FollowerInTable(ts, ps, table, i, k);
      HotOrder(ts, ps, k, first);
      ContiguousAt(ts, t, ps[k].tIdx, ps[first].tIdx);
    }
  }

  lemma NoneFollows(ts: seq<Field>, ps: seq<Scheduled>, table: map<int, nat>, i: nat, t: nat, j: nat)
    requires HotFirst(ts, ps) && FirstHot(ts, ps, table, |ps|) && Contiguous(ts)
    requires i < |ps| && ps[i].tIdx <= t < |ts| && Slot(ts[t]) in table
    requires forall u :: ps[i].tIdx <= u < t ==> Slot(ts[u]) !in table
    requires table[Slot(ts[t])] <= j <= |ps|
    requires forall q :: table[Slot(ts[t])] <= q < j ==> SlotOk(ts, ps, q, Slot(ts[ps[i].tIdx]))
    requires j == |ps| || !ps[j].hot
    ensures IsNext(ts, ps, i, 0)
  {
    hide HotFirst, FirstHot, Contiguous;
    forall k | 0 <= k < |ps|
      ensures !Follows(ts, ps, i, k)
    {
      if Follows(ts, ps, i, k) {
        if j < |ps| {
          HotOrder(ts, ps, j, k);
        }
        NoneBefore(ts, ps, table, i, t, j, k);
      }
    }
  }

  lemma FirstFollows(ts: seq<Field>, ps: seq<Scheduled>, table: map<int, nat>, i: nat, t: nat, j: nat)
    requires HotFirst(ts, ps) && FirstHot(ts, ps, table, |ps|) && Contiguous(ts)
    requires i < |ps| && ps[i].tIdx <= t < |ts| && Slot(ts[t]) in table
    requires forall u :: ps[i].tIdx <= u < t ==> Slot(ts[u]) !in table
    requires table[Slot(ts[t])] <= j < |ps|
    requires forall q :: table[Slot(ts[t])] <= q < j ==> SlotOk(ts, ps, q, Slot(ts[ps[i].tIdx]))
    requires ps[j].hot && ps[j].tIdx < |ts| && Slot(ts[ps[j].tIdx]) != Slot(ts[ps[i].tIdx])
    ensures IsNext(ts, ps, i, j)
  {
    hide HotFirst, FirstHot, Contiguous;
    var first := table[Slot(ts[t])];
    TableAt(ts, ps, table, Slot(ts[t]));
    if ps[j].tIdx <= ps[i].tIdx {
      if first == j {
        ContiguousAt(ts, ps[j].tIdx, ps[i].tIdx, t);
      } else {
        assert SlotOk(ts, ps, first, Slot(ts[ps[i].tIdx]));
        HotOrder(ts, ps, first, j);
        ContiguousAt(ts, ps[first].tIdx, ps[j].tIdx, ps[i].tIdx);
      }
    }
    forall k | 0 <= k < j
      ensures !Follows(ts, ps, i, k)
    {
      NoneBefore(ts, ps, table, i, t, j, k);
    }
  }

  // ----- The schedule -----

  /** The same parsers, whatever their successors. */
  ghost predicate SameParsers(ps: seq<Scheduled>, qs: seq<Scheduled>) {
    |ps| == |qs| && forall i :: 0 <= i < |ps| ==>
      ps[i].tIdx == qs[i].tIdx && ps[i].aIdx == qs[i].aIdx && ps[i].hot == qs[i].hot
  }

  /**
   Where parser i leads: a retrying parser to itself, any other to the first parser or to a hot one for another
   field or oneof; in a list of fields whose oneofs are contiguous, to the next such parser after its field.
   */
  ghost predicate LeadsTo(ts: seq<Field>, ps: seq<Scheduled>, i: nat, n: nat)
    requires i < |ps| && Belongs(ts, ps[i])
  {
    && n < |ps|
    && (if ts[ps[i].tIdx].parsers[ps[i].aIdx].retry then n == i
        else (n == 0 || (ps[n].hot && ps[n].tIdx < |ts| && Slot(ts[ps[n].tIdx]) != Slot(ts[ps[i].tIdx])))
             && (Contiguous(ts) ==> IsNext(ts, ps, i, n)))
  }

  method Schedule(ts: seq<Field>) returns (ps: seq<Scheduled>)
    ensures HotFirst(ts, ps)
    ensures forall i :: 0 <= i < |ps| ==> Belongs(ts, ps[i]) && LeadsTo(ts, ps, i, ps[i].next)
    ensures forall i :: 0 <= i < |ps| ==> ps[i].next < |ps|
  {
    hide HotFirst, InFieldOrder, Side, FirstHot, Contiguous, IsNext;
    var all := Collect(ts);
    SortedBySide(ts, all);
    var sorted := Side(all, true) + Side(all, false);
    var table := FirstHotTable(ts, sorted);
    ps := sorted;
    for i := 0 to |ps|
      invariant SameParsers(sorted, ps)
      invariant forall k :: 0 <= k < i ==> Belongs(ts, sorted[k]) && LeadsTo(ts, sorted, k, ps[k].next)
    {
      BelongsAt(ts, sorted, i);
      var n := Next(ts, sorted, table, i);
      ps := ps[i := ps[i].(next := n)];
    }
    KeepsOrder(ts, sorted, ps);
    forall k | 0 <= k < |ps|
      ensures Belongs(ts, ps[k]) && LeadsTo(ts, ps, k, ps[k].next)
    {
      LeadsSame(ts, sorted, ps, k, ps[k].next);
    }
  }

  lemma KeepsOrder(ts: seq<Field>, ps: seq<Scheduled>, qs: seq<Scheduled>)
    requires HotFirst(ts, ps) && SameParsers(ps, qs)
    ensures HotFirst(ts, qs)
  {
    forall t, a | 0 <= t < |ts| && 0 <= a < |ts[t].parsers|
      ensures Has(qs, t, a)
    {
      assert Has(ps, t, a);
      var i :| 0 <= i < |ps| && ps[i].tIdx == t && ps[i].aIdx == a;
      assert qs[i].tIdx == t;
    }
  }

  /** Where a parser leads does not depend on where the others lead. */
  lemma LeadsSame(ts: seq<Field>, ps: seq<Scheduled>, qs: seq<Scheduled>, i: nat, n: nat)
    requires SameParsers(ps, qs) && i < |ps| && Belongs(ts, ps[i]) && LeadsTo(ts, ps, i, n)
    ensures Belongs(ts, qs[i]) && LeadsTo(ts, qs, i, n)
  {
    hide Contiguous;
    assert forall k :: Follows(ts, ps, i, k) <==> Follows(ts, qs, i, k);
  }
}
