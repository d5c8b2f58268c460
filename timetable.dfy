/**
  The rules of the exam grid, stated on values: the schedule and its per-cell
  snapshots, the grid invariants, and what one edit of one cell does.
*/
module Timetable {
  import opened Conflicts

  const SlotsPerDay: int := 3
  const MaxPerSlot: int := 5
  const DefaultDays: int := 5
  const MaxDays: int := 10

  /** day -> slot -> the subjects examined in that cell. */
  type Schedule = map<int, map<int, seq<string>>>

  /** The last valid list of a cell, keyed by (day, slot). */
  type Snapshots = map<(int, int), seq<string>>

  predicate HasCell(sch: Schedule, d: int, s: int)
  {
    d in sch && s in sch[d]
  }

  /** The snapshot of a cell, or `[]` when it has none. */
  function SnapshotOr(snaps: Snapshots, d: int, s: int): seq<string>
  {
    if (d, s) in snaps then snaps[(d, s)] else []
  }

  /** `conflict_graph.get(x, set())`. */
  function NeighboursOf(g: Graph, x: string): set<string>
  {
    if x in g then g[x] else {}
  }

  /** The validator's test of a pair: either one lists the other as a conflict. */
  predicate Adjacent(g: Graph, a: string, b: string)
  {
    a in NeighboursOf(g, b) || b in NeighboursOf(g, a)
  }

  predicate ConflictFree(g: Graph, l: seq<string>)
  {
    forall i, j :: 0 <= i < j < |l| ==> !Adjacent(g, l[i], l[j])
  }

  /**
    `list(set(l))`: the proposal with repetitions dropped. Python leaves the
    order to the set's iteration; the model keeps each name's last occurrence.
  */
  function Distinct(l: seq<string>): (r: seq<string>)
    ensures NoDuplicates(r)
    ensures forall x :: x in r <==> x in l
  {
    if l == [] then []
    else if l[0] in l[1..] then Distinct(l[1..])
    else [l[0]] + Distinct(l[1..])
  }

  /** A list without repetitions has as many elements as its set. */
  lemma {:induction false} NoDuplicatesSize(l: seq<string>)
    requires NoDuplicates(l)
    ensures |Elements(l)| == |l|
  {
    if l != [] {
      NoDuplicatesSize(l[1..]);
      assert Elements(l) == {l[0]} + Elements(l[1..]);
      assert l[0] !in Elements(l[1..]);
    }
  }

  /** The de-duplicated proposal has exactly one entry per distinct subject. */
  lemma DistinctSize(l: seq<string>)
    ensures |Distinct(l)| == |Elements(l)|
  {
    NoDuplicatesSize(Distinct(l));
    assert Elements(Distinct(l)) == Elements(l);
  }

  /** The subjects of the cells of the days in `days`, leaving out the cells in `except`. */
  function SubjectsIn(sch: Schedule, days: set<int>, except: set<(int, int)>): set<string>
  {
    set d, s, x | d in days && d in sch && s in sch[d] && (d, s) !in except && x in sch[d][s] :: x
  }

  /** The subjects of the cells of day `d` whose slot is in `slots`, leaving out the cells in `except`. */
  function RowSubjects(sch: Schedule, d: int, slots: set<int>, except: set<(int, int)>): set<string>
    requires d in sch
  {
    set s, x | s in slots && s in sch[d] && (d, s) !in except && x in sch[d][s] :: x
  }

  /** Everything scheduled in a cell other than (day, slot). */
  function ScheduledElsewhere(sch: Schedule, day: int, slot: int): set<string>
  {
    SubjectsIn(sch, sch.Keys, {(day, slot)})
  }

  /** Everything scheduled on days 1..n. */
  function Scheduled(sch: Schedule, n: int): set<string>
  {
    SubjectsIn(sch, Days(n), {})
  }

  /** Adding one more day to `days` adds that day's cells. */
  lemma SubjectsInAddDay(sch: Schedule, days: set<int>, d: int, except: set<(int, int)>)
    requires d in sch
    ensures SubjectsIn(sch, days + {d}, except) == SubjectsIn(sch, days, except) + RowSubjects(sch, d, sch[d].Keys, except)
  {
    var lhs, rhs := SubjectsIn(sch, days + {d}, except), SubjectsIn(sch, days, except) + RowSubjects(sch, d, sch[d].Keys, except);
    forall x | x in lhs ensures x in rhs {
      var d', s :| d' in days + {d} && d' in sch && s in sch[d'] && (d', s) !in except && x in sch[d'][s];
      if d' != d {
        assert x in SubjectsIn(sch, days, except);
      }
    }
  }

  /** A day outside the schedule adds nothing. */
  lemma SubjectsInAddMissingDay(sch: Schedule, days: set<int>, d: int, except: set<(int, int)>)
    requires d !in sch
    ensures SubjectsIn(sch, days + {d}, except) == SubjectsIn(sch, days, except)
  {
  }

  /** Adding one more slot to `slots` adds that cell's subjects, unless it is excepted. */
  lemma RowSubjectsAddSlot(sch: Schedule, d: int, slots: set<int>, s: int, except: set<(int, int)>)
    requires d in sch && s in sch[d]
    ensures RowSubjects(sch, d, slots + {s}, except) ==
      RowSubjects(sch, d, slots, except) + (if (d, s) in except then {} else Elements(sch[d][s]))
  {
    var lhs := RowSubjects(sch, d, slots + {s}, except);
    var rhs := RowSubjects(sch, d, slots, except) + (if (d, s) in except then {} else Elements(sch[d][s]));
    forall x | x in lhs ensures x in rhs {
      var s' :| s' in slots + {s} && s' in sch[d] && (d, s') !in except && x in sch[d][s'];
      if s' != s {
        assert x in RowSubjects(sch, d, slots, except);
      }
    }
  }

  /** The three tests of a de-duplicated proposal `l`. */
  predicate Acceptable(g: Graph, l: seq<string>, others: set<string>)
  {
    ConflictFree(g, l) && |l| <= MaxPerSlot && forall x :: x in l ==> x !in others
  }

  /** The pairwise test on a list without repetitions is the test on its distinct elements. */
  lemma ConflictFreeElements(g: Graph, l: seq<string>)
    requires NoDuplicates(l)
    ensures ConflictFree(g, l) <==> forall a, b :: a in l && b in l && a != b ==> !Adjacent(g, a, b)
  {
    if ConflictFree(g, l) {
      forall a, b | a in l && b in l && a != b ensures !Adjacent(g, a, b) {
        var i :| 0 <= i < |l| && l[i] == a;
        var j :| 0 <= j < |l| && l[j] == b;
        if j < i {
          assert !Adjacent(g, l[j], l[i]);
        }
      }
    }
  }

  datatype EditOutcome = EditOutcome(accepted: bool, schedule: Schedule, snapshots: Snapshots)

  /** The two schedules have the same days and, on each day, the same slots. */
  predicate SameCells(a: Schedule, b: Schedule)
  {
    a.Keys == b.Keys && forall d :: d in a ==> a[d].Keys == b[d].Keys
  }

  /**
    One change of cell (day, slot) to `proposed`: the proposal is de-duplicated
    and accepted when no two of its subjects conflict, it holds at most five,
    and none of them is scheduled in another cell. Accepted, it becomes the
    cell and the cell's snapshot; rejected, the cell falls back to its snapshot
    (or to empty).
  */
  function Edit(sch: Schedule, snaps: Snapshots, g: Graph, day: int, slot: int, proposed: seq<string>): (o: EditOutcome)
    requires HasCell(sch, day, slot)
    ensures o.accepted <==>
      && (forall a, b :: a in proposed && b in proposed && a != b ==> !Adjacent(g, a, b))
      && |Elements(proposed)| <= MaxPerSlot
      && (forall x :: x in proposed ==> x !in ScheduledElsewhere(sch, day, slot))
    ensures SameCells(o.schedule, sch)
    ensures forall d, s :: HasCell(sch, d, s) && (d != day || s != slot) ==> o.schedule[d][s] == sch[d][s]
    ensures forall k :: k != (day, slot) ==> (k in o.snapshots <==> k in snaps) && (k in snaps ==> o.snapshots[k] == snaps[k])
    ensures o.accepted ==>
      && Elements(o.schedule[day][slot]) == Elements(proposed) && NoDuplicates(o.schedule[day][slot])
      && (day, slot) in o.snapshots && o.snapshots[(day, slot)] == o.schedule[day][slot]
    ensures !o.accepted ==> o.schedule[day][slot] == SnapshotOr(snaps, day, slot) && o.snapshots == snaps
  {
    var l := Distinct(proposed);
    ConflictFreeElements(g, l);
    DistinctSize(proposed);
    assert Elements(l) == Elements(proposed);
    var accepted := Acceptable(g, l, ScheduledElsewhere(sch, day, slot));
    var cell := if accepted then l else SnapshotOr(snaps, day, slot);
    EditOutcome(accepted, sch[day := sch[day][slot := cell]], if accepted then snaps[(day, slot) := l] else snaps)
  }

  /** Every cell's snapshot (or `[]` without one) is the cell's contents. */
  ghost predicate Synced(sch: Schedule, snaps: Snapshots)
  {
    forall d, s :: HasCell(sch, d, s) ==> SnapshotOr(snaps, d, s) == sch[d][s]
  }

  /** The grid invariants for one cell. */
  predicate CellOk(g: Graph, l: seq<string>)
  {
    NoDuplicates(l) && |l| <= MaxPerSlot && ConflictFree(g, l)
  }

  /** The grid invariants: every cell is valid and no subject is in two cells. */
  ghost predicate Consistent(g: Graph, sch: Schedule)
  {
    && (forall d, s :: HasCell(sch, d, s) ==> CellOk(g, sch[d][s]))
    && (forall d, s, x :: HasCell(sch, d, s) && x in sch[d][s] ==> x !in ScheduledElsewhere(sch, d, s))
  }

  /** Days 1..n, each with slots 1..3. */
  ghost predicate Shape(sch: Schedule, n: int)
  {
    && (forall d :: d in sch <==> 1 <= d <= n)
    && (forall d, s :: d in sch ==> (s in sch[d] <==> 1 <= s <= SlotsPerDay))
  }

  /** The day numbers 1..n, as `range(1, n + 1)` yields them. */
  function Days(n: int): (days: set<int>)
    ensures forall d :: d in days <==> 1 <= d <= n
    decreases n
  {
    if n < 1 then {} else Days(n - 1) + {n}
  }

  /** The slot numbers 1..3. */
  function Slots(): set<int>
  {
    {1, 2, 3}
  }

  /** The empty grid over days 1..n. */
  function EmptyGrid(n: int): (sch: Schedule)
    ensures Shape(sch, n)
    ensures forall d, s :: HasCell(sch, d, s) ==> sch[d][s] == []
  {
    map d | d in Days(n) :: map s | s in Slots() :: []
  }

  /** The cells of days 1..n. */
  function GridCells(n: int): set<(int, int)>
  {
    set d, s | 1 <= d <= n && 1 <= s <= SlotsPerDay :: (d, s)
  }

  /** Two schedules with the same cells and the same contents in each are equal. */
  lemma ScheduleExtensional(a: Schedule, b: Schedule)
    requires SameCells(a, b)
    requires forall d, s :: HasCell(a, d, s) ==> a[d][s] == b[d][s]
    ensures a == b
  {
    forall d | d in a ensures a[d] == b[d] {
      assert a[d].Keys == b[d].Keys;
      forall s | s in a[d] ensures a[d][s] == b[d][s] {
        assert HasCell(a, d, s);
      }
    }
  }

  /** With snapshots in step with the cells, a rejected edit changes nothing at all. */
  lemma RejectedEditChangesNothing(sch: Schedule, snaps: Snapshots, g: Graph, day: int, slot: int, proposed: seq<string>)
    requires HasCell(sch, day, slot) && Synced(sch, snaps)
    requires !Edit(sch, snaps, g, day, slot, proposed).accepted
    ensures Edit(sch, snaps, g, day, slot, proposed).schedule == sch
    ensures Edit(sch, snaps, g, day, slot, proposed).snapshots == snaps
  {
    var o := Edit(sch, snaps, g, day, slot, proposed);
    ScheduleExtensional(o.schedule, sch);
  }

  /** Every edit keeps the snapshots in step with the cells. */
  lemma EditKeepsSynced(sch: Schedule, snaps: Snapshots, g: Graph, day: int, slot: int, proposed: seq<string>)
    requires HasCell(sch, day, slot) && Synced(sch, snaps)
    ensures var o := Edit(sch, snaps, g, day, slot, proposed); Synced(o.schedule, o.snapshots)
  {
    var o := Edit(sch, snaps, g, day, slot, proposed);
    forall d, s | HasCell(o.schedule, d, s) ensures SnapshotOr(o.snapshots, d, s) == o.schedule[d][s] {
      assert HasCell(sch, d, s);
    }
  }

  /** Membership in the subjects scheduled elsewhere, spelled out. */
  lemma ElsewhereMember(sch: Schedule, day: int, slot: int, x: string)
    ensures x in ScheduledElsewhere(sch, day, slot) <==>
      exists d, s :: HasCell(sch, d, s) && (d != day || s != slot) && x in sch[d][s]
  {
    if x in ScheduledElsewhere(sch, day, slot) {
      var d, s :| d in sch && s in sch[d] && (d, s) !in {(day, slot)} && x in sch[d][s];
      assert HasCell(sch, d, s) && (d != day || s != slot);
    }
  }

  /** Membership in the subjects scheduled on days 1..n, spelled out. */
  lemma ScheduledMember(sch: Schedule, n: int, x: string)
    ensures x in Scheduled(sch, n) <==>
      exists d, s :: 1 <= d <= n && HasCell(sch, d, s) && x in sch[d][s]
  {
    if x in Scheduled(sch, n) {
      var d, s :| d in Days(n) && d in sch && s in sch[d] && (d, s) !in {} && x in sch[d][s];
      assert 1 <= d <= n && HasCell(sch, d, s);
    }
  }

  /**
    An edit keeps the grid invariants: an accepted list passed the three tests,
    and a rejected one leaves the grid as it was.
  */
  lemma EditPreservesConsistency(sch: Schedule, snaps: Snapshots, g: Graph, day: int, slot: int, proposed: seq<string>)
    requires HasCell(sch, day, slot) && Synced(sch, snaps) && Consistent(g, sch)
    ensures Consistent(g, Edit(sch, snaps, g, day, slot, proposed).schedule)
  {
    var o := Edit(sch, snaps, g, day, slot, proposed);
    if !o.accepted {
      RejectedEditChangesNothing(sch, snaps, g, day, slot, proposed);
    } else {
      var l := o.schedule[day][slot];
      var sch' := o.schedule;
      assert l == Distinct(proposed);
      assert CellOk(g, l) by {
        ConflictFreeElements(g, l);
        DistinctSize(proposed);
      }
      forall d, s, x | HasCell(sch', d, s) && x in sch'[d][s] ensures x !in ScheduledElsewhere(sch', d, s) {
        forall d', s' | HasCell(sch', d', s') && (d' != d || s' != s) ensures x !in sch'[d'][s'] {
          if d == day && s == slot {
            ElsewhereMember(sch, day, slot, x);
          } else if d' == day && s' == slot {
            ElsewhereMember(sch, day, slot, x);
          } else {
            ElsewhereMember(sch, d, s, x);
          }
        }
        ElsewhereMember(sch', d, s, x);
      }
    }
  }

  /** The empty grid satisfies the grid invariants. */
  lemma EmptyGridConsistent(g: Graph, n: int)
    ensures Consistent(g, EmptyGrid(n))
  {
  }

  /** On a grid of days 1..n, what is scheduled elsewhere is scheduled on days 1..n. */
  lemma ElsewhereWithinScheduled(sch: Schedule, n: int, day: int, slot: int)
    requires Shape(sch, n)
    ensures ScheduledElsewhere(sch, day, slot) <= Scheduled(sch, n)
  {
    forall x | x in ScheduledElsewhere(sch, day, slot) ensures x in Scheduled(sch, n) {
      var d, s :| d in sch && s in sch[d] && (d, s) !in {(day, slot)} && x in sch[d][s];
      assert d in Days(n);
    }
  }

  /** Day `d`'s slots and their lists, or none when the day is missing. */
  function Row(sch: Schedule, d: int): map<int, seq<string>>
  {
    if d in sch then sch[d] else map[]
  }

  /** Cell (d, s) as the render pass finds it: its list, or `[]` when it is missing. */
  function CellOrEmpty(sch: Schedule, d: int, s: int): seq<string>
  {
    if HasCell(sch, d, s) then sch[d][s] else []
  }

  /** Cell (d, s) made present: kept when it exists, else created empty, with its day if that is missing too. */
  function FillCell(sch: Schedule, d: int, s: int): (r: Schedule)
    ensures HasCell(r, d, s) && r[d][s] == CellOrEmpty(sch, d, s)
    ensures forall d', s' :: HasCell(sch, d', s') ==> HasCell(r, d', s') && r[d'][s'] == sch[d'][s']
  {
    sch[d := Row(sch, d)[s := CellOrEmpty(sch, d, s)]]
  }

  /** Making an existing cell present changes nothing. */
  lemma FillPresentCell(sch: Schedule, d: int, s: int)
    requires HasCell(sch, d, s)
    ensures FillCell(sch, d, s) == sch
  {
    assert sch[d][s := sch[d][s]] == sch[d];
  }

  /** Cell `k` comes before (day, slot) in the day-by-slot sweep over slots 1..3. */
  predicate Cleared(k: (int, int), day: int, slot: int)
  {
    1 <= k.0 && 1 <= k.1 <= SlotsPerDay && (k.0 < day || (k.0 == day && k.1 < slot))
  }

  /**
    The render pass from cell (day, slot) to the end of day n, slot by slot:
    the cell is made present, then its snapshot is set to its list.
  */
  function Sweep(sch: Schedule, snaps: Snapshots, n: int, day: int, slot: int): (r: (Schedule, Snapshots))
    requires 1 <= slot <= SlotsPerDay + 1
    ensures forall k :: k in snaps ==> k in r.1
    decreases n - day, SlotsPerDay + 1 - slot
  {
    if day > n then (sch, snaps)
    else if slot > SlotsPerDay then Sweep(sch, snaps, n, day + 1, 1)
    else Sweep(FillCell(sch, day, slot), snaps[(day, slot) := CellOrEmpty(sch, day, slot)], n, day, slot + 1)
  }

  /** The render pass keeps every existing cell and its list. */
  lemma {:induction false} SweepKeepsCells(sch: Schedule, snaps: Snapshots, n: int, day: int, slot: int)
    requires 1 <= slot <= SlotsPerDay + 1
    ensures var r := Sweep(sch, snaps, n, day, slot).0;
      forall d, s :: HasCell(sch, d, s) ==> HasCell(r, d, s) && r[d][s] == sch[d][s]
    decreases n - day, SlotsPerDay + 1 - slot
  {
    if day > n {
    } else if slot > SlotsPerDay {
      SweepKeepsCells(sch, snaps, n, day + 1, 1);
    } else {
      SweepKeepsCells(FillCell(sch, day, slot), snaps[(day, slot) := CellOrEmpty(sch, day, slot)], n, day, slot + 1);
    }
  }

  /**
    After the render pass every cell of days 1..n exists and its snapshot is
    its list, given that this already holds for the cells swept so far.
  */
  lemma {:induction false} SweepRefreshesGrid(sch: Schedule, snaps: Snapshots, n: int, day: int, slot: int)
    requires 1 <= day && 1 <= slot <= SlotsPerDay + 1
    requires forall d, s :: Cleared((d, s), day, slot) && d <= n ==>
      HasCell(sch, d, s) && (d, s) in snaps && snaps[(d, s)] == sch[d][s]
    ensures var (r, rs) := Sweep(sch, snaps, n, day, slot);
      forall d, s :: 1 <= d <= n && 1 <= s <= SlotsPerDay ==>
        HasCell(r, d, s) && (d, s) in rs && rs[(d, s)] == r[d][s]
    decreases n - day, SlotsPerDay + 1 - slot
  {
    if day > n {
      forall d, s | 1 <= d <= n && 1 <= s <= SlotsPerDay ensures HasCell(sch, d, s) && (d, s) in snaps && snaps[(d, s)] == sch[d][s] {
        assert Cleared((d, s), day, slot);
      }
    } else if slot > SlotsPerDay {
      forall d, s | Cleared((d, s), day + 1, 1) && d <= n ensures HasCell(sch, d, s) && (d, s) in snaps && snaps[(d, s)] == sch[d][s] {
        assert Cleared((d, s), day, slot);
      }
      SweepRefreshesGrid(sch, snaps, n, day + 1, 1);
    } else {
      var sch', snaps' := FillCell(sch, day, slot), snaps[(day, slot) := CellOrEmpty(sch, day, slot)];
      forall d, s | Cleared((d, s), day, slot + 1) && d <= n ensures HasCell(sch', d, s) && (d, s) in snaps' && snaps'[(d, s)] == sch'[d][s] {
        if (d, s) != (day, slot) {
          assert Cleared((d, s), day, slot);
        }
      }
      SweepRefreshesGrid(sch', snaps', n, day, slot + 1);
    }
  }

  /** On a grid of days 1..n with slots 1..3 the render pass adds no cell. */
  lemma {:induction false} SweepShapedGrid(sch: Schedule, snaps: Snapshots, n: int, day: int, slot: int)
    requires Shape(sch, n) && 1 <= day && 1 <= slot <= SlotsPerDay + 1
    ensures Sweep(sch, snaps, n, day, slot).0 == sch
    decreases n - day, SlotsPerDay + 1 - slot
  {
    if day > n {
    } else if slot > SlotsPerDay {
      SweepShapedGrid(sch, snaps, n, day + 1, 1);
    } else {
      FillPresentCell(sch, day, slot);
      SweepShapedGrid(sch, snaps[(day, slot) := CellOrEmpty(sch, day, slot)], n, day, slot + 1);
    }
  }

  /** On a grid of days 1..n, the render pass leaves every cell in step with its snapshot. */
  lemma RenderSyncs(sch: Schedule, snaps: Snapshots, n: int)
    requires Shape(sch, n)
    ensures Sweep(sch, snaps, n, 1, 1).0 == sch
    ensures Synced(sch, Sweep(sch, snaps, n, 1, 1).1)
  {
    SweepShapedGrid(sch, snaps, n, 1, 1);
    SweepRefreshesGrid(sch, snaps, n, 1, 1);
  }

  /** The conflicts of the subjects in `l`: the union of their neighbour sets. */
  function ConflictingWith(g: Graph, l: seq<string>): (c: set<string>)
    ensures forall y :: y in c <==> exists x :: x in l && y in NeighboursOf(g, x)
  {
    if l == [] then {}
    else
      var init := l[..|l| - 1];
      assert forall x :: x in l <==> x in init || x == l[|l| - 1];
      ConflictingWith(g, init) + NeighboursOf(g, l[|l| - 1])
  }

  /**
    The option filter's test for subject `x` in cell (day, slot): already in the
    cell, or scheduled on no day 1..n and not a conflict of anything in the cell.
  */
  predicate Offered(sch: Schedule, n: int, g: Graph, day: int, slot: int, x: string)
    requires HasCell(sch, day, slot)
  {
    x in sch[day][slot] || (x !in Scheduled(sch, n) && x !in ConflictingWith(g, sch[day][slot]))
  }

  /** No two subjects of a valid cell plus one offered newcomer conflict. */
  lemma OfferedPairsFree(g: Graph, cell: seq<string>, x: string)
    requires Symmetric(g) && CellOk(g, cell)
    requires x !in ConflictingWith(g, cell)
    ensures forall a, b :: a in cell + [x] && b in cell + [x] && a != b ==> !Adjacent(g, a, b)
  {
    ConflictFreeElements(g, cell);
    forall a, b | a in cell + [x] && b in cell + [x] && a != b ensures !Adjacent(g, a, b) {
      if a == x || b == x {
        var c := if a == x then b else a;
        assert c in cell;
        assert x !in NeighboursOf(g, c);
        assert c !in NeighboursOf(g, x);
      }
    }
  }

  /** A cell with room, plus a subject it lacks, is still within capacity. */
  lemma OfferedSize(cell: seq<string>, x: string)
    requires NoDuplicates(cell) && |cell| < MaxPerSlot && x !in cell
    ensures |Elements(cell + [x])| <= MaxPerSlot
  {
    NoDuplicatesSize(cell);
    assert Elements(cell + [x]) == Elements(cell) + {x};
  }

  /** Neither the cell's own subjects nor an unscheduled newcomer are scheduled elsewhere. */
  lemma OfferedUnscheduled(sch: Schedule, n: int, g: Graph, day: int, slot: int, x: string)
    requires Shape(sch, n) && HasCell(sch, day, slot) && Consistent(g, sch)
    requires x !in Scheduled(sch, n)
    ensures forall y :: y in sch[day][slot] + [x] ==> y !in ScheduledElsewhere(sch, day, slot)
  {
    ElsewhereWithinScheduled(sch, n, day, slot);
    forall y | y in sch[day][slot] + [x] ensures y !in ScheduledElsewhere(sch, day, slot) {
      if y != x {
        assert y in sch[day][slot];
      }
    }
  }

  /**
    Offered options are safe: with a symmetric graph and a valid grid, adding
    one offered subject to a cell that has room is an edit the validator accepts.
  */
  lemma OfferedSubjectAccepted(sch: Schedule, snaps: Snapshots, n: int, g: Graph, day: int, slot: int, x: string)
    requires Shape(sch, n) && HasCell(sch, day, slot)
    requires Symmetric(g) && Consistent(g, sch)
    requires |sch[day][slot]| < MaxPerSlot
    requires x !in sch[day][slot] && Offered(sch, n, g, day, slot, x)
    ensures Edit(sch, snaps, g, day, slot, sch[day][slot] + [x]).accepted
  {
    var cell := sch[day][slot];
    assert CellOk(g, cell);
    OfferedPairsFree(g, cell, x);
    OfferedSize(cell, x);
    OfferedUnscheduled(sch, n, g, day, slot, x);
  }

}
