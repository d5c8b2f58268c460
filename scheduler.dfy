/**
  The session state of the scheduler and the callbacks that change it: the
  edit validator, the day-count control, the reset, the render pass that
  refreshes the snapshots, and the option filter shown beside each cell.
*/
module Scheduler {
  import opened Conflicts
  import opened Timetable
  import Ordering

  /** The validator's pair scan: some two entries of `l` conflict. */
  method HasConflictingPair(g: Graph, l: seq<string>) returns (found: bool)
    ensures found <==> !ConflictFree(g, l)
  {
    var i := 0;
    while i < |l|
      invariant 0 <= i <= |l|
      invariant forall a, b :: 0 <= a < i && a < b < |l| ==> !Adjacent(g, l[a], l[b])
    {
      var j := i + 1;
      while j < |l|
        invariant i + 1 <= j <= |l|
        invariant forall b :: i < b < j ==> !Adjacent(g, l[i], l[b])
      {
        var s1, s2 := l[i], l[j];
        if s1 in NeighboursOf(g, s2) || s2 in NeighboursOf(g, s1) {
          return true;
        }
        j := j + 1;
      }
      i := i + 1;
    }
    return false;
  }

  /** Some element of a non-empty set: the next key of a dictionary iteration. */
  method Pick(keys: set<int>) returns (k: int)
    requires keys != {}
    ensures k in keys
  {
    NonEmptyHasElement(keys);
    k :| k in keys;
  }

  lemma NonEmptyHasElement(keys: set<int>)
    requires keys != {}
    ensures exists k :: k in keys
  {
    if forall k :: k !in keys {
      assert false;
    }
  }

  /**
    The option list of a cell: every candidate of `all` (repetitions kept) that
    is in the cell, or is scheduled nowhere and conflicts with nothing in the
    cell; sorted.
  */
  method FilterOptions(cell: seq<string>, all: seq<string>, scheduled: set<string>, g: Graph) returns (opts: seq<string>)
    ensures Ordering.Sorted(opts)
    ensures forall x ::
              multiset(opts)[x] == if x in cell || (x !in scheduled && x !in ConflictingWith(g, cell)) then multiset(all)[x] else 0
  {
    var conflicting: set<string> := {};
    var k := 0;
    while k < |cell|
      invariant 0 <= k <= |cell|
      invariant conflicting == ConflictingWith(g, cell[..k])
    {
      assert cell[..k + 1][..k] == cell[..k];
      conflicting := conflicting + NeighboursOf(g, cell[k]);
      k := k + 1;
    }
    assert cell[..|cell|] == cell;
    var kept: seq<string> := [];
    var t := 0;
    while t < |all|
      invariant 0 <= t <= |all|
      invariant forall x ::
                  multiset(kept)[x] == if x in cell || (x !in scheduled && x !in conflicting) then multiset(all[..t])[x] else 0
    {
      assert all[..t + 1] == all[..t] + [all[t]];
      var x := all[t];
      if x in cell || (x !in scheduled && x !in conflicting) {
        kept := kept + [x];
      }
      t := t + 1;
    }
    assert all[..|all|] == all;
    opts := Ordering.Sort(kept);
  }

  /** The session: the day count, the grid and the per-cell snapshots. */
  class Session {
    var numDays: int
    var schedule: Schedule
    var lastValid: Snapshots

    /** Days 1..numDays with slots 1..3, and every snapshot in step with its cell. */
    ghost predicate Valid()
      reads this
    {
      1 <= numDays <= MaxDays && Shape(schedule, numDays) && Synced(schedule, lastValid)
    }

    /** A fresh session: five days of empty cells and no snapshots. */
    constructor ()
      ensures Valid()
      ensures numDays == DefaultDays && schedule == EmptyGrid(DefaultDays) && lastValid == map[]
    {
      numDays := DefaultDays;
      schedule := EmptyGrid(DefaultDays);
      lastValid := map[];
    }

    /** A new empty grid for days 1..numDays; the snapshots of exactly those cells are deleted. */
    method Reset()
      requires 1 <= numDays <= MaxDays
      modifies this
      ensures Valid()
      ensures numDays == old(numDays) && schedule == EmptyGrid(numDays)
      ensures lastValid == old(lastValid) - GridCells(numDays)
    {
      schedule := EmptyGrid(numDays);
      var day := 1;
      while day <= numDays
        invariant 1 <= day <= numDays + 1
        invariant numDays == old(numDays) && schedule == EmptyGrid(numDays)
        invariant forall k :: k in lastValid <==> k in old(lastValid) && !Cleared(k, day, 1)
        invariant forall k :: k in lastValid ==> lastValid[k] == old(lastValid)[k]
      {
        var slot := 1;
        while slot <= SlotsPerDay
          invariant 1 <= slot <= SlotsPerDay + 1
          invariant 1 <= day <= numDays
          invariant numDays == old(numDays) && schedule == EmptyGrid(numDays)
          invariant forall k :: k in lastValid <==> k in old(lastValid) && !Cleared(k, day, slot)
          invariant forall k :: k in lastValid ==> lastValid[k] == old(lastValid)[k]
        {
          if (day, slot) in lastValid {
            lastValid := lastValid - {(day, slot)};
          }
          slot := slot + 1;
        }
        day := day + 1;
      }
      assert lastValid == old(lastValid) - GridCells(numDays);
    }

    /** The day-count control: a different count replaces the grid by an empty one. */
    method UpdateNumDays(n: int)
      requires Valid() && 1 <= n <= MaxDays
      modifies this
      ensures Valid()
      ensures n == old(numDays) ==> numDays == old(numDays) && schedule == old(schedule) && lastValid == old(lastValid)
      ensures n != old(numDays) ==> numDays == n && schedule == EmptyGrid(n) && lastValid == old(lastValid) - GridCells(n)
    {
      if n != numDays {
        numDays := n;
        Reset();
      }
    }
  
    /** The validator's scan of every other cell, over all days of the grid. */
    method CollectScheduledElsewhere(day: int, slot: int) returns (others: set<string>)
      ensures others == ScheduledElsewhere(schedule, day, slot)
    {
      var except := {(day, slot)};
      others := {};
      var days := schedule.Keys;
      while days != {}
        invariant days <= schedule.Keys
        invariant others == SubjectsIn(schedule, schedule.Keys - days, except)
        decreases days
      {
        var d := Pick(days);
        var row := schedule[d];
        var slots := row.Keys;
        while slots != {}
          invariant slots <= row.Keys
          invariant others == SubjectsIn(schedule, schedule.Keys - days, except) + RowSubjects(schedule, d, row.Keys - slots, except)
          decreases slots
        {
          var s := Pick(slots);
          RowSubjectsAddSlot(schedule, d, row.Keys - slots, s, except);
          if !(d == day && s == slot) {
            others := others + Elements(row[s]);
          }
          assert row.Keys - (slots - {s}) == (row.Keys - slots) + {s};
          slots := slots - {s};
        }
        SubjectsInAddDay(schedule, schedule.Keys - days, d, except);
        assert schedule.Keys - (days - {d}) == (schedule.Keys - days) + {d};
        days := days - {d};
      }
    }

    /**
      The validator's three tests of the de-duplicated list `l`, in the
      source's order: a conflicting pair, more than five subjects, a subject
      already scheduled in another cell.
    */
    method Validate(day: int, slot: int, l: seq<string>, g: Graph) returns (ok: bool)
      ensures ok <==> ConflictFree(g, l) && |l| <= MaxPerSlot && forall x :: x in l ==> x !in ScheduledElsewhere(schedule, day, slot)
    {
      var clash := HasConflictingPair(g, l);
      if clash || |l| > MaxPerSlot {
        return false;
      }
      var others := CollectScheduledElsewhere(day, slot);
      var k := 0;
      while k < |l|
        invariant 0 <= k <= |l|
        invariant forall t :: 0 <= t < k ==> l[t] !in others
      {
        if l[k] in others {
          return false;
        }
        k := k + 1;
      }
      return true;
    }

    /**
      The edit callback of cell (day, slot): de-duplicate the proposal and
      validate it. Rejection puts the cell back to its snapshot (or to empty);
      acceptance stores the list in the cell and in its snapshot.
    */
    method ProposeEdit(day: int, slot: int, proposed: seq<string>, g: Graph) returns (accepted: bool)
      requires Valid() && HasCell(schedule, day, slot)
      modifies this
      ensures Valid() && numDays == old(numDays)
      ensures var o := Edit(old(schedule), old(lastValid), g, day, slot, proposed);
        accepted == o.accepted && schedule == o.schedule && lastValid == o.snapshots
      ensures !accepted ==> schedule == old(schedule) && lastValid == old(lastValid)
      ensures Consistent(g, old(schedule)) ==> Consistent(g, schedule)
    {
      ghost var sch, snaps := schedule, lastValid;
      var l := Distinct(proposed);
      accepted := Validate(day, slot, l, g);
      if accepted {
        schedule := schedule[day := schedule[day][slot := l]];
        lastValid := lastValid[(day, slot) := l];
      } else {
        schedule := schedule[day := schedule[day][slot := SnapshotOr(lastValid, day, slot)]];
      }
      assert Edit(sch, snaps, g, day, slot, proposed) == EditOutcome(accepted, schedule, lastValid);
      EditKeepsSynced(sch, snaps, g, day, slot, proposed);
      if Consistent(g, sch) {
        EditPreservesConsistency(sch, snaps, g, day, slot, proposed);
      }
      if !accepted {
        RejectedEditChangesNothing(sch, snaps, g, day, slot, proposed);
      }
    }
    /** The subjects the render pass counts as taken: those in any cell of days 1..numDays. */
    method CollectScheduled() returns (all: set<string>)
      ensures all == Scheduled(schedule, numDays)
    {
      all := {};
      var d := 1;
      while d <= numDays
        invariant 1 <= d <= if numDays < 1 then 1 else numDays + 1
        invariant all == SubjectsIn(schedule, Days(d - 1), {})
      {
        if d in schedule {
          var row := schedule[d];
          var slots := row.Keys;
          ghost var before := all;
          while slots != {}
            invariant slots <= row.Keys
            invariant all == before + RowSubjects(schedule, d, row.Keys - slots, {})
            decreases slots
          {
            var s := Pick(slots);
            RowSubjectsAddSlot(schedule, d, row.Keys - slots, s, {});
            all := all + Elements(row[s]);
            assert row.Keys - (slots - {s}) == (row.Keys - slots) + {s};
            slots := slots - {s};
          }
          assert row.Keys - slots == row.Keys;
          SubjectsInAddDay(schedule, Days(d - 1), d, {});
        } else {
          SubjectsInAddMissingDay(schedule, Days(d - 1), d, {});
        }
        assert Days(d) == Days(d - 1) + {d};
        d := d + 1;
      }
      assert Days(d - 1) == Days(numDays);
    }

    /**
      The options shown beside cell (day, slot): the candidates the filter
      offers, with their repetitions, in sorted order.
    */
    method CellOptions(day: int, slot: int, all: seq<string>, g: Graph) returns (opts: seq<string>)
      requires HasCell(schedule, day, slot)
      ensures Ordering.Sorted(opts)
      ensures forall x :: multiset(opts)[x] == if Offered(schedule, numDays, g, day, slot, x) then multiset(all)[x] else 0
      ensures forall x :: x in schedule[day][slot] && x in all ==> x in opts
    {
      var scheduled := CollectScheduled();
      opts := FilterOptions(schedule[day][slot], all, scheduled, g);
    }

    /**
      One cell of the render pass: a missing cell (or day) is created empty,
      and the cell's snapshot is set to the cell's list.
    */
    method RenderCell(day: int, slot: int)
      modifies this
      ensures numDays == old(numDays)
      ensures schedule == FillCell(old(schedule), day, slot)
      ensures lastValid == old(lastValid)[(day, slot) := CellOrEmpty(old(schedule), day, slot)]
    {
      if !(day in schedule && slot in schedule[day]) {
        var row := if day in schedule then schedule[day] else map[];
        schedule := schedule[day := row[slot := []]];
      } else {
        FillPresentCell(schedule, day, slot);
      }
      lastValid := lastValid[(day, slot) := schedule[day][slot]];
    }

    /**
      The render pass over days 1..numDays and slots 1..3: every cell is made
      present and its snapshot refreshed from it. Existing cells keep their
      lists; on a valid session no cell changes and every snapshot is in step.
    */
    method Render()
      requires 1 <= numDays
      modifies this
      ensures numDays == old(numDays)
      ensures (schedule, lastValid) == Sweep(old(schedule), old(lastValid), numDays, 1, 1)
      ensures forall d, s :: HasCell(old(schedule), d, s) ==> HasCell(schedule, d, s) && schedule[d][s] == old(schedule)[d][s]
      ensures forall d, s :: 1 <= d <= numDays && 1 <= s <= SlotsPerDay ==>
        HasCell(schedule, d, s) && SnapshotOr(lastValid, d, s) == schedule[d][s]
      ensures old(Valid()) ==> Valid() && schedule == old(schedule)
    {
      ghost var sch0, snaps0 := schedule, lastValid;
      var day := 1;
      while day <= numDays
        invariant 1 <= day <= numDays + 1 && numDays == old(numDays)
        invariant Sweep(schedule, lastValid, numDays, day, 1) == Sweep(sch0, snaps0, numDays, 1, 1)
      {
        var slot := 1;
        while slot <= SlotsPerDay
          invariant 1 <= slot <= SlotsPerDay + 1 && day <= numDays && numDays == old(numDays)
          invariant Sweep(schedule, lastValid, numDays, day, slot) == Sweep(sch0, snaps0, numDays, 1, 1)
        {
          RenderCell(day, slot);
          slot := slot + 1;
        }
        day := day + 1;
      }
      SweepKeepsCells(sch0, snaps0, numDays, 1, 1);
      SweepRefreshesGrid(sch0, snaps0, numDays, 1, 1);
      if Shape(sch0, numDays) {
        RenderSyncs(sch0, snaps0, numDays);
      }
    }
  }
}
