# Exam scheduler core, modelled in Dafny

The original program is a Streamlit exam scheduler (`new_code.py`). It reads an
enrollment sheet. Each student row has four leading columns, then one column per
subject, named `"{TERM}__{subject}"`. For the selected term, the program:

1. keeps that term's columns and strips the prefix from their names;
2. counts, for every ordered pair of subjects, the students whose two cells are
   both present and equal (the similarity matrix);
3. turns the positive counts into an undirected conflict graph.

The user then fills a grid of days × 3 slots with subjects. An edit to a cell is
validated before it is stored:

- the proposal is de-duplicated;
- no two of its subjects may conflict;
- it may hold at most five subjects;
- none of them may already be scheduled in another cell.

A rejected edit puts the cell back to its last valid contents, or to empty when
there are none. An accepted edit stores the list in the cell and in the cell's
snapshot. The day count (1..10) can change; a change replaces the grid with an
empty one.

Each render pass does three things:

- makes sure every cell of days 1..N exists;
- refreshes every cell's snapshot;
- offers each cell a sorted option list: its own subjects, plus the subjects
  that are scheduled nowhere and conflict with nothing in the cell.

The model is split into four modules:

- `Conflicts` (`conflicts.dfy`): column selection, prefix removal with Python's
  `str.replace` semantics, co-enrollment counts, the similarity matrix and the
  graph construction loop. The construction is proved to produce exactly the
  conflict graph: symmetric, without self-loops, and unique.
- `Timetable` (`timetable.dfy`): the grid and snapshot types, and the edit as a
  pure function `Edit`. The grid invariants are `Synced` (every snapshot in step
  with its cell) and `Consistent` (every cell conflict-free, de-duplicated and at
  most five long, and no subject in two cells). This module also holds the
  render sweep and the option-filter predicate, with lemmas relating them.
- `Ordering` (`ordering.dfy`): Python's string order, and a sort proved sorted,
  a permutation and unique.
- `Scheduler` (`scheduler.dfy`): the session as a class with fields `numDays`,
  `schedule` and `lastValid`. Its methods (the edit callback, the day-count
  callback, reset, render pass and option list) are loops proved against the
  functions above.

The conflict graph is a parameter of the session's methods; the session does
not store it. A cell value is a `seq<string>`. The sheet is a header plus rows of
optional cells (`Option<V>`, with `None` for an empty cell).

## Model

| member | source | states |
|---|---|---|
| Conflicts.TermColumns | new_code.py:20-22 | a column is kept exactly when it lies past the first four and its name starts with `"{TERM}__"`; the kept columns stay in sheet order |
| Conflicts.RemoveAll | new_code.py:24 | deleting the prefix never lengthens a name, and a name that starts with the prefix loses at least the prefix's length |
| Conflicts.RemoveAllShortens | new_code.py:24 | deleting the prefix shortens a name exactly when the prefix occurs somewhere in it |
| Conflicts.RemoveAllAbsent | new_code.py:24 | deleting every occurrence of a pattern that does not occur leaves the name unchanged |
| Conflicts.StripPrefix | new_code.py:24 | a column `"{TERM}__name"` whose `name` does not contain the prefix yields exactly `name` |
| Conflicts.LeadingCopiesDropped | new_code.py:24 | any number of leading copies of the prefix are all deleted, and the rest is processed as if they were not there |
| Conflicts.LeadingCopiesRemoved | new_code.py:24 | a column made of k copies of the prefix followed by a prefix-free `name` yields exactly `name`, for every k |
| Conflicts.RepeatedPrefixRemovedTwice | new_code.py:24 | `replace` deletes every occurrence, so `"TERM IV__TERM IV__Math"` yields `"Math"` and not `"TERM IV__Math"` |
| Conflicts.SubjectNames | new_code.py:22-24 | one name per kept column, each shorter than its column's name by at least the prefix's length |
| Conflicts.CoCount | new_code.py:30-31 | a pair's count is positive exactly when some student has both cells present and equal |
| Conflicts.CoCountSymmetric | new_code.py:30-31 | the count of (i, j) equals the count of (j, i) |
| Conflicts.SimilarityMatrix | new_code.py:26-31 | the matrix is square over the kept columns, and entry (a, b) is the co-enrollment count of columns a and b |
| Conflicts.AddRowEdges | new_code.py:43-48 | one pass of the inner loop over j > i adds the edges of row i: afterwards every pair (a, b) with a ≤ i is joined exactly when its count is positive |
| Conflicts.BuildConflictGraph | new_code.py:38-48 | one entry per subject, every neighbour is a subject, and subjects a ≠ b are joined exactly when the matrix entry of the pair (smaller index first) is positive |
| Conflicts.ConflictGraphUnique | new_code.py:38-48 | two graphs that both meet the conflict-graph description are equal |
| Conflicts.ConflictGraphShape | new_code.py:47-48 | a conflict graph of distinct subjects is symmetric and has no self-loops |
| Conflicts.ExtractConflicts | new_code.py:20-48 | the subjects are the stripped names of the term's columns; the graph is the conflict graph of the sheet (joined iff distinct and co-enrolled); it is symmetric and irreflexive; a term without columns gives no subjects and an empty graph |
| Timetable.Distinct | new_code.py:61 | the de-duplicated list has no repetitions and the same elements as the proposal |
| Timetable.DistinctSize | new_code.py:61 | the de-duplicated list is exactly as long as the number of distinct subjects proposed |
| Timetable.Edit | new_code.py:58-93 | the edit is accepted iff no two distinct proposed subjects conflict, at most five distinct subjects are proposed, and none is scheduled in another cell; on acceptance the cell and its snapshot hold the de-duplicated list; on rejection the cell becomes its snapshot (or empty) and the snapshots stay; no other cell or snapshot changes |
| Timetable.RejectedEditChangesNothing | new_code.py:58-93 | with snapshots in step with the cells, a rejected edit leaves grid and snapshots exactly as they were |
| Timetable.EditKeepsSynced | new_code.py:68-93 | an edit keeps every snapshot in step with its cell |
| Timetable.EditPreservesConsistency | new_code.py:58-93 | an edit keeps every cell conflict-free, de-duplicated and at most five long, and keeps every subject in at most one cell |
| Timetable.EmptyGrid | new_code.py:54-56 | the grid has exactly days 1..N, each with exactly slots 1..3, and every cell is empty |
| Timetable.EmptyGridConsistent | new_code.py:53-56 | the empty grid meets the grid invariants |
| Timetable.ElsewhereMember | new_code.py:77-83 | a subject is scheduled elsewhere exactly when it is in some cell of the grid other than (day, slot) |
| Timetable.ScheduledMember | new_code.py:143-147 | a subject counts as scheduled exactly when it is in some existing cell of days 1..N |
| Timetable.ElsewhereWithinScheduled | new_code.py:77-83 | on a grid of days 1..N, what the validator counts as scheduled elsewhere is contained in what the render pass counts as scheduled |
| Timetable.FillCell | new_code.py:154-156 | afterwards the cell exists and holds its old list, or `[]` when it was missing; every other existing cell keeps its list |
| Timetable.FillPresentCell | new_code.py:154-156 | making an existing cell present changes nothing |
| Timetable.Sweep | new_code.py:149-160 | the render pass never deletes a snapshot, so snapshots of cells outside days 1..N survive it |
| Timetable.SweepKeepsCells | new_code.py:149-160 | the render pass keeps every existing cell and its list |
| Timetable.SweepRefreshesGrid | new_code.py:149-160 | after the render pass every cell of days 1..N exists and its snapshot equals its list |
| Timetable.SweepShapedGrid | new_code.py:153-156 | on a grid of days 1..N with slots 1..3, the render pass changes no cell |
| Timetable.RenderSyncs | new_code.py:149-160 | on such a grid, the render pass leaves the grid as it is and every cell in step with its snapshot |
| Timetable.ConflictingWith | new_code.py:162-164 | a subject is in the set exactly when it is a neighbour of some subject of the cell |
| Timetable.OfferedPairsFree | new_code.py:166-172 | with a symmetric graph, adding an offered subject to a valid cell creates no conflicting pair |
| Timetable.OfferedSize | new_code.py:166-172 | adding a new subject to a cell with fewer than five keeps it within five |
| Timetable.OfferedUnscheduled | new_code.py:170-171 | on a consistent grid, neither the cell's subjects nor an unscheduled newcomer is scheduled elsewhere |
| Timetable.OfferedSubjectAccepted | new_code.py:162-172 | on a consistent grid with a symmetric graph, adding one offered subject to a cell with room is an edit the validator accepts |
| Ordering.LexLeqTotal | new_code.py:174 | any two names are ordered one way or the other |
| Ordering.LexLeqTransitive | new_code.py:174 | the string order is transitive |
| Ordering.LexLeqAntisymmetric | new_code.py:174 | names ordered both ways are equal |
| Ordering.Insert | new_code.py:174 | inserting into a sorted list gives a sorted list with one more copy of the element |
| Ordering.Sort | new_code.py:174 | the result is sorted and a permutation of the input |
| Ordering.SortedPermutationUnique | new_code.py:174 | two sorted permutations of the same list are equal, so the sorted option list is fully determined |
| Scheduler.HasConflictingPair | new_code.py:63-69 | the pair scan reports a clash exactly when some two entries of the list conflict |
| Scheduler.FilterOptions | new_code.py:162-174 | the options are sorted, and each candidate appears as often as in the candidate list when it is in the cell or is unscheduled and conflict-free with the cell, and otherwise not at all |
| Scheduler.Session.constructor | new_code.py:50-56 | a new session has five days, an empty grid of those days and no snapshots |
| Scheduler.Session.Reset | new_code.py:104-112 | the grid becomes the empty grid of days 1..N; exactly the snapshots of those cells are deleted and every other snapshot is kept |
| Scheduler.Session.UpdateNumDays | new_code.py:95-102 | the same count changes nothing; a different count sets the count and resets the grid and those snapshots |
| Scheduler.Session.CollectScheduledElsewhere | new_code.py:77-83 | the scan returns the subjects of every cell other than (day, slot), on every day of the grid |
| Scheduler.Session.Validate | new_code.py:61-88 | the three checks pass iff the list is conflict-free, at most five long, and shares no subject with another cell |
| Scheduler.Session.ProposeEdit | new_code.py:58-93 | the callback's outcome is `Edit` of the old state; it keeps the session valid; a rejection changes nothing; it preserves `Consistent` |
| Scheduler.Session.CollectScheduled | new_code.py:143-147 | the scan returns the subjects of every cell of days 1..N |
| Scheduler.Session.CellOptions | new_code.py:162-174 | the options are sorted; each candidate appears as often as in the candidate list when the filter offers it and otherwise not at all; every candidate already in the cell is offered |
| Scheduler.Session.RenderCell | new_code.py:153-160 | a missing cell (and day) is created empty; the cell's snapshot becomes its list |
| Scheduler.Session.Render | new_code.py:149-160 | existing cells keep their lists; every cell of days 1..N exists with its snapshot equal to its list; on a valid session the grid does not change and the session stays valid |

## Left out

- The user interface (titles, columns, widgets, `st.dataframe`, `st.rerun`) and
  the spreadsheet upload and parsing. The sheet is given as a header and rows of
  optional cells.
- pandas value semantics. A cell is `Some(v)` or `None`, and `==` on `V` stands
  for pandas' element comparison; NaN, type coercion and the
  `to_numeric`/`fillna` pass over the counts are not modelled, since the counts
  are already whole numbers.
- Conflicts.ExtractConflicts: requires distinct subject names after prefix
  removal. With repeated names pandas' label lookups return frames, not
  numbers, and the program does not reach a graph.
- Timetable.Distinct: `list(set(l))` leaves the order to Python's set
  iteration. The model keeps each subject's last occurrence, so only the
  elements and the absence of repetitions are claimed, not the order.
- The term selector's effect on an existing session: changing the term
  rebuilds the graph but keeps the grid. The graph is a parameter here, so
  `Consistent` is stated for one given graph.
- Scheduler.Session.Reset: only the snapshots of days 1..N (the new count) are
  deleted. Snapshots of days beyond a shrunken range survive, as the code
  does; a full reset of every snapshot is not claimed.
- Conflicts.RemoveAll: Python's `str.replace` deletes every occurrence of the
  prefix, not only a leading one. The model follows the code.
- The day count's bounds 1..10 are enforced by the input widget. They appear
  as preconditions: `1 <= n <= MaxDays` on `UpdateNumDays`,
  `1 <= numDays <= MaxDays` on `Reset`, and `1 <= numDays` on `Render`.
- The validator's reading of the widget's value from session state, and the
  render pass's widget keys, are taken as method parameters.
