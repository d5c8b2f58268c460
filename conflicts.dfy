/**
  Conflict extraction: from the enrollment sheet and the selected term, the subject
  columns, the pairwise co-enrollment counts and the undirected conflict graph.
*/
module Conflicts {
  import opened Wrappers

  /** The three choices of the term selector. */
  datatype Term = TermIV | TermV | TermVI

  /** The sheet's leading columns that never hold a subject. */
  const LeadingColumns: nat := 4

  function Label(t: Term): string
  {
    match t
    case TermIV => "TERM IV"
    case TermV => "TERM V"
    case TermVI => "TERM VI"
  }

  /** The column-name prefix of the subjects of term `t`: `"{TERM}__"`. */
  function Prefix(t: Term): string
  {
    Label(t) + "__"
  }

  predicate StartsWith(s: string, p: string)
  {
    |p| <= |s| && s[..|p|] == p
  }

  /** `p` occurs in `s` starting at position `k`. */
  predicate OccursAt(s: string, p: string, k: nat)
  {
    k + |p| <= |s| && s[k..k + |p|] == p
  }

  /** `p` occurs somewhere inside `s`. */
  predicate Occurs(s: string, p: string)
  {
    exists k: nat :: k <= |s| && OccursAt(s, p, k)
  }

  /** `p` occurs in a non-empty `s` exactly when it occurs at the front or in the rest. */
  lemma OccursShift(s: string, p: string)
    requires |s| > 0
    ensures Occurs(s, p) <==> OccursAt(s, p, 0) || Occurs(s[1..], p)
  {
    if Occurs(s, p) && !OccursAt(s, p, 0) {
      var k: nat :| k <= |s| && OccursAt(s, p, k);
      assert s[1..][k - 1..k - 1 + |p|] == s[k..k + |p|];
      assert OccursAt(s[1..], p, k - 1);
    }
    if Occurs(s[1..], p) {
      var k: nat :| k <= |s[1..]| && OccursAt(s[1..], p, k);
      assert s[1..][k..k + |p|] == s[k + 1..k + 1 + |p|];
      assert OccursAt(s, p, k + 1);
    }
  }

  /**
    Python's `s.replace(p, '')`: scanning left to right, every non-overlapping
    occurrence of `p` is deleted, not only a leading one.
  */
  function RemoveAll(s: string, p: string): (r: string)
    requires |p| > 0
    ensures |r| <= |s|
    ensures StartsWith(s, p) ==> |r| <= |s| - |p|
    decreases |s|
  {
    if |s| < |p| then s
    else if s[..|p|] == p then RemoveAll(s[|p|..], p)
    else [s[0]] + RemoveAll(s[1..], p)
  }

  /** Deleting the pattern shortens the name exactly when the pattern occurs in it. */
  lemma {:induction false} RemoveAllShortens(s: string, p: string)
    requires |p| > 0
    ensures |RemoveAll(s, p)| < |s| <==> Occurs(s, p)
    decreases |s|
  {
    if |s| >= |p| {
      if s[..|p|] == p {
        assert OccursAt(s, p, 0);
      } else {
        assert s[0..|p|] == s[..|p|];
        OccursShift(s, p);
        RemoveAllShortens(s[1..], p);
      }
    }
  }

  /** Deleting a pattern that does not occur leaves the name as it is. */
  lemma {:induction false} RemoveAllAbsent(s: string, p: string)
    requires |p| > 0 && !Occurs(s, p)
    ensures RemoveAll(s, p) == s
    decreases |s|
  {
    if |s| >= |p| {
      assert !OccursAt(s, p, 0);
      assert s[0..|p|] == s[..|p|];
      assert !Occurs(s[1..], p) by {
        forall k: nat | OccursAt(s[1..], p, k) ensures false {
          assert s[1..][k..k + |p|] == s[k + 1..k + 1 + |p|];
          assert OccursAt(s, p, k + 1);
        }
      }
      RemoveAllAbsent(s[1..], p);
      assert s == [s[0]] + s[1..];
    }
  }

  /** `k` copies of `p`, one after another. */
  function Repeat(p: string, k: nat): string
  {
    if k == 0 then [] else p + Repeat(p, k - 1)
  }

  /** `replace` drops any number of leading copies of the pattern and goes on with the rest. */
  lemma {:induction false} LeadingCopiesDropped(p: string, k: nat, rest: string)
    requires |p| > 0
    ensures RemoveAll(Repeat(p, k) + rest, p) == RemoveAll(rest, p)
  {
    if k == 0 {
      assert Repeat(p, k) + rest == rest;
    } else {
      var tail := Repeat(p, k - 1) + rest;
      RepeatFront(p, k, rest);
      RemoveLeadingCopy(p, tail);
      LeadingCopiesDropped(p, k - 1, rest);
    }
  }

  /**
    A name made of leading copies of the prefix and a `name` that does not
    contain it yields exactly `name`: every copy is deleted, not only the first.
  */
  lemma LeadingCopiesRemoved(p: string, k: nat, name: string)
    requires |p| > 0 && !Occurs(name, p)
    ensures RemoveAll(Repeat(p, k) + name, p) == name
  {
    LeadingCopiesDropped(p, k, name);
    RemoveAllAbsent(name, p);
  }

  /** The first of `k` copies, split off. */
  lemma RepeatFront(p: string, k: nat, rest: string)
    requires k > 0
    ensures Repeat(p, k) + rest == p + (Repeat(p, k - 1) + rest)
  {
  }

  /** One leading copy of the pattern is deleted and the scan goes on after it. */
  lemma RemoveLeadingCopy(p: string, rest: string)
    requires |p| > 0
    ensures RemoveAll(p + rest, p) == RemoveAll(rest, p)
  {
    var s := p + rest;
    assert s[..|p|] == p && s[|p|..] == rest;
  }

  /**
    A column `"{TERM}__name"` whose `name` does not itself contain the prefix
    yields the subject `name`.
  */
  lemma StripPrefix(s: string, p: string)
    requires |p| > 0 && StartsWith(s, p) && !Occurs(s[|p|..], p)
    ensures RemoveAll(s, p) == s[|p|..]
  {
    assert Repeat(p, 1) == p;
    assert s == Repeat(p, 1) + s[|p|..];
    LeadingCopiesRemoved(p, 1, s[|p|..]);
  }

  /** Where `name` does contain the prefix again, that copy is deleted too. */
  lemma RepeatedPrefixRemovedTwice()
    ensures RemoveAll("TERM IV__TERM IV__Math", Prefix(TermIV)) == "Math"
  {
    var p := Prefix(TermIV);
    assert p == "TERM IV__";
    assert Repeat(p, 2) + "Math" == "TERM IV__TERM IV__Math";
    LeadingCopiesRemoved(p, 2, "Math");
  }

  /** Indices, from `from` on, of the columns whose name starts with `p`, left to right. */
  function MatchingFrom(header: seq<string>, p: string, from: nat): (cols: seq<nat>)
    ensures forall k :: 0 <= k < |cols| ==> from <= cols[k] < |header| && StartsWith(header[cols[k]], p)
    ensures forall c :: from <= c < |header| && StartsWith(header[c], p) ==> c in cols
    ensures forall k, m :: 0 <= k < m < |cols| ==> cols[k] < cols[m]
    decreases |header| - from
  {
    if from >= |header| then []
    else if StartsWith(header[from], p) then [from] + MatchingFrom(header, p, from + 1)
    else MatchingFrom(header, p, from + 1)
  }

  /** The columns kept for `term`: past the leading columns, named `"{TERM}__…"`. */
  function TermColumns(header: seq<string>, term: Term): (cols: seq<nat>)
    ensures forall c :: c in cols <==> LeadingColumns <= c < |header| && StartsWith(header[c], Prefix(term))
    ensures forall k, m :: 0 <= k < m < |cols| ==> cols[k] < cols[m]
  {
    MatchingFrom(header, Prefix(term), LeadingColumns)
  }

  /** The subject names: each kept column's name with the prefix deleted. */
  function SubjectNames(header: seq<string>, term: Term): (names: seq<string>)
    ensures |names| == |TermColumns(header, term)|
    ensures forall k :: 0 <= k < |names| ==>
              |names[k]| <= |header[TermColumns(header, term)[k]]| - |Prefix(term)|
  {
    var cols := TermColumns(header, term);
    seq(|cols|, k requires 0 <= k < |cols| => RemoveAll(header[cols[k]], Prefix(term)))
  }

  /** No name appears twice in the list. */
  predicate NoDuplicates(names: seq<string>)
  {
    forall a, b :: 0 <= a < b < |names| ==> names[a] != names[b]
  }

  /** The set of elements of a list. */
  function Elements(l: seq<string>): set<string>
  {
    set x | x in l
  }

  /** Every student row has one cell per column. */
  predicate Rectangular<V>(header: seq<string>, rows: seq<seq<Option<V>>>)
  {
    forall k :: 0 <= k < |rows| ==> |rows[k]| == |header|
  }

  /** Columns `i` and `j` of the row are both present and equal. */
  predicate Shared<V(==)>(row: seq<Option<V>>, i: nat, j: nat)
  {
    i < |row| && j < |row| && row[i].Some? && row[j].Some? && row[i].value == row[j].value
  }

  /** Some student has the two columns both present and equal. */
  predicate CoEnrolled<V(==)>(rows: seq<seq<Option<V>>>, i: nat, j: nat)
  {
    exists r :: r in rows && Shared(r, i, j)
  }

  /** The number of students whose cells `i` and `j` are present and equal. */
  function CoCount<V(==)>(rows: seq<seq<Option<V>>>, i: nat, j: nat): (n: nat)
    ensures n > 0 <==> CoEnrolled(rows, i, j)
  {
    if rows == [] then 0
    else
      assert rows == [rows[0]] + rows[1..];
      (if Shared(rows[0], i, j) then 1 else 0) + CoCount(rows[1..], i, j)
  }

  /** The count does not depend on the order of the two columns. */
  lemma {:induction false} CoCountSymmetric<V>(rows: seq<seq<Option<V>>>, i: nat, j: nat)
    ensures CoCount(rows, i, j) == CoCount(rows, j, i)
  {
    if rows != [] {
      CoCountSymmetric(rows[1..], i, j);
    }
  }

  /** The similarity matrix: one count per ordered pair of kept columns. */
  method SimilarityMatrix<V(==)>(rows: seq<seq<Option<V>>>, cols: seq<nat>) returns (m: seq<seq<nat>>)
    ensures |m| == |cols|
    ensures forall a :: 0 <= a < |m| ==> |m[a]| == |cols|
    ensures forall a, b :: 0 <= a < |cols| && 0 <= b < |cols| ==> m[a][b] == CoCount(rows, cols[a], cols[b])
  {
    m := [];
    var a := 0;
    while a < |cols|
      invariant 0 <= a <= |cols| && |m| == a
      invariant forall x :: 0 <= x < a ==> |m[x]| == |cols|
      invariant forall x, b :: 0 <= x < a && 0 <= b < |cols| ==> m[x][b] == CoCount(rows, cols[x], cols[b])
    {
      var line: seq<nat> := [];
      var b := 0;
      while b < |cols|
        invariant 0 <= b <= |cols| && |line| == b
        invariant forall y :: 0 <= y < b ==> line[y] == CoCount(rows, cols[a], cols[y])
      {
        line := line + [CoCount(rows, cols[a], cols[b])];
        b := b + 1;
      }
      m := m + [line];
      a := a + 1;
    }
  }

  /** The conflict graph: each subject's set of conflicting subjects. */
  type Graph = map<string, set<string>>

  predicate Symmetric(g: Graph)
  {
    forall x, y :: x in g && y in g[x] ==> y in g && x in g[y]
  }

  predicate Irreflexive(g: Graph)
  {
    forall x :: x in g ==> x !in g[x]
  }

  /** `(a, b)`, taken with `a < b`, has already been visited by the pair loop at `(i, j)`. */
  predicate Visited(a: int, b: int, i: int, j: int)
  {
    a < i || (a == i && b < j)
  }

  /** The undirected edge between positions `a` and `b` has been added by the pair loop at `(i, j)`. */
  predicate EdgeAdded(m: seq<seq<nat>>, a: int, b: int, i: int, j: int)
    requires SquareOf(m, |m|) && 0 <= a < |m| && 0 <= b < |m|
  {
    (a < b && m[a][b] > 0 && Visited(a, b, i, j)) || (b < a && m[b][a] > 0 && Visited(b, a, i, j))
  }

  /** Well-formed similarity matrix for `n` subjects. */
  predicate SquareOf(m: seq<seq<nat>>, n: nat)
  {
    |m| == n && forall x :: 0 <= x < |m| ==> |m[x]| == n
  }

  /** After the pair loop reached `(i, j)`, the graph holds exactly the edges added so far. */
  predicate EdgesSoFar(subjects: seq<string>, m: seq<seq<nat>>, g: Graph, i: int, j: int)
    requires SquareOf(m, |subjects|)
  {
    && g.Keys == Elements(subjects)
    && (forall x :: x in g ==> g[x] <= Elements(subjects))
    && forall a, b :: 0 <= a < |subjects| && 0 <= b < |subjects| ==>
         (subjects[b] in g[subjects[a]] <==> EdgeAdded(m, a, b, i, j))
  }

  /** The empty graph over the subjects is where the pair loop starts. */
  lemma NoEdgesYet(subjects: seq<string>, m: seq<seq<nat>>)
    requires SquareOf(m, |subjects|)
    ensures EdgesSoFar(subjects, m, map x | x in subjects :: {}, 0, 0)
  {
  }

  /** Adding nothing keeps `EdgesSoFar` when the pair at `(i, j)` has a zero count. */
  lemma SkipPairStep(subjects: seq<string>, m: seq<seq<nat>>, g: Graph, i: int, j: int, j': int)
    requires SquareOf(m, |subjects|)
    requires 0 <= i < j < |subjects| && m[i][j] == 0 && j' == j + 1
    requires EdgesSoFar(subjects, m, g, i, j)
    ensures EdgesSoFar(subjects, m, g, i, j')
  {
    forall a, b | 0 <= a < |subjects| && 0 <= b < |subjects|
      ensures EdgeAdded(m, a, b, i, j) == EdgeAdded(m, a, b, i, j')
    {
    }
  }

  /** Joining the pair at `(i, j)` in both directions keeps `EdgesSoFar`. */
  lemma AddPairStep(subjects: seq<string>, m: seq<seq<nat>>, g: Graph, g1: Graph, g': Graph, i: int, j: int, j': int)
    requires SquareOf(m, |subjects|) && NoDuplicates(subjects)
    requires 0 <= i < j < |subjects| && m[i][j] > 0 && j' == j + 1
    requires EdgesSoFar(subjects, m, g, i, j)
    requires g1 == g[subjects[i] := g[subjects[i]] + {subjects[j]}]
    requires g' == g1[subjects[j] := g1[subjects[j]] + {subjects[i]}]
    ensures EdgesSoFar(subjects, m, g', i, j')
  {
    forall a | 0 <= a < |subjects|
      ensures forall b :: 0 <= b < |subjects| ==> (subjects[b] in g'[subjects[a]] <==> EdgeAdded(m, a, b, i, j'))
    {
      AddPairRow(subjects, m, g, g1, g', i, j, j', a);
    }
  }

  /** The neighbours of the subject at position `a` after the pair at `(i, j)` is joined. */
  lemma AddPairRow(subjects: seq<string>, m: seq<seq<nat>>, g: Graph, g1: Graph, g': Graph, i: int, j: int, j': int, a: int)
    requires SquareOf(m, |subjects|) && NoDuplicates(subjects)
    requires 0 <= i < j < |subjects| && m[i][j] > 0 && j' == j + 1 && 0 <= a < |subjects|
    requires EdgesSoFar(subjects, m, g, i, j)
    requires g1 == g[subjects[i] := g[subjects[i]] + {subjects[j]}]
    requires g' == g1[subjects[j] := g1[subjects[j]] + {subjects[i]}]
    ensures forall b :: 0 <= b < |subjects| ==> (subjects[b] in g'[subjects[a]] <==> EdgeAdded(m, a, b, i, j'))
  {
    var s1, s2 := subjects[i], subjects[j];
    if a == i {
      assert g'[subjects[a]] == g[s1] + {s2};
    } else if a == j {
      assert g'[subjects[a]] == g[s2] + {s1};
    } else {
      assert subjects[a] != s1 && subjects[a] != s2;
      assert g'[subjects[a]] == g[subjects[a]];
    }
  }

  /** Before the inner loop of row `i` starts, nothing of row `i` has been added. */
  lemma StartRow(subjects: seq<string>, m: seq<seq<nat>>, g: Graph, i: int, j: int)
    requires SquareOf(m, |subjects|)
    requires 0 <= i < |subjects| && j == i + 1
    requires EdgesSoFar(subjects, m, g, i, 0)
    ensures EdgesSoFar(subjects, m, g, i, j)
  {
    forall a, b | 0 <= a < |subjects| && 0 <= b < |subjects|
      ensures EdgeAdded(m, a, b, i, 0) == EdgeAdded(m, a, b, i, j)
    {
    }
  }

  /** Moving the inner loop from one row to the next keeps `EdgesSoFar`. */
  lemma NextRow(subjects: seq<string>, m: seq<seq<nat>>, g: Graph, i: int, j: int)
    requires SquareOf(m, |subjects|)
    requires 0 <= i < |subjects| && j == |subjects|
    requires EdgesSoFar(subjects, m, g, i, j)
    ensures EdgesSoFar(subjects, m, g, i + 1, 0)
  {
    forall a, b | 0 <= a < |subjects| && 0 <= b < |subjects|
      ensures EdgeAdded(m, a, b, i, j) == EdgeAdded(m, a, b, i + 1, 0)
    {
    }
  }

  /** When the pair loop is done, the graph holds an edge for every pair with a positive count. */
  lemma AllPairsVisited(subjects: seq<string>, m: seq<seq<nat>>, g: Graph, i: int)
    requires SquareOf(m, |subjects|) && i == |subjects|
    requires EdgesSoFar(subjects, m, g, i, 0)
    ensures forall a, b :: 0 <= a < |subjects| && 0 <= b < |subjects| ==>
      (subjects[b] in g[subjects[a]] <==> (a < b && m[a][b] > 0) || (b < a && m[b][a] > 0))
  {
  }

  /** One pass of the outer loop: the pairs (i, j) with j > i, in column order. */
  method AddRowEdges(subjects: seq<string>, m: seq<seq<nat>>, g0: Graph, i: nat) returns (g: Graph)
    requires SquareOf(m, |subjects|) && NoDuplicates(subjects) && i < |subjects|
    requires EdgesSoFar(subjects, m, g0, i, 0)
    ensures EdgesSoFar(subjects, m, g, i + 1, 0)
  {
    var n := |subjects|;
    g := g0;
    var j := i + 1;
    StartRow(subjects, m, g, i, j);
    while j < n
      invariant i + 1 <= j <= n
      invariant EdgesSoFar(subjects, m, g, i, j)
    {
      var s1, s2 := subjects[i], subjects[j];
      ghost var g0, j0 := g, j;
      if m[i][j] > 0 {
        g := g[s1 := g[s1] + {s2}];
        ghost var g1 := g;
        g := g[s2 := g[s2] + {s1}];
        j := j + 1;
        AddPairStep(subjects, m, g0, g1, g, i, j0, j);
      } else {
        j := j + 1;
        SkipPairStep(subjects, m, g, i, j0, j);
      }
    }
    NextRow(subjects, m, g, i, j);
  }

  /**
    Graph construction: every subject gets an entry; each pair `i < j` with a
    positive count is joined in both directions.
  */
  method BuildConflictGraph(subjects: seq<string>, m: seq<seq<nat>>) returns (g: Graph)
    requires SquareOf(m, |subjects|)
    requires NoDuplicates(subjects)
    ensures g.Keys == Elements(subjects)
    ensures forall x :: x in g ==> g[x] <= Elements(subjects)
    ensures forall a, b :: 0 <= a < |subjects| && 0 <= b < |subjects| ==>
      (subjects[b] in g[subjects[a]] <==> (a < b && m[a][b] > 0) || (b < a && m[b][a] > 0))
  {
    var n := |subjects|;
    g := map x | x in subjects :: {};
    NoEdgesYet(subjects, m);
    var i := 0;
    while i < n
      invariant 0 <= i <= n
      invariant EdgesSoFar(subjects, m, g, i, 0)
    {
      g := AddRowEdges(subjects, m, g, i);
      i := i + 1;
    }
    AllPairsVisited(subjects, m, g, i);
  }

  /**
    What the extracted graph is: one entry per subject, and subjects at kept
    columns `a` and `b` conflict exactly when they are different and some
    student has both cells present and equal.
  */
  predicate IsConflictGraph<V(==)>(subjects: seq<string>, cols: seq<nat>, rows: seq<seq<Option<V>>>, g: Graph)
    requires |cols| == |subjects|
  {
    && g.Keys == Elements(subjects)
    && (forall x :: x in g ==> g[x] <= Elements(subjects))
    && forall a, b :: 0 <= a < |subjects| && 0 <= b < |subjects| ==>
         (subjects[b] in g[subjects[a]] <==> a != b && CoEnrolled(rows, cols[a], cols[b]))
  }

  /** Extraction is deterministic: the description above fixes the graph. */
  lemma ConflictGraphUnique<V>(subjects: seq<string>, cols: seq<nat>, rows: seq<seq<Option<V>>>, g1: Graph, g2: Graph)
    requires |cols| == |subjects|
    requires IsConflictGraph(subjects, cols, rows, g1) && IsConflictGraph(subjects, cols, rows, g2)
    ensures g1 == g2
  {
    forall x | x in g1 ensures g1[x] == g2[x] {
      var a :| 0 <= a < |subjects| && subjects[a] == x;
      forall y ensures y in g1[x] <==> y in g2[x] {
        if y in g1[x] || y in g2[x] {
          var b :| 0 <= b < |subjects| && subjects[b] == y;
        }
      }
    }
  }

  /** A conflict graph of distinct subjects is symmetric and has no self-loops. */
  lemma ConflictGraphShape<V>(subjects: seq<string>, cols: seq<nat>, rows: seq<seq<Option<V>>>, g: Graph)
    requires |cols| == |subjects| && NoDuplicates(subjects)
    requires IsConflictGraph(subjects, cols, rows, g)
    ensures Symmetric(g) && Irreflexive(g)
  {
    forall x, y | x in g && y in g[x] ensures y in g && x in g[y] {
      var a :| 0 <= a < |subjects| && subjects[a] == x;
      var b :| 0 <= b < |subjects| && subjects[b] == y;
      var r :| r in rows && Shared(r, cols[a], cols[b]);
      assert Shared(r, cols[b], cols[a]);
    }
    forall x | x in g ensures x !in g[x] {
      var a :| 0 <= a < |subjects| && subjects[a] == x;
    }
  }

  /**
    The whole extractor: choose the term's columns, count co-enrollments for
    every ordered pair, then build the graph.
  */
  method ExtractConflicts<V(==)>(header: seq<string>, rows: seq<seq<Option<V>>>, term: Term)
    returns (subjects: seq<string>, g: Graph)
    requires Rectangular(header, rows)
    requires NoDuplicates(SubjectNames(header, term))
    ensures subjects == SubjectNames(header, term)
    ensures IsConflictGraph(subjects, TermColumns(header, term), rows, g)
    ensures Symmetric(g) && Irreflexive(g)
    ensures TermColumns(header, term) == [] ==> subjects == [] && g == map[]
  {
    var cols := TermColumns(header, term);
    subjects := SubjectNames(header, term);
    var m := SimilarityMatrix(rows, cols);
    g := BuildConflictGraph(subjects, m);
    forall a, b | 0 <= a < |subjects| && 0 <= b < |subjects|
      ensures subjects[b] in g[subjects[a]] <==> a != b && CoEnrolled(rows, cols[a], cols[b])
    {
      CoCountSymmetric(rows, cols[a], cols[b]);
    }
    ConflictGraphShape(subjects, cols, rows, g);
  }
}
