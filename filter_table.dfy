/** The table engine of the role table: the sort comparator keyed by column (with the
    role column ranked, not alphabetical), the sort-header click rule, the selection
    toggle, the inline role edit and the displayed view, a stably sorted copy of the
    rows. `ProjectTable` holds the four state fields the handlers update. */
module FilterTable {
  import opened Roles
  import Strings

  datatype Row = Row(id: int, name: string, percentage: int, lead: string, role: Role)

  datatype Order = Asc | Desc

  datatype Column = RoleColumn | NameColumn | PercentageColumn | LeadColumn

  /** The six sample rows the table starts with, every one a Vice President. */
  function InitialRows(): seq<Row>
  {
    [ Row(1, "Alice", 60, "Y", VicePresident),
      Row(2, "Eve", 40, "N", VicePresident),
      Row(3, "Charlie", 100, "N", VicePresident),
      Row(4, "David", 70, "Y", VicePresident),
      Row(5, "Olivia", 85, "Y", VicePresident),
      Row(6, "Emma", 90, "N", VicePresident) ]
  }

  function Ids(rows: seq<Row>): seq<int>
  {
    seq(|rows|, i requires 0 <= i < |rows| => rows[i].id)
  }

  /** No value occurs twice. */
  ghost predicate NoDuplicates(s: seq<int>)
  {
    forall x :: multiset(s)[x] <= 1
  }

  lemma InitialRowsFacts()
    ensures |InitialRows()| == 6
    ensures Ids(InitialRows()) == [1, 2, 3, 4, 5, 6]
    ensures NoDuplicates(Ids(InitialRows()))
    ensures forall i :: 0 <= i < 6 ==> InitialRows()[i].role == VicePresident
  {
    var rows := InitialRows();
    var ids := Ids(rows);
    assert ids == [rows[0].id, rows[1].id, rows[2].id, rows[3].id, rows[4].id, rows[5].id];
    assert ids == [1, 2, 3, 4, 5, 6];
    IncreasingNoDuplicates(ids);
  }

  /** A strictly increasing sequence holds no value twice. */
  lemma {:induction false} IncreasingNoDuplicates(s: seq<int>)
    requires forall i, j :: 0 <= i < j < |s| ==> s[i] < s[j]
    ensures NoDuplicates(s)
  {
    if s != [] {
      IncreasingNoDuplicates(s[1..]);
      assert s == [s[0]] + s[1..];
      assert s[0] !in s[1..];
    }
  }

  // ---------------------------------------------------------------------------
  // Comparators

  /** Role comparison by rank. */
  function RoleComparator(a: Row, b: Row): int
  {
    Rank(a.role) - Rank(b.role)
  }

  /** `b[k] < a[k] ? -1 : b[k] > a[k] ? 1 : 0` on text keys `x` (of a) and `y` (of b). */
  function TextDescending(x: string, y: string): int
  {
    if Strings.Less(y, x) then -1 else if Strings.Less(x, y) then 1 else 0
  }

  function DescendingComparator(a: Row, b: Row, orderBy: Column): int
  {
    match orderBy
    case RoleColumn => RoleComparator(b, a)
    case NameColumn => TextDescending(a.name, b.name)
    case PercentageColumn =>
      if b.percentage < a.percentage then -1 else if b.percentage > a.percentage then 1 else 0
    case LeadColumn => TextDescending(a.lead, b.lead)
  }

  /** The comparator the view is sorted with: ascending is the negated descending one. */
  function Comparator(order: Order, orderBy: Column, a: Row, b: Row): int
  {
    if order == Desc then DescendingComparator(a, b, orderBy) else -DescendingComparator(a, b, orderBy)
  }

  /** The two rows agree on the column's key. */
  predicate SameKey(a: Row, b: Row, orderBy: Column)
  {
    match orderBy
    case RoleColumn => a.role == b.role
    case NameColumn => a.name == b.name
    case PercentageColumn => a.percentage == b.percentage
    case LeadColumn => a.lead == b.lead
  }

  /** In ascending order the key of `a` comes strictly before that of `b`: a higher rank
      (smaller number) for roles, numeric order for percentages, string order otherwise. */
  predicate KeyBefore(a: Row, b: Row, orderBy: Column)
  {
    match orderBy
    case RoleColumn => Rank(a.role) < Rank(b.role)
    case NameColumn => Strings.Less(a.name, b.name)
    case PercentageColumn => a.percentage < b.percentage
    case LeadColumn => Strings.Less(a.lead, b.lead)
  }

  /** What the comparator's sign means: zero exactly on equal keys, negative exactly when
      `a` goes first in the chosen direction; and ascending is the exact negation of
      descending, so flipping the direction changes no tie. */
  lemma ComparatorMeaning(order: Order, orderBy: Column, a: Row, b: Row)
    ensures Comparator(order, orderBy, a, b) == 0 <==> SameKey(a, b, orderBy)
    ensures Comparator(order, orderBy, a, b) < 0 <==>
              if order == Asc then KeyBefore(a, b, orderBy) else KeyBefore(b, a, orderBy)
    ensures Comparator(Asc, orderBy, a, b) == -Comparator(Desc, orderBy, a, b)
  {
    match orderBy
    case RoleColumn => RankOrder(a.role, b.role);
    case NameColumn => Strings.LessTrichotomy(a.name, b.name);
    case PercentageColumn =>
    case LeadColumn => Strings.LessTrichotomy(a.lead, b.lead);
  }

  /** `cmp(a, b) == -cmp(b, a)` for every column and direction. */
  lemma ComparatorAntisymmetric(order: Order, orderBy: Column, a: Row, b: Row)
    ensures Comparator(order, orderBy, a, b) == -Comparator(order, orderBy, b, a)
  {
    match orderBy
    case RoleColumn =>
    case NameColumn => Strings.LessTrichotomy(a.name, b.name);
    case PercentageColumn =>
    case LeadColumn => Strings.LessTrichotomy(a.lead, b.lead);
  }

  lemma ComparatorTransitive(order: Order, orderBy: Column, a: Row, b: Row, c: Row)
    requires Comparator(order, orderBy, a, b) <= 0 && Comparator(order, orderBy, b, c) <= 0
    ensures Comparator(order, orderBy, a, c) <= 0
  {
    ComparatorMeaning(order, orderBy, a, b);
    ComparatorMeaning(order, orderBy, b, c);
    ComparatorMeaning(order, orderBy, a, c);
    match orderBy
    case RoleColumn =>
    case NameColumn =>
      Strings.LessTrichotomy(a.name, c.name);
      if Strings.Less(a.name, b.name) && Strings.Less(b.name, c.name) {
        Strings.LessTransitive(a.name, b.name, c.name);
      }
      if Strings.Less(c.name, b.name) && Strings.Less(b.name, a.name) {
        Strings.LessTransitive(c.name, b.name, a.name);
      }
    case PercentageColumn =>
    case LeadColumn =>
      Strings.LessTrichotomy(a.lead, c.lead);
      if Strings.Less(a.lead, b.lead) && Strings.Less(b.lead, c.lead) {
        Strings.LessTransitive(a.lead, b.lead, c.lead);
      }
      if Strings.Less(c.lead, b.lead) && Strings.Less(b.lead, a.lead) {
        Strings.LessTransitive(c.lead, b.lead, a.lead);
      }
  }

  // ---------------------------------------------------------------------------
  // The sorted view

  ghost predicate Sorted(s: seq<Row>, order: Order, orderBy: Column)
  {
    forall i, j :: 0 <= i < j < |s| ==> Comparator(order, orderBy, s[i], s[j]) <= 0
  }

  /** The rows of `s` that tie with `e` on the column, in their order in `s`. */
  function Ties(s: seq<Row>, orderBy: Column, e: Row): seq<Row>
  {
    if s == [] then []
    else (if SameKey(s[0], e, orderBy) then [s[0]] else []) + Ties(s[1..], orderBy, e)
  }

  /** Places `x` before the first row of `t` that does not sort strictly before it. */
  function Insert(x: Row, t: seq<Row>, order: Order, orderBy: Column): seq<Row>
  {
    if t == [] then [x]
    else if Comparator(order, orderBy, x, t[0]) <= 0 then [x] + t
    else [t[0]] + Insert(x, t[1..], order, orderBy)
  }

  lemma {:induction false} InsertPermutes(x: Row, t: seq<Row>, order: Order, orderBy: Column)
    ensures multiset(Insert(x, t, order, orderBy)) == multiset(t) + multiset{x}
  {
    if t == [] {
    } else if Comparator(order, orderBy, x, t[0]) <= 0 {
      assert Insert(x, t, order, orderBy) == [x] + t;
    } else {
      var rest := Insert(x, t[1..], order, orderBy);
      assert Insert(x, t, order, orderBy) == [t[0]] + rest;
      InsertPermutes(x, t[1..], order, orderBy);
      assert t == [t[0]] + t[1..];
      assert multiset([t[0]] + rest) == multiset{t[0]} + multiset(rest);
    }
  }

  /** A row that sorts no later than every row of a sorted sequence can lead it. */
  lemma ConsSorted(h: Row, s: seq<Row>, order: Order, orderBy: Column)
    requires Sorted(s, order, orderBy)
    requires forall y :: y in s ==> Comparator(order, orderBy, h, y) <= 0
    ensures Sorted([h] + s, order, orderBy)
  {
    var r := [h] + s;
    forall i, j | 0 <= i < j < |r| ensures Comparator(order, orderBy, r[i], r[j]) <= 0 {
      if i == 0 {
        assert r[j] == s[j - 1] && s[j - 1] in s;
      } else {
        assert r[i] == s[i - 1] && r[j] == s[j - 1];
      }
    }
  }

  lemma {:induction false} InsertSorted(x: Row, t: seq<Row>, order: Order, orderBy: Column)
    requires Sorted(t, order, orderBy)
    ensures Sorted(Insert(x, t, order, orderBy), order, orderBy)
  {
    if t == [] {
    } else if Comparator(order, orderBy, x, t[0]) <= 0 {
      forall y | y in t ensures Comparator(order, orderBy, x, y) <= 0 {
        var k :| 0 <= k < |t| && t[k] == y;
        if k > 0 {
          ComparatorTransitive(order, orderBy, x, t[0], y);
        }
      }
      ConsSorted(x, t, order, orderBy);
    } else {
      var rest := Insert(x, t[1..], order, orderBy);
      InsertSorted(x, t[1..], order, orderBy);
      InsertPermutes(x, t[1..], order, orderBy);
      ComparatorAntisymmetric(order, orderBy, x, t[0]);
      forall y | y in rest ensures Comparator(order, orderBy, t[0], y) <= 0 {
        assert y in multiset(rest);
        if y != x {
          assert y in multiset(t[1..]);
          var m :| 0 <= m < |t[1..]| && t[1..][m] == y;
          assert t[m + 1] == y;
        }
      }
      ConsSorted(t[0], rest, order, orderBy);
    }
  }

  lemma {:induction false} InsertTies(x: Row, t: seq<Row>, order: Order, orderBy: Column, e: Row)
    ensures Ties(Insert(x, t, order, orderBy), orderBy, e)
         == (if SameKey(x, e, orderBy) then [x] else []) + Ties(t, orderBy, e)
  {
    if t == [] {
    } else if Comparator(order, orderBy, x, t[0]) <= 0 {
      TiesCons(x, t, orderBy, e);
    } else {
      var rest := Insert(x, t[1..], order, orderBy);
      assert Insert(x, t, order, orderBy) == [t[0]] + rest;
      InsertTies(x, t[1..], order, orderBy, e);
      UnequalComparatorKeys(order, orderBy, x, t[0]);
      TiesSwap(x, t[0], rest, t[1..], orderBy, e);
      assert t == [t[0]] + t[1..];
    }
  }

  /** A row `b` whose key differs from that of `a` can pass `a` without changing what
      ties with any row. */
  lemma TiesSwap(a: Row, b: Row, rest: seq<Row>, tail: seq<Row>, orderBy: Column, e: Row)
    requires !SameKey(a, b, orderBy)
    requires Ties(rest, orderBy, e) == (if SameKey(a, e, orderBy) then [a] else []) + Ties(tail, orderBy, e)
    ensures Ties([b] + rest, orderBy, e) == (if SameKey(a, e, orderBy) then [a] else []) + Ties([b] + tail, orderBy, e)
  {
    TiesCons(b, rest, orderBy, e);
    TiesCons(b, tail, orderBy, e);
    if SameKey(a, e, orderBy) {
      TiedPairDisjoint(a, b, e, orderBy);
      assert Ties([b] + rest, orderBy, e) == Ties(rest, orderBy, e);
      assert Ties([b] + tail, orderBy, e) == Ties(tail, orderBy, e);
    } else {
      assert Ties([b] + rest, orderBy, e) == (if SameKey(b, e, orderBy) then [b] else []) + Ties(tail, orderBy, e);
    }
  }

  lemma TiesCons(h: Row, s: seq<Row>, orderBy: Column, e: Row)
    ensures Ties([h] + s, orderBy, e) == (if SameKey(h, e, orderBy) then [h] else []) + Ties(s, orderBy, e)
  {
    assert ([h] + s)[1..] == s;
  }

  /** A non-zero comparison means different keys. */
  lemma UnequalComparatorKeys(order: Order, orderBy: Column, a: Row, b: Row)
    requires Comparator(order, orderBy, a, b) != 0
    ensures !SameKey(a, b, orderBy)
  {
    ComparatorMeaning(order, orderBy, a, b);
  }

  /** Two rows with different keys do not both tie with a third. */
  lemma TiedPairDisjoint(a: Row, b: Row, e: Row, orderBy: Column)
    requires !SameKey(a, b, orderBy)
    ensures !SameKey(a, e, orderBy) || !SameKey(b, e, orderBy)
  {
  }

  /** Inserting `x` into a sequence with the ties of `tail` gives the ties of `x` followed
      by `tail`. */
  lemma InsertKeepsTies(x: Row, t: seq<Row>, tail: seq<Row>, order: Order, orderBy: Column)
    requires forall e :: Ties(t, orderBy, e) == Ties(tail, orderBy, e)
    ensures forall e :: Ties(Insert(x, t, order, orderBy), orderBy, e) == Ties([x] + tail, orderBy, e)
  {
    forall e ensures Ties(Insert(x, t, order, orderBy), orderBy, e) == Ties([x] + tail, orderBy, e) {
      InsertTies(x, t, order, orderBy, e);
      TiesCons(x, tail, orderBy, e);
    }
  }

  /** `rows.slice().sort(getComparator(order, orderBy))`: a permutation of the rows,
      ordered by the comparator, in which rows that tie keep their order in `rows`. */
  function SortRows(rows: seq<Row>, order: Order, orderBy: Column): (v: seq<Row>)
    ensures multiset(v) == multiset(rows)
    ensures Sorted(v, order, orderBy)
    ensures forall e :: Ties(v, orderBy, e) == Ties(rows, orderBy, e)
  {
    if rows == [] then []
    else
      var rest := SortRows(rows[1..], order, orderBy);
      InsertStep(rows, rest, order, orderBy);
      Insert(rows[0], rest, order, orderBy)
  }

  /** Inserting the first row into a stable sort of the others stably sorts all rows. */
  lemma InsertStep(rows: seq<Row>, rest: seq<Row>, order: Order, orderBy: Column)
    requires rows != []
    requires multiset(rest) == multiset(rows[1..])
    requires Sorted(rest, order, orderBy)
    requires forall e :: Ties(rest, orderBy, e) == Ties(rows[1..], orderBy, e)
    ensures multiset(Insert(rows[0], rest, order, orderBy)) == multiset(rows)
    ensures Sorted(Insert(rows[0], rest, order, orderBy), order, orderBy)
    ensures forall e :: Ties(Insert(rows[0], rest, order, orderBy), orderBy, e) == Ties(rows, orderBy, e)
  {
    InsertPermutes(rows[0], rest, order, orderBy);
    InsertSorted(rows[0], rest, order, orderBy);
    InsertKeepsTies(rows[0], rest, rows[1..], order, orderBy);
    assert rows == [rows[0]] + rows[1..];
  }

  lemma {:induction false} AllTied(s: seq<Row>, orderBy: Column, e: Row)
    requires forall x :: x in s ==> SameKey(x, e, orderBy)
    ensures Ties(s, orderBy, e) == s
  {
    if s != [] {
      AllTied(s[1..], orderBy, e);
      assert s == [s[0]] + s[1..];
    }
  }

  /** When every row ties on the column the view is `rows` itself, in either direction:
      in particular the initial table (all Vice Presidents, sorted by role) shows the
      rows in insertion order. */
  lemma AllTiedViewKeepsOrder(rows: seq<Row>, order: Order, orderBy: Column)
    requires forall i, j :: 0 <= i < |rows| && 0 <= j < |rows| ==> SameKey(rows[i], rows[j], orderBy)
    ensures SortRows(rows, order, orderBy) == rows
  {
    if rows != [] {
      var v := SortRows(rows, order, orderBy);
      var e := rows[0];
      forall x | x in v ensures SameKey(x, e, orderBy) {
        assert x in multiset(v);
      }
      AllTied(v, orderBy, e);
      AllTied(rows, orderBy, e);
    }
  }

  lemma InitialViewKeepsOrder(order: Order)
    ensures SortRows(InitialRows(), order, RoleColumn) == InitialRows()
  {
    AllTiedViewKeepsOrder(InitialRows(), order, RoleColumn);
  }

  /** Ascending by role puts a Vice President before an Assistant Project Manager, in
      whichever order the two rows are given. */
  lemma RoleSortsByRank(vp: Row, apm: Row)
    requires vp.role == VicePresident && apm.role == AssistantProjectManager
    ensures SortRows([apm, vp], Asc, RoleColumn) == [vp, apm]
    ensures SortRows([vp, apm], Asc, RoleColumn) == [vp, apm]
  {
    assert Comparator(Asc, RoleColumn, apm, vp) == 3 && Comparator(Asc, RoleColumn, vp, apm) == -3;
    assert [apm, vp][1..] == [vp] && [vp, apm][1..] == [apm];
    assert SortRows([vp], Asc, RoleColumn) == [vp] && SortRows([apm], Asc, RoleColumn) == [apm];
    assert Insert(apm, [vp], Asc, RoleColumn) == [vp] + Insert(apm, [], Asc, RoleColumn);
  }

  function Reverse(s: seq<Row>): (r: seq<Row>)
    ensures |r| == |s|
    ensures forall i :: 0 <= i < |s| ==> r[i] == s[|s| - 1 - i]
  {
    if s == [] then [] else Reverse(s[1..]) + [s[0]]
  }

  lemma {:induction false} ReversePermutes(s: seq<Row>)
    ensures multiset(Reverse(s)) == multiset(s)
  {
    if s != [] {
      ReversePermutes(s[1..]);
      assert s == [s[0]] + s[1..];
    }
  }

  /** No two different rows of `s` share the column's key. */
  ghost predicate KeysDistinct(s: seq<Row>, orderBy: Column)
  {
    forall x, y :: x in s && y in s && SameKey(x, y, orderBy) ==> x == y
  }

  lemma TailKeepsOrder(s: seq<Row>, order: Order, orderBy: Column)
    requires s != []
    ensures Sorted(s, order, orderBy) ==> Sorted(s[1..], order, orderBy)
    ensures KeysDistinct(s, orderBy) ==> KeysDistinct(s[1..], orderBy)
  {
    if KeysDistinct(s, orderBy) {
      forall x, y | x in s[1..] && y in s[1..] && SameKey(x, y, orderBy) ensures x == y {
        assert x in s && y in s;
      }
    }
  }

  /** Two sorted permutations of rows whose keys are distinct start with the same row. */
  lemma SortedHeadsAgree(s1: seq<Row>, s2: seq<Row>, order: Order, orderBy: Column)
    requires s1 != [] && multiset(s1) == multiset(s2)
    requires Sorted(s1, order, orderBy) && Sorted(s2, order, orderBy)
    requires KeysDistinct(s1, orderBy)
    ensures s2 != [] && s1[0] == s2[0]
  {
    var a := s1[0];
    assert a in multiset(s2);
    var k :| 0 <= k < |s2| && s2[k] == a;
    var b := s2[0];
    assert b in multiset(s1);
    var m :| 0 <= m < |s1| && s1[m] == b;
    if a != b {
      assert Comparator(order, orderBy, a, b) <= 0 by { assert m > 0; }
      assert Comparator(order, orderBy, b, a) <= 0 by { assert k > 0; }
      ComparatorAntisymmetric(order, orderBy, a, b);
      ComparatorMeaning(order, orderBy, a, b);
      assert false;
    }
  }

  /** Two sorted permutations of rows whose keys are distinct are the same sequence. */
  lemma {:induction false} SortedUnique(s1: seq<Row>, s2: seq<Row>, order: Order, orderBy: Column)
    requires multiset(s1) == multiset(s2)
    requires Sorted(s1, order, orderBy) && Sorted(s2, order, orderBy)
    requires KeysDistinct(s1, orderBy)
    ensures s1 == s2
  {
    if s1 == [] {
      assert |s2| == |multiset(s2)| == 0;
    } else {
      SortedHeadsAgree(s1, s2, order, orderBy);
      var a := s1[0];
      assert s1 == [a] + s1[1..] && s2 == [a] + s2[1..];
      assert multiset(s1[1..]) == multiset(s2[1..]) by {
        assert multiset(s1[1..]) == multiset(s1) - multiset{a};
        assert multiset(s2[1..]) == multiset(s2) - multiset{a};
      }
      TailKeepsOrder(s1, order, orderBy);
      TailKeepsOrder(s2, order, orderBy);
      SortedUnique(s1[1..], s2[1..], order, orderBy);
    }
  }

  /** When no two different rows share the sort key, flipping the direction shows
      exactly the reversed sequence. */
  lemma DirectionFlipReverses(rows: seq<Row>, orderBy: Column)
    requires KeysDistinct(rows, orderBy)
    ensures SortRows(rows, Desc, orderBy) == Reverse(SortRows(rows, Asc, orderBy))
  {
    var up := SortRows(rows, Asc, orderBy);
    var down := SortRows(rows, Desc, orderBy);
    var r := Reverse(up);
    ReversePermutes(up);
    forall i, j | 0 <= i < j < |r| ensures Comparator(Desc, orderBy, r[i], r[j]) <= 0 {
      var n := |up|;
      assert Comparator(Asc, orderBy, up[n - 1 - j], up[n - 1 - i]) <= 0;
      ComparatorMeaning(Asc, orderBy, r[i], r[j]);
      ComparatorAntisymmetric(Asc, orderBy, r[i], r[j]);
    }
    forall x, y | x in down && y in down && SameKey(x, y, orderBy) ensures x == y {
      assert x in multiset(down) && y in multiset(down);
      assert x in rows && y in rows;
    }
    SortedUnique(down, r, Desc, orderBy);
  }

  /** Two sorted permutations start with rows that share the column's key. */
  lemma SortedHeadsTie(s1: seq<Row>, s2: seq<Row>, order: Order, orderBy: Column)
    requires s1 != [] && s2 != [] && multiset(s1) == multiset(s2)
    requires Sorted(s1, order, orderBy) && Sorted(s2, order, orderBy)
    ensures SameKey(s1[0], s2[0], orderBy)
  {
    var a, b := s1[0], s2[0];
    assert a in multiset(s2) && b in multiset(s1);
    var k :| 0 <= k < |s2| && s2[k] == a;
    var m :| 0 <= m < |s1| && s1[m] == b;
    if a != b {
      assert Comparator(order, orderBy, a, b) <= 0 by { assert m > 0; }
      assert Comparator(order, orderBy, b, a) <= 0 by { assert k > 0; }
      ComparatorAntisymmetric(order, orderBy, a, b);
      ComparatorMeaning(order, orderBy, a, b);
    }
  }

  /** Two sorted permutations with the same tie classes start with the same row. */
  lemma StableHeadsAgree(s1: seq<Row>, s2: seq<Row>, order: Order, orderBy: Column)
    requires s1 != [] && s2 != [] && multiset(s1) == multiset(s2)
    requires Sorted(s1, order, orderBy) && Sorted(s2, order, orderBy)
    requires forall e :: Ties(s1, orderBy, e) == Ties(s2, orderBy, e)
    ensures s1[0] == s2[0]
  {
    var a, b := s1[0], s2[0];
    SortedHeadsTie(s1, s2, order, orderBy);
    assert s1 == [a] + s1[1..] && s2 == [b] + s2[1..];
    TiesCons(a, s1[1..], orderBy, a);
    TiesCons(b, s2[1..], orderBy, a);
    assert Ties(s1, orderBy, a)[0] == a && Ties(s2, orderBy, a)[0] == b;
  }

  /** Two sorted permutations with the same tie classes share their first row, and their
      tails are again sorted permutations with the same tie classes. */
  lemma StableTails(s1: seq<Row>, s2: seq<Row>, order: Order, orderBy: Column)
    requires s1 != [] && s2 != [] && multiset(s1) == multiset(s2)
    requires Sorted(s1, order, orderBy) && Sorted(s2, order, orderBy)
    requires forall e :: Ties(s1, orderBy, e) == Ties(s2, orderBy, e)
    ensures s1[0] == s2[0] && multiset(s1[1..]) == multiset(s2[1..])
    ensures Sorted(s1[1..], order, orderBy) && Sorted(s2[1..], order, orderBy)
    ensures forall e :: Ties(s1[1..], orderBy, e) == Ties(s2[1..], orderBy, e)
  {
    StableHeadsAgree(s1, s2, order, orderBy);
    var a := s1[0];
    assert s1 == [a] + s1[1..] && s2 == [a] + s2[1..];
    TiesTailsAgree(a, s1[1..], s2[1..], orderBy);
    assert multiset(s1[1..]) == multiset(s2[1..]) by {
      assert multiset(s1[1..]) == multiset(s1) - multiset{a};
      assert multiset(s2[1..]) == multiset(s2) - multiset{a};
    }
    TailKeepsOrder(s1, order, orderBy);
    TailKeepsOrder(s2, order, orderBy);
  }

  /** Dropping a common first row keeps the tie classes equal. */
  lemma TiesTailsAgree(a: Row, t1: seq<Row>, t2: seq<Row>, orderBy: Column)
    requires forall e :: Ties([a] + t1, orderBy, e) == Ties([a] + t2, orderBy, e)
    ensures forall e :: Ties(t1, orderBy, e) == Ties(t2, orderBy, e)
  {
    forall e ensures Ties(t1, orderBy, e) == Ties(t2, orderBy, e) {
      TiesCons(a, t1, orderBy, e);
      TiesCons(a, t2, orderBy, e);
      var p := if SameKey(a, e, orderBy) then [a] else [];
      assert Ties(t1, orderBy, e) == (p + Ties(t1, orderBy, e))[|p|..];
      assert Ties(t2, orderBy, e) == (p + Ties(t2, orderBy, e))[|p|..];
    }
  }

  /** Two sorted permutations with the same tie classes, each in the same order, are the
      same sequence: whatever stable sort produced them, the comparator and the order of
      ties decide the result. */
  lemma {:induction false} StableSortUnique(s1: seq<Row>, s2: seq<Row>, order: Order, orderBy: Column)
    requires multiset(s1) == multiset(s2)
    requires Sorted(s1, order, orderBy) && Sorted(s2, order, orderBy)
    requires forall e :: Ties(s1, orderBy, e) == Ties(s2, orderBy, e)
    ensures s1 == s2
  {
    if s1 == [] {
      assert |s2| == |multiset(s2)| == 0;
    } else {
      assert |s2| == |multiset(s2)| == |multiset(s1)| == |s1|;
      StableTails(s1, s2, order, orderBy);
      StableSortUnique(s1[1..], s2[1..], order, orderBy);
      assert s1 == [s1[0]] + s1[1..] && s2 == [s2[0]] + s2[1..];
    }
  }

  /** Any stable sort of the rows by the comparator, such as the engine's
      `Array.prototype.sort`, yields exactly `SortRows`. */
  lemma StableSortIsSortRows(rows: seq<Row>, v: seq<Row>, order: Order, orderBy: Column)
    requires multiset(v) == multiset(rows)
    requires Sorted(v, order, orderBy)
    requires forall e :: Ties(v, orderBy, e) == Ties(rows, orderBy, e)
    ensures v == SortRows(rows, order, orderBy)
  {
    StableSortUnique(v, SortRows(rows, order, orderBy), order, orderBy);
  }

  lemma {:induction false} TiesAppend(a: seq<Row>, b: seq<Row>, orderBy: Column, e: Row)
    ensures Ties(a + b, orderBy, e) == Ties(a, orderBy, e) + Ties(b, orderBy, e)
  {
    if a == [] {
      assert a + b == b;
    } else {
      var ab := a + b;
      assert ab[0] == a[0] && ab[1..] == a[1..] + b;
      var p := if SameKey(a[0], e, orderBy) then [a[0]] else [];
      assert Ties(ab, orderBy, e) == p + Ties(a[1..] + b, orderBy, e);
      assert Ties(a, orderBy, e) == p + Ties(a[1..], orderBy, e);
      TiesAppend(a[1..], b, orderBy, e);
    }
  }

  lemma ReverseAppend(a: seq<Row>, b: seq<Row>)
    ensures Reverse(a + b) == Reverse(b) + Reverse(a)
  {
    var l, r := Reverse(a + b), Reverse(b) + Reverse(a);
    forall i | 0 <= i < |l| ensures l[i] == r[i] {
      if i < |b| {
        assert l[i] == (a + b)[|a| + |b| - 1 - i] == b[|b| - 1 - i];
      } else {
        assert l[i] == (a + b)[|a| + |b| - 1 - i] == a[|a| - 1 - (i - |b|)];
      }
    }
  }

  /** The rows tied with `e` in the reversed sequence are the reversed ties. */
  lemma {:induction false} TiesReverse(s: seq<Row>, orderBy: Column, e: Row)
    ensures Ties(Reverse(s), orderBy, e) == Reverse(Ties(s, orderBy, e))
  {
    if s != [] {
      var p := if SameKey(s[0], e, orderBy) then [s[0]] else [];
      TiesReverse(s[1..], orderBy, e);
      TiesAppend(Reverse(s[1..]), [s[0]], orderBy, e);
      TiesCons(s[0], [], orderBy, e);
      assert [s[0]] + [] == [s[0]];
      TiesCons(s[0], s[1..], orderBy, e);
      assert s == [s[0]] + s[1..];
      ReverseAppend(p, Ties(s[1..], orderBy, e));
      assert Reverse(p) == p;
    }
  }

  lemma {:induction false} TiesHolds(s: seq<Row>, orderBy: Column, e: Row, z: Row)
    requires z in s && SameKey(z, e, orderBy)
    ensures z in Ties(s, orderBy, e)
  {
    assert s == [s[0]] + s[1..];
    TiesCons(s[0], s[1..], orderBy, e);
    if s[0] != z {
      TiesHolds(s[1..], orderBy, e, z);
    }
  }

  lemma {:induction false} TiesSubMultiset(s: seq<Row>, orderBy: Column, e: Row)
    ensures multiset(Ties(s, orderBy, e)) <= multiset(s)
  {
    if s != [] {
      assert s == [s[0]] + s[1..];
      TiesCons(s[0], s[1..], orderBy, e);
      TiesSubMultiset(s[1..], orderBy, e);
    }
  }

  /** A row occurs no more often than its id. */
  lemma {:induction false} RowCountBelowIdCount(rows: seq<Row>, r: Row)
    ensures multiset(rows)[r] <= multiset(Ids(rows))[r.id]
  {
    if rows != [] {
      assert rows == [rows[0]] + rows[1..];
      assert Ids(rows) == [rows[0].id] + Ids(rows[1..]);
      RowCountBelowIdCount(rows[1..], r);
    }
  }

  /** A sequence of two or more different rows, none of them twice, is not its own
      reverse. */
  lemma DistinctNotPalindrome(t: seq<Row>, x: Row, y: Row)
    requires forall r :: multiset(t)[r] <= 1
    requires x in t && y in t && x != y
    ensures Reverse(t) != t
  {
    var i :| 0 <= i < |t| && t[i] == x;
    var j :| 0 <= j < |t| && t[j] == y;
    assert i != j && |t| >= 2;
    assert t == [t[0]] + t[1..];
    assert multiset(t)[t[0]] == 1 + multiset(t[1..])[t[0]];
    assert t[|t| - 1] in t[1..] by { assert t[1..][|t| - 2] == t[|t| - 1]; }
    assert t[0] != t[|t| - 1];
    assert Reverse(t)[0] == t[|t| - 1];
  }

  /** The requirement of `DirectionFlipReverses` cannot be dropped: among rows with
      distinct ids, two different rows that share the sort key keep their relative
      order in both directions, so the descending view is not the reversed ascending
      view. */
  lemma TiedRowsBlockReversal(rows: seq<Row>, orderBy: Column, x: Row, y: Row)
    requires NoDuplicates(Ids(rows))
    requires x in rows && y in rows && x != y && SameKey(x, y, orderBy)
    ensures SortRows(rows, Desc, orderBy) != Reverse(SortRows(rows, Asc, orderBy))
  {
    var up := SortRows(rows, Asc, orderBy);
    var t := Ties(rows, orderBy, x);
    assert Ties(up, orderBy, x) == t && Ties(SortRows(rows, Desc, orderBy), orderBy, x) == t;
    TiesReverse(up, orderBy, x);
    TiesHolds(rows, orderBy, x, x);
    TiesHolds(rows, orderBy, x, y);
    TiesSubMultiset(rows, orderBy, x);
    forall r ensures multiset(t)[r] <= 1 {
      RowCountBelowIdCount(rows, r);
    }
    DistinctNotPalindrome(t, x, y);
  }

  // ---------------------------------------------------------------------------
  // Sort header, selection and inline role edit

  /** The sort-header click rule: the clicked column becomes the sort column, and the
      direction becomes descending exactly when that column was already sorted
      ascending; every other click sorts ascending. */
  function NextSort(order: Order, orderBy: Column, property: Column): (r: (Order, Column))
    ensures r.1 == property
    ensures r.0 == Desc <==> orderBy == property && order == Asc
  {
    var isAsc := orderBy == property && order == Asc;
    (if isAsc then Desc else Asc, property)
  }

  /** Repeated clicks on one column alternate its direction. */
  lemma RepeatedClicksAlternate(order: Order, orderBy: Column, property: Column)
    ensures var first := NextSort(order, orderBy, property);
            var second := NextSort(first.0, first.1, property);
            second.1 == property && second.0 != first.0
  {
  }

  /** The ids of `s` other than `x`, in their order: `s.filter(v => v !== x)`. */
  function RemoveAll(s: seq<int>, x: int): (r: seq<int>)
    ensures forall y :: y in r <==> y in s && y != x
    ensures forall y :: y != x ==> multiset(r)[y] == multiset(s)[y]
    ensures SubsequenceOf(r, s)
  {
    if s == [] then []
    else if s[0] == x then
      var r := RemoveAll(s[1..], x);
      assert s == [s[0]] + s[1..];
      assert r != [] ==> r[0] in r && r[0] != s[0];
      r
    else
      var r := [s[0]] + RemoveAll(s[1..], x);
      assert r[1..] == RemoveAll(s[1..], x);
      assert s == [s[0]] + s[1..];
      r
  }

  /** `r` is `s` with some elements left out, the others in their order. */
  ghost predicate SubsequenceOf(r: seq<int>, s: seq<int>)
  {
    if r == [] then true
    else if s == [] then false
    else if r[0] == s[0] then SubsequenceOf(r[1..], s[1..])
    else SubsequenceOf(r, s[1..])
  }

  /** The checkbox rule: an absent id is appended at the end, a present one is removed
      with every other id kept in order; membership flips for `id` and for no other. */
  function Toggle(selected: seq<int>, id: int): (r: seq<int>)
    ensures id !in selected ==> r == selected + [id]
    ensures id in selected ==> r == RemoveAll(selected, id)
    ensures forall x :: x in r <==> (if x == id then id !in selected else x in selected)
  {
    if id !in selected then selected + [id] else RemoveAll(selected, id)
  }

  lemma {:induction false} RemoveAllAbsent(s: seq<int>, x: int)
    requires x !in s
    ensures RemoveAll(s, x) == s
  {
    if s != [] {
      RemoveAllAbsent(s[1..], x);
      assert s == [s[0]] + s[1..];
    }
  }

  lemma {:induction false} RemoveAllAppended(s: seq<int>, x: int)
    ensures RemoveAll(s + [x], x) == RemoveAll(s, x)
  {
    if s == [] {
      assert [x][1..] == [];
    } else {
      assert (s + [x])[1..] == s[1..] + [x];
      RemoveAllAppended(s[1..], x);
    }
  }

  /** Toggling an id twice restores membership; starting from an unselected id it
      restores the very same selection. */
  lemma ToggleTwice(selected: seq<int>, id: int)
    ensures forall x :: x in Toggle(Toggle(selected, id), id) <==> x in selected
    ensures id !in selected ==> Toggle(Toggle(selected, id), id) == selected
  {
    if id !in selected {
      RemoveAllAppended(selected, id);
      RemoveAllAbsent(selected, id);
    }
  }

  /** A selection without duplicates stays without duplicates. */
  lemma ToggleKeepsNoDuplicates(selected: seq<int>, id: int)
    requires NoDuplicates(selected)
    ensures NoDuplicates(Toggle(selected, id))
  {
    var r := Toggle(selected, id);
    if id !in selected {
      forall x ensures multiset(r)[x] <= 1 {
        assert multiset(r) == multiset(selected) + multiset{id};
      }
    } else {
      forall x ensures multiset(r)[x] <= 1 {
        if x == id {
          assert x !in multiset(r);
        }
      }
    }
  }

  /** `rows.map(row => row.id === id ? {...row, role} : row)`: same length and order;
      only rows with that id get the new role, every other field and row is kept. */
  function SetRole(rows: seq<Row>, id: int, role: Role): (r: seq<Row>)
    ensures |r| == |rows|
    ensures forall i :: 0 <= i < |rows| ==> r[i].(role := rows[i].role) == rows[i]
    ensures forall i :: 0 <= i < |rows| ==> r[i].role == if rows[i].id == id then role else rows[i].role
  {
    if rows == [] then []
    else [if rows[0].id == id then rows[0].(role := role) else rows[0]] + SetRole(rows[1..], id, role)
  }

  /** The role edit keeps the id sequence (so distinct ids stay distinct), is a no-op
      for an id not in the table, and repeating it changes nothing more. */
  lemma SetRoleFacts(rows: seq<Row>, id: int, role: Role)
    ensures Ids(SetRole(rows, id, role)) == Ids(rows)
    ensures id !in Ids(rows) ==> SetRole(rows, id, role) == rows
    ensures SetRole(SetRole(rows, id, role), id, role) == SetRole(rows, id, role)
  {
    var r := SetRole(rows, id, role);
    forall i | 0 <= i < |rows| ensures r[i].id == rows[i].id {
      assert r[i].(role := rows[i].role) == rows[i];
    }
    assert Ids(r) == Ids(rows);
    if id !in Ids(rows) {
      forall i | 0 <= i < |rows| ensures r[i] == rows[i] {
        assert Ids(rows)[i] == rows[i].id;
      }
    }
    var r2 := SetRole(r, id, role);
    forall i | 0 <= i < |r| ensures r2[i] == r[i] {
      assert r2[i].(role := r[i].role) == r[i];
    }
    assert r2 == r;
  }

  // ---------------------------------------------------------------------------
  // The table state

  class ProjectTable {
    var order: Order
    var orderBy: Column
    var selected: seq<int>
    var rows: seq<Row>

    /** Neither the selection nor the row ids hold a duplicate. */
    ghost predicate Valid()
      reads this
    {
      NoDuplicates(selected) && NoDuplicates(Ids(rows))
    }

    /** Sorted ascending by role, nothing selected, the six sample rows. */
    constructor ()
      ensures Valid()
      ensures order == Asc && orderBy == RoleColumn && selected == [] && rows == InitialRows()
    {
      order, orderBy, selected, rows := Asc, RoleColumn, [], InitialRows();
      InitialRowsFacts();
    }

    predicate IsSelected(id: int)
      reads this
    {
      id in selected
    }

    /** The rows as displayed: sorted by the current comparator, `rows` untouched. */
    function View(): (v: seq<Row>)
      reads this
      ensures multiset(v) == multiset(rows)
      ensures Sorted(v, order, orderBy)
      ensures forall e :: Ties(v, orderBy, e) == Ties(rows, orderBy, e)
    {
      SortRows(rows, order, orderBy)
    }

    method RequestSort(property: Column)
      requires Valid()
      modifies this
      ensures Valid()
      ensures (order, orderBy) == NextSort(old(order), old(orderBy), property)
      ensures selected == old(selected) && rows == old(rows)
    {
      var isAsc := orderBy == property && order == Asc;
      order := if isAsc then Desc else Asc;
      orderBy := property;
    }

    method CheckboxClick(id: int)
      requires Valid()
      modifies this
      ensures Valid()
      ensures selected == Toggle(old(selected), id)
      ensures IsSelected(id) == !old(IsSelected(id))
      ensures forall x :: x != id ==> IsSelected(x) == old(IsSelected(x))
      ensures order == old(order) && orderBy == old(orderBy) && rows == old(rows)
    {
      ToggleKeepsNoDuplicates(selected, id);
      if id !in selected {
        selected := selected + [id];
      } else {
        selected := RemoveAll(selected, id);
      }
    }

    method RoleChange(id: int, role: Role)
      requires Valid()
      modifies this
      ensures Valid()
      ensures rows == SetRole(old(rows), id, role)
      ensures order == old(order) && orderBy == old(orderBy) && selected == old(selected)
    {
      SetRoleFacts(rows, id, role);
      rows := SetRole(rows, id, role);
    }
  }
}
