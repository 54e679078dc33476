/**
  * The dense transition table of the four index-based engines
  * (IntStateMachine and the three StateMachine revisions): row = source
  * state, column = message, cell = index of the target state.
  *
  * The revisions rebuild their arrays with the same copying loops, so the
  * loops are written once here, each proved against a pure specification
  * of the table or name array it produces; the engines call them and add
  * their own cursor handling.
  */
module Table {
  import opened Common
  import opened Document

  type Grid = seq<seq<int>>

  /** `n` rows of `m` cells each. */
  ghost predicate Shaped(t: Grid, n: int, m: int)
  {
    |t| == n && forall i :: 0 <= i < |t| ==> |t[i]| == m
  }

  /** Every cell holds the index of one of the first `n` states. */
  ghost predicate InRange(t: Grid, n: int)
  {
    forall i, j :: 0 <= i < |t| && 0 <= j < |t[i]| ==> 0 <= t[i][j] < n
  }

  /** No cell is negative. */
  ghost predicate NonNegative(t: Grid)
  {
    forall i, j :: 0 <= i < |t| && 0 <= j < |t[i]| ==> 0 <= t[i][j]
  }

  /** The cells of the C# `int[,]` `a` are those of `t`. */
  ghost predicate Holds(a: array2<int>, t: Grid)
    reads a
  {
    Shaped(t, a.Length0, a.Length1) &&
    forall i, j :: 0 <= i < a.Length0 && 0 <= j < a.Length1 ==> a[i, j] == t[i][j]
  }

  /** The contents of a name array that C# may have left `null`. */
  ghost function NamesOf(a: array?<Name>): seq<Name>
    reads a
  {
    if a == null then [] else a[..]
  }

  /** `n` null names: what `new string[n]` holds. */
  function Blank(n: nat): (r: seq<Name>)
    ensures |r| == n && forall i :: 0 <= i < n ==> r[i] == None
  {
    seq(n, _ => None)
  }

  // ---------------------------------------------------------------- specs

  /** The table `Set` builds: every message leaves every state where it is. */
  function SelfLoops(n: nat, m: nat): (r: Grid)
    ensures Shaped(r, n, m) && InRange(r, n)
    ensures forall i, j :: 0 <= i < n && 0 <= j < m ==> r[i][j] == i
  {
    seq(n, i => seq(m, _ => i))
  }

  /**
    * The table the earliest offset-aware `Set` builds: its fill loop is
    * bounded by the counts `oldN` and `oldM` of the name arrays about to be
    * replaced, so only the cells of that corner become self-loops and every
    * other cell keeps the 0 a new `int[,]` holds.
    */
  function StaleFill(n: nat, m: nat, oldN: nat, oldM: nat): (r: Grid)
    ensures Shaped(r, n, m) && InRange(r, n)
    ensures forall i, j :: 0 <= i < n && 0 <= j < m ==> r[i][j] == if i < oldN && j < oldM then i else 0
  {
    StaleRows(m, oldN, oldM, n)
  }

  /** The first `k` rows of `StaleFill`. */
  function StaleRows(m: nat, oldN: nat, oldM: nat, k: nat): (r: Grid)
    ensures |r| == k && forall i :: 0 <= i < k ==> r[i] == StaleRow(i, m, oldN, oldM)
  {
    if k == 0 then [] else StaleRows(m, oldN, oldM, k - 1) + [StaleRow(k - 1, m, oldN, oldM)]
  }

  /** Row `i` of `StaleFill`. */
  function StaleRow(i: nat, m: nat, oldN: nat, oldM: nat): (r: seq<int>)
    ensures |r| == m && forall j :: 0 <= j < m ==> r[j] == if i < oldN && j < oldM then i else 0
  {
    if m == 0 then [] else StaleRow(i, m - 1, oldN, oldM) + [if i < oldN && m - 1 < oldM then i else 0]
  }

  /**
    * That `Set` leaves the self-loop table only when the machine had the same
    * sizes already, or when no cell can tell (one state, or no messages).
    */
  lemma StaleFillIsSelfLoops(n: nat, m: nat, oldN: nat, oldM: nat)
    requires oldN <= n && oldM <= m
    ensures StaleFill(n, m, oldN, oldM) == SelfLoops(n, m) <==> n <= 1 || m == 0 || (oldN == n && oldM == m)
  {
    var r, s := StaleFill(n, m, oldN, oldM), SelfLoops(n, m);
    if n <= 1 || m == 0 || (oldN == n && oldM == m) {
      forall i | 0 <= i < n ensures r[i] == s[i] {
        assert forall j :: 0 <= j < m ==> r[i][j] == s[i][j];
      }
    } else if oldN < n {
      assert r[n - 1][0] != s[n - 1][0];
    } else {
      assert r[n - 1][m - 1] != s[n - 1][m - 1];
    }
  }

  /**
    * The table `Resize(n, m)` builds: a cell inside the old bounds keeps its
    * target when that target is still a state, every other cell becomes a
    * self-loop.
    */
  function Resized(t: Grid, n: nat, m: nat): (r: Grid)
    ensures Shaped(r, n, m)
    ensures forall i, j :: 0 <= i < n && 0 <= j < m ==> r[i][j] == ResizedCell(t, n, i, j)
    ensures NonNegative(t) ==> InRange(r, n)
  {
    ResizedRows(t, n, m, n)
  }

  /** One cell of `Resized(t, n, _)`. */
  function ResizedCell(t: Grid, n: nat, i: nat, j: nat): int
  {
    if i < |t| && j < |t[i]| && t[i][j] < n then t[i][j] else i
  }

  /** The first `k` rows of `Resized(t, n, m)`. */
  function ResizedRows(t: Grid, n: nat, m: nat, k: nat): (r: Grid)
    ensures |r| == k && forall i :: 0 <= i < k ==> r[i] == ResizedRow(t, n, i, m)
  {
    if k == 0 then [] else ResizedRows(t, n, m, k - 1) + [ResizedRow(t, n, k - 1, m)]
  }

  /** The first `m` cells of row `i` of `Resized(t, n, _)`. */
  function ResizedRow(t: Grid, n: nat, i: nat, m: nat): (r: seq<int>)
    ensures |r| == m && forall j :: 0 <= j < m ==> r[j] == ResizedCell(t, n, i, j)
  {
    if m == 0 then [] else ResizedRow(t, n, i, m - 1) + [ResizedCell(t, n, i, m - 1)]
  }

  /** The names `Resize(n, _)` keeps: the first `n` old ones, then nulls. */
  function ResizedNames(names: seq<Name>, n: nat): (r: seq<Name>)
    ensures |r| == n
    ensures n <= |names| ==> r == names[..n]
    ensures |names| <= n ==> r == names + Blank(n - |names|)
  {
    seq(n, i requires 0 <= i < n => if i < |names| then names[i] else None)
  }

  /**
    * The table `RemoveState(s)` builds AS WRITTEN. The copy loop tests the
    * destination counter instead of the source row, so once the counter
    * reaches `s` no further row is copied: rows below `s` keep their cells
    * (a target equal to `s` becoming a self-loop) and every row from `s` on
    * is left at C#'s default 0. Targets above `s` are not renumbered.
    */
  function RemovedStateAsWritten(t: Grid, m: nat, s: int): (r: Grid)
    requires Shaped(t, |t|, m) && 2 <= |t| && 0 <= s < |t|
    ensures Shaped(r, |t| - 1, m)
    ensures NonNegative(t) ==> NonNegative(r)
  {
    seq(|t| - 1, i requires 0 <= i < |t| - 1 =>
      if i < s then seq(m, j requires 0 <= j < m => if t[i][j] == s then i else t[i][j])
      else seq(m, _ => 0))
  }

  /** One cell of `RemovedStateAsWritten`. */
  lemma RemovedStateAsWrittenAt(t: Grid, m: nat, s: int, i: int, j: int)
    requires Shaped(t, |t|, m) && 2 <= |t| && 0 <= s < |t| && 0 <= i < |t| - 1 && 0 <= j < m
    ensures RemovedStateAsWritten(t, m, s)[i][j] == if i >= s then 0 else if t[i][j] == s then i else t[i][j]
  {
  }

  /** The state names `RemoveState(s)` keeps as written: those below `s`, then nulls. */
  function RemovedStateNamesAsWritten(names: seq<Name>, s: int): (r: seq<Name>)
    requires 2 <= |names| && 0 <= s < |names|
    ensures |r| == |names| - 1
    ensures r[..s] == names[..s]
  {
    seq(|names| - 1, i requires 0 <= i < |names| - 1 => if i < s then names[i] else None)
  }

  /** Where the initial state ends up after `RemoveState(s)` on `n` states. */
  function RemovedInitial(initial: int, n: int, s: int): (r: int)
    ensures r == initial || r == 0
    ensures 0 <= initial ==> 0 <= r < n - 1 || r == 0
    ensures r == initial <==> initial == 0 || (initial < n - 1 && initial != s)
  {
    if initial >= n - 1 || initial == s then 0 else initial
  }

  /** The old column a column of the table without column `c` came from. */
  function Skip(j: int, c: int): int
  {
    if j < c then j else j + 1
  }

  /** The table `RemoveMessage(c)` builds: column `c` deleted, the others in order. */
  function RemovedMessage(t: Grid, m: nat, c: int): (r: Grid)
    requires Shaped(t, |t|, m) && 0 <= c < m
    ensures Shaped(r, |t|, m - 1)
    ensures forall i, j :: 0 <= i < |t| && 0 <= j < m - 1 ==> r[i][j] == t[i][Skip(j, c)]
    ensures forall n :: InRange(t, n) ==> InRange(r, n)
  {
    seq(|t|, i requires 0 <= i < |t| => t[i][..c] + t[i][c + 1..])
  }

  /**
    * The message names `RemoveMessage(c)` keeps. The names are copied inside
    * the per-row loop, so on a table with no states none are copied.
    */
  function RemovedMessageNames(names: seq<Name>, c: int, n: nat): (r: seq<Name>)
    requires 0 <= c < |names|
    ensures |r| == |names| - 1
    ensures 0 < n ==> forall j :: 0 <= j < |r| ==> r[j] == names[Skip(j, c)]
  {
    if n == 0 then Blank(|names| - 1) else names[..c] + names[c + 1..]
  }

  /** The table with cell (s, c) set to `v`. */
  function WithEntry(t: Grid, s: int, c: int, v: int): (r: Grid)
    requires 0 <= s < |t| && 0 <= c < |t[s]|
    ensures |r| == |t| && forall i :: 0 <= i < |t| ==> |r[i]| == |t[i]|
    ensures r[s][c] == v
    ensures forall i, j :: 0 <= i < |t| && 0 <= j < |t[i]| && (i, j) != (s, c) ==> r[i][j] == t[i][j]
    ensures InRange(t, |t|) && 0 <= v < |t| ==> InRange(r, |t|)
  {
    t[s := t[s][c := v]]
  }

  /** A lookup result adjusted by a message offset; -1 (not found) stays -1. */
  function Lookup(names: seq<Name>, x: Name, offset: int): (r: int)
    ensures x !in names ==> r == -1
    ensures x in names ==> r == IndexOf(names, x) + offset
  {
    var i := IndexOf(names, x);
    if i == -1 then -1 else i + offset
  }

  // ------------------------------------------------------ name appending

  /**
    * How many entries of `list` the lookup reports absent from `names`
    * (-1), counting a repeated entry every time: `ReadNames`'s first pass.
    */
  function CountAbsent(names: seq<Name>, list: seq<Name>, offset: int): (r: nat)
    ensures r <= |list|
  {
    if |list| == 0 then 0
    else (if Lookup(names, list[0], offset) == -1 then 1 else 0) + CountAbsent(names, list[1..], offset)
  }

  /** A lookup that fails in a table of names fails in every prefix of it. */
  lemma {:induction false} AbsentFromPrefix(old_: seq<Name>, cur: seq<Name>, x: Name, offset: int)
    requires |old_| <= |cur| && cur[..|old_|] == old_
    requires Lookup(cur, x, offset) == -1
    ensures Lookup(old_, x, offset) == -1
  {
    if x in old_ {
      var p := IndexOf(old_, x);
      assert cur[p] == x;
      assert cur[..p] == old_[..p];
    }
  }

  /**
    * `ReadNames`'s second pass: each entry of `list` that the lookup still
    * reports absent is written at slot `next`, which then moves on. `old_`
    * is the name table before the machine grew; its names keep their slots.
    */
  function FillAbsent(old_: seq<Name>, cur: seq<Name>, next: int, list: seq<Name>, offset: int): (r: seq<Name>)
    requires |old_| <= next && |old_| <= |cur| && cur[..|old_|] == old_
    requires next + CountAbsent(old_, list, offset) <= |cur|
    ensures |r| == |cur|
    ensures r[..next] == cur[..next]
    decreases |list|
  {
    if |list| == 0 then cur
    else if Lookup(cur, list[0], offset) == -1 then
      AbsentFromPrefix(old_, cur, list[0], offset);
      var r := FillAbsent(old_, cur[next := list[0]], next + 1, list[1..], offset);
      assert r[..next] == r[..next + 1][..next];
      r
    else
      FillAbsent(old_, cur, next, list[1..], offset)
  }

  /**
    * With no null entries and no offset, every listed name is present after
    * the second pass, provided the slots being filled held only nulls.
    */
  lemma {:induction false} FillAbsentHoldsAll(old_: seq<Name>, cur: seq<Name>, next: int, list: seq<Name>)
    requires |old_| <= next && |old_| <= |cur| && cur[..|old_|] == old_
    requires next + CountAbsent(old_, list, 0) <= |cur|
    requires AllSome(list)
    requires forall k :: next <= k < |cur| ==> cur[k] == None
    ensures forall x :: x in list ==> x in FillAbsent(old_, cur, next, list, 0)
    decreases |list|
  {
    if |list| > 0 {
      var x := list[0];
      var rest := list[1..];
      assert AllSome(rest) by { forall k | 0 <= k < |rest| ensures rest[k].Some? { assert rest[k] == list[k + 1]; } }
      var r := FillAbsent(old_, cur, next, list, 0);
      if Lookup(cur, x, 0) == -1 {
        AbsentFromPrefix(old_, cur, x, 0);
        var cur' := cur[next := x];
        assert r == FillAbsent(old_, cur', next + 1, rest, 0);
        FillAbsentHoldsAll(old_, cur', next + 1, rest);
        assert r[..next + 1] == cur'[..next + 1];
        assert r[next] == x;
      } else {
        assert r == FillAbsent(old_, cur, next, rest, 0);
        FillAbsentHoldsAll(old_, cur, next, rest);
        PresentBeforeNext(cur, next, x);
        assert r[..next] == cur[..next];
      }
      forall y | y in list ensures y in r {
        if y != x { assert y in rest; }
      }
    }
  }

  /** A name the lookup finds, when the slots from `next` on are null, sits before `next`. */
  lemma PresentBeforeNext(cur: seq<Name>, next: int, x: Name)
    requires 0 <= next <= |cur| && Lookup(cur, x, 0) != -1 && x.Some?
    requires forall k :: next <= k < |cur| ==> cur[k] == None
    ensures x in cur[..next]
  {
    var p := IndexOf(cur, x);
    assert cur[p] == x;
    assert cur[..next][p] == x;
  }

  /** When the first pass counts nothing absent, every entry is found. */
  lemma {:induction false} NoneAbsent(names: seq<Name>, list: seq<Name>, offset: int)
    requires CountAbsent(names, list, offset) == 0
    ensures forall x :: x in list ==> Lookup(names, x, offset) != -1
    decreases |list|
  {
    if |list| > 0 {
      NoneAbsent(names, list[1..], offset);
      assert forall x :: x in list ==> x == list[0] || x in list[1..];
    }
  }

  /** The second pass writes only entries of `list`; every other slot keeps its name. */
  lemma {:induction false} FillAbsentOnlyListed(old_: seq<Name>, cur: seq<Name>, next: int, list: seq<Name>, offset: int)
    requires |old_| <= next && |old_| <= |cur| && cur[..|old_|] == old_
    requires next + CountAbsent(old_, list, offset) <= |cur|
    ensures forall k :: 0 <= k < |cur| ==>
      FillAbsent(old_, cur, next, list, offset)[k] == cur[k] || FillAbsent(old_, cur, next, list, offset)[k] in list
    decreases |list|
  {
    if |list| > 0 {
      var rest := list[1..];
      assert forall x :: x in rest ==> x in list;
      if Lookup(cur, list[0], offset) == -1 {
        AbsentFromPrefix(old_, cur, list[0], offset);
        FillAbsentOnlyListed(old_, cur[next := list[0]], next + 1, rest, offset);
      } else {
        FillAbsentOnlyListed(old_, cur, next, rest, offset);
      }
    }
  }

  /**
    * `ReadNames` without an offset and without null entries: the old names
    * keep their slots, every listed name is present afterwards, and each
    * added slot holds a listed name or is left null.
    */
  lemma AppendedMerges(names: seq<Name>, list: seq<Name>)
    requires AllSome(list)
    ensures forall i :: 0 <= i < |names| ==> Appended(names, list, 0)[i] == names[i]
    ensures forall x :: x in list ==> x in Appended(names, list, 0)
    ensures forall i :: |names| <= i < |Appended(names, list, 0)| ==>
      Appended(names, list, 0)[i] == None || Appended(names, list, 0)[i] in list
  {
    var r := Appended(names, list, 0);
    var k := CountAbsent(names, list, 0);
    var grown := names + Blank(k);
    assert grown[..|names|] == names;
    assert forall i :: 0 <= i < |names| ==> r[i] == r[..|names|][i];
    if k > 0 {
      FillAbsentHoldsAll(names, grown, |names|, list);
      FillAbsentOnlyListed(names, grown, |names|, list, 0);
    } else {
      NoneAbsent(names, list, 0);
      forall x | x in list ensures x in r {
        var p := IndexOf(names, x);
        assert r[p] == x;
      }
    }
  }

  // ---------------------------------------------------- growing the table

  /**
    * Growing a table whose cells are all states keeps every old cell, and
    * every new cell is a self-loop: what `ReadNames` relies on.
    */
  lemma GrowKeepsEntries(t: Grid, m: nat, n': nat, m': nat)
    requires Shaped(t, |t|, m) && InRange(t, |t|) && |t| <= n' && m <= m'
    ensures forall i, j :: 0 <= i < |t| && 0 <= j < m ==> Resized(t, n', m')[i][j] == t[i][j]
    ensures forall i, j :: 0 <= i < n' && 0 <= j < m' && (|t| <= i || m <= j) ==> Resized(t, n', m')[i][j] == i
  {
  }

  // ------------------------------------------------- removing a state, fixed

  /** The index a kept state has once state `s` is gone. */
  function Renumber(x: int, s: int): int
  {
    if x > s then x - 1 else x
  }

  /**
    * The table `RemoveState(s)` evidently means to build: every row but `s`
    * copied in order, transitions into `s` turned into self-loops, and
    * targets above `s` renumbered to follow their rows down.
    */
  function RemovedState(t: Grid, m: nat, s: int): (r: Grid)
    requires Shaped(t, |t|, m) && 2 <= |t| && 0 <= s < |t|
    ensures Shaped(r, |t| - 1, m)
  {
    seq(|t| - 1, i requires 0 <= i < |t| - 1 =>
      var src := if i < s then i else i + 1;
      seq(m, j requires 0 <= j < m =>
        if t[src][j] == s then i else Renumber(t[src][j], s)))
  }

  /** The state names the fixed `RemoveState(s)` keeps: all but the `s`-th, in order. */
  function RemovedStateNames(names: seq<Name>, s: int): (r: seq<Name>)
    requires 0 <= s < |names|
    ensures |r| == |names| - 1
    ensures forall i :: 0 <= i < |r| ==> r[i] == names[if i < s then i else i + 1]
  {
    names[..s] + names[s + 1..]
  }

  /**
    * The fixed removal keeps every cell a state of the smaller machine, and
    * keeps every transition between two surviving states, renumbered.
    */
  /** One cell of `RemovedState`: row `i` comes from the row after the gap. */
  lemma RemovedStateAt(t: Grid, m: nat, s: int, i: int, j: int)
    requires Shaped(t, |t|, m) && 2 <= |t| && 0 <= s < |t| && 0 <= i < |t| - 1 && 0 <= j < m
    ensures var src := if i < s then i else i + 1;
      RemovedState(t, m, s)[i][j] == if t[src][j] == s then i else Renumber(t[src][j], s)
  {
  }

  lemma RemovedStateKeepsTransitions(t: Grid, m: nat, s: int)
    requires Shaped(t, |t|, m) && 2 <= |t| && 0 <= s < |t| && InRange(t, |t|)
    ensures InRange(RemovedState(t, m, s), |t| - 1)
    ensures forall i, j :: 0 <= i < |t| && i != s && 0 <= j < m && t[i][j] != s ==>
      RemovedState(t, m, s)[Renumber(i, s)][j] == Renumber(t[i][j], s)
    ensures forall i, j :: 0 <= i < |t| && i != s && 0 <= j < m && t[i][j] == s ==>
      RemovedState(t, m, s)[Renumber(i, s)][j] == Renumber(i, s)
  {
    var r := RemovedState(t, m, s);
    forall i, j | 0 <= i < |t| && i != s && 0 <= j < m
      ensures r[Renumber(i, s)][j] == if t[i][j] == s then Renumber(i, s) else Renumber(t[i][j], s)
    {
      RemovedStateAt(t, m, s, Renumber(i, s), j);
    }
    forall i, j | 0 <= i < |r| && 0 <= j < |r[i]|
      ensures 0 <= r[i][j] < |t| - 1
    {
      RemovedStateAt(t, m, s, i, j);
    }
  }

  /**
    * The removal as written can leave a cell naming a state that no longer
    * exists: with three states whose last row points at itself, removing
    * state 1 keeps row 0's transition to state 2 in a two-state table.
    */
  lemma RemoveStateAsWrittenLeavesDanglingTarget()
    ensures var t := [[2], [1], [2]];
      Shaped(t, 3, 1) && InRange(t, 3) && !InRange(RemovedStateAsWritten(t, 1, 1), 2)
  {
    var t := [[2], [1], [2]];
    var r := RemovedStateAsWritten(t, 1, 1);
    assert r[0][0] == 2;
  }

  // ----------------------------------------------------------- hydration

  /** One `SetEntry(state, message, target)` made while loading a document. */
  datatype Write = Write(state: int, message: int, target: int)

  /** Every write addresses a cell of an `n` by `m` table and names a state. */
  ghost predicate Fits(ws: seq<Write>, n: int, m: int)
  {
    forall k :: 0 <= k < |ws| ==>
      0 <= ws[k].state < n && 0 <= ws[k].message < m && 0 <= ws[k].target < n
  }

  /**
    * The writes loading one table makes: its name and each transition's
    * names resolved by the first-match lookups. The message lookup adds
    * `offset` and the loader subtracts it again; a missing message (-1)
    * therefore resolves to `-1 - offset`.
    */
  function TableWrites(sn: seq<Name>, mn: seq<Name>, tb: TableDoc, offset: int): (r: seq<Write>)
    ensures |r| == |tb.transitions|
    ensures forall k :: 0 <= k < |r| ==> r[k].state == IndexOf(sn, tb.name)
  {
    seq(|tb.transitions|, k requires 0 <= k < |tb.transitions| =>
      Write(IndexOf(sn, tb.name),
            Lookup(mn, tb.transitions[k].message, offset) - offset,
            IndexOf(sn, tb.transitions[k].target)))
  }

  /** The writes loading all the tables makes, table by table. */
  function Writes(sn: seq<Name>, mn: seq<Name>, tables: seq<TableDoc>, offset: int): seq<Write>
  {
    if |tables| == 0 then []
    else Writes(sn, mn, tables[..|tables| - 1], offset) + TableWrites(sn, mn, tables[|tables| - 1], offset)
  }

  /**
    * The table after making the writes in order. A write outside the table
    * (which the loaders' preconditions rule out) changes nothing.
    */
  function ApplyWrites(t: Grid, m: nat, ws: seq<Write>): (r: Grid)
    ensures |r| == |t|
    ensures Shaped(t, |t|, m) ==> Shaped(r, |t|, m)
    decreases |ws|
  {
    if |ws| == 0 then t
    else
      var w := ws[|ws| - 1];
      var prev := ApplyWrites(t, m, ws[..|ws| - 1]);
      if 0 <= w.state < |prev| && 0 <= w.message < |prev[w.state]| then
        prev[w.state := prev[w.state][w.message := w.target]]
      else
        prev
  }

  /** The initial state `InitialState = index` stores on `n` states. */
  function Clamp(index: int, n: int): (r: int)
    ensures 0 <= index < n ==> r == index
    ensures !(0 <= index < n) ==> r == 0
  {
    if 0 <= index < n then index else 0
  }

  /**
    * The transitions the document stores for row `i` of a table: one per
    * message whose target is not `i` itself, by names, in column order.
    */
  function RowChanges(sn: seq<Name>, mn: seq<Name>, row: seq<int>, i: int): (r: seq<Change>)
    requires |row| <= |mn| && forall j :: 0 <= j < |row| ==> 0 <= row[j] < |sn|
    ensures |r| <= |row|
  {
    if |row| == 0 then []
    else
      var j := |row| - 1;
      RowChanges(sn, mn, row[..j], i) + (if row[j] != i then [Change(mn[j], sn[row[j]])] else [])
  }

  /** The document built from an index-based machine. */
  function SavedDoc(initial: int, sn: seq<Name>, mn: seq<Name>, t: Grid): (d: Doc)
    requires 0 <= initial < |sn| && Shaped(t, |sn|, |mn|) && InRange(t, |sn|)
    ensures d.stateNames == sn && d.messageNames == mn && |d.tables| == |sn|
    ensures d.initial == sn[initial]
    ensures forall i :: 0 <= i < |sn| ==> d.tables[i].name == sn[i]
  {
    Doc(sn[initial], sn, mn,
      seq(|sn|, i requires 0 <= i < |sn| => TableDoc(sn[i], RowChanges(sn, mn, t[i], i), false)))
  }

  /** The tables of the first `n` rows, in row order. */
  function SavedTables(sn: seq<Name>, mn: seq<Name>, t: Grid, n: int): (r: seq<TableDoc>)
    requires Shaped(t, |sn|, |mn|) && InRange(t, |sn|) && 0 <= n <= |sn|
    ensures |r| == n
  {
    if n == 0 then [] else SavedTables(sn, mn, t, n - 1) + [TableDoc(sn[n - 1], RowChanges(sn, mn, t[n - 1], n - 1), false)]
  }

  /** Building the tables row by row gives the saved document's tables. */
  lemma {:induction false} SavedTablesPrefix(initial: int, sn: seq<Name>, mn: seq<Name>, t: Grid, n: int)
    requires 0 <= initial < |sn| && Shaped(t, |sn|, |mn|) && InRange(t, |sn|) && 0 <= n <= |sn|
    ensures SavedTables(sn, mn, t, n) == SavedDoc(initial, sn, mn, t).tables[..n]
    decreases n
  {
    if n > 0 {
      SavedTablesPrefix(initial, sn, mn, t, n - 1);
      var tables := SavedDoc(initial, sn, mn, t).tables;
      assert tables[n - 1] == TableDoc(sn[n - 1], RowChanges(sn, mn, t[n - 1], n - 1), false);
      TakeOneMore(tables, n);
    }
  }

  /** The writes loading one saved row makes: (i, j, row[j]) for each non-self cell. */
  function RowWrites(row: seq<int>, i: int): (r: seq<Write>)
    ensures |r| <= |row|
    ensures forall k :: 0 <= k < |r| ==>
      r[k].state == i && 0 <= r[k].message < |row| && r[k].target == row[r[k].message] != i
  {
    if |row| == 0 then []
    else
      var j := |row| - 1;
      RowWrites(row[..j], i) + (if row[j] != i then [Write(i, j, row[j])] else [])
  }

  lemma TableWritesAppend(sn: seq<Name>, mn: seq<Name>, name: Name, c1: seq<Change>, c2: seq<Change>, offset: int)
    ensures TableWrites(sn, mn, TableDoc(name, c1 + c2, false), offset)
         == TableWrites(sn, mn, TableDoc(name, c1, false), offset) + TableWrites(sn, mn, TableDoc(name, c2, false), offset)
  {
  }

  /** Distinct names resolve a saved row back to the cells it came from. */
  lemma {:induction false} SavedRowResolves(sn: seq<Name>, mn: seq<Name>, row: seq<int>, i: int)
    requires Distinct(sn) && Distinct(mn) && 0 <= i < |sn|
    requires |row| <= |mn| && forall j :: 0 <= j < |row| ==> 0 <= row[j] < |sn|
    ensures TableWrites(sn, mn, TableDoc(sn[i], RowChanges(sn, mn, row, i), false), 0) == RowWrites(row, i)
    decreases |row|
  {
    if |row| > 0 {
      var j := |row| - 1;
      var tail := if row[j] != i then [Change(mn[j], sn[row[j]])] else [];
      SavedRowResolves(sn, mn, row[..j], i);
      TableWritesAppend(sn, mn, sn[i], RowChanges(sn, mn, row[..j], i), tail, 0);
      IndexOfDistinct(sn, i);
      if row[j] != i {
        IndexOfDistinct(mn, j);
        IndexOfDistinct(sn, row[j]);
      }
    }
  }

  /** The writes of a saved row address row `i` and name states of the table. */
  lemma RowWritesFit(g: Grid, m: nat, row: seq<int>, i: int)
    requires 0 <= i < |g| && |row| <= m && forall j :: 0 <= j < |row| ==> 0 <= row[j] < |g|
    ensures Fits(RowWrites(row, i), |g|, m)
  {
  }

  /** Every write of `ws1 + ws2` fits when those of `ws1` and `ws2` do. */
  lemma FitsAppend(ws1: seq<Write>, ws2: seq<Write>, n: int, m: int)
    requires Fits(ws1, n, m) && Fits(ws2, n, m)
    ensures Fits(ws1 + ws2, n, m)
  {
    forall k | 0 <= k < |ws1 + ws2|
      ensures 0 <= (ws1 + ws2)[k].state < n && 0 <= (ws1 + ws2)[k].message < m && 0 <= (ws1 + ws2)[k].target < n
    {
      if k >= |ws1| { assert (ws1 + ws2)[k] == ws2[k - |ws1|]; }
    }
  }

  /** The target of the last write to cell (a, b) in `ws`, or `d` when none writes it. */
  function LastWrite(ws: seq<Write>, a: int, b: int, d: int): int
  {
    if |ws| == 0 then d
    else
      var w := ws[|ws| - 1];
      if w.state == a && w.message == b then w.target else LastWrite(ws[..|ws| - 1], a, b, d)
  }

  /** A cell after a sequence of writes holds the last value written to it. */
  lemma {:induction false} ApplyWritesCell(t: Grid, m: nat, ws: seq<Write>, a: int, b: int)
    requires Shaped(t, |t|, m) && Fits(ws, |t|, m) && 0 <= a < |t| && 0 <= b < m
    ensures ApplyWrites(t, m, ws)[a][b] == LastWrite(ws, a, b, t[a][b])
    decreases |ws|
  {
    if |ws| > 0 {
      ApplyWritesCell(t, m, ws[..|ws| - 1], a, b);
    }
  }

  /** The last write of `ws1 + ws2` to a cell is the last of `ws2`, failing that of `ws1`. */
  lemma {:induction false} LastWriteAppend(ws1: seq<Write>, ws2: seq<Write>, a: int, b: int, d: int)
    ensures LastWrite(ws1 + ws2, a, b, d) == LastWrite(ws2, a, b, LastWrite(ws1, a, b, d))
    decreases |ws2|
  {
    if |ws2| == 0 {
      assert ws1 + ws2 == ws1;
    } else {
      assert (ws1 + ws2)[..|ws1 + ws2| - 1] == ws1 + ws2[..|ws2| - 1];
      LastWriteAppend(ws1, ws2[..|ws2| - 1], a, b, d);
    }
  }

  /** The writes of a saved row set exactly its non-self cells of row `i`. */
  lemma {:induction false} RowLastWrite(row: seq<int>, i: int, a: int, b: int, d: int)
    ensures LastWrite(RowWrites(row, i), a, b, d)
         == if a == i && 0 <= b < |row| && row[b] != i then row[b] else d
    decreases |row|
  {
    if |row| > 0 {
      var j := |row| - 1;
      var ws := RowWrites(row[..j], i);
      RowLastWrite(row[..j], i, a, b, d);
      if row[j] != i {
        var w := Write(i, j, row[j]);
        assert RowWrites(row, i) == ws + [w];
        assert (ws + [w])[..|ws|] == ws;
        assert LastWrite(ws + [w], a, b, d) == if a == i && b == j then row[j] else LastWrite(ws, a, b, d);
      } else {
        assert RowWrites(row, i) == ws;
      }
    }
  }

  /** Every write loading the first `k` tables of a saved document makes fits the table. */
  lemma {:induction false} SavedWritesFit(initial: int, sn: seq<Name>, mn: seq<Name>, t: Grid, k: nat)
    requires Distinct(sn) && Distinct(mn)
    requires 0 <= initial < |sn| && Shaped(t, |sn|, |mn|) && InRange(t, |sn|) && k <= |sn|
    ensures Fits(Writes(sn, mn, SavedDoc(initial, sn, mn, t).tables[..k], 0), |sn|, |mn|)
    ensures k > 0 ==>
      Writes(sn, mn, SavedDoc(initial, sn, mn, t).tables[..k], 0)
        == Writes(sn, mn, SavedDoc(initial, sn, mn, t).tables[..k - 1], 0) + RowWrites(t[k - 1], k - 1)
  {
    var tables := SavedDoc(initial, sn, mn, t).tables;
    if k == 0 {
      assert tables[..0] == [];
    } else {
      var i := k - 1;
      SavedWritesFit(initial, sn, mn, t, i);
      assert tables[..k][..i] == tables[..i];
      SavedRowResolves(sn, mn, t[i], i);
      var ws := Writes(sn, mn, tables[..i], 0);
      RowWritesFit(t, |mn|, t[i], i);
      FitsAppend(ws, RowWrites(t[i], i), |sn|, |mn|);
    }
  }

  /**
    * Loading the first `k` tables of a saved document writes, in each cell
    * of the first `k` rows, the saved target (or nothing when the target is
    * the row itself), and nothing in the other rows.
    */
  lemma {:induction false} LoadSavedTables(initial: int, sn: seq<Name>, mn: seq<Name>, t: Grid, k: nat, a: int, b: int)
    requires Distinct(sn) && Distinct(mn)
    requires 0 <= initial < |sn| && Shaped(t, |sn|, |mn|) && InRange(t, |sn|) && k <= |sn|
    requires 0 <= a < |sn| && 0 <= b < |mn|
    ensures LastWrite(Writes(sn, mn, SavedDoc(initial, sn, mn, t).tables[..k], 0), a, b, a)
         == if a < k then t[a][b] else a
  {
    var tables := SavedDoc(initial, sn, mn, t).tables;
    if k == 0 {
      assert tables[..0] == [];
    } else {
      var i := k - 1;
      LoadSavedTables(initial, sn, mn, t, i, a, b);
      SavedWritesFit(initial, sn, mn, t, k);
      var ws := Writes(sn, mn, tables[..i], 0);
      LastWriteAppend(ws, RowWrites(t[i], i), a, b, a);
      RowLastWrite(t[i], i, a, b, LastWrite(ws, a, b, a));
    }
  }

  /** Two tables of the same shape with the same cells are equal. */
  lemma SameCells(x: Grid, y: Grid, n: nat, m: nat)
    requires Shaped(x, n, m) && Shaped(y, n, m)
    requires forall a, b :: 0 <= a < n && 0 <= b < m ==> x[a][b] == y[a][b]
    ensures x == y
  {
    forall a | 0 <= a < n ensures x[a] == y[a] {
      assert forall b :: 0 <= b < m ==> x[a][b] == y[a][b];
    }
  }

  /**
    * Writes that leave in each cell of the self-loop table the value `t`
    * holds there rebuild `t`.
    */
  lemma ApplyByLastWrite(t: Grid, n: nat, m: nat, ws: seq<Write>)
    requires Shaped(t, n, m) && Fits(ws, n, m)
    requires forall a, b :: 0 <= a < n && 0 <= b < m ==> LastWrite(ws, a, b, a) == t[a][b]
    ensures ApplyWrites(SelfLoops(n, m), m, ws) == t
  {
    var S := SelfLoops(n, m);
    forall a, b | 0 <= a < n && 0 <= b < m
      ensures ApplyWrites(S, m, ws)[a][b] == t[a][b]
    {
      ApplyWritesCell(S, m, ws, a, b);
    }
    SameCells(ApplyWrites(S, m, ws), t, n, m);
  }

  /**
    * Round trip: loading the document saved from a machine with distinct
    * state and message names gives back its names, its table and its
    * initial state.
    */
  /** The saved tables, loaded onto self-loops, rebuild every cell. */
  lemma SavedCells(initial: int, sn: seq<Name>, mn: seq<Name>, t: Grid)
    requires Distinct(sn) && Distinct(mn)
    requires 0 <= initial < |sn| && Shaped(t, |sn|, |mn|) && InRange(t, |sn|)
    ensures Fits(Writes(sn, mn, SavedDoc(initial, sn, mn, t).tables, 0), |sn|, |mn|)
    ensures forall a, b :: 0 <= a < |sn| && 0 <= b < |mn| ==>
      LastWrite(Writes(sn, mn, SavedDoc(initial, sn, mn, t).tables, 0), a, b, a) == t[a][b]
  {
    var tables := SavedDoc(initial, sn, mn, t).tables;
    assert tables[..|sn|] == tables;
    SavedWritesFit(initial, sn, mn, t, |sn|);
    forall a, b | 0 <= a < |sn| && 0 <= b < |mn|
      ensures LastWrite(Writes(sn, mn, tables, 0), a, b, a) == t[a][b]
    {
      LoadSavedTables(initial, sn, mn, t, |sn|, a, b);
    }
  }

  lemma LoadInvertsSave(initial: int, sn: seq<Name>, mn: seq<Name>, t: Grid)
    requires Distinct(sn) && Distinct(mn)
    requires 0 <= initial < |sn| && Shaped(t, |sn|, |mn|) && InRange(t, |sn|)
    ensures var d := SavedDoc(initial, sn, mn, t);
      && Fits(Writes(d.stateNames, d.messageNames, d.tables, 0), |sn|, |mn|)
      && ApplyWrites(SelfLoops(|sn|, |mn|), |mn|, Writes(d.stateNames, d.messageNames, d.tables, 0)) == t
      && Clamp(IndexOf(d.stateNames, d.initial), |sn|) == initial
  {
    var d := SavedDoc(initial, sn, mn, t);
    SavedCells(initial, sn, mn, t);
    ApplyByLastWrite(t, |sn|, |mn|, Writes(sn, mn, d.tables, 0));
    IndexOfDistinct(sn, initial);
  }

  // ------------------------------------------------------------ loops

  /**
    * The first-match name lookup loop (GetStateFromName and the loop inside
    * GetMessageFromName): the index of the first slot equal to `x`, or -1.
    */
  method Find(names: array<Name>, x: Name) returns (r: int)
    ensures r == IndexOf(names[..], x)
  {
    var i := 0;
    while i < names.Length
      invariant 0 <= i <= names.Length
      invariant x !in names[..i]
    {
      if names[i] == x {
        assert names[..][i] == x && names[..][..i] == names[..i];
        return i;
      }
      assert names[..i + 1] == names[..i] + [names[i]];
      i := i + 1;
    }
    assert names[..] == names[..i];
    return -1;
  }

  /** `Set`'s allocation and fill loop: an `n` by `m` table of self-loops. */
  method NewSelfLoops(n: nat, m: nat) returns (a: array2<int>)
    ensures fresh(a) && a.Length0 == n && a.Length1 == m
    ensures Holds(a, SelfLoops(n, m))
  {
    a := new int[n, m]((_, _) => 0);
    for i := 0 to n
      invariant forall r, c :: 0 <= r < i && 0 <= c < m ==> a[r, c] == r
    {
      for j := 0 to m
        invariant forall r, c :: 0 <= r < i && 0 <= c < m ==> a[r, c] == r
        invariant forall c :: 0 <= c < j ==> a[i, c] == i
      {
        a[i, j] := i;
      }
    }
  }

  /** A fresh name array of `n` nulls: `new string[n]`. */
  method NewBlankNames(n: nat) returns (a: array<Name>)
    ensures fresh(a) && a[..] == Blank(n)
  {
    a := new Name[n](_ => None);
  }

  /**
    * The earliest `Set`'s allocation and fill loop. The C# indexes past the
    * new table unless the stale corner fits in it; the precondition says so.
    */
  method NewStaleFill(n: nat, m: nat, oldN: nat, oldM: nat) returns (a: array2<int>)
    requires oldN == 0 || oldM == 0 || (oldN <= n && oldM <= m)
    ensures fresh(a) && a.Length0 == n && a.Length1 == m
    ensures Holds(a, StaleFill(n, m, oldN, oldM))
  {
    a := new int[n, m]((_, _) => 0);
    for i := 0 to oldN
      invariant forall r, c :: 0 <= r < n && 0 <= c < m ==> a[r, c] == if r < i && c < oldM then r else 0
    {
      for j := 0 to oldM
        invariant forall r, c :: 0 <= r < n && 0 <= c < m ==>
          a[r, c] == if (r < i && c < oldM) || (r == i && c < j) then r else 0
      {
        a[i, j] := i;
      }
    }
  }

  /** `Resize`'s copy loop for the table; `t` is what `a` holds (nothing when `null`). */
  method ResizedCopy(a: array2?<int>, ghost t: Grid, n: nat, m: nat) returns (b: array2<int>)
    requires if a == null then t == [] else Holds(a, t)
    ensures fresh(b) && b.Length0 == n && b.Length1 == m
    ensures Holds(b, Resized(t, n, m))
  {
    ghost var spec := Resized(t, n, m);
    b := new int[n, m]((_, _) => 0);
    for i := 0 to n
      invariant forall r, c :: 0 <= r < i && 0 <= c < m ==> b[r, c] == spec[r][c]
    {
      for j := 0 to m
        invariant forall r, c :: 0 <= r < i && 0 <= c < m ==> b[r, c] == spec[r][c]
        invariant forall c :: 0 <= c < j ==> b[i, c] == spec[i][c]
      {
        if a != null && i < a.Length0 && j < a.Length1 && a[i, j] < n {
          b[i, j] := a[i, j];
        } else {
          b[i, j] := i;
        }
      }
    }
  }

  /** `Resize`'s copy loop for a name array. */
  method ResizedNamesCopy(names: array?<Name>, n: nat) returns (b: array<Name>)
    ensures fresh(b) && b[..] == ResizedNames(NamesOf(names), n)
  {
    b := new Name[n](_ => None);
    for i := 0 to n
      invariant forall k :: 0 <= k < i ==> b[k] == ResizedNames(NamesOf(names), n)[k]
      invariant forall k :: i <= k < n ==> b[k] == None
    {
      if names != null && i < names.Length {
        b[i] := names[i];
      }
    }
  }

  /**
    * `RemoveState(s)`'s copy loop AS WRITTEN: `cur` is the destination row
    * and the skip test compares it, not the source row, with `s`.
    */
  method RemovedStateCopy(a: array2<int>, ghost t: Grid, names: array<Name>, s: int) returns (b: array2<int>, nb: array<Name>)
    requires Holds(a, t) && a.Length0 == names.Length && 2 <= names.Length && 0 <= s < names.Length
    ensures fresh(b) && fresh(nb) && b.Length0 == a.Length0 - 1 && b.Length1 == a.Length1
    ensures Holds(b, RemovedStateAsWritten(t, a.Length1, s))
    ensures nb[..] == RemovedStateNamesAsWritten(names[..], s)
  {
    var n, m := a.Length0, a.Length1;
    ghost var spec := RemovedStateAsWritten(t, m, s);
    b := new int[n - 1, m]((_, _) => 0);
    nb := new Name[n - 1](_ => None);
    var cur := 0;
    for i := 0 to n
      invariant cur == if i <= s then i else s
      invariant forall r, c :: 0 <= r < n - 1 && 0 <= c < m ==> b[r, c] == if r < cur then spec[r][c] else 0
      invariant forall r :: 0 <= r < n - 1 ==> nb[r] == if r < cur then names[r] else None
    {
      if s != cur {
        RenamedRowCopy(a, b, i, cur, s);
        forall c | 0 <= c < m
          ensures b[cur, c] == spec[cur][c]
        {
          RemovedStateAsWrittenAt(t, m, s, cur, c);
        }
        nb[cur] := names[i];
        cur := cur + 1;
      }
    }
    assert forall r :: 0 <= r < n - 1 ==> nb[..][r] == RemovedStateNamesAsWritten(names[..], s)[r];
  }

  /** Row `i` of `a` copied into row `cur` of `b`, with transitions into `s` turned into self-loops. */
  method RenamedRowCopy(a: array2<int>, b: array2<int>, i: int, cur: int, s: int)
    requires a != b && a.Length1 == b.Length1 && 0 <= i < a.Length0 && 0 <= cur < b.Length0
    modifies b
    ensures forall r, c :: 0 <= r < b.Length0 && 0 <= c < b.Length1 ==>
      b[r, c] == if r != cur then old(b[r, c]) else if a[i, c] == s then cur else a[i, c]
  {
    for j := 0 to b.Length1
      invariant forall r, c :: 0 <= r < b.Length0 && 0 <= c < b.Length1 ==>
        b[r, c] == if r != cur || j <= c then old(b[r, c]) else if a[i, c] == s then cur else a[i, c]
    {
      if s == a[i, j] {
        b[cur, j] := cur;
      } else {
        b[cur, j] := a[i, j];
      }
    }
  }

  /** `RemoveMessage(c)`'s copy loop; the names are copied inside the row loop. */
  method RemovedMessageCopy(a: array2<int>, ghost t: Grid, names: array<Name>, c: int) returns (b: array2<int>, nb: array<Name>)
    requires Holds(a, t) && a.Length1 == names.Length && 2 <= names.Length && 0 <= c < names.Length
    ensures fresh(b) && fresh(nb) && b.Length0 == a.Length0 && b.Length1 == a.Length1 - 1
    ensures Holds(b, RemovedMessage(t, a.Length1, c))
    ensures nb[..] == RemovedMessageNames(names[..], c, a.Length0)
  {
    var n, m := a.Length0, a.Length1;
    b := new int[n, m - 1]((_, _) => 0);
    nb := new Name[m - 1](_ => None);
    for i := 0 to n
      invariant forall r, k :: 0 <= r < i && 0 <= k < m - 1 ==> b[r, k] == a[r, Skip(k, c)]
      invariant forall k :: 0 <= k < m - 1 ==> nb[k] == if i == 0 then None else names[Skip(k, c)]
    {
      SkippedRowCopy(a, names, b, nb, i, c);
    }
    assert forall k :: 0 <= k < m - 1 ==> nb[..][k] == RemovedMessageNames(names[..], c, n)[k];
  }

  /** Row `i` of `a` without column `c` copied into row `i` of `b`, and the names likewise. */
  method SkippedRowCopy(a: array2<int>, names: array<Name>, b: array2<int>, nb: array<Name>, i: int, c: int)
    requires a != b && names != nb && a.Length1 == names.Length && 0 <= c < names.Length
    requires b.Length0 == a.Length0 && b.Length1 == a.Length1 - 1 && nb.Length == names.Length - 1
    requires 0 <= i < a.Length0
    modifies b, nb
    ensures forall r, k :: 0 <= r < b.Length0 && 0 <= k < b.Length1 ==>
      b[r, k] == if r == i then a[i, Skip(k, c)] else old(b[r, k])
    ensures forall k :: 0 <= k < nb.Length ==> nb[k] == names[Skip(k, c)]
  {
    var cur := 0;
    for j := 0 to a.Length1
      invariant cur == if j <= c then j else j - 1
      invariant forall r, k :: 0 <= r < b.Length0 && 0 <= k < b.Length1 ==>
        b[r, k] == if r == i && k < cur then a[i, Skip(k, c)] else old(b[r, k])
      invariant forall k :: 0 <= k < nb.Length ==> nb[k] == if k < cur then names[Skip(k, c)] else old(nb[k])
    {
      if c != j {
        b[i, cur] := a[i, j];
        nb[cur] := names[j];
        cur := cur + 1;
      }
    }
  }

  /** The loop copying a document's names into a freshly allocated name array. */
  method CopyNames(names: array<Name>, list: seq<Name>)
    requires names.Length == |list|
    modifies names
    ensures names[..] == list
  {
    for i := 0 to |list|
      invariant names[..i] == list[..i]
    {
      names[i] := list[i];
      assert names[..i + 1] == names[..i] + [names[i]];
    }
    assert names[..] == names[..|list|] && list[..|list|] == list;
  }

  /** `Compare`'s loop over one pair of name arrays. */
  method SameNames(a: array<Name>, b: array<Name>) returns (r: bool)
    requires a.Length == b.Length
    ensures r <==> a[..] == b[..]
  {
    for i := 0 to a.Length
      invariant a[..i] == b[..i]
    {
      if a[i] != b[i] {
        assert a[..][i] != b[..][i];
        return false;
      }
      assert a[..i + 1] == a[..i] + [a[i]] && b[..i + 1] == b[..i] + [b[i]];
    }
    assert a[..] == a[..a.Length] && b[..] == b[..b.Length];
    return true;
  }

  /** `Compare`'s nested loop over the two tables. */
  method SameTable(a: array2<int>, b: array2<int>, ghost ta: Grid, ghost tb: Grid) returns (r: bool)
    requires Holds(a, ta) && Holds(b, tb) && a.Length0 == b.Length0 && a.Length1 == b.Length1
    ensures r <==> ta == tb
  {
    for i := 0 to a.Length0
      invariant forall x, y :: 0 <= x < i && 0 <= y < a.Length1 ==> a[x, y] == b[x, y]
    {
      for j := 0 to a.Length1
        invariant forall x, y :: 0 <= x < i && 0 <= y < a.Length1 ==> a[x, y] == b[x, y]
        invariant forall y :: 0 <= y < j ==> a[i, y] == b[i, y]
      {
        if a[i, j] != b[i, j] {
          assert ta[i][j] != tb[i][j];
          return false;
        }
      }
    }
    SameCells(ta, tb, a.Length0, a.Length1);
    return true;
  }

  // ----------------------------------------------------- appending names

  /**
    * A name array after `ReadNames` appends `list`: grown by as many slots
    * as the first pass counts absent entries, the new slots then filled by
    * the second pass (which runs only when there is something to add).
    */
  function Appended(names: seq<Name>, list: seq<Name>, offset: int): (r: seq<Name>)
    ensures |r| == |names| + CountAbsent(names, list, offset)
    ensures r[..|names|] == names
  {
    var k := CountAbsent(names, list, offset);
    var grown := names + Blank(k);
    assert grown[..|names|] == names;
    if k > 0 then FillAbsent(names, grown, |names|, list, offset) else grown
  }

  /** `ReadNames`'s counting pass. */
  method CountNew(names: array?<Name>, list: seq<Name>, offset: int) returns (c: nat)
    requires |list| > 0 ==> names != null
    ensures c == CountAbsent(NamesOf(names), list, offset)
  {
    c := 0;
    for i := 0 to |list|
      invariant c + CountAbsent(NamesOf(names), list[i..], offset) == CountAbsent(NamesOf(names), list, offset)
    {
      assert list[i..][1..] == list[i + 1..];
      var k := Find(names, list[i]);
      var index := if k == -1 then -1 else k + offset;
      if index == -1 {
        c := c + 1;
      }
    }
  }

  /** `ReadNames`'s filling pass: each entry still absent goes to the next blank slot. */
  method FillNames(names: array<Name>, ghost old_: seq<Name>, next: int, list: seq<Name>, offset: int)
    requires |old_| <= next && |old_| <= names.Length && names[..|old_|] == old_
    requires next + CountAbsent(old_, list, offset) <= names.Length
    modifies names
    ensures names[..] == FillAbsent(old_, old(names[..]), next, list, offset)
  {
    var nx := next;
    for i := 0 to |list|
      invariant |old_| <= nx && names[..|old_|] == old_
      invariant nx + CountAbsent(old_, list[i..], offset) <= names.Length
      invariant FillAbsent(old_, names[..], nx, list[i..], offset) == FillAbsent(old_, old(names[..]), next, list, offset)
    {
      assert list[i..][0] == list[i] && list[i..][1..] == list[i + 1..];
      var k := Find(names, list[i]);
      var index := if k == -1 then -1 else k + offset;
      if index == -1 {
        AbsentFromPrefix(old_, names[..], list[i], offset);
        names[nx] := list[i];
        nx := nx + 1;
      }
    }
  }

  // ---------------------------------------------------------- loading

  /** The writes of the first `k` tables are a prefix of those of all of them. */
  lemma {:induction false} WritesPrefix(sn: seq<Name>, mn: seq<Name>, tables: seq<TableDoc>, offset: int, k: nat)
    requires k <= |tables|
    ensures Writes(sn, mn, tables[..k], offset) <= Writes(sn, mn, tables, offset)
    ensures k < |tables| ==>
      Writes(sn, mn, tables[..k + 1], offset) == Writes(sn, mn, tables[..k], offset) + TableWrites(sn, mn, tables[k], offset)
    decreases |tables| - k
  {
    if k < |tables| {
      assert tables[..k + 1][..k] == tables[..k];
      WritesPrefix(sn, mn, tables, offset, k + 1);
    } else {
      assert tables[..k] == tables;
    }
  }

  /** A write that follows fitting writes addresses a cell too. */
  lemma FitsAt(prev: seq<Write>, tw: seq<Write>, l: int, n: int, m: int)
    requires Fits(prev + tw, n, m) && 0 <= l < |tw|
    ensures 0 <= tw[l].state < n && 0 <= tw[l].message < m && 0 <= tw[l].target < n
  {
    assert (prev + tw)[|prev| + l] == tw[l];
  }

  /** One more write changes only the cell it addresses. */
  lemma LastWriteSnoc(ws: seq<Write>, w: Write, a: int, b: int, d: int)
    ensures LastWrite(ws + [w], a, b, d) == if w.state == a && w.message == b then w.target else LastWrite(ws, a, b, d)
  {
    assert (ws + [w])[..|ws|] == ws;
  }

  /** The cells of `a` hold the last of the writes `ws` made over `t0`. */
  ghost predicate Loaded(a: array2<int>, ws: seq<Write>, t0: Grid)
    reads a
  {
    Shaped(t0, a.Length0, a.Length1) &&
    forall i, j :: 0 <= i < a.Length0 && 0 <= j < a.Length1 ==> a[i, j] == LastWrite(ws, i, j, t0[i][j])
  }

  /** One write into the table, extending the writes made so far. */
  method Store(a: array2<int>, w: Write, ghost t0: Grid, ghost done: seq<Write>)
    requires Loaded(a, done, t0)
    requires 0 <= w.state < a.Length0 && 0 <= w.message < a.Length1
    modifies a
    ensures Loaded(a, done + [w], t0)
  {
    a[w.state, w.message] := w.target;
    forall i, j | 0 <= i < a.Length0 && 0 <= j < a.Length1
      ensures a[i, j] == LastWrite(done + [w], i, j, t0[i][j])
    {
      LastWriteSnoc(done, w, i, j, t0[i][j]);
    }
  }

  /**
    * LoadStateTable: one table's transitions, each written after looking
    * its names up. `prev` are the writes made before.
    */
  method LoadTable(a: array2<int>, sn: array<Name>, mn: array<Name>, tb: TableDoc, offset: int,
                   ghost t0: Grid, ghost prev: seq<Write>)
    requires a.Length0 == sn.Length && a.Length1 == mn.Length
    requires Fits(prev + TableWrites(sn[..], mn[..], tb, offset), a.Length0, a.Length1)
    requires Loaded(a, prev, t0)
    modifies a
    ensures Loaded(a, prev + TableWrites(sn[..], mn[..], tb, offset), t0)
  {
    ghost var tw := TableWrites(sn[..], mn[..], tb, offset);
    var s := Find(sn, tb.name);
    var transitions := tb.transitions;
    assert prev + tw[..0] == prev;
    for l := 0 to |transitions|
      invariant Loaded(a, prev + tw[..l], t0)
    {
      var found := Find(mn, transitions[l].message);
      var message := if found == -1 then -1 else found + offset;
      var target := Find(sn, transitions[l].target);
      ghost var done := prev + tw[..l];
      assert Write(s, message - offset, target) == tw[l];
      FitsAt(prev, tw, l, a.Length0, a.Length1);
      Store(a, Write(s, message - offset, target), t0, done);
      assert prev + tw[..l + 1] == done + [tw[l]];
    }
    assert tw[..|transitions|] == tw;
  }

  /** LoadStateTables: every table of the document, in order. */
  method LoadTables(a: array2<int>, ghost t0: Grid, sn: array<Name>, mn: array<Name>, tables: seq<TableDoc>, offset: int)
    requires Holds(a, t0) && a.Length0 == sn.Length && a.Length1 == mn.Length
    requires Fits(Writes(sn[..], mn[..], tables, offset), a.Length0, a.Length1)
    modifies a
    ensures Holds(a, ApplyWrites(t0, a.Length1, Writes(sn[..], mn[..], tables, offset)))
  {
    ghost var ws := Writes(sn[..], mn[..], tables, offset);
    assert tables[..0] == [];
    for k := 0 to |tables|
      invariant Loaded(a, Writes(sn[..], mn[..], tables[..k], offset), t0)
    {
      WritesPrefix(sn[..], mn[..], tables, offset, k + 1);
      WritesPrefix(sn[..], mn[..], tables, offset, k);
      ghost var next := Writes(sn[..], mn[..], tables[..k + 1], offset);
      assert Fits(next, a.Length0, a.Length1) by {
        forall x | 0 <= x < |next| ensures 0 <= next[x].state < a.Length0 && 0 <= next[x].message < a.Length1 && 0 <= next[x].target < a.Length0 {
          assert next[x] == ws[x];
        }
      }
      LoadTable(a, sn, mn, tables[k], offset, t0, Writes(sn[..], mn[..], tables[..k], offset));
    }
    assert tables[..|tables|] == tables;
    forall i, j | 0 <= i < a.Length0 && 0 <= j < a.Length1
      ensures a[i, j] == ApplyWrites(t0, a.Length1, ws)[i][j]
    {
      ApplyWritesCell(t0, a.Length1, ws, i, j);
    }
  }
}
