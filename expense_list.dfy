/**
 * What the list component derives from its `expenses` prop
 * (src/components/ExpenseList.tsx): the total, the display order (a stable
 * sort of a copy, newest date first), the export guard and the per-row
 * edit/delete actions.
 */
module ExpenseList {
  import opened Wrappers
  import opened ExpenseTypes

  /** `expenses.reduce((sum, e) => sum + e.amount, 0)`, in cents: a left fold. */
  function Total(s: seq<Expense>): int
  {
    if |s| == 0 then 0 else Total(s[..|s| - 1]) + s[|s| - 1].amount
  }

  /** The left fold adds the first entry like any other. */
  lemma {:induction false} TotalCons(x: Expense, t: seq<Expense>)
    ensures Total([x] + t) == x.amount + Total(t)
  {
    if |t| > 0 {
      var s := [x] + t;
      assert s[..|s| - 1] == [x] + t[..|t| - 1];
      TotalCons(x, t[..|t| - 1]);
    } else {
      assert ([x] + t)[..0] == [];
    }
  }

  lemma {:induction false} TotalAppend(a: seq<Expense>, b: seq<Expense>)
    ensures Total(a + b) == Total(a) + Total(b)
  {
    if |b| > 0 {
      assert (a + b)[..|a + b| - 1] == a + b[..|b| - 1];
      TotalAppend(a, b[..|b| - 1]);
    } else {
      assert a + b == a;
    }
  }

  /** Newest first: each entry is dated no earlier than the one after it. */
  predicate SortedByDateDesc(s: seq<Expense>)
  {
    forall i :: 0 <= i < |s| - 1 ==> s[i].date >= s[i + 1].date
  }

  /** The entries dated `d`, in their order. */
  function WithDate(s: seq<Expense>, d: Timestamp): seq<Expense>
  {
    if |s| == 0 then [] else (if s[0].date == d then [s[0]] else []) + WithDate(s[1..], d)
  }

  /** Inserts `x` before the first entry dated no later than it, so it stays ahead of its equals. */
  function InsertByDate(x: Expense, t: seq<Expense>): seq<Expense>
  {
    if |t| == 0 || x.date >= t[0].date then [x] + t else [t[0]] + InsertByDate(x, t[1..])
  }

  /** `expenses.slice().sort((a, b) => date(b) - date(a))`: a stable sort of a copy, newest first. */
  function SortByDateDesc(s: seq<Expense>): seq<Expense>
  {
    if |s| == 0 then [] else InsertByDate(s[0], SortByDateDesc(s[1..]))
  }

  lemma {:induction false} InsertByDateProperties(x: Expense, t: seq<Expense>)
    requires SortedByDateDesc(t)
    ensures SortedByDateDesc(InsertByDate(x, t))
    ensures multiset(InsertByDate(x, t)) == multiset(t) + multiset{x}
    ensures |InsertByDate(x, t)| == |t| + 1
    ensures InsertByDate(x, t)[0] == x || (|t| > 0 && InsertByDate(x, t)[0] == t[0])
  {
    if |t| > 0 && x.date < t[0].date {
      InsertByDateProperties(x, t[1..]);
      assert t == [t[0]] + t[1..];
    }
  }

  /** The display order is newest first and holds exactly the entries of the list. */
  lemma {:induction false} SortByDateDescCorrect(s: seq<Expense>)
    ensures SortedByDateDesc(SortByDateDesc(s))
    ensures multiset(SortByDateDesc(s)) == multiset(s)
  {
    if |s| > 0 {
      SortByDateDescCorrect(s[1..]);
      InsertByDateProperties(s[0], SortByDateDesc(s[1..]));
      assert s == [s[0]] + s[1..];
    }
  }

  lemma WithDateCons(a: Expense, rest: seq<Expense>, d: Timestamp)
    ensures WithDate([a] + rest, d) == (if a.date == d then [a] else []) + WithDate(rest, d)
  {
    assert ([a] + rest)[1..] == rest;
  }

  lemma {:induction false} WithDateOfInsert(x: Expense, t: seq<Expense>, d: Timestamp)
    requires SortedByDateDesc(t)
    ensures WithDate(InsertByDate(x, t), d) == (if x.date == d then [x] else []) + WithDate(t, d)
  {
    if |t| == 0 || x.date >= t[0].date {
      WithDateCons(x, t, d);
    } else {
      var rest := InsertByDate(x, t[1..]);
      assert InsertByDate(x, t) == [t[0]] + rest;
      WithDateOfInsert(x, t[1..], d);
      WithDateCons(t[0], rest, d);
      WithDateCons(t[0], t[1..], d);
      assert t == [t[0]] + t[1..];
      if x.date == d {
        assert t[0].date != d;
      }
    }
  }

  /** Stability: the entries sharing a date appear in the display in the order they had in the list. */
  lemma {:induction false} SortByDateDescStable(s: seq<Expense>, d: Timestamp)
    ensures WithDate(SortByDateDesc(s), d) == WithDate(s, d)
  {
    if |s| > 0 {
      SortByDateDescCorrect(s[1..]);
      SortByDateDescStable(s[1..], d);
      WithDateOfInsert(s[0], SortByDateDesc(s[1..]), d);
    }
  }

  /** Reordering for display does not change the total. */
  lemma {:induction false} TotalOfDisplayOrder(s: seq<Expense>)
    ensures Total(SortByDateDesc(s)) == Total(s)
  {
    if |s| > 0 {
      TotalOfDisplayOrder(s[1..]);
      TotalOfInsert(s[0], SortByDateDesc(s[1..]));
      TotalCons(s[0], s[1..]);
      assert s == [s[0]] + s[1..];
    }
  }

  lemma {:induction false} TotalOfInsert(x: Expense, t: seq<Expense>)
    ensures Total(InsertByDate(x, t)) == x.amount + Total(t)
  {
    if |t| == 0 || x.date >= t[0].date {
      TotalCons(x, t);
    } else {
      TotalOfInsert(x, t[1..]);
      TotalCons(t[0], InsertByDate(x, t[1..]));
      TotalCons(t[0], t[1..]);
      assert t == [t[0]] + t[1..];
    }
  }

  /** `handleExport`: the list (unsorted, as given) is exported only when it is non-empty. */
  function HandleExport(s: seq<Expense>): (r: Option<seq<Expense>>)
    ensures r.Some? <==> |s| > 0
    ensures r.Some? ==> r.value == s
  {
    if |s| > 0 then Some(s) else None
  }

  /** `disabled={expenses.length === 0}`. */
  predicate ExportDisabled(s: seq<Expense>)
  {
    |s| == 0
  }

  /** Whenever the export button is enabled, pressing it exports. */
  lemma ExportEnabledExports(s: seq<Expense>)
    ensures !ExportDisabled(s) <==> HandleExport(s).Some?
  {
  }

  /** What one displayed row hands to its buttons: the entry to edit, the id to delete. */
  datatype RowAction = RowAction(edit: Expense, deleteId: string)

  /** The rows in display order, each wired to its own entry. */
  function RowActions(s: seq<Expense>): (rows: seq<RowAction>)
  {
    var shown := SortByDateDesc(s);
    seq(|shown|, i requires 0 <= i < |shown| => RowAction(shown[i], shown[i].id))
  }

  /** Every row edits an entry of the list and deletes exactly that entry's id; there is one row per entry. */
  lemma RowActionsTargetListed(s: seq<Expense>)
    ensures |RowActions(s)| == |s|
    ensures forall i :: 0 <= i < |RowActions(s)| ==>
      RowActions(s)[i].edit in s && RowActions(s)[i].deleteId == RowActions(s)[i].edit.id
    ensures forall i :: 0 <= i < |RowActions(s)| ==>
      RowActions(s)[i] == RowAction(SortByDateDesc(s)[i], SortByDateDesc(s)[i].id)
  {
    SortByDateDescCorrect(s);
    var shown := SortByDateDesc(s);
    assert |multiset(shown)| == |multiset(s)|;
    forall i | 0 <= i < |RowActions(s)|
      ensures RowActions(s)[i].edit in s
    {
      assert shown[i] in multiset(shown);
    }
  }
}
