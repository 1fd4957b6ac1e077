/**
 * The `useExpenses` view model (src/hooks/useExpenses.ts): the in-memory
 * `expenses` and the `loading` flag over the store. Every mutation writes to
 * the store and, only when the write succeeded, reloads the whole list. The
 * reload swallows its own failure, so a mutation whose write succeeded
 * reports success even when the list could not be refreshed.
 *
 * The UUID and the clock are parameters (`id`, `now`); store failures are the
 * oracle parameters `writeOk` and `readOk`.
 */
module UseExpenses {
  import opened Wrappers
  import opened ExpenseTypes
  import opened ExpenseStore

  /** What the user is told: a success toast, an error toast, or nothing at all. */
  datatype Outcome = Succeeded | Failed | Skipped

  /** `expenses.find(e => e.id === id)`: the first record carrying `id`. */
  function FindById(s: seq<Expense>, id: string): (r: Option<Expense>)
    ensures r.None? <==> forall i :: 0 <= i < |s| ==> s[i].id != id
    ensures r.Some? ==> r.value.id == id
    ensures r.Some? ==> exists i :: 0 <= i < |s| && s[i] == r.value && forall j :: 0 <= j < i ==> s[j].id != id
  {
    if |s| == 0 then None
    else if s[0].id == id then Some(s[0])
    else
      var r := FindById(s[1..], id);
      if r.Some? then
        var i :| 0 <= i < |s[1..]| && s[1..][i] == r.value && forall j :: 0 <= j < i ==> s[1..][j].id != id;
        assert s[i + 1] == r.value;
        r
      else r
  }

  /** The record `addExpense` builds: the draft's fields, a fresh id and the creation instant. */
  function NewRecord(draft: Draft, id: string, now: Timestamp): (r: Expense)
    ensures r.id == id && r.createdAt == now && DraftOf(r) == draft
  {
    Expense(id, draft.description, draft.amount, draft.date, draft.category, draft.paymentMethod, now, draft.updatedAt)
  }

  /**
   * `{...existing, ...expenseData, updatedAt: now}`: the draft and its id
   * override the existing record, `createdAt` is kept, and `updatedAt` is set
   * last, so whatever the draft carried there is discarded.
   */
  function Merge(existing: Expense, draft: Draft, id: string, now: Timestamp): (r: Expense)
    ensures r.id == id && r.createdAt == existing.createdAt && r.updatedAt == Some(now)
    ensures DraftOf(r) == draft.(updatedAt := Some(now))
  {
    Expense(id, draft.description, draft.amount, draft.date, draft.category, draft.paymentMethod,
            existing.createdAt, Some(now))
  }

  /** Merging the same edit twice gives what merging it once gave. */
  lemma MergeIdempotent(existing: Expense, draft: Draft, id: string, now: Timestamp)
    ensures Merge(Merge(existing, draft, id, now), draft, id, now) == Merge(existing, draft, id, now)
  {
  }

  /** Of the existing record only `createdAt` survives: the merge ignores every other field of it. */
  lemma MergeKeepsOnlyCreatedAt(a: Expense, b: Expense, draft: Draft, id: string, now: Timestamp)
    requires a.createdAt == b.createdAt
    ensures Merge(a, draft, id, now) == Merge(b, draft, id, now)
  {
  }

  /** Editing a record found by its id keeps its identity: same id, same creation instant. */
  lemma MergeOfFound(s: seq<Expense>, draft: Draft, id: string, now: Timestamp)
    requires FindById(s, id).Some?
    ensures var e := FindById(s, id).value;
      Merge(e, draft, id, now).id == e.id && Merge(e, draft, id, now).createdAt == e.createdAt
  {
  }

  /** In a freshly loaded list, looking an id up finds exactly the record the store holds under it. */
  lemma {:induction false} FindInListing(s: seq<Expense>, m: map<string, Expense>, id: string)
    requires Keyed(m) && IsListing(s, m)
    ensures FindById(s, id) == if id in m then Some(m[id]) else None
  {
    if id in m {
      var i :| 0 <= i < |s| && s[i].id == id;
      assert FindById(s, id).Some?;
    } else {
      assert forall i :: 0 <= i < |s| ==> s[i].id != id;
    }
  }

  class ExpensesHook {
    var expenses: seq<Expense>
    var loading: bool
    const db: Store

    ghost predicate Valid()
      reads this, db
    {
      db.Valid()
    }

    /** The initial state: no records, still loading. */
    constructor (store: Store)
      requires store.Valid()
      ensures db == store && Valid()
      ensures expenses == [] && loading
    {
      db := store;
      expenses := [];
      loading := true;
    }

    /**
     * `loadExpenses` (also `refreshExpenses`, and the mount effect): on success
     * the list is replaced wholesale by the store's records; on failure it is
     * kept. Loading is over either way.
     */
    method LoadExpenses(readOk: bool)
      requires Valid()
      modifies this, db
      ensures Valid() && db.records == old(db.records) && db.calls == old(db.calls) + [GetAllCall]
      ensures !loading
      ensures readOk ==> IsListing(expenses, db.records)
      ensures !readOk ==> expenses == old(expenses)
    {
      var data := db.GetAll(readOk);
      if data.Some? {
        expenses := data.value;
      }
      loading := false;
    }

    /** `addExpense`: insert the new record; reload only when the insert succeeded. */
    method AddExpense(draft: Draft, id: string, now: Timestamp, writeOk: bool, readOk: bool) returns (outcome: Outcome)
      requires Valid() && id !in db.records
      modifies this, db
      ensures Valid()
      ensures outcome == if writeOk then Succeeded else Failed
      ensures db.records == if writeOk then old(db.records)[id := NewRecord(draft, id, now)] else old(db.records)
      ensures db.calls == old(db.calls) + [InsertCall(NewRecord(draft, id, now))] + if writeOk then [GetAllCall] else []
      ensures writeOk && readOk ==> IsListing(expenses, db.records)
      ensures !(writeOk && readOk) ==> expenses == old(expenses)
      ensures loading == if writeOk then false else old(loading)
    {
      var expense := NewRecord(draft, id, now);
      var written := db.Insert(expense, writeOk);
      if !written {
        return Failed;
      }
      LoadExpenses(readOk);
      return Succeeded;
    }

    /**
     * `updateExpense`: an id missing from the in-memory list is a silent
     * no-op; otherwise the merged record is written, and the list reloaded
     * only when the write succeeded.
     */
    method UpdateExpense(draft: Draft, id: string, now: Timestamp, writeOk: bool, readOk: bool) returns (outcome: Outcome)
      requires Valid()
      modifies this, db
      ensures Valid()
      ensures FindById(old(expenses), id).None? ==>
        outcome == Skipped && expenses == old(expenses) && loading == old(loading) &&
        db.records == old(db.records) && db.calls == old(db.calls)
      ensures FindById(old(expenses), id).Some? ==>
        var merged := Merge(FindById(old(expenses), id).value, draft, id, now);
        var written := writeOk && id in old(db.records);
        outcome == (if written then Succeeded else Failed) &&
        db.records == (if written then old(db.records)[id := merged] else old(db.records)) &&
        db.calls == old(db.calls) + [UpdateCall(merged)] + (if written then [GetAllCall] else []) &&
        (written && readOk ==> IsListing(expenses, db.records)) &&
        (!(written && readOk) ==> expenses == old(expenses)) &&
        loading == (if written then false else old(loading))
    {
      var existing := FindById(expenses, id);
      if existing.None? {
        return Skipped;
      }
      var updated := Merge(existing.value, draft, id, now);
      var written := db.Update(updated, writeOk);
      if !written {
        return Failed;
      }
      LoadExpenses(readOk);
      return Succeeded;
    }

    /** `deleteExpense`: the store delete is issued whether or not the id is listed; reload on success. */
    method DeleteExpense(id: string, writeOk: bool, readOk: bool) returns (outcome: Outcome)
      requires Valid()
      modifies this, db
      ensures Valid()
      ensures outcome == if writeOk then Succeeded else Failed
      ensures db.records == if writeOk then old(db.records) - {id} else old(db.records)
      ensures db.calls == old(db.calls) + [DeleteCall(id)] + if writeOk then [GetAllCall] else []
      ensures writeOk && readOk ==> IsListing(expenses, db.records)
      ensures !(writeOk && readOk) ==> expenses == old(expenses)
      ensures loading == if writeOk then false else old(loading)
    {
      var deleted := db.Delete(id, writeOk);
      if !deleted {
        return Failed;
      }
      LoadExpenses(readOk);
      return Succeeded;
    }
  }
}
