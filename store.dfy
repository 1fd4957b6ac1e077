/**
 * The persistent store behind the view model (`dbService`, from
 * src/services/indexedDB, is not part of this model): a collection of
 * records keyed by id whose every operation may fail. Failure is an oracle
 * parameter `ok`; a ghost log records which operations were called, in order.
 *
 * Choices where the store's behaviour is not visible: `Insert` is only called
 * with a fresh id, `Update` of an id the store does not hold fails (no
 * upsert), and `Delete` of an absent id succeeds.
 */
module ExpenseStore {
  import opened Wrappers
  import opened ExpenseTypes

  /** One call into the store, as recorded in the log. */
  datatype StoreCall = GetAllCall | InsertCall(e: Expense) | UpdateCall(e: Expense) | DeleteCall(id: string)

  /** Every record is filed under its own id. */
  predicate Keyed(m: map<string, Expense>)
  {
    forall id :: id in m ==> m[id].id == id
  }

  /** The ids of a sequence of records. */
  function Ids(s: seq<Expense>): set<string>
  {
    set i | 0 <= i < |s| :: s[i].id
  }

  predicate DistinctIds(s: seq<Expense>)
  {
    forall i, j :: 0 <= i < j < |s| ==> s[i].id != s[j].id
  }

  /** `s` lists the records of `m`, each exactly once, in some order. */
  predicate IsListing(s: seq<Expense>, m: map<string, Expense>)
  {
    (forall i :: 0 <= i < |s| ==> s[i].id in m && m[s[i].id] == s[i]) &&
    DistinctIds(s) &&
    (forall id :: id in m ==> exists i :: 0 <= i < |s| && s[i].id == id)
  }

  lemma {:induction false} DistinctIdsCount(s: seq<Expense>)
    requires DistinctIds(s)
    ensures |Ids(s)| == |s|
  {
    if |s| > 0 {
      var init := s[..|s| - 1];
      DistinctIdsCount(init);
      assert Ids(s) == Ids(init) + {s[|s| - 1].id};
      assert s[|s| - 1].id !in Ids(init);
    }
  }

  /** A listing has one entry per stored id. */
  lemma ListingLength(s: seq<Expense>, m: map<string, Expense>)
    requires IsListing(s, m)
    ensures |s| == |m|
  {
    assert Ids(s) == m.Keys;
    DistinctIdsCount(s);
  }

  /** Two listings of the same records hold the same records and the same number of them. */
  lemma ListingsAgree(s: seq<Expense>, t: seq<Expense>, m: map<string, Expense>)
    requires IsListing(s, m) && IsListing(t, m)
    ensures |s| == |t|
    ensures forall e :: e in s <==> e in t
  {
    ListingLength(s, m);
    ListingLength(t, m);
    forall e | e in s
      ensures e in t
    {
      var i :| 0 <= i < |s| && s[i] == e;
      var j :| 0 <= j < |t| && t[j].id == e.id;
    }
    forall e | e in t
      ensures e in s
    {
      var j :| 0 <= j < |t| && t[j] == e;
      var i :| 0 <= i < |s| && s[i].id == e.id;
    }
  }

  class Store {
    var records: map<string, Expense>
    ghost var calls: seq<StoreCall>

    ghost predicate Valid()
      reads this
    {
      Keyed(records)
    }

    constructor ()
      ensures Valid() && records == map[] && calls == []
    {
      records := map[];
      calls := [];
    }

    /** `getAll`: every stored record, in no particular order, or a storage failure. */
    method GetAll(ok: bool) returns (r: Option<seq<Expense>>)
      requires Valid()
      modifies this
      ensures Valid() && records == old(records) && calls == old(calls) + [GetAllCall]
      ensures r.Some? <==> ok
      ensures r.Some? ==> IsListing(r.value, records)
    {
      calls := calls + [GetAllCall];
      if !ok {
        return None;
      }
      var rest := records.Keys;
      var out: seq<Expense> := [];
      while rest != {}
        invariant rest <= records.Keys
        invariant forall i :: 0 <= i < |out| ==> out[i].id in records && records[out[i].id] == out[i] && out[i].id !in rest
        invariant DistinctIds(out)
        invariant forall id :: id in records ==> id in rest || exists i :: 0 <= i < |out| && out[i].id == id
        decreases rest
      {
        var id :| id in rest;
        ghost var before := out;
        out := out + [records[id]];
        rest := rest - {id};
        forall k | k in records && k !in rest
          ensures exists i :: 0 <= i < |out| && out[i].id == k
        {
          if k == id {
            assert out[|out| - 1].id == k;
          } else {
            var i :| 0 <= i < |before| && before[i].id == k;
            assert out[i].id == k;
          }
        }
      }
      return Some(out);
    }

    /** `addExpense`: files a record under its (fresh) id, or fails and changes nothing. */
    method Insert(e: Expense, ok: bool) returns (success: bool)
      requires Valid() && e.id !in records
      modifies this
      ensures Valid() && calls == old(calls) + [InsertCall(e)]
      ensures success == ok
      ensures records == if ok then old(records)[e.id := e] else old(records)
    {
      calls := calls + [InsertCall(e)];
      success := ok;
      if ok {
        records := records[e.id := e];
      }
    }

    /** `updateExpense`: replaces the record filed under `e.id`; fails if there is none. */
    method Update(e: Expense, ok: bool) returns (success: bool)
      requires Valid()
      modifies this
      ensures Valid() && calls == old(calls) + [UpdateCall(e)]
      ensures success <==> ok && e.id in old(records)
      ensures records == if success then old(records)[e.id := e] else old(records)
    {
      calls := calls + [UpdateCall(e)];
      success := ok && e.id in records;
      if success {
        records := records[e.id := e];
      }
    }

    /** `deleteExpense`: removes whatever is filed under `id`; an absent id is not an error. */
    method Delete(id: string, ok: bool) returns (success: bool)
      requires Valid()
      modifies this
      ensures Valid() && calls == old(calls) + [DeleteCall(id)]
      ensures success == ok
      ensures records == if ok then old(records) - {id} else old(records)
    {
      calls := calls + [DeleteCall(id)];
      success := ok;
      if ok {
        records := records - {id};
      }
    }
  }
}
