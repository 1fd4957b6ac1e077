/**
 * The page state of src/pages/Index.tsx: whether the form is shown, which
 * record (if any) it edits, and whether speech capture is running; plus the
 * dispatch of a submitted form to add or update. The recogniser itself is
 * not modelled: its three callbacks only clear `isListening`.
 */
module IndexPage {
  import opened Wrappers
  import opened ExpenseTypes
  import opened ExpenseStore
  import opened UseExpenses

  /** What the page renders. */
  datatype Screen = Spinner | FormScreen(initialData: Option<Expense>) | ListScreen

  class Page {
    var showForm: bool
    var editingExpense: Option<Expense>
    var isListening: bool
    const hook: ExpensesHook

    ghost predicate Valid()
      reads this, hook, hook.db
    {
      hook.Valid()
    }

    constructor (h: ExpensesHook)
      requires h.Valid()
      ensures hook == h && Valid()
      ensures !showForm && editingExpense.None? && !isListening
    {
      hook := h;
      showForm := false;
      editingExpense := None;
      isListening := false;
    }

    /** The spinner while loading; otherwise the form (seeded with the edited record) or the list. */
    function View(): (s: Screen)
      reads this, hook
      ensures s.Spinner? <==> hook.loading
      ensures s.FormScreen? <==> !hook.loading && showForm
      ensures s.FormScreen? ==> s.initialData == editingExpense
    {
      if hook.loading then Spinner
      else if showForm then FormScreen(editingExpense)
      else ListScreen
    }

    /** `handleManualEntry`: an empty form for a new record. */
    method ManualEntry()
      modifies this
      ensures editingExpense.None? && showForm && isListening == old(isListening)
    {
      editingExpense := None;
      showForm := true;
    }

    /** `handleEditExpense`: the form, seeded with the chosen record. */
    method EditExpense(e: Expense)
      modifies this
      ensures editingExpense == Some(e) && showForm && isListening == old(isListening)
    {
      editingExpense := Some(e);
      showForm := true;
    }

    /** The form's cancel handler: hide the form and forget the edited record. */
    method Cancel()
      modifies this
      ensures !showForm && editingExpense.None? && isListening == old(isListening)
    {
      showForm := false;
      editingExpense := None;
    }

    /**
     * `handleFormSubmit`: while editing, `updateExpense` with the edited
     * record's id, so an unlisted id is skipped and a listed one is merged and
     * written; otherwise `addExpense` of a new record. Either way the form is
     * hidden and the edited record forgotten afterwards.
     */
    method FormSubmit(data: Draft, newId: string, now: Timestamp, writeOk: bool, readOk: bool)
      requires Valid()
      requires editingExpense.None? ==> newId !in hook.db.records
      modifies this, hook, hook.db
      ensures Valid()
      ensures !showForm && editingExpense.None? && isListening == old(isListening)
      ensures old(editingExpense).Some? && FindById(old(hook.expenses), old(editingExpense).value.id).None? ==>
        hook.expenses == old(hook.expenses) && hook.loading == old(hook.loading) &&
        hook.db.records == old(hook.db.records) && hook.db.calls == old(hook.db.calls)
      ensures old(editingExpense).Some? && FindById(old(hook.expenses), old(editingExpense).value.id).Some? ==>
        var id := old(editingExpense).value.id;
        var merged := Merge(FindById(old(hook.expenses), id).value, data, id, now);
        var written := writeOk && id in old(hook.db.records);
        hook.db.records == (if written then old(hook.db.records)[id := merged] else old(hook.db.records)) &&
        hook.db.calls == old(hook.db.calls) + [UpdateCall(merged)] + (if written then [GetAllCall] else []) &&
        (written && readOk ==> IsListing(hook.expenses, hook.db.records)) &&
        (!(written && readOk) ==> hook.expenses == old(hook.expenses)) &&
        hook.loading == (if written then false else old(hook.loading))
      ensures old(editingExpense).None? ==>
        var e := NewRecord(data, newId, now);
        hook.db.records == (if writeOk then old(hook.db.records)[newId := e] else old(hook.db.records)) &&
        hook.db.calls == old(hook.db.calls) + [InsertCall(e)] + (if writeOk then [GetAllCall] else []) &&
        (writeOk && readOk ==> IsListing(hook.expenses, hook.db.records)) &&
        (!(writeOk && readOk) ==> hook.expenses == old(hook.expenses)) &&
        hook.loading == (if writeOk then false else old(hook.loading))
    {
      if editingExpense.Some? {
        var _ := hook.UpdateExpense(data, editingExpense.value.id, now, writeOk, readOk);
      } else {
        var _ := hook.AddExpense(data, newId, now, writeOk, readOk);
      }
      showForm := false;
      editingExpense := None;
    }

    /** `handleAudioCapture`: does nothing while a capture is running; otherwise starts one. */
    method AudioCapture()
      modifies this
      ensures isListening
      ensures showForm == old(showForm) && editingExpense == old(editingExpense)
      ensures old(isListening) ==> unchanged(this)
    {
      if isListening {
        return;
      }
      isListening := true;
    }

    /** The recogniser's result, error and end callbacks: the capture is over. */
    method CaptureFinished()
      modifies this
      ensures !isListening && showForm == old(showForm) && editingExpense == old(editingExpense)
    {
      isListening := false;
    }
  }
}
