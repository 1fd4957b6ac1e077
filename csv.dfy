/**
 * The text of the CSV export and its file name (src/utils/csv.ts). The
 * pt-BR date and currency formatting are the parameters `formatDate` and
 * `formatMoney`; the current ISO instant is the parameter `isoNow`. Fields are
 * neither quoted nor escaped.
 */
module Csv {
  import opened Strings
  import opened ExpenseTypes

  const Headers: seq<string> := ["Data do pagamento", "Comentário/Descrição", "Valor", "Categoria", "Meio de Pagamento"]

  /** `headers.join(';')`. */
  function HeaderLine(): string
  {
    Join(Headers, ";")
  }

  /** The five cells of a record's row, in column order. */
  function Fields(e: Expense, formatDate: Timestamp -> string, formatMoney: int -> string): seq<string>
  {
    [formatDate(e.date), e.description, formatMoney(e.amount), e.category, e.paymentMethod]
  }

  /** One record's line: its cells joined by `;`. */
  function Row(e: Expense, formatDate: Timestamp -> string, formatMoney: int -> string): string
  {
    Join(Fields(e, formatDate, formatMoney), ";")
  }

  /** `expenses.map(...)`: one line per record, in the order given. */
  function Rows(s: seq<Expense>, formatDate: Timestamp -> string, formatMoney: int -> string): (rows: seq<string>)
    ensures |rows| == |s|
  {
    if |s| == 0 then [] else [Row(s[0], formatDate, formatMoney)] + Rows(s[1..], formatDate, formatMoney)
  }

  /** `csvContent`: the header line and then the rows, joined by newlines. */
  function Content(s: seq<Expense>, formatDate: Timestamp -> string, formatMoney: int -> string): string
  {
    Join([HeaderLine()] + Rows(s, formatDate, formatMoney), "\n")
  }

  /** `despesas_${new Date().toISOString().slice(0, 10)}.csv`. */
  function FileName(isoNow: string): string
  {
    "despesas_" + isoNow[..if |isoNow| < 10 then |isoNow| else 10] + ".csv"
  }

  /** No cell of any record contains `c`. */
  predicate CellsAvoid(s: seq<Expense>, formatDate: Timestamp -> string, formatMoney: int -> string, c: char)
  {
    forall i, k :: 0 <= i < |s| && 0 <= k < 5 ==> c !in Fields(s[i], formatDate, formatMoney)[k]
  }

  /** Row i is built from record i: the rows follow the input order, not the display order. */
  lemma {:induction false} RowsInInputOrder(s: seq<Expense>, formatDate: Timestamp -> string, formatMoney: int -> string)
    ensures forall i :: 0 <= i < |s| ==> Rows(s, formatDate, formatMoney)[i] == Row(s[i], formatDate, formatMoney)
  {
    if |s| > 0 {
      RowsInInputOrder(s[1..], formatDate, formatMoney);
    }
  }

  /** The header line reads back as the five labels. */
  lemma HeaderLineFields()
    ensures Split(HeaderLine(), ';') == Headers
  {
    assert forall k :: 0 <= k < 5 ==> ';' !in Headers[k];
    SplitJoin(Headers, ';');
  }

  /** A cell holding `;` splits its row into more pieces: each `;` inside a cell adds a field. */
  lemma RowFieldCount(e: Expense, formatDate: Timestamp -> string, formatMoney: int -> string)
    ensures |Split(Row(e, formatDate, formatMoney), ';')| == 5 + CountAll(Fields(e, formatDate, formatMoney), ';')
  {
    SplitCount(Row(e, formatDate, formatMoney), ';');
    CountJoin(Fields(e, formatDate, formatMoney), ';');
  }

  /** Without `;` in any cell, a row reads back as its five cells. */
  lemma RowReadsBack(e: Expense, formatDate: Timestamp -> string, formatMoney: int -> string)
    requires forall k :: 0 <= k < 5 ==> ';' !in Fields(e, formatDate, formatMoney)[k]
    ensures Split(Row(e, formatDate, formatMoney), ';') == Fields(e, formatDate, formatMoney)
  {
    SplitJoin(Fields(e, formatDate, formatMoney), ';');
  }

  /** No escaping: a description holding `;` yields a row of more than five fields. */
  lemma SemicolonInDescription(e: Expense, formatDate: Timestamp -> string, formatMoney: int -> string)
    requires ';' in e.description
    ensures |Split(Row(e, formatDate, formatMoney), ';')| > 5
  {
    RowFieldCount(e, formatDate, formatMoney);
    var f := Fields(e, formatDate, formatMoney);
    assert f[1..][0] == e.description;
  }

  lemma {:induction false} RowsAvoid(s: seq<Expense>, formatDate: Timestamp -> string, formatMoney: int -> string, c: char)
    requires c != ';' && CellsAvoid(s, formatDate, formatMoney, c)
    ensures forall i :: 0 <= i < |s| ==> c !in Rows(s, formatDate, formatMoney)[i]
  {
    RowsInInputOrder(s, formatDate, formatMoney);
    forall i | 0 <= i < |s|
      ensures c !in Rows(s, formatDate, formatMoney)[i]
    {
      var f := Fields(s[i], formatDate, formatMoney);
      var p := (ch: char) => ch != c;
      assert forall k, j :: 0 <= k < |f| && 0 <= j < |f[k]| ==> p(f[k][j]);
      JoinWithin(f, ";", p);
    }
  }

  /**
   * With no newline inside a cell, the content is exactly 1 + n lines: the
   * header line, then one row per record in input order, with no trailing
   * newline.
   */
  lemma ContentLines(s: seq<Expense>, formatDate: Timestamp -> string, formatMoney: int -> string)
    requires CellsAvoid(s, formatDate, formatMoney, '\n')
    ensures Split(Content(s, formatDate, formatMoney), '\n') == [HeaderLine()] + Rows(s, formatDate, formatMoney)
    ensures |Split(Content(s, formatDate, formatMoney), '\n')| == 1 + |s|
  {
    var lines := [HeaderLine()] + Rows(s, formatDate, formatMoney);
    LinesAvoidNewline(s, formatDate, formatMoney, lines);
    SplitJoin(lines, '\n');
  }

  lemma LinesAvoidNewline(s: seq<Expense>, formatDate: Timestamp -> string, formatMoney: int -> string, lines: seq<string>)
    requires CellsAvoid(s, formatDate, formatMoney, '\n')
    requires lines == [HeaderLine()] + Rows(s, formatDate, formatMoney)
    ensures forall i :: 0 <= i < |lines| ==> '\n' !in lines[i]
  {
    var rows := Rows(s, formatDate, formatMoney);
    RowsAvoid(s, formatDate, formatMoney, '\n');
    HeaderLineAvoidsNewline();
    forall i | 0 <= i < |lines|
      ensures '\n' !in lines[i]
    {
      if i > 0 {
        assert lines[i] == rows[i - 1];
      }
    }
  }

  lemma HeaderLineAvoidsNewline()
    ensures '\n' !in HeaderLine()
  {
    var p := (ch: char) => ch != '\n';
    forall k, j | 0 <= k < |Headers| && 0 <= j < |Headers[k]|
      ensures p(Headers[k][j])
    {
      assert Headers[k][j] in Headers[k];
      assert '\n' !in Headers[k];
    }
    JoinWithin(Headers, ";", p);
  }

  /** An empty list exports the header line alone. */
  lemma EmptyContent(formatDate: Timestamp -> string, formatMoney: int -> string)
    ensures Content([], formatDate, formatMoney) == HeaderLine()
  {
  }

  /** The file name is `despesas_`, the ISO date part (its first ten characters) and `.csv`. */
  lemma FileNameShape(isoNow: string)
    requires |isoNow| >= 10
    ensures |FileName(isoNow)| == 23
    ensures FileName(isoNow)[..9] == "despesas_" && FileName(isoNow)[9..19] == isoNow[..10] && FileName(isoNow)[19..] == ".csv"
  {
  }
}
