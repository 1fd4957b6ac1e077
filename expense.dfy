/**
 * The expense record and the two closed enumerations offered by the form
 * (src/types/expense.ts). Amounts are integer cents; the transaction date and
 * the creation/update instants are integer timestamps.
 */
module ExpenseTypes {
  import opened Wrappers

  type Timestamp = int

  /** A stored record: every field is required except `updatedAt`. */
  datatype Expense = Expense(
    id: string,
    description: string,
    amount: int,
    date: Timestamp,
    category: string,
    paymentMethod: string,
    createdAt: Timestamp,
    updatedAt: Option<Timestamp>)

  /** `Omit<Expense, 'id' | 'createdAt'>`: what the form submits. */
  datatype Draft = Draft(
    description: string,
    amount: int,
    date: Timestamp,
    category: string,
    paymentMethod: string,
    updatedAt: Option<Timestamp>)

  /** The draft part of a record. */
  function DraftOf(e: Expense): Draft
  {
    Draft(e.description, e.amount, e.date, e.category, e.paymentMethod, e.updatedAt)
  }

  const Categories: seq<string> := [
    "Restaurantes", "Casa", "Mercado", "Carro", "Viagem", "Gatos", "Compras",
    "Saúde", "Esportes", "Entretenimento", "Presentes", "Transporte",
    "Reembolso", "Ateliê e oficina"
  ]

  const PaymentMethods: seq<string> := [
    "Pix Itaú", "Cartão XP", "Débito Itaú", "Dinheiro Vivo",
    "Manu emprestou", "Fernando emprestou"
  ]

  /** `typeof CATEGORIES[number]`: exactly the listed names. */
  type Category = s: string | s in Categories witness "Restaurantes"

  /** `typeof PAYMENT_METHODS[number]`: exactly the listed names. */
  type PaymentMethod = s: string | s in PaymentMethods witness "Pix Itaú"

  predicate Distinct(names: seq<string>)
  {
    forall i, j :: 0 <= i < j < |names| ==> names[i] != names[j]
  }

  lemma CategoriesAreDistinct()
    ensures |Categories| == 14 && Distinct(Categories)
  {
  }

  lemma PaymentMethodsAreDistinct()
    ensures |PaymentMethods| == 6 && Distinct(PaymentMethods)
  {
  }

  /** The record type stores category and payment method as plain text: nothing in it enforces membership. */
  lemma RecordAdmitsUnlistedNames()
    ensures exists e: Expense :: e.category !in Categories && e.paymentMethod !in PaymentMethods
  {
    var e := Expense("id", "", 0, 0, "", "", 0, None);
    assert "" !in Categories;
    assert "" !in PaymentMethods;
  }
}
