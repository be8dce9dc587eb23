/**
 Inventory records as the CSV parser hands them over: one row per product, each
 named column a string or, when the cell or the column is absent, `undefined`.
 */
module Catalog {

  datatype Option<T> = None | Some(value: T)

  /** A spreadsheet cell: `None` stands for JavaScript's `undefined`. */
  type Cell = Option<string>

  /** One inventory row: the `Codigo`, `Descripcion`, `Credito` and `Efectivo` columns. */
  datatype Product = Product(code: Cell, description: Cell, credit: Cell, cash: Cell)

  /**
   A cell as the filter callback of `performSearch` reads it
   (`item.Codigo ? item.Codigo.toLowerCase() : ''`): an absent cell reads as the
   empty string, so a cell reads empty exactly when it is falsy.
   */
  function Text(cell: Cell): (s: string)
    ensures s == "" <==> cell == None || cell == Some("")
    ensures cell.Some? ==> s == cell.value
  {
    match cell
    case None => ""
    case Some(s) => s
  }

  /** `formatMoney`: a price cell as shown on a product card. */
  function FormatMoney(cell: Cell): (r: string)
    ensures |r| >= 2 && r[0] == '$'
    ensures Text(cell) != "" ==> r[1..] == Text(cell)
    ensures Text(cell) == "" ==> r == "$0"
  {
    if cell.Some? && cell.value != "" then "$" + cell.value else "$0"
  }

  /** Two non-empty prices are shown alike only when they are the same string. */
  lemma FormatMoneyInjective(a: Cell, b: Cell)
    requires Text(a) != "" && Text(b) != ""
    ensures FormatMoney(a) == FormatMoney(b) <==> Text(a) == Text(b)
  {
    if FormatMoney(a) == FormatMoney(b) {
      assert Text(a) == FormatMoney(a)[1..];
    }
  }

  /** The price is prefixed as it stands: a cell that already starts with "$" is shown with two. */
  lemma FormatMoneyKeepsSymbol(s: string)
    requires s != [] && s[0] == '$'
    ensures FormatMoney(Some(s))[..2] == "$$"
  {
  }
}
