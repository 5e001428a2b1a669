/**
 * The edition cursor kept in cell H1 of the sheet: the number of the
 * last edition looked at. Reading it falls back to 53 whenever the cell
 * is empty, is not a plain decimal number, or cannot be read; writing it
 * stores the decimal form of the edition just tried.
 */
module Cursor {
  import opened Wrappers
  import opened Decimal

  /** The edition taken when the cell gives no usable number. */
  const Fallback := 53

  /** What `sheet.acell('H1').value` gives: the cell's value (`None` when empty), or an exception. */
  datatype CellRead = ReadFails | Cell(value: Option<string>)

  /** The cell holds a non-empty string of decimal digits. */
  predicate Usable(read: CellRead) {
    read.Cell? && read.value.Some? && read.value.value != "" && AllDigits(read.value.value)
  }

  /**
   * `carregar_ultima_edicao`: a usable cell is read as the number whose
   * decimal form it spells, leading zeros aside; anything else gives 53.
   */
  function Load(read: CellRead): (n: nat)
    ensures Usable(read) ==> exists k: nat :: read.value.value == Zeros(k) + ToDecimal(n)
    ensures !Usable(read) ==> n == Fallback
  {
    if Usable(read) then
      CanonicalForm(read.value.value);
      Value(read.value.value)
    else Fallback
  }

  /** `str(n_edicao)`, the text `salvar_ultima_edicao` writes to the cell. */
  function Store(n: nat): (s: string)
    ensures s != [] && AllDigits(s)
  {
    ToDecimal(n)
  }

  /** Reading back a stored edition gives that edition: the next run resumes after it. */
  lemma LoadStore(n: nat)
    ensures Load(Cell(Some(Store(n)))) == n
  {
    ValueOfDecimal(n);
  }
}
