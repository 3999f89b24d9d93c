/**
 * The one step of the curve-fitting scripts that belongs to the model: a
 * slippage column name is read back into its order size
 * (fitting/linearFitting.py, `int(col.split("_")[1])` over the columns
 * that start with `"Slippage_"`). The fits themselves are not modelled.
 */
module Fitting {
  import opened Wrappers
  import opened Text
  import opened Slippage

  const KeyPrefix: string := "Slippage_"

  /**
   * The order size a column stands for: `None` for a column that is not a
   * slippage column, or whose second `_`-piece is not a decimal number
   * (where `int` raises and the script skips the file).
   */
  function ParseOrderSize(column: string): Option<nat> {
    if !StartsWith(column, KeyPrefix) then None
    else
      assert column[8] == KeyPrefix[8];
      ParseDecimal(Split(column, '_')[1])
  }

  /** Reading a column name written by `compute_slippage_row` gives back its order size. */
  lemma KeyRoundTrip(size: nat)
    ensures StartsWith(SizeKey(size), KeyPrefix)
    ensures ParseOrderSize(SizeKey(size)) == Some(size)
  {
    var key := SizeKey(size);
    var digits := Decimal(size);
    assert key[..9] == KeyPrefix;
    assert '_' !in key[..8];
    SplitAtFirst(key, '_', 8);
    assert key[9..] == digits;
    FirstPiece(digits, '_');
    assert '_' !in digits;
    assert Split(key, '_')[1] == Split(digits, '_')[0] == digits;
    DecimalRoundTrip(size);
  }
}
