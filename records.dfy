/**
 * A decoded line of the spam-label feed, reduced to the keys the script
 * reads: `type.fid`, `label_value` and `timestamp`.  A key the JSON object
 * does not have is `None`.
 */
module Records {
  import opened Wrappers
  import opened PyText

  /** The JSON value under `type.fid`: a number or a string. */
  datatype FidValue = IntFid(n: int) | StrFid(s: string)

  /** The record's `type` object. */
  datatype TypeInfo = TypeInfo(fid: Option<FidValue>)

  datatype SpamRecord = SpamRecord(typ: Option<TypeInfo>, labelValue: Option<int>, timestamp: Option<int>)

  /**
   * Python's `str(fid)`: a string FID is itself, a numeric FID is its
   * canonical decimal text (a sign only for negatives, no leading zero),
   * which reads back as the same number.
   */
  function FidText(f: FidValue): (s: string)
    ensures f.StrFid? ==> s == f.s
    ensures f.IntFid? ==> IsDecimalText(s) && DecimalToInt(s) == f.n
    ensures f.IntFid? ==> var digits := if f.n < 0 then s[1..] else s;
                          AllDigits(digits) && (digits[0] != '0' || digits == "0")
  {
    match f
    case IntFid(n) => IntToDecimal(n)
    case StrFid(s) => s
  }
}
