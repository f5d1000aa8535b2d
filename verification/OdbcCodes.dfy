/** Return codes, row statuses and small arithmetic shared by the other modules. */
module OdbcCodes {

  datatype Option<+T> = None | Some(value: T)

  /** SQLRETURN, reduced to the codes the modelled functions produce. */
  datatype Ret = Success | Info | Error | NoData

  /** The SQL_SUCCEEDED macro: SQL_SUCCESS or SQL_SUCCESS_WITH_INFO. */
  predicate Succeeded(r: Ret) {
    r.Success? || r.Info?
  }

  function Min(a: int, b: int): int {
    if a <= b then a else b
  }

  /** The row numbers from, from + 1, ... (count of them). */
  function Span(from: int, count: nat): seq<int> {
    seq(count, i => from + i)
  }
}
