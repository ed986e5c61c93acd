/**
 The cron-expression library the job relies on, kept opaque: a compiled expression is an
 abstract type, and the library is a pair of total, deterministic functions given to the
 model as a value. Nothing is assumed about either beyond determinism.
 */
module Cronexpr {
  import opened Wrappers
  import opened GoInt

  /** A compiled schedule (`*cronexpr.Expression`). */
  type Expr

  /**
   `parse` stands for `cronexpr.Parse`: `None` when it reports an error.
   `next` stands for `Expression.Next` on whole Unix seconds: the first occurrence after the given time.
   */
  datatype Library = Library(parse: string -> Option<Expr>, next: (Expr, int64) -> int64)
}
