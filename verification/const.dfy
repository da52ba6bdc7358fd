/** The package-wide defaults of Const.java. */
module Const {

  /** Column delimiter: a single blank. */
  const DefaultDelimiter: string := " "

  /** 0-based key column used by the sorter. */
  const DefaultSortKey: int := 1

  /** 0-based key column used by the join. */
  const DefaultJoinKey: int := 1

  /** Columns a left-role relation leaves out of its rows by default: none. */
  const DefaultOmitLeftJoinKeys: set<int> := {}

  /** Columns a right-role relation leaves out of its rows by default: the first two. */
  const DefaultOmitRightJoinKeys: set<int> := {0, 1}
}
