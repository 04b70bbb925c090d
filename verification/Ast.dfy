/** SQL statements as the parser hands them to the engine. */
module Ast {
  import opened Comparison

  datatype LiteralType = StringLiteral | NumberLiteral

  datatype Literal = Literal(kind: LiteralType, text: string)

  /** `SELECT *` has no items and the star set. */
  datatype ColumnList = ColumnList(items: seq<string>, isStar: bool)

  datatype WhereClause = WhereClause(column: string, op: CompareOperator, value: Literal)

  datatype SelectStatement = SelectStatement(table: string, columns: ColumnList, hasWhere: bool, filter: WhereClause)

  datatype InsertStatement = InsertStatement(table: string, columns: ColumnList, values: seq<Literal>)

  datatype Statement = Selecting(select: SelectStatement) | Inserting(insert: InsertStatement)
}
