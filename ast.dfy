/**
 * The nodes the evaluator walks: the ASTNode classes of
 * peri_interpreter.py:54-74, plus the raw Python str that parse returns for
 * a name or a string literal and that visit evaluates to itself.
 */
module Ast {

  datatype Node =
    | Number(n: int)
    | BinOp(left: Node, op: string, right: Node)
    | Assign(name: string, value: Node)
    | Print(value: Node)
    | Str(text: string)
}
