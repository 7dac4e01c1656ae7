/**
 * Formulas as the parser hands them to the engine: numbers, references to
 * other cells (already resolved to canonical ids) and applications of the
 * operators of the `FNS` table.
 */
module Formula {
  import opened Wrappers

  /** A canonical cell id such as "a1". */
  type CellId = string

  /** The keys of `FNS`. */
  datatype Fn = Plus | Minus | Times | Divide | Min | Max

  datatype Ast = Num(v: real) | Ref(id: CellId) | App(fn: Fn, kids: seq<Ast>)

  /** `Math.min(...args)` for at least one argument. */
  function Least(args: seq<real>): (r: real)
    requires |args| > 0
    ensures r in args && forall x :: x in args ==> r <= x
  {
    if |args| == 1 then args[0]
    else
      var rest := Least(args[1..]);
      assert args == [args[0]] + args[1..];
      if args[0] <= rest then args[0] else rest
  }

  /** `Math.max(...args)` for at least one argument. */
  function Greatest(args: seq<real>): (r: real)
    requires |args| > 0
    ensures r in args && forall x :: x in args ==> x <= r
  {
    if |args| == 1 then args[0]
    else
      var rest := Greatest(args[1..]);
      assert args == [args[0]] + args[1..];
      if rest <= args[0] then args[0] else rest
  }

  /**
   * `FNS[fn](...args)`.  The binary operators read their first two
   * operands; `-` with a single operand negates it.  Division by zero and
   * arities the parser never produces give 0 here.
   */
  function Apply(fn: Fn, args: seq<real>): (r: real)
    ensures fn == Minus && |args| == 1 ==> r == -args[0]
    ensures fn == Min && |args| > 0 ==> r in args && forall x :: x in args ==> r <= x
    ensures fn == Max && |args| > 0 ==> r in args && forall x :: x in args ==> x <= r
  {
    match fn
    case Plus => if |args| >= 2 then args[0] + args[1] else 0.0
    case Minus =>
      if |args| == 1 then -args[0]
      else if |args| >= 2 then args[0] - args[1]
      else 0.0
    case Times => if |args| >= 2 then args[0] * args[1] else 0.0
    case Divide => if |args| >= 2 && args[1] != 0.0 then args[0] / args[1] else 0.0
    case Min => if |args| > 0 then Least(args) else 0.0
    case Max => if |args| > 0 then Greatest(args) else 0.0
  }

  /** The references of a formula in the order evaluation visits them. */
  function RefList(a: Ast): seq<CellId>
    decreases a
  {
    match a
    case Num(_) => []
    case Ref(id) => [id]
    case App(_, kids) => RefListKids(kids)
  }

  function RefListKids(kids: seq<Ast>): seq<CellId>
    decreases kids
  {
    if kids == [] then [] else RefListKids(kids[..|kids| - 1]) + RefList(kids[|kids| - 1])
  }

  /** The references of an optional formula (`null` has none). */
  function RefsOf(ast: Option<Ast>): seq<CellId> {
    if ast.Some? then RefList(ast.value) else []
  }
}
