/** 32-bit words as signed integers, and comparisons. */
module Words {
  predicate IsWord(x: int) {
    -0x8000_0000 <= x < 0x8000_0000
  }

  /** The signed value of the low 32 bits. */
  function Wrap(x: int): (r: int)
    ensures IsWord(r)
    ensures (r - x) % 0x1_0000_0000 == 0
  {
    (x + 0x8000_0000) % 0x1_0000_0000 - 0x8000_0000
  }

  /** C's division: the quotient is rounded toward zero. */
  function Quotient(a: int, b: int): int
    requires b != 0
  {
    if a >= 0 then (if b > 0 then a / b else -(a / -b))
    else if b > 0 then -(-a / b) else -a / -b
  }

  function Pow2(n: nat): (r: nat)
    ensures r >= 1
  {
    if n == 0 then 1 else 2 * Pow2(n - 1)
  }

  function Unsigned(x: int): nat {
    x % 0x1_0000_0000
  }

  datatype Rel = Eq | Ne | Lt | Ge | Gt | Le

  predicate Holds(rel: Rel, a: int, b: int) {
    match rel
    case Eq => a == b
    case Ne => a != b
    case Lt => a < b
    case Ge => a >= b
    case Gt => a > b
    case Le => a <= b
  }

  datatype BinOp = Add | Sub | Mul | Div | Rem | Lsl | Lsr | Asr | Test(rel: Rel)
  datatype UnOp = Not | Neg

  predicate DividesByZero(op: BinOp, b: int) {
    (op.Div? || op.Rem?) && b == 0
  }

  /** Shift amounts count modulo 32. */
  function Apply(op: BinOp, a: int, b: int): int
    requires !DividesByZero(op, b)
  {
    match op
    case Add => Wrap(a + b)
    case Sub => Wrap(a - b)
    case Mul => Wrap(a * b)
    case Div => Wrap(Quotient(a, b))
    case Rem => Wrap(a - b * Quotient(a, b))
    case Lsl => Wrap(a * Pow2(b % 32))
    case Lsr => Wrap(Unsigned(a) / Pow2(b % 32))
    case Asr => Wrap(a / Pow2(b % 32))
    case Test(rel) => if Holds(rel, a, b) then 1 else 0
  }

  function ApplyUn(op: UnOp, a: int): int {
    match op
    case Not => if a == 0 then 1 else 0
    case Neg => Wrap(-a)
  }

  /** Congruent modulo 2^32. */
  predicate Same(x: int, y: int) {
    (x - y) % 0x1_0000_0000 == 0
  }

  lemma WrapWord(x: int)
    requires IsWord(x)
    ensures Wrap(x) == x
  {
  }
}
