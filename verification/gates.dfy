/** The eleven gate kinds, their truth functions and their half-gates parameters. */
module Gates {
  import Bits

  datatype GateType = And | Nand | Nimp | Imp | Ncimp | Cimp | Nor | Or | Xor | Xnor | Not

  /** The truth function of a gate. */
  function Truth(gt: GateType, a: bool, b: bool): bool {
    match gt
    case And => a && b
    case Nand => !(a && b)
    case Nimp => a && !b
    case Imp => !a || b
    case Ncimp => !a && b
    case Cimp => !b || a
    case Nor => !(a || b)
    case Or => a || b
    case Xor => a != b
    case Xnor => a == b
    case Not => !a
  }

  predicate IsFree(gt: GateType) {
    gt.Xor? || gt.Xnor? || gt.Not?
  }

  datatype Alphas = Alphas(a: bool, b: bool, c: bool)

  /** The constant table of half-gates parameters; the free gates hold placeholders. */
  function AlphasConst(gt: GateType): Alphas {
    match gt
    case And => Alphas(false, false, false)
    case Nand => Alphas(false, false, true)
    case Nimp => Alphas(false, true, false)
    case Imp => Alphas(false, true, true)
    case Ncimp => Alphas(true, false, false)
    case Cimp => Alphas(true, false, true)
    case Nor => Alphas(true, true, false)
    case Or => Alphas(true, true, true)
    case Xor | Xnor | Not => Alphas(false, false, false)
  }

  /** The gate that `Gate::and_variant` picks for three inversion flags. */
  function AndVariant(f0: bool, f1: bool, f2: bool): GateType {
    match (f0, f1, f2)
    case (false, false, false) => And
    case (false, false, true) => Nand
    case (false, true, false) => Nimp
    case (false, true, true) => Imp
    case (true, false, false) => Ncimp
    case (true, false, true) => Cimp
    case (true, true, false) => Nor
    case (true, true, true) => Or
  }

  /**
   * Every non-free gate is an AND with its inputs and output inverted as its parameters say.
   * The parameters are unique, and `AndVariant` is the inverse of the table.
   */
  lemma AlphasCharacterise(gt: GateType, al: Alphas)
    requires !IsFree(gt)
    ensures (forall a, b :: Truth(gt, a, b) == (((a != al.a) && (b != al.b)) != al.c)) <==> al == AlphasConst(gt)
    ensures AndVariant(al.a, al.b, al.c) == gt <==> al == AlphasConst(gt)
  {
    var f := (a: bool, b: bool) => ((a != al.a) && (b != al.b)) != al.c;
    if forall a, b :: Truth(gt, a, b) == f(a, b) {
      assert Truth(gt, false, false) == f(false, false) && Truth(gt, false, true) == f(false, true);
      assert Truth(gt, true, false) == f(true, false) && Truth(gt, true, true) == f(true, true);
    }
  }

  /** The gates by what they do to bits as numbers; a name with N in front is the negation. */
  lemma TruthNumbers(a: bool, b: bool)
    ensures var x, y := Bits.Bit(a), Bits.Bit(b);
            && Bits.Bit(Truth(And, a, b)) == x * y && Bits.Bit(Truth(Or, a, b)) == x + y - x * y
            && Bits.Bit(Truth(Xor, a, b)) == (x + y) % 2 && Bits.Bit(Truth(Not, a, b)) == 1 - x
            && (Truth(Imp, a, b) <==> x <= y) && (Truth(Cimp, a, b) <==> y <= x)
    ensures Truth(Nand, a, b) != Truth(And, a, b) && Truth(Nor, a, b) != Truth(Or, a, b)
    ensures Truth(Nimp, a, b) != Truth(Imp, a, b) && Truth(Ncimp, a, b) != Truth(Cimp, a, b)
    ensures Truth(Xnor, a, b) != Truth(Xor, a, b)
  {
  }
}
