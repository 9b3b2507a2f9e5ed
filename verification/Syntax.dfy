/** Lexemes, tokens and syntax trees of the expression grammar, and the lexical goals of
    section 7 of ECMA-262 5.1 that decide how a lexeme is read. */
module Syntax {
  import opened Sequences

  datatype Keyword = KThis | KNull | KTrue | KFalse | KDelete | KVoid | KTypeof | KInstanceof | KIn | KReserved | KOther

  /** An identifier name: the spelling of a keyword or any other one.  KReserved are the words that
      the lexer refuses, those reserved in strict mode among them. */
  datatype Name = Kw(k: Keyword) | Plain(s: string)

  datatype Literal = LNull | LTrue | LFalse | LNum(n: int) | LStr(name: Name)

  datatype BinOp =
    | Mul | Mod | Div | Add | Sub | Shl | Shr | Ushr
    | Lt | Gt | LtEq | GtEq | Instanceof
    | Eq | Ineq | FullEq | FullIneq
    | And | Xor | Or | LAnd | LOr | Comma

  datatype AssignOp =
    | Assign | MulAssign | DivAssign | ModAssign | AddAssign | SubAssign | ShlAssign | ShrAssign | UshrAssign
    | AndAssign | XorAssign | OrAssign

  datatype UnOp = Delete | Void | Typeof | PreInc | PreDec | Pos | Neg | Not | LNot | PostInc | PostDec

  datatype Expr =
    | EThis
    | ELit(l: Literal)
    | EMember(obj: Expr, key: Expr)
    | EUnary(uop: UnOp, arg: Expr)
    | EBin(bop: BinOp, left: Expr, right: Expr)
    | ECond(cond: Expr, yes: Expr, no: Expr)
    | EAssign(aop: AssignOp, target: Expr, value: Expr)

  datatype Punct =
    LParen | RParen | LBracket | RBracket | LBrace | RBrace | Point | Semicolon | Question | Colon
    | Tilde | Bang | PlusPlus | MinusMinus

  /** What stands in the source text; words are not yet told apart from keywords, and
      SOp(Div) and SAssign(DivAssign) are the texts / and /=. */
  datatype Sym = SLit(l: Literal) | SName(n: Name) | SOp(b: BinOp) | SAssign(a: AssignOp) | SPunct(p: Punct)

  /** A lexeme and whether a line terminator precedes it. */
  datatype Lexeme = Lexeme(sym: Sym, nl: bool)

  datatype Tok =
    | TThis | TLit(l: Literal) | TId(n: Name) | TWord(k: Keyword)
    | TOp(b: BinOp) | TAssign(a: AssignOp) | TPunct(p: Punct) | TIn | TEof

  /** The lexer's two mode flags: regexp allowed, keywords recognised. */
  datatype Goal = Goal(regexp: bool, parseId: bool)

  const OPERAND: Goal := Goal(true, true)
  const OPERATOR: Goal := Goal(false, true)
  const NAME_ONLY: Goal := Goal(false, false)

  function KeywordToken(k: Keyword): Option<Tok> {
    match k
    case KThis => Some(TThis)
    case KNull => Some(TLit(LNull))
    case KTrue => Some(TLit(LTrue))
    case KFalse => Some(TLit(LFalse))
    case KInstanceof => Some(TOp(Instanceof))
    case KIn => Some(TIn)
    case KReserved => None
    case _ => Some(TWord(k))
  }

  /** Reading one lexeme under a goal; None where the lexer's assertions stop the program:
      a regular expression literal, or a reserved word. */
  function Classify(s: Sym, g: Goal): Option<Tok> {
    match s
    case SLit(l) => if l.LNum? || l.LStr? then Some(TLit(l)) else None
    case SName(n) =>
      if !g.parseId then Some(TId(n))
      else (match n
            case Plain(_) => Some(TId(n))
            case Kw(k) => KeywordToken(k))
    case SOp(b) => if b == Instanceof || (b == Div && g.regexp) then None else Some(TOp(b))
    case SAssign(a) => if a == DivAssign && g.regexp then None else Some(TAssign(a))
    case SPunct(p) => Some(TPunct(p))
  }

  function UnaryToken(t: Tok): Option<UnOp> {
    match t
    case TWord(KDelete) => Some(Delete)
    case TWord(KVoid) => Some(Void)
    case TWord(KTypeof) => Some(Typeof)
    case TPunct(PlusPlus) => Some(PreInc)
    case TPunct(MinusMinus) => Some(PreDec)
    case TOp(Add) => Some(Pos)
    case TOp(Sub) => Some(Neg)
    case TPunct(Tilde) => Some(Not)
    case TPunct(Bang) => Some(LNot)
    case _ => None
  }

  /** The goal for the token that follows t, itself read under g: an operand is expected after
      operators and opening brackets, a name after a point, an operator otherwise. */
  function NextGoal(g: Goal, t: Tok): Goal {
    if g == OPERAND then
      if UnaryToken(t).Some? || t == TPunct(LParen) then OPERAND else OPERATOR
    else if g == NAME_ONLY then OPERATOR
    else
      match t
      case TOp(_) => OPERAND
      case TAssign(_) => OPERAND
      case TPunct(Question) => OPERAND
      case TPunct(Colon) => OPERAND
      case TPunct(LBracket) => OPERAND
      case TPunct(Point) => NAME_ONLY
      case _ => OPERATOR
  }

  /** The goal under which position i has to be read. */
  function GoalAt(input: seq<Lexeme>, i: nat): Goal
    requires i <= |input|
  {
    if i == 0 then OPERAND
    else
      var g := GoalAt(input, i - 1);
      match Classify(input[i - 1].sym, g)
      case Some(t) => NextGoal(g, t)
      case None => OPERATOR
  }

  // ----- grammar levels -----

  /** Level of a binary operator; each level is one function of the parser's cascade. */
  function Prec(b: BinOp): (l: nat)
    ensures 3 <= l <= 12 || l == 15
  {
    match b
    case Mul => 3 case Mod => 3 case Div => 3
    case Add => 4 case Sub => 4
    case Shl => 5 case Shr => 5 case Ushr => 5
    case Lt => 6 case Gt => 6 case LtEq => 6 case GtEq => 6 case Instanceof => 6
    case Eq => 7 case Ineq => 7 case FullEq => 7 case FullIneq => 7
    case And => 8
    case Xor => 9
    case Or => 10
    case LAnd => 11
    case LOr => 12
    case Comma => 15
  }

  const MEMBER: nat := 0
  const POSTFIX: nat := 1
  const UNARY: nat := 2
  const MUL: nat := 3
  const LOR: nat := 12
  const COND: nat := 13
  const ASSIGN: nat := 14
  const EXPR: nat := 15

  predicate BinaryLevel(l: nat) {
    MUL <= l <= LOR || l == EXPR
  }
}
