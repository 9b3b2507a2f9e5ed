/** The productions of section 11 of ECMA-262, written out, and what they do to texts. */
module Productions {
  import opened Sequences
  import opened Syntax
  import opened Parse
  import opened Derivation

  datatype Nonterminal =
    | MemberE | PostfixE | UnaryE | Multiplicative | Additive | Shift | Relational | Equality
    | BitAnd | BitXor | BitOr | LogicalAnd | LogicalOr | Conditional | Assignment | Expression

  /** The place of a nonterminal in the order of the standard. */
  function Rank(n: Nonterminal): (r: nat)
    ensures r <= 15
  {
    match n
    case MemberE => 0
    case PostfixE => 1
    case UnaryE => 2
    case Multiplicative => 3
    case Additive => 4
    case Shift => 5
    case Relational => 6
    case Equality => 7
    case BitAnd => 8
    case BitXor => 9
    case BitOr => 10
    case LogicalAnd => 11
    case LogicalOr => 12
    case Conditional => 13
    case Assignment => 14
    case Expression => 15
  }

  // ----- the productions -----

  /** The left-associative rows: the nonterminal below each, and its operators. */
  predicate IsRow(n: Nonterminal) {
    n !in {MemberE, PostfixE, UnaryE, Conditional, Assignment}
  }

  function Below(n: Nonterminal): (b: Nonterminal)
    requires IsRow(n)
    ensures Rank(b) + 1 == Rank(n)
  {
    match n
    case Multiplicative => UnaryE
    case Additive => Multiplicative
    case Shift => Additive
    case Relational => Shift
    case Equality => Relational
    case BitAnd => Equality
    case BitXor => BitAnd
    case BitOr => BitXor
    case LogicalAnd => BitOr
    case LogicalOr => LogicalAnd
    case Expression => Assignment
  }

  function Operators(n: Nonterminal): set<BinOp>
    requires IsRow(n)
  {
    match n
    case Multiplicative => {Mul, Div, Mod}
    case Additive => {Add, Sub}
    case Shift => {Shl, Shr, Ushr}
    case Relational => {Lt, Gt, LtEq, GtEq, Instanceof}
    case Equality => {Eq, Ineq, FullEq, FullIneq}
    case BitAnd => {And}
    case BitXor => {Xor}
    case BitOr => {Or}
    case LogicalAnd => {LAnd}
    case LogicalOr => {LOr}
    case Expression => {Comma}
  }

  /** The derivation follows the productions of the nonterminal.  The target of an assignment is
      any expression below a conditional, since the source leaves that check to later. */
  predicate Produces(n: Nonterminal, s: Syn)
    decreases s, Rank(n)
  {
    match n
    case MemberE =>
      (match s
       case DThis(_) => true
       case DLit(_, _) => true
       case DParen(_, inner, _) => Produces(Expression, inner)
       case DDot(obj, _, _, _) => Produces(MemberE, obj)
       case DIndex(obj, _, key, _) => Produces(MemberE, obj) && Produces(Expression, key)
       case _ => false)
    case PostfixE => Produces(MemberE, s) || (s.DPost? && Produces(MemberE, s.arg))
    case UnaryE =>
      Produces(PostfixE, s)
      || (s.DUnary? && s.op in {Delete, Void, Typeof, PreInc, PreDec, Pos, Neg, Not, LNot} && Produces(UnaryE, s.arg))
    case Conditional =>
      Produces(LogicalOr, s)
      || (s.DCond? && Produces(LogicalOr, s.cond) && Produces(Assignment, s.yes) && Produces(Assignment, s.no))
    case Assignment =>
      Produces(Conditional, s) || (s.DAssign? && Produces(LogicalOr, s.target) && Produces(Assignment, s.value))
    case _ =>
      Produces(Below(n), s)
      || (s.DBin? && s.bop in Operators(n) && Produces(n, s.left) && Produces(Below(n), s.right))
  }

  /** The derivations that the parser is proved against are those of the productions. */
  lemma {:induction false} ProducesIff(n: Nonterminal, s: Syn)
    ensures Produces(n, s) <==> Derives(s) && Level(s) <= Rank(n)
    decreases s, Rank(n), 1
  {
    hide Produces, Derives, Rank, Prec;
    if IsRow(n) {
      RowIff(n, s);
    } else if n == MemberE || n == PostfixE || n == UnaryE {
      LowIff(n, s);
    } else {
      HighIff(n, s);
    }
  }

  lemma {:induction false} LowIff(n: Nonterminal, s: Syn)
    requires n == MemberE || n == PostfixE || n == UnaryE
    ensures Produces(n, s) <==> Derives(s) && Level(s) <= Rank(n)
    decreases s, Rank(n), 0
  {
    hide Prec;
    if n == MemberE {
      match s {
        case DParen(_, inner, _) => ProducesIff(Expression, inner);
        case DDot(obj, _, _, _) => ProducesIff(MemberE, obj);
        case DIndex(obj, _, key, _) =>
          ProducesIff(MemberE, obj);
          ProducesIff(Expression, key);
        case _ =>
      }
    } else if n == PostfixE {
      ProducesIff(MemberE, s);
      if s.DPost? { ProducesIff(MemberE, s.arg); }
    } else {
      ProducesIff(PostfixE, s);
      if s.DUnary? { ProducesIff(UnaryE, s.arg); }
    }
  }

  lemma {:induction false} HighIff(n: Nonterminal, s: Syn)
    requires n == Conditional || n == Assignment
    ensures Produces(n, s) <==> Derives(s) && Level(s) <= Rank(n)
    decreases s, Rank(n), 0
  {
    hide Prec;
    if n == Conditional {
      ProducesIff(LogicalOr, s);
      if s.DCond? {
        ProducesIff(LogicalOr, s.cond);
        ProducesIff(Assignment, s.yes);
        ProducesIff(Assignment, s.no);
      }
    } else {
      ProducesIff(Conditional, s);
      if s.DAssign? {
        ProducesIff(LogicalOr, s.target);
        ProducesIff(Assignment, s.value);
      }
    }
  }

  lemma {:induction false} RowIff(n: Nonterminal, s: Syn)
    requires IsRow(n)
    ensures Produces(n, s) <==> Derives(s) && Level(s) <= Rank(n)
    decreases s, Rank(n), 0
  {
    hide Rank, Prec, Operators, Below, IsRow;
    ProducesRow(n, s);
    ProducesIff(Below(n), s);
    BelowIsNext(n);
    OnlyRowsAt(n, s);
    if s.DBin? {
      ProducesIff(n, s.left);
      ProducesIff(Below(n), s.right);
    }
  }

  lemma ProducesRow(n: Nonterminal, s: Syn)
    requires IsRow(n)
    ensures Produces(n, s) <==>
      Produces(Below(n), s)
      || (s.DBin? && s.bop in Operators(n) && Produces(n, s.left) && Produces(Below(n), s.right))
  {
    hide Below, Operators;
  }

  lemma BelowIsNext(n: Nonterminal)
    requires IsRow(n)
    ensures Rank(Below(n)) + 1 == Rank(n)
  {
  }

  /** Derivations of the level of a row are made by its operators. */
  lemma OnlyRowsAt(n: Nonterminal, s: Syn)
    requires IsRow(n)
    ensures Level(s) == Rank(n) ==> s.DBin?
    ensures s.DBin? ==> (s.bop in Operators(n) <==> Level(s) == Rank(n)) && Level(s) == Prec(s.bop)
  {
  }

  // ----- what the parser accepts, by the productions -----

  /** A lexeme that the lexer refuses where an operator is due: a reserved word.  The other
      symbols here are spelled by no lexeme. */
  predicate Refused(s: Sym) {
    s == SName(Kw(KReserved)) || s == SOp(Instanceof) || (s.SLit? && !s.l.LNum? && !s.l.LStr?)
  }

  /** A lexeme with which the productions of n could go on; behind a postfix operator there are
      no accesses and no second one. */
  ghost predicate GoesOnWith(n: Nonterminal, post: bool, x: Lexeme) {
    match x.sym
    case SPunct(Point) => !post
    case SPunct(LBracket) => !post
    case SPunct(PlusPlus) => !post && n != MemberE && !x.nl
    case SPunct(MinusMinus) => !post && n != MemberE && !x.nl
    case SPunct(Question) => n in {Conditional, Assignment, Expression}
    case SAssign(_) => n in {Assignment, Expression}
    case SOp(b) => exists m :: IsRow(m) && b in Operators(m) && Rank(m) <= Rank(n)
    case SName(k) => k == Kw(KInstanceof) && Rank(Relational) <= Rank(n)
    case _ => false
  }

  /** The text behind a derivation can be read and does not go on; the last part of a bare
      conditional is an assignment, and the unary levels do not look behind a postfix operator. */
  ghost predicate Longest(n: Nonterminal, s: Syn, r: seq<Lexeme>) {
    (EndsPost(s) && n in {MemberE, PostfixE, UnaryE})
    || r == []
    || (!Refused(r[0].sym) && !GoesOnWith(if s.DCond? && n == Conditional then Assignment else n, EndsPost(s), r[0]))
  }

  lemma RowOfOperator(b: BinOp) returns (m: Nonterminal)
    ensures IsRow(m) && b in Operators(m) && Prec(b) == Rank(m)
  {
    match b
    case Mul => m := Multiplicative;
    case Div => m := Multiplicative;
    case Mod => m := Multiplicative;
    case Add => m := Additive;
    case Sub => m := Additive;
    case Shl => m := Shift;
    case Shr => m := Shift;
    case Ushr => m := Shift;
    case Eq => m := Equality;
    case Ineq => m := Equality;
    case FullEq => m := Equality;
    case FullIneq => m := Equality;
    case And => m := BitAnd;
    case Xor => m := BitXor;
    case Or => m := BitOr;
    case LAnd => m := LogicalAnd;
    case LOr => m := LogicalOr;
    case Comma => m := Expression;
    case _ => m := Relational;
  }

  lemma GoesOnIff(n: Nonterminal, post: bool, x: Lexeme)
    requires !Refused(x.sym)
    ensures Classify(x.sym, OPERATOR).Some?
    ensures GoesOnWith(n, post, x) <==> Continues(Rank(n), post, Classify(x.sym, OPERATOR).value, x.nl)
  {
    hide Operators, IsRow;
    if x.sym.SOp? {
      var b := x.sym.b;
      var m := RowOfOperator(b);
      forall o | IsRow(o) && b in Operators(o) ensures Prec(b) == Rank(o) {
        OnlyRowsAt(o, DBin(DThis(false), false, b, DThis(false)));
      }
    }
  }

  lemma RefusedIff(s: Sym)
    ensures Refused(s) <==> Classify(s, OPERATOR) == None
  {
  }

  lemma LongestIff(n: Nonterminal, s: Syn, r: seq<Lexeme>)
    requires Produces(n, s)
    ensures Longest(n, s, r) <==> Follows(Reach(Rank(n), s), EndsPost(s), r)
  {
    hide Produces, GoesOnWith, Continues, Refused, Classify, EndsPost;
    ProducesIff(n, s);
    ReachIs(n, s);
    if r != [] {
      RefusedIff(r[0].sym);
      if !Refused(r[0].sym) {
        GoesOnIff(if s.DCond? && n == Conditional then Assignment else n, EndsPost(s), r[0]);
      }
    } else {
      EndGoesNowhere(Reach(Rank(n), s), EndsPost(s));
    }
  }

  lemma EndGoesNowhere(l: nat, post: bool)
    ensures Follows(l, post, [])
  {
  }

  lemma ReachIs(n: Nonterminal, s: Syn)
    requires Level(s) <= Rank(n)
    ensures Reach(Rank(n), s) == Rank(if s.DCond? && n == Conditional then Assignment else n)
    ensures Reach(Rank(n), s) <= UNARY <==> n in {MemberE, PostfixE, UnaryE}
  {
  }

  /** The cascade's function for n accepts a text with a tree and a rest exactly when a derivation
      by the productions of n says so, as long as it can be. */
  lemma ParserDecidesProductions(n: Nonterminal, ls: seq<Lexeme>, e: Expr, rest: seq<Lexeme>)
    ensures ParseAt(Rank(n), ls) == Ok(e, rest) <==>
      exists s :: Produces(n, s) && Ast(s) == e && Text(s) + rest == ls && Longest(n, s, rest)
  {
    hide ParseAt, Produces, Ast, Text, Longest, Follows, Reach, EndsPost, Rank;
    ParserDecides(Rank(n), ls, e, rest);
    if s :| Witness(Rank(n), ls, Ok(e, rest), s) {
      ProducesIff(n, s);
      LongestIff(n, s, rest);
    }
    if s :| Produces(n, s) && Ast(s) == e && Text(s) + rest == ls && Longest(n, s, rest) {
      ProducesIff(n, s);
      LongestIff(n, s, rest);
      assert Witness(Rank(n), ls, Ok(e, rest), s);
    }
  }

  // ----- what they do to texts -----

  lemma TextIsRead(s: Syn)
    requires Derives(s)
    ensures ParseAt(EXPR, Text(s)) == Ok(Ast(s), [])
  {
    hide ParseAt, Text, Derives, Ast;
    assert Text(s) + [] == Text(s);
    Complete(EXPR, s, []);
  }

  /** An operand that is tighter than every operator. */
  predicate IsOperand(s: Syn) { Produces(MemberE, s) }

  lemma OperandLevel(s: Syn)
    requires IsOperand(s)
    ensures Derives(s) && Level(s) == 0
  {
    ProducesIff(MemberE, s);
  }

  /** a s b t c, as lexemes. */
  function Chain(a: Syn, s: Sym, b: Syn, t: Sym, c: Syn, nl: bool, nl2: bool): seq<Lexeme> {
    Text(a) + (One(s, nl) + (Text(b) + (One(t, nl2) + Text(c))))
  }

  lemma ChainGroups(a: Syn, s: Sym, b: Syn, t: Sym, c: Syn, nl: bool, nl2: bool)
    ensures Chain(a, s, b, t, c, nl, nl2) == (Text(a) + (One(s, nl) + Text(b))) + (One(t, nl2) + Text(c))
    ensures Chain(a, s, b, t, c, nl, nl2) == Text(a) + (One(s, nl) + (Text(b) + (One(t, nl2) + Text(c))))
  {
    hide Text, One;
  }

  /** Between any two binary operators the one of the tighter row groups first, and operators of
      one row group to the left. */
  lemma TwoOperators(m: Nonterminal, n: Nonterminal, x: BinOp, y: BinOp, a: Syn, b: Syn, c: Syn, nl: bool, nl2: bool)
    requires IsRow(m) && IsRow(n) && x in Operators(m) && y in Operators(n)
    requires IsOperand(a) && IsOperand(b) && IsOperand(c)
    ensures ParseAt(EXPR, Chain(a, BinSym(x), b, BinSym(y), c, nl, nl2)) ==
      Ok(if Rank(m) <= Rank(n) then EBin(y, EBin(x, Ast(a), Ast(b)), Ast(c))
         else EBin(x, Ast(a), EBin(y, Ast(b), Ast(c))), [])
  {
    hide ParseAt, Prec, Rank, Operators, BinSym, Produces, IsRow, One;
    OperandLevel(a);
    OperandLevel(b);
    OperandLevel(c);
    OnlyRowsAt(m, DBin(a, nl, x, b));
    OnlyRowsAt(n, DBin(b, nl2, y, c));
    ChainGroups(a, BinSym(x), b, BinSym(y), c, nl, nl2);
    TextIsRead(if Rank(m) <= Rank(n) then DBin(DBin(a, nl, x, b), nl2, y, c) else DBin(a, nl, x, DBin(b, nl2, y, c)));
  }

  /** 1 + 2 * 3 is 1 + (2 * 3), and 1 * 2 + 3 is (1 * 2) + 3. */
  lemma SumsAndProducts()
    ensures var one, two, three := DLit(false, LNum(1)), DLit(false, LNum(2)), DLit(false, LNum(3));
            && ParseAt(EXPR, Chain(one, SOp(Add), two, SOp(Mul), three, false, false)) ==
               Ok(EBin(Add, ELit(LNum(1)), EBin(Mul, ELit(LNum(2)), ELit(LNum(3)))), [])
            && ParseAt(EXPR, Chain(one, SOp(Mul), two, SOp(Add), three, false, false)) ==
               Ok(EBin(Add, EBin(Mul, ELit(LNum(1)), ELit(LNum(2))), ELit(LNum(3))), [])
  {
    hide ParseAt;
    var one, two, three := DLit(false, LNum(1)), DLit(false, LNum(2)), DLit(false, LNum(3));
    TwoOperators(Additive, Multiplicative, Add, Mul, one, two, three, false, false);
    TwoOperators(Multiplicative, Additive, Mul, Add, one, two, three, false, false);
  }

  /** A conditional and a binary operator: below the comma, the operator groups first in every
      part; the comma takes the whole conditional as its operand. */
  lemma OperatorAndConditional(n: Nonterminal, x: BinOp, a: Syn, b: Syn, c: Syn, d: Syn)
    requires IsRow(n) && x in Operators(n)
    requires IsOperand(a) && IsOperand(b) && IsOperand(c) && IsOperand(d)
    ensures ParseAt(EXPR, Five(a, BinSym(x), b, SPunct(Question), c, SPunct(Colon), d)) ==
      Ok(if x == Comma then EBin(x, Ast(a), ECond(Ast(b), Ast(c), Ast(d)))
         else ECond(EBin(x, Ast(a), Ast(b)), Ast(c), Ast(d)), [])
    ensures x == Comma || ParseAt(EXPR, Five(a, SPunct(Question), b, BinSym(x), c, SPunct(Colon), d)) ==
      Ok(ECond(Ast(a), EBin(x, Ast(b), Ast(c)), Ast(d)), [])
    ensures ParseAt(EXPR, Five(a, SPunct(Question), b, SPunct(Colon), c, BinSym(x), d)) ==
      Ok(if x == Comma then EBin(x, ECond(Ast(a), Ast(b), Ast(c)), Ast(d))
         else ECond(Ast(a), Ast(b), EBin(x, Ast(c), Ast(d))), [])
  {
    hide ParseAt, Text, Ast, Derives, Level, Rank, BinSym, IsOperand, One, Prec;
    OperatorInFront(n, x, a, b, c, d);
    OperatorBehind(n, x, a, b, c, d);
    if x != Comma { OperatorInside(n, x, a, b, c, d); }
  }

  lemma OperatorInFront(n: Nonterminal, x: BinOp, a: Syn, b: Syn, c: Syn, d: Syn)
    requires IsRow(n) && x in Operators(n)
    requires IsOperand(a) && IsOperand(b) && IsOperand(c) && IsOperand(d)
    ensures ParseAt(EXPR, Five(a, BinSym(x), b, SPunct(Question), c, SPunct(Colon), d)) ==
      Ok(if x == Comma then EBin(x, Ast(a), ECond(Ast(b), Ast(c), Ast(d)))
         else ECond(EBin(x, Ast(a), Ast(b)), Ast(c), Ast(d)), [])
  {
    hide ParseAt, Rank, BinSym, Produces, One, Prec, Operators;
    FourOperands(a, b, c, d);
    CommaIsLast(n, x);
    FiveGroups(a, BinSym(x), b, SPunct(Question), c, SPunct(Colon), d);
    if x == Comma {
      TextIsRead(DBin(a, false, x, DCond(b, false, c, false, d)));
    } else {
      TextIsRead(DCond(DBin(a, false, x, b), false, c, false, d));
    }
  }

  lemma OperatorInside(n: Nonterminal, x: BinOp, a: Syn, b: Syn, c: Syn, d: Syn)
    requires IsRow(n) && x in Operators(n) && x != Comma
    requires IsOperand(a) && IsOperand(b) && IsOperand(c) && IsOperand(d)
    ensures ParseAt(EXPR, Five(a, SPunct(Question), b, BinSym(x), c, SPunct(Colon), d)) ==
      Ok(ECond(Ast(a), EBin(x, Ast(b), Ast(c)), Ast(d)), [])
  {
    hide ParseAt, Rank, BinSym, Produces, One, Prec, Operators;
    FourOperands(a, b, c, d);
    CommaIsLast(n, x);
    FiveGroups(a, SPunct(Question), b, BinSym(x), c, SPunct(Colon), d);
    TextIsRead(DCond(a, false, DBin(b, false, x, c), false, d));
  }

  lemma OperatorBehind(n: Nonterminal, x: BinOp, a: Syn, b: Syn, c: Syn, d: Syn)
    requires IsRow(n) && x in Operators(n)
    requires IsOperand(a) && IsOperand(b) && IsOperand(c) && IsOperand(d)
    ensures ParseAt(EXPR, Five(a, SPunct(Question), b, SPunct(Colon), c, BinSym(x), d)) ==
      Ok(if x == Comma then EBin(x, ECond(Ast(a), Ast(b), Ast(c)), Ast(d))
         else ECond(Ast(a), Ast(b), EBin(x, Ast(c), Ast(d))), [])
  {
    hide ParseAt, Rank, BinSym, Produces, One, Prec, Operators;
    FourOperands(a, b, c, d);
    CommaIsLast(n, x);
    FiveGroups(a, SPunct(Question), b, SPunct(Colon), c, BinSym(x), d);
    if x == Comma {
      TextIsRead(DBin(DCond(a, false, b, false, c), false, x, d));
    } else {
      TextIsRead(DCond(a, false, b, false, DBin(c, false, x, d)));
    }
  }

  lemma FourOperands(a: Syn, b: Syn, c: Syn, d: Syn)
    requires IsOperand(a) && IsOperand(b) && IsOperand(c) && IsOperand(d)
    ensures Derives(a) && Derives(b) && Derives(c) && Derives(d)
    ensures Level(a) == Level(b) == Level(c) == Level(d) == 0
  {
    hide Produces, Derives, Level;
    OperandLevel(a);
    OperandLevel(b);
    OperandLevel(c);
    OperandLevel(d);
  }

  lemma CommaIsLast(n: Nonterminal, x: BinOp)
    requires IsRow(n) && x in Operators(n)
    ensures if x == Comma then Prec(x) == EXPR else Prec(x) <= LOR
  {
  }

  function Five(a: Syn, s: Sym, b: Syn, t: Sym, c: Syn, u: Sym, d: Syn): seq<Lexeme> {
    Text(a) + (One(s, false) + (Text(b) + (One(t, false) + (Text(c) + (One(u, false) + Text(d))))))
  }

  lemma FiveGroups(a: Syn, s: Sym, b: Syn, t: Sym, c: Syn, u: Sym, d: Syn)
    ensures var w := Five(a, s, b, t, c, u, d);
            && w == (Text(a) + (One(s, false) + Text(b))) + (One(t, false) + (Text(c) + (One(u, false) + Text(d))))
            && w == Text(a) + (One(s, false) + ((Text(b) + (One(t, false) + Text(c))) + (One(u, false) + Text(d))))
            && w == (Text(a) + (One(s, false) + (Text(b) + (One(t, false) + Text(c))))) + (One(u, false) + Text(d))
  {
    hide Text, One;
    var x, y, z := One(s, false), One(t, false), One(u, false);
    var last := z + Text(d);
    Inner(Text(a), x, Text(b), y + (Text(c) + last));
    Regroup(Text(b), y + Text(c), last);
    Regroup(y, Text(c), last);
    Inner(Text(a), x, Text(b) + (y + Text(c)), last);
  }

  lemma Inner(a: seq<Lexeme>, x: seq<Lexeme>, b: seq<Lexeme>, c: seq<Lexeme>)
    ensures a + (x + (b + c)) == (a + (x + b)) + c
  {
    Regroup(x, b, c);
    Regroup(a, x + b, c);
  }

  /** An assignment groups to the right and takes whole conditionals and operators, the comma
      excepted; what stands in front of its sign is any expression below a conditional. */
  lemma OperatorAndAssignment(n: Nonterminal, x: BinOp, f: AssignOp, g: AssignOp, a: Syn, b: Syn, c: Syn, nl: bool, nl2: bool)
    requires IsRow(n) && x in Operators(n) && IsOperand(a) && IsOperand(b) && IsOperand(c)
    ensures ParseAt(EXPR, Chain(a, SAssign(f), b, BinSym(x), c, nl, nl2)) ==
      Ok(if x == Comma then EBin(x, EAssign(f, Ast(a), Ast(b)), Ast(c))
         else EAssign(f, Ast(a), EBin(x, Ast(b), Ast(c))), [])
    ensures ParseAt(EXPR, Chain(a, BinSym(x), b, SAssign(f), c, nl, nl2)) ==
      Ok(if x == Comma then EBin(x, Ast(a), EAssign(f, Ast(b), Ast(c)))
         else EAssign(f, EBin(x, Ast(a), Ast(b)), Ast(c)), [])
    ensures ParseAt(EXPR, Chain(a, SAssign(f), b, SAssign(g), c, nl, nl2)) ==
      Ok(EAssign(f, Ast(a), EAssign(g, Ast(b), Ast(c))), [])
  {
    hide ParseAt, Rank, BinSym, Produces, One, Prec;
    OperandLevel(a);
    OperandLevel(b);
    OperandLevel(c);
    CommaIsLast(n, x);
    ChainGroups(a, SAssign(f), b, BinSym(x), c, nl, nl2);
    ChainGroups(a, BinSym(x), b, SAssign(f), c, nl, nl2);
    ChainGroups(a, SAssign(f), b, SAssign(g), c, nl, nl2);
    TextIsRead(DAssign(a, nl, f, DAssign(b, nl2, g, c)));
    if x == Comma {
      TextIsRead(DBin(DAssign(a, nl, f, b), nl2, x, c));
      TextIsRead(DBin(a, nl, x, DAssign(b, nl2, f, c)));
    } else {
      TextIsRead(DAssign(a, nl, f, DBin(b, nl2, x, c)));
      TextIsRead(DAssign(DBin(a, nl, x, b), nl2, f, c));
    }
  }

  /** Conditionals and assignments: the last part of a conditional reaches as far as it can. */
  lemma ConditionalAndAssignment(f: AssignOp, a: Syn, b: Syn, c: Syn, d: Syn)
    requires IsOperand(a) && IsOperand(b) && IsOperand(c) && IsOperand(d)
    ensures ParseAt(EXPR, Five(a, SPunct(Question), b, SPunct(Colon), c, SAssign(f), d)) ==
      Ok(ECond(Ast(a), Ast(b), EAssign(f, Ast(c), Ast(d))), [])
    ensures ParseAt(EXPR, Five(a, SPunct(Question), b, SAssign(f), c, SPunct(Colon), d)) ==
      Ok(ECond(Ast(a), EAssign(f, Ast(b), Ast(c)), Ast(d)), [])
    ensures ParseAt(EXPR, Five(a, SAssign(f), b, SPunct(Question), c, SPunct(Colon), d)) ==
      Ok(EAssign(f, Ast(a), ECond(Ast(b), Ast(c), Ast(d))), [])
  {
    hide ParseAt, Rank, BinSym, Produces, One, Prec;
    OperandLevel(a);
    OperandLevel(b);
    OperandLevel(c);
    OperandLevel(d);
    FiveGroups(a, SPunct(Question), b, SPunct(Colon), c, SAssign(f), d);
    FiveGroups(a, SPunct(Question), b, SAssign(f), c, SPunct(Colon), d);
    FiveGroups(a, SAssign(f), b, SPunct(Question), c, SPunct(Colon), d);
    TextIsRead(DCond(a, false, b, false, DAssign(c, false, f, d)));
    TextIsRead(DCond(a, false, DAssign(b, false, f, c), false, d));
    TextIsRead(DAssign(a, false, f, DCond(b, false, c, false, d)));
  }

  // ----- the spelling of the operators with one operand, and of the operands -----

  const UNARY_SPELLING: seq<(Sym, UnOp)> :=
    [(SName(Kw(KDelete)), Delete), (SName(Kw(KVoid)), Void), (SName(Kw(KTypeof)), Typeof),
     (SPunct(PlusPlus), PreInc), (SPunct(MinusMinus), PreDec), (SOp(Add), Pos), (SOp(Sub), Neg),
     (SPunct(Tilde), Not), (SPunct(Bang), LNot)]

  /** Every unary operator binds tighter than every binary one. */
  lemma UnaryIsRead(i: nat, n: Nonterminal, x: BinOp, a: Syn, b: Syn, nl: bool, nl2: bool)
    requires i < |UNARY_SPELLING| && IsRow(n) && x in Operators(n) && IsOperand(a) && IsOperand(b)
    ensures var (sym, op) := UNARY_SPELLING[i];
            && ParseAt(EXPR, One(sym, nl) + (Text(a) + (One(BinSym(x), nl2) + Text(b)))) ==
               Ok(EBin(x, EUnary(op, Ast(a)), Ast(b)), [])
            && ParseAt(EXPR, Text(a) + (One(BinSym(x), nl) + (One(sym, nl2) + Text(b)))) ==
               Ok(EBin(x, Ast(a), EUnary(op, Ast(b))), [])
  {
    hide ParseAt, Rank, BinSym, Produces, One, Prec, UnSym, Operators;
    var (sym, op) := UNARY_SPELLING[i];
    UnarySpelled(i);
    OperandLevel(a);
    OperandLevel(b);
    RowAboveUnary(n, x);
    Regroup(One(sym, nl), Text(a), One(BinSym(x), nl2) + Text(b));
    TextIsRead(DBin(DUnary(nl, op, a), nl2, x, b));
    TextIsRead(DBin(a, nl, x, DUnary(nl2, op, b)));
  }

  /** A postfix operator binds tighter than a unary one, and has no line terminator before it. */
  lemma PostfixIsRead(i: nat, inc: bool, a: Syn, b: Syn, nl: bool, nl2: bool)
    requires i < |UNARY_SPELLING| && IsOperand(a) && IsOperand(b)
    ensures var (sym, op) := UNARY_SPELLING[i];
            var (p, post) := if inc then (SPunct(PlusPlus), PostInc) else (SPunct(MinusMinus), PostDec);
            && ParseAt(EXPR, One(sym, nl) + (Text(a) + One(p, false))) == Ok(EUnary(op, EUnary(post, Ast(a))), [])
            && ParseAt(EXPR, Text(a) + (One(p, true) + Text(b))) == Ok(Ast(a), One(p, true) + Text(b))
  {
    hide ParseAt, Rank, Produces, One, UnSym;
    var (sym, op) := UNARY_SPELLING[i];
    UnarySpelled(i);
    OperandLevel(a);
    TextIsRead(DUnary(nl, op, DPost(a, inc)));
    var p := if inc then SPunct(PlusPlus) else SPunct(MinusMinus);
    NotAPostfix(p, Text(b), EndsPost(a));
    Complete(EXPR, a, One(p, true) + Text(b));
  }

  lemma NotAPostfix(p: Sym, more: seq<Lexeme>, post: bool)
    requires p == SPunct(PlusPlus) || p == SPunct(MinusMinus)
    ensures Follows(EXPR, post, One(p, true) + more)
  {
    Front(p, true, more);
  }

  lemma UnarySpelled(i: nat)
    requires i < |UNARY_SPELLING|
    ensures var (sym, op) := UNARY_SPELLING[i]; UnSym(op) == sym && op != PostInc && op != PostDec
  {
  }

  lemma RowAboveUnary(n: Nonterminal, x: BinOp)
    requires IsRow(n) && x in Operators(n)
    ensures Prec(x) > UNARY
  {
  }

  const LITERAL_SPELLING: seq<(Sym, Expr)> :=
    [(SName(Kw(KThis)), EThis), (SName(Kw(KNull)), ELit(LNull)), (SName(Kw(KTrue)), ELit(LTrue)),
     (SName(Kw(KFalse)), ELit(LFalse))]

  /** Words, numbers and strings stand for themselves. */
  lemma WordsAreRead(i: nat, k: int, name: Name, nl: bool)
    requires i < |LITERAL_SPELLING|
    ensures ParseAt(EXPR, One(LITERAL_SPELLING[i].0, nl)) == Ok(LITERAL_SPELLING[i].1, [])
    ensures ParseAt(EXPR, One(SLit(LNum(k)), nl)) == Ok(ELit(LNum(k)), [])
    ensures ParseAt(EXPR, One(SLit(LStr(name)), nl)) == Ok(ELit(LStr(name)), [])
  {
    hide ParseAt;
    TextIsRead(if i == 0 then DThis(nl) else DLit(nl, if i == 1 then LNull else if i == 2 then LTrue else LFalse));
    TextIsRead(DLit(nl, LNum(k)));
    TextIsRead(DLit(nl, LStr(name)));
  }

  /** Parentheses leave a tree as it is, and the two forms of access name or compute the key. */
  lemma OperandsAreRead(name: Name, a: Syn, b: Syn, nl: bool, nl2: bool)
    requires IsOperand(a) && IsOperand(b)
    ensures ParseAt(EXPR, One(SPunct(LParen), nl) + (Text(a) + One(SPunct(RParen), nl2))) == Ok(Ast(a), [])
    ensures ParseAt(EXPR, Text(a) + (One(SPunct(Point), nl) + One(SName(name), nl2))) ==
      Ok(EMember(Ast(a), ELit(LStr(name))), [])
    ensures ParseAt(EXPR, Text(a) + (One(SPunct(LBracket), nl) + (Text(b) + One(SPunct(RBracket), nl2)))) ==
      Ok(EMember(Ast(a), Ast(b)), [])
  {
    hide ParseAt, Produces, One;
    OperandLevel(a);
    OperandLevel(b);
    TextIsRead(DParen(nl, a, nl2));
    TextIsRead(DDot(a, nl, nl2, name));
    TextIsRead(DIndex(a, nl, b, nl2));
  }
}
