/** Printing a syntax tree with as few parentheses as the grammar allows, and reading it back. */
module Printer {
  import opened Syntax
  import opened Parse
  import opened Derivation

  /** A derivation of e, without parentheses around the whole.  Property names for which
      dotted holds are written behind a point, all other keys in brackets. */
  function Bare(e: Expr, dotted: Name -> bool): (s: Syn)
    ensures Derives(s) && Ast(s) == e
    decreases e, 1
  {
    match e
    case EThis => DThis(false)
    case ELit(l) => DLit(false, l)
    case EMember(_, _) => BareAccess(e, dotted)
    case EUnary(_, _) => BareUnary(e, dotted)
    case EBin(_, _, _) => BareBin(e, dotted)
    case ECond(_, _, _) => BareCond(e, dotted)
    case EAssign(_, _, _) => BareAssign(e, dotted)
  }

  function BareAccess(e: Expr, dotted: Name -> bool): (s: Syn)
    requires e.EMember?
    ensures Derives(s) && Ast(s) == e
    decreases e, 0
  {
    if e.key.ELit? && e.key.l.LStr? && dotted(e.key.l.name) then
      DDot(Print(e.obj, MEMBER, dotted), false, false, e.key.l.name)
    else DIndex(Print(e.obj, MEMBER, dotted), false, Print(e.key, EXPR, dotted), false)
  }

  function BareUnary(e: Expr, dotted: Name -> bool): (s: Syn)
    requires e.EUnary?
    ensures Derives(s) && Ast(s) == e
    decreases e, 0
  {
    if e.uop == PostInc || e.uop == PostDec then DPost(Print(e.arg, MEMBER, dotted), e.uop == PostInc)
    else DUnary(false, e.uop, Print(e.arg, UNARY, dotted))
  }

  function BareBin(e: Expr, dotted: Name -> bool): (s: Syn)
    requires e.EBin?
    ensures Derives(s) && Ast(s) == e
    decreases e, 0
  {
    hide Prec;
    DBin(Print(e.left, Prec(e.bop), dotted), false, e.bop, Print(e.right, Prec(e.bop) - 1, dotted))
  }

  function BareCond(e: Expr, dotted: Name -> bool): (s: Syn)
    requires e.ECond?
    ensures Derives(s) && Ast(s) == e
    decreases e, 0
  {
    DCond(Print(e.cond, LOR, dotted), false, Print(e.yes, ASSIGN, dotted), false, Print(e.no, ASSIGN, dotted))
  }

  function BareAssign(e: Expr, dotted: Name -> bool): (s: Syn)
    requires e.EAssign?
    ensures Derives(s) && Ast(s) == e
    decreases e, 0
  {
    DAssign(Print(e.target, LOR, dotted), false, e.aop, Print(e.value, ASSIGN, dotted))
  }

  /** A derivation of e where the grammar asks for level l: parenthesised only if needed. */
  function Print(e: Expr, l: nat, dotted: Name -> bool): (s: Syn)
    ensures Derives(s) && Ast(s) == e && Level(s) <= l
    decreases e, 2
  {
    var s := Bare(e, dotted);
    if Level(s) <= l then s else DParen(false, s, false)
  }

  /** Reading a printed expression gives the expression back, before any text that does not
      continue it. */
  lemma RoundTrip(e: Expr, dotted: Name -> bool, rest: seq<Lexeme>)
    requires Follows(EXPR, false, rest)
    ensures ParseAt(EXPR, Text(Print(e, EXPR, dotted)) + rest) == Ok(e, rest)
  {
    var s := Print(e, EXPR, dotted);
    assert Follows(EXPR, EndsPost(s), rest);
    Complete(EXPR, s, rest);
  }

  /** A printed expression followed by a semicolon is read as a statement with that tree. */
  lemma StatementRoundTrip(e: Expr, dotted: Name -> bool, nl: bool, more: seq<Lexeme>)
    ensures Statement(Text(Print(e, EXPR, dotted)) + (One(SPunct(Semicolon), nl) + more)) == Ok(e, more)
  {
    var rest := One(SPunct(Semicolon), nl) + more;
    Front(SPunct(Semicolon), nl, more);
    RoundTrip(e, dotted, rest);
  }

  // ----- nothing shorter -----

  /** The number of lexemes of a derivation, or of its parenthesised parts only. */
  function Count(s: Syn, lexemes: bool): nat {
    var own := if lexemes then 1 else 0;
    match s
    case DThis(_) => own
    case DLit(_, _) => own
    case DParen(_, inner, _) => 1 + own + Count(inner, lexemes)
    case DDot(obj, _, _, _) => 2 * own + Count(obj, lexemes)
    case DIndex(obj, _, key, _) => 2 * own + Count(obj, lexemes) + Count(key, lexemes)
    case DPost(arg, _) => own + Count(arg, lexemes)
    case DUnary(_, _, arg) => own + Count(arg, lexemes)
    case DBin(left, _, _, right) => own + Count(left, lexemes) + Count(right, lexemes)
    case DCond(c, _, yes, _, no) => 2 * own + Count(c, lexemes) + Count(yes, lexemes) + Count(no, lexemes)
    case DAssign(t, _, _, v) => own + Count(t, lexemes) + Count(v, lexemes)
  }

  lemma CountIsLength(s: Syn)
    ensures |Text(s)| == Count(s, true)
  {
  }

  /** No derivation of the tree at the level has fewer parentheses than the printed one; with
      all names behind points, none has a shorter text either. */
  lemma PrintIsLeast(t: Syn, l: nat, dotted: Name -> bool)
    requires Derives(t) && Level(t) <= l
    ensures Count(Print(Ast(t), l, dotted), false) <= Count(t, false)
    ensures (forall n :: dotted(n)) ==> |Text(Print(Ast(t), l, dotted))| <= |Text(t)|
  {
    hide Text, Print, Count;
    Least(t, l, dotted, false);
    if forall n :: dotted(n) {
      Least(t, l, dotted, true);
      CountIsLength(t);
      CountIsLength(Print(Ast(t), l, dotted));
    }
  }

  lemma {:induction false} Least(t: Syn, l: nat, dotted: Name -> bool, lexemes: bool)
    requires Derives(t) && Level(t) <= l && (lexemes ==> forall n :: dotted(n))
    ensures Count(Print(Ast(t), l, dotted), lexemes) <= Count(t, lexemes)
    decreases t, 2
  {
    hide Bare, Text;
    if t.DParen? {
      Least(t.inner, EXPR, dotted, lexemes);
    } else {
      BareIsLeast(t, dotted, lexemes);
      SameLevel(t, dotted);
    }
  }

  /** Without parentheses around it, a tree has the same level in every derivation. */
  lemma SameLevel(t: Syn, dotted: Name -> bool)
    requires Derives(t) && !t.DParen?
    ensures Level(Bare(Ast(t), dotted)) == Level(t)
  {
    hide Print, Text;
  }

  lemma {:induction false} BareIsLeast(t: Syn, dotted: Name -> bool, lexemes: bool)
    requires Derives(t) && !t.DParen? && (lexemes ==> forall n :: dotted(n))
    ensures Count(Bare(Ast(t), dotted), lexemes) <= Count(t, lexemes)
    decreases t, 1
  {
    hide Print, Prec, Text, Level;
    match t
    case DDot(obj, _, _, name) =>
      Least(obj, MEMBER, dotted, lexemes);
      LiteralIsLeast(LStr(name), dotted, lexemes);
    case DIndex(obj, _, key, _) =>
      Least(obj, MEMBER, dotted, lexemes);
      Least(key, EXPR, dotted, lexemes);
    case DPost(arg, _) =>
      Least(arg, MEMBER, dotted, lexemes);
    case DUnary(_, _, arg) =>
      Least(arg, UNARY, dotted, lexemes);
    case DBin(_, _, _, _) =>
      BinIsLeast(t, dotted, lexemes);
    case DCond(_, _, _, _, _) =>
      CondIsLeast(t, dotted, lexemes);
    case DAssign(_, _, _, _) =>
      AssignIsLeast(t, dotted, lexemes);
    case _ =>
  }

  lemma LiteralIsLeast(l: Literal, dotted: Name -> bool, lexemes: bool)
    ensures Count(Print(ELit(l), EXPR, dotted), lexemes) == if lexemes then 1 else 0
  {
  }

  lemma {:induction false} BinIsLeast(t: Syn, dotted: Name -> bool, lexemes: bool)
    requires t.DBin? && Derives(t.left) && Level(t.left) <= Prec(t.bop) && Derives(t.right) && Level(t.right) < Prec(t.bop)
    requires lexemes ==> forall n :: dotted(n)
    ensures Count(Bare(EBin(t.bop, Ast(t.left), Ast(t.right)), dotted), lexemes) <= Count(t, lexemes)
    decreases t, 0
  {
    hide Print, Prec, Text, Derives, Ast, Level;
    Least(t.left, Prec(t.bop), dotted, lexemes);
    Least(t.right, Prec(t.bop) - 1, dotted, lexemes);
  }

  lemma {:induction false} CondIsLeast(t: Syn, dotted: Name -> bool, lexemes: bool)
    requires t.DCond? && Derives(t.cond) && Level(t.cond) <= LOR && Derives(t.yes) && Level(t.yes) <= ASSIGN
    requires Derives(t.no) && Level(t.no) <= ASSIGN && (lexemes ==> forall n :: dotted(n))
    ensures Count(Bare(ECond(Ast(t.cond), Ast(t.yes), Ast(t.no)), dotted), lexemes) <= Count(t, lexemes)
    decreases t, 0
  {
    hide Print, Text, Derives, Ast, Level;
    Least(t.cond, LOR, dotted, lexemes);
    Least(t.yes, ASSIGN, dotted, lexemes);
    Least(t.no, ASSIGN, dotted, lexemes);
  }

  lemma {:induction false} AssignIsLeast(t: Syn, dotted: Name -> bool, lexemes: bool)
    requires t.DAssign? && Derives(t.target) && Level(t.target) <= LOR && Derives(t.value) && Level(t.value) <= ASSIGN
    requires lexemes ==> forall n :: dotted(n)
    ensures Count(Bare(EAssign(t.aop, Ast(t.target), Ast(t.value)), dotted), lexemes) <= Count(t, lexemes)
    decreases t, 0
  {
    hide Print, Text, Derives, Ast, Level;
    Least(t.target, LOR, dotted, lexemes);
    Least(t.value, ASSIGN, dotted, lexemes);
  }
}
