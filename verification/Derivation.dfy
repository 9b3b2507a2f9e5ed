/** Derivations of the expression grammar, and the parser that decides it.

    A derivation tree keeps every token of its text.  Complete says that the parser reads the text
    of a derivation as its tree, before any text that does not go on; Sound that whatever the
    parser reads has a derivation.  Both follow the cascade level by level; the small lemmas
    between them regroup texts the way the parser reads them and unfold one step of it.

    Module Productions says which derivations these are. */
module Derivation {
  import opened Sequences
  import opened Syntax
  import opened Parse

  /** A derivation tree with every token of the text: parentheses are kept, and each token
      carries its line-terminator mark (a postfix operator has none before it). */
  datatype Syn =
    | DThis(nl: bool)
    | DLit(nl: bool, l: Literal)
    | DParen(nl: bool, inner: Syn, nl2: bool)
    | DDot(obj: Syn, nl: bool, nl2: bool, name: Name)
    | DIndex(obj: Syn, nl: bool, key: Syn, nl2: bool)
    | DPost(arg: Syn, inc: bool)
    | DUnary(nl: bool, op: UnOp, arg: Syn)
    | DBin(left: Syn, nl: bool, bop: BinOp, right: Syn)
    | DCond(cond: Syn, nl: bool, yes: Syn, nl2: bool, no: Syn)
    | DAssign(target: Syn, nl: bool, aop: AssignOp, value: Syn)

  // ----- text, meaning and well-formedness of a derivation -----

  function LitSym(l: Literal): Sym {
    match l
    case LNull => SName(Kw(KNull))
    case LTrue => SName(Kw(KTrue))
    case LFalse => SName(Kw(KFalse))
    case _ => SLit(l)
  }

  function UnSym(op: UnOp): Sym {
    match op
    case Delete => SName(Kw(KDelete))
    case Void => SName(Kw(KVoid))
    case Typeof => SName(Kw(KTypeof))
    case Pos => SOp(Add)
    case Neg => SOp(Sub)
    case Not => SPunct(Tilde)
    case LNot => SPunct(Bang)
    case PreInc => SPunct(PlusPlus)
    case PostInc => SPunct(PlusPlus)
    case PreDec => SPunct(MinusMinus)
    case PostDec => SPunct(MinusMinus)
  }

  function BinSym(b: BinOp): Sym {
    if b == Instanceof then SName(Kw(KInstanceof)) else SOp(b)
  }

  function One(s: Sym, nl: bool): (r: seq<Lexeme>)
    ensures |r| == 1
  {
    [Lexeme(s, nl)]
  }

  function Text(s: Syn): (r: seq<Lexeme>)
    ensures |r| > 0
  {
    match s
    case DThis(nl) => One(SName(Kw(KThis)), nl)
    case DLit(nl, l) => One(LitSym(l), nl)
    case DParen(nl, inner, nl2) => One(SPunct(LParen), nl) + (Text(inner) + One(SPunct(RParen), nl2))
    case DDot(obj, nl, nl2, name) => Text(obj) + (One(SPunct(Point), nl) + One(SName(name), nl2))
    case DIndex(obj, nl, key, nl2) => Text(obj) + (One(SPunct(LBracket), nl) + (Text(key) + One(SPunct(RBracket), nl2)))
    case DPost(arg, inc) => Text(arg) + One(SPunct(if inc then PlusPlus else MinusMinus), false)
    case DUnary(nl, op, arg) => One(UnSym(op), nl) + Text(arg)
    case DBin(left, nl, b, right) => Text(left) + (One(BinSym(b), nl) + Text(right))
    case DCond(c, nl, yes, nl2, no) =>
      Text(c) + (One(SPunct(Question), nl) + (Text(yes) + (One(SPunct(Colon), nl2) + Text(no))))
    case DAssign(t, nl, a, v) => Text(t) + (One(SAssign(a), nl) + Text(v))
  }

  /** The syntax tree of a derivation. */
  function Ast(s: Syn): Expr {
    match s
    case DThis(_) => EThis
    case DLit(_, l) => ELit(l)
    case DParen(_, inner, _) => Ast(inner)
    case DDot(obj, _, _, name) => EMember(Ast(obj), ELit(LStr(name)))
    case DIndex(obj, _, key, _) => EMember(Ast(obj), Ast(key))
    case DPost(arg, inc) => EUnary(if inc then PostInc else PostDec, Ast(arg))
    case DUnary(_, op, arg) => EUnary(op, Ast(arg))
    case DBin(left, _, b, right) => EBin(b, Ast(left), Ast(right))
    case DCond(c, _, yes, _, no) => ECond(Ast(c), Ast(yes), Ast(no))
    case DAssign(t, _, a, v) => EAssign(a, Ast(t), Ast(v))
  }

  function Level(s: Syn): (l: nat)
    ensures l <= EXPR
  {
    match s
    case DPost(_, _) => POSTFIX
    case DUnary(_, _, _) => UNARY
    case DBin(_, _, b, _) => Prec(b)
    case DCond(_, _, _, _, _) => COND
    case DAssign(_, _, _, _) => ASSIGN
    case _ => MEMBER
  }

  /** The productions: binary operators associate to the left, assignment to the right, and the
      left side of an assignment is no bare conditional. */
  predicate Derives(s: Syn) {
    match s
    case DThis(_) => true
    case DLit(_, _) => true
    case DParen(_, inner, _) => Derives(inner)
    case DDot(obj, _, _, _) => Derives(obj) && Level(obj) == MEMBER
    case DIndex(obj, _, key, _) => Derives(obj) && Level(obj) == MEMBER && Derives(key)
    case DPost(arg, _) => Derives(arg) && Level(arg) == MEMBER
    case DUnary(_, op, arg) => op != PostInc && op != PostDec && Derives(arg) && Level(arg) <= UNARY
    case DBin(left, _, b, right) => Derives(left) && Level(left) <= Prec(b) && Derives(right) && Level(right) < Prec(b)
    case DCond(c, _, yes, _, no) =>
      Derives(c) && Level(c) <= LOR && Derives(yes) && Level(yes) <= ASSIGN && Derives(no) && Level(no) <= ASSIGN
    case DAssign(t, _, _, v) => Derives(t) && Level(t) <= LOR && Derives(v) && Level(v) <= ASSIGN
  }

  // ----- what may follow -----

  /** The derivation ends with a postfix operator: no access or second one can follow. */
  predicate EndsPost(s: Syn) {
    match s
    case DPost(_, _) => true
    case DUnary(_, _, arg) => EndsPost(arg)
    case DBin(_, _, _, right) => EndsPost(right)
    case DCond(_, _, _, _, no) => EndsPost(no)
    case DAssign(_, _, _, value) => EndsPost(value)
    case _ => false
  }

  /** A token that a parser of level l would take as a continuation. */
  predicate Continues(l: nat, post: bool, t: Tok, newLine: bool) {
    match t
    case TPunct(Point) => !post
    case TPunct(LBracket) => !post
    case TPunct(PlusPlus) => !post && l >= POSTFIX && !newLine
    case TPunct(MinusMinus) => !post && l >= POSTFIX && !newLine
    case TOp(b) => l >= Prec(b)
    case TPunct(Question) => l >= COND
    case TAssign(_) => l >= ASSIGN
    case _ => false
  }

  /** The text that follows can be read and does not continue an expression of level l; behind
      a postfix operator the unary levels do not even look. */
  predicate Follows(l: nat, post: bool, rest: seq<Lexeme>) {
    var t := Peek(rest, OPERATOR);
    (post && l <= UNARY) || (t.Some? && !Continues(l, post, t.value, NewLine(rest)))
  }

  /** An unparenthesised conditional also swallows an assignment behind it. */
  function Reach(l: nat, s: Syn): nat {
    if s.DCond? && l < ASSIGN then ASSIGN else l
  }

  // ----- completeness -----

  lemma Front(s: Sym, nl: bool, rest: seq<Lexeme>)
    ensures One(s, nl) + rest != [] && (One(s, nl) + rest)[0] == Lexeme(s, nl) && (One(s, nl) + rest)[1..] == rest
  {
  }

  lemma Regroup(a: seq<Lexeme>, b: seq<Lexeme>, c: seq<Lexeme>)
    ensures (a + b) + c == a + (b + c)
  {
  }

  /** A derivation below unary level starts with a primary expression. */
  lemma {:induction false} StartsPrimary(s: Syn, rest: seq<Lexeme>)
    requires Derives(s) && Level(s) <= POSTFIX
    ensures var t := Peek(Text(s) + rest, OPERAND); t.Some? && UnaryToken(t.value) == None
    decreases s
  {
    match s
    case DThis(_) =>
    case DLit(_, l) =>
    case DParen(nl, inner, nl2) =>
    case DDot(obj, nl, nl2, name) =>
      StartsPrimary(obj, One(SPunct(Point), nl) + One(SName(name), nl2) + rest);
      assert (Text(s) + rest)[0] == Text(obj)[0];
    case DIndex(obj, nl, key, nl2) =>
      StartsPrimary(obj, []);
      assert Text(obj) + [] == Text(obj);
      assert (Text(s) + rest)[0] == Text(obj)[0];
    case DPost(arg, inc) =>
      StartsPrimary(arg, []);
      assert Text(arg) + [] == Text(arg);
      assert (Text(s) + rest)[0] == Text(arg)[0];
  }

  // One step of each parser function on a text whose first token is known.

  lemma Close(e: Expr, p: Punct, nl: bool, rest: seq<Lexeme>)
    ensures Closed(Ok(e, One(SPunct(p), nl) + rest), p) == Ok(e, rest)
    ensures p == RParen || p == RBracket || p == Colon ==> forall l: nat, post: bool :: l <= EXPR ==> Follows(l, post, One(SPunct(p), nl) + rest)
  {
    Front(SPunct(p), nl, rest);
  }

  lemma OpenParen(nl: bool, tail: seq<Lexeme>)
    ensures Primary(One(SPunct(LParen), nl) + tail) == Closed(ParseAt(EXPR, tail), RParen)
  {
    Front(SPunct(LParen), nl, tail);
  }

  lemma DotStep(cur: Expr, nl: bool, name: Name, nl2: bool, rest: seq<Lexeme>)
    ensures MemberLoop(cur, One(SPunct(Point), nl) + (One(SName(name), nl2) + rest)) == MemberLoop(EMember(cur, ELit(LStr(name))), rest)
  {
    var tail := One(SName(name), nl2) + rest;
    Front(SPunct(Point), nl, tail);
    Front(SName(name), nl2, rest);
    assert (One(SPunct(Point), nl) + tail)[2..] == rest;
  }

  lemma IndexStep(cur: Expr, nl: bool, tail: seq<Lexeme>)
    ensures MemberLoop(cur, One(SPunct(LBracket), nl) + tail) ==
      var r := Closed(ParseAt(EXPR, tail), RBracket);
      if r.Ok? then MemberLoop(EMember(cur, r.e), r.rest) else Stop
  {
    Front(SPunct(LBracket), nl, tail);
  }

  lemma BinStep(l: nat, cur: Expr, b: BinOp, nl: bool, tail: seq<Lexeme>)
    requires BinaryLevel(l) && Prec(b) == l
    ensures BinLoop(l, cur, One(BinSym(b), nl) + tail) ==
      var r := ParseAt(l - 1, tail);
      if r.Ok? then BinLoop(l, EBin(b, cur, r.e), r.rest) else Stop
    ensures forall k: nat, post: bool :: k < l ==> Follows(k, post, One(BinSym(b), nl) + tail)
  {
    Front(BinSym(b), nl, tail);
  }

  lemma UnaryStep(op: UnOp, nl: bool, tail: seq<Lexeme>)
    requires op != PostInc && op != PostDec
    ensures ParseAt(UNARY, One(UnSym(op), nl) + tail) ==
      var r := ParseAt(UNARY, tail);
      if r.Ok? then Ok(EUnary(op, r.e), r.rest) else Stop
  {
    Front(UnSym(op), nl, tail);
    assert UnaryToken(Classify(UnSym(op), OPERAND).value) == Some(op);
  }

  lemma CondStep(c: Expr, nl: bool, tail: seq<Lexeme>)
    ensures CondTail(c, One(SPunct(Question), nl) + tail) ==
      var y := Closed(ParseAt(ASSIGN, tail), Colon);
      var n := if y.Ok? then ParseAt(ASSIGN, y.rest) else Stop;
      if n.Ok? then Ok(ECond(c, y.e, n.e), n.rest) else Stop
    ensures forall post: bool :: Follows(LOR, post, One(SPunct(Question), nl) + tail)
  {
    Front(SPunct(Question), nl, tail);
  }

  lemma AssignStep(t: Expr, a: AssignOp, nl: bool, tail: seq<Lexeme>)
    ensures AssignTail(t, One(SAssign(a), nl) + tail) ==
      var r := ParseAt(ASSIGN, tail);
      if r.Ok? then Ok(EAssign(a, t, r.e), r.rest) else Stop
    ensures forall post: bool :: Follows(COND, post, One(SAssign(a), nl) + tail)
  {
    Front(SAssign(a), nl, tail);
  }

  lemma PostStep(e: Expr, inc: bool, rest: seq<Lexeme>)
    ensures PostfixOp(e, One(SPunct(if inc then PlusPlus else MinusMinus), false) + rest) == Ok(EUnary(if inc then PostInc else PostDec, e), rest)
    ensures Follows(MEMBER, false, One(SPunct(if inc then PlusPlus else MinusMinus), false) + rest)
  {
    Front(SPunct(if inc then PlusPlus else MinusMinus), false, rest);
  }

  lemma FollowsLess(k: nat, l: nat, post: bool, rest: seq<Lexeme>)
    requires k <= l && Follows(l, post, rest)
    ensures Follows(k, post, rest)
  {
  }

  /** Where nothing continues the expression, every loop ends at once. */
  lemma LoopsEnd(l: nat, post: bool, e: Expr, rest: seq<Lexeme>)
    requires Follows(l, post, rest)
    ensures !post ==> MemberLoop(e, rest) == Ok(e, rest)
    ensures !post && l >= POSTFIX ==> PostfixOp(e, rest) == Ok(e, rest)
    ensures BinaryLevel(l) ==> BinLoop(l, e, rest) == Ok(e, rest)
    ensures l >= COND ==> CondTail(e, rest) == Ok(e, rest)
    ensures l >= ASSIGN ==> AssignTail(e, rest) == Ok(e, rest)
  {
  }

  lemma LevelStep(l: nat, ls: seq<Lexeme>, e: Expr, rest: seq<Lexeme>)
    requires UNARY < l <= EXPR && ParseAt(l - 1, ls) == Ok(e, rest)
    ensures ParseAt(l, ls) == if BinaryLevel(l) then BinLoop(l, e, rest) else if l == COND then CondTail(e, rest) else AssignTail(e, rest)
  {
  }

  /** Reading the text of a member expression leaves the loop with its tree. */
  lemma {:induction false} MemberComplete(s: Syn, rest: seq<Lexeme>)
    requires Derives(s) && Level(s) == MEMBER
    ensures Member(Text(s) + rest) == MemberLoop(Ast(s), rest)
    decreases s, 0, 0
  {
    hide ParseAt, MemberLoop, Closed, Follows;
    match s
    case DThis(nl) => Front(SName(Kw(KThis)), nl, rest);
    case DLit(nl, l) => Front(LitSym(l), nl, rest);
    case DParen(nl, inner, nl2) => ParenComplete(nl, inner, nl2, rest);
    case DDot(obj, nl, nl2, name) =>
      var tail := One(SPunct(Point), nl) + (One(SName(name), nl2) + rest);
      assert Text(s) + rest == Text(obj) + tail;
      MemberComplete(obj, tail);
      DotStep(Ast(obj), nl, name, nl2, rest);
    case DIndex(obj, nl, key, nl2) =>
      var close := One(SPunct(RBracket), nl2) + rest;
      var tail := One(SPunct(LBracket), nl) + (Text(key) + close);
      assert Text(s) + rest == Text(obj) + tail;
      MemberComplete(obj, tail);
      IndexStep(Ast(obj), nl, Text(key) + close);
      Close(Ast(key), RBracket, nl2, rest);
      Complete(EXPR, key, close);
  }

  lemma {:induction false} ParenComplete(nl: bool, inner: Syn, nl2: bool, rest: seq<Lexeme>)
    requires Derives(inner)
    ensures Member(Text(DParen(nl, inner, nl2)) + rest) == MemberLoop(Ast(inner), rest)
    decreases inner, EXPR, 2
  {
    hide ParseAt, MemberLoop, Closed, Follows, Primary;
    var close := One(SPunct(RParen), nl2) + rest;
    assert Text(DParen(nl, inner, nl2)) + rest == One(SPunct(LParen), nl) + (Text(inner) + close);
    OpenParen(nl, Text(inner) + close);
    Close(Ast(inner), RParen, nl2, rest);
    Complete(EXPR, inner, close);
  }

  /** Reading the text of an operand chain of level l leaves the loop of that level. */
  lemma {:induction false} ChainComplete(l: nat, s: Syn, rest: seq<Lexeme>)
    requires BinaryLevel(l) && Derives(s) && Level(s) <= l && Follows(Reach(l - 1, s), EndsPost(s), rest)
    ensures ParseAt(l, Text(s) + rest) == BinLoop(l, Ast(s), rest)
    decreases s, l, 0
  {
    hide ParseAt, BinLoop, Follows, Text;
    if s.DBin? && Prec(s.bop) == l {
      var tail := One(BinSym(s.bop), s.nl) + (Text(s.right) + rest);
      BinText(s.left, s.nl, s.bop, s.right, rest);
      BinStep(l, Ast(s.left), s.bop, s.nl, Text(s.right) + rest);
      ChainComplete(l, s.left, tail);
      FollowsLess(Reach(l - 1, s.right), if l == EXPR then ASSIGN else l - 1, EndsPost(s), rest);
      Complete(l - 1, s.right, rest);
    } else {
      Complete(l - 1, s, rest);
      LevelStep(l, Text(s) + rest, Ast(s), rest);
    }
  }

  /** Every derivation is parsed to its tree, whatever admissible text follows. */
  lemma {:induction false} Complete(l: nat, s: Syn, rest: seq<Lexeme>)
    requires l <= EXPR && Derives(s) && Level(s) <= l && Follows(Reach(l, s), EndsPost(s), rest)
    ensures ParseAt(l, Text(s) + rest) == Ok(Ast(s), rest)
    decreases s, l, 1
  {
    hide ParseAt, MemberLoop, BinLoop, Follows;
    FollowsLess(l, Reach(l, s), EndsPost(s), rest);
    LoopsEnd(l, EndsPost(s), Ast(s), rest);
    if l == MEMBER {
      MemberComplete(s, rest);
      LeftHandSide(Text(s) + rest, Ast(s), rest);
    } else if l == POSTFIX {
      PostfixComplete(s, rest);
    } else if l == UNARY {
      UnaryComplete(s, rest);
    } else if BinaryLevel(l) {
      FollowsLess(Reach(l - 1, s), Reach(l, s), EndsPost(s), rest);
      ChainComplete(l, s, rest);
    } else if l == COND {
      CondComplete(s, rest);
    } else {
      AssignComplete(s, rest);
    }
  }

  lemma LeftHandSide(ls: seq<Lexeme>, e: Expr, rest: seq<Lexeme>)
    requires Member(ls) == Ok(e, rest) && MemberLoop(e, rest) == Ok(e, rest)
    ensures ParseAt(MEMBER, ls) == Ok(e, rest)
  {
  }

  lemma PostfixOf(ls: seq<Lexeme>, e: Expr, rest: seq<Lexeme>)
    requires ParseAt(MEMBER, ls) == Ok(e, rest)
    ensures ParseAt(POSTFIX, ls) == PostfixOp(e, rest)
  {
  }

  lemma {:induction false} PostfixComplete(s: Syn, rest: seq<Lexeme>)
    requires Derives(s) && Level(s) <= POSTFIX && Follows(POSTFIX, EndsPost(s), rest)
    ensures ParseAt(POSTFIX, Text(s) + rest) == Ok(Ast(s), rest)
    decreases s, POSTFIX, 0
  {
    hide ParseAt, Follows, PostfixOp;
    if s.DPost? {
      var op := One(SPunct(if s.inc then PlusPlus else MinusMinus), false);
      assert Text(s) + rest == Text(s.arg) + (op + rest);
      PostStep(Ast(s.arg), s.inc, rest);
      Complete(MEMBER, s.arg, op + rest);
      PostfixOf(Text(s) + rest, Ast(s.arg), op + rest);
    } else {
      FollowsLess(MEMBER, POSTFIX, EndsPost(s), rest);
      Complete(MEMBER, s, rest);
      PostfixOf(Text(s) + rest, Ast(s), rest);
      LoopsEnd(POSTFIX, EndsPost(s), Ast(s), rest);
    }
  }

  lemma {:induction false} UnaryComplete(s: Syn, rest: seq<Lexeme>)
    requires Derives(s) && Level(s) <= UNARY && Follows(UNARY, EndsPost(s), rest)
    ensures ParseAt(UNARY, Text(s) + rest) == Ok(Ast(s), rest)
    decreases s, UNARY, 0
  {
    hide ParseAt, Follows, Text, UnSym;
    if s.DUnary? {
      UnaryText(s.nl, s.op, s.arg, rest);
      UnaryStep(s.op, s.nl, Text(s.arg) + rest);
      Complete(UNARY, s.arg, rest);
    } else {
      StartsPrimary(s, rest);
      FollowsLess(POSTFIX, UNARY, EndsPost(s), rest);
      Complete(POSTFIX, s, rest);
      NotUnary(Text(s) + rest);
    }
  }

  lemma UnaryText(nl: bool, op: UnOp, arg: Syn, rest: seq<Lexeme>)
    ensures Text(DUnary(nl, op, arg)) + rest == One(UnSym(op), nl) + (Text(arg) + rest)
  {
  }

  lemma NotUnary(ls: seq<Lexeme>)
    requires var t := Peek(ls, OPERAND); t.Some? && UnaryToken(t.value) == None
    ensures ParseAt(UNARY, ls) == ParseAt(POSTFIX, ls)
  {
  }

  lemma {:induction false} CondComplete(s: Syn, rest: seq<Lexeme>)
    requires Derives(s) && Level(s) <= COND && Follows(Reach(COND, s), EndsPost(s), rest)
    ensures ParseAt(COND, Text(s) + rest) == Ok(Ast(s), rest)
    decreases s, COND, 0
  {
    hide ParseAt, Follows, CondTail, Closed;
    if s.DCond? {
      var colon := One(SPunct(Colon), s.nl2) + (Text(s.no) + rest);
      var tail := One(SPunct(Question), s.nl) + (Text(s.yes) + colon);
      assert Text(s) + rest == Text(s.cond) + tail;
      Close(Ast(s.yes), Colon, s.nl2, Text(s.no) + rest);
      CondStep(Ast(s.cond), s.nl, Text(s.yes) + colon);
      Complete(LOR, s.cond, tail);
      LevelStep(COND, Text(s) + rest, Ast(s.cond), tail);
      Complete(ASSIGN, s.yes, colon);
      Complete(ASSIGN, s.no, rest);
    } else {
      FollowsLess(LOR, COND, EndsPost(s), rest);
      Complete(LOR, s, rest);
      LevelStep(COND, Text(s) + rest, Ast(s), rest);
      LoopsEnd(COND, EndsPost(s), Ast(s), rest);
    }
  }

  lemma {:induction false} AssignComplete(s: Syn, rest: seq<Lexeme>)
    requires Derives(s) && Level(s) <= ASSIGN && Follows(ASSIGN, EndsPost(s), rest)
    ensures ParseAt(ASSIGN, Text(s) + rest) == Ok(Ast(s), rest)
    decreases s, ASSIGN, 0
  {
    hide ParseAt, Follows, AssignTail;
    if s.DAssign? {
      var tail := One(SAssign(s.aop), s.nl) + (Text(s.value) + rest);
      assert Text(s) + rest == Text(s.target) + tail;
      AssignStep(Ast(s.target), s.aop, s.nl, Text(s.value) + rest);
      Complete(COND, s.target, tail);
      LevelStep(ASSIGN, Text(s) + rest, Ast(s.target), tail);
      Complete(ASSIGN, s.value, rest);
    } else {
      FollowsLess(Reach(COND, s), ASSIGN, EndsPost(s), rest);
      Complete(COND, s, rest);
      LevelStep(ASSIGN, Text(s) + rest, Ast(s), rest);
      LoopsEnd(ASSIGN, EndsPost(s), Ast(s), rest);
    }
  }

  // ----- soundness -----

  /** The text splits into its first lexeme and the rest. */
  lemma Head(ls: seq<Lexeme>)
    requires ls != []
    ensures One(ls[0].sym, ls[0].nl) + ls[1..] == ls
  {
  }

  /** A token determines the lexeme it was read from. */
  lemma OperandSym(ls: seq<Lexeme>)
    ensures Peek(ls, OPERAND) == Some(TThis) ==> ls != [] && ls[0].sym == SName(Kw(KThis))
    ensures Peek(ls, OPERAND).Some? && Peek(ls, OPERAND).value.TLit? ==> ls != [] && ls[0].sym == LitSym(Peek(ls, OPERAND).value.l)
    ensures Peek(ls, OPERAND).Some? && UnaryToken(Peek(ls, OPERAND).value).Some? ==>
      ls != [] && UnaryToken(Peek(ls, OPERAND).value).value != PostInc && UnaryToken(Peek(ls, OPERAND).value).value != PostDec
      && ls[0].sym == UnSym(UnaryToken(Peek(ls, OPERAND).value).value)
  {
  }

  lemma OperatorSym(ls: seq<Lexeme>)
    ensures Peek(ls, OPERATOR).Some? && Peek(ls, OPERATOR).value.TOp? ==> ls != [] && ls[0].sym == BinSym(Peek(ls, OPERATOR).value.b)
    ensures Peek(ls, OPERATOR).Some? && Peek(ls, OPERATOR).value.TAssign? ==> ls != [] && ls[0].sym == SAssign(Peek(ls, OPERATOR).value.a)
  {
  }

  /** s is a derivation of level at most l for what r consumed of ls. */
  ghost predicate Witness(l: nat, ls: seq<Lexeme>, r: Parsed, s: Syn) {
    && r.Ok? && Derives(s) && Level(s) <= l && Ast(s) == r.e
    && Text(s) + r.rest == ls && Follows(Reach(l, s), EndsPost(s), r.rest)
  }

  lemma ClosedSound(r: Parsed, p: Punct)
    requires Closed(r, p).Ok?
    ensures r.Ok? && r.rest != [] && r.rest == One(SPunct(p), r.rest[0].nl) + r.rest[1..]
    ensures Closed(r, p) == Ok(r.e, r.rest[1..])
  {
    Head(r.rest);
  }

  // Texts of derivations, regrouped the way the parser reads them.

  lemma DotText(obj: Syn, nl: bool, nl2: bool, name: Name, rest: seq<Lexeme>)
    ensures Text(DDot(obj, nl, nl2, name)) + rest == Text(obj) + (One(SPunct(Point), nl) + (One(SName(name), nl2) + rest))
  {
  }

  lemma IndexText(obj: Syn, nl: bool, key: Syn, nl2: bool, rest: seq<Lexeme>)
    ensures Text(DIndex(obj, nl, key, nl2)) + rest ==
      Text(obj) + (One(SPunct(LBracket), nl) + (Text(key) + (One(SPunct(RBracket), nl2) + rest)))
  {
  }

  lemma ParenText(nl: bool, inner: Syn, nl2: bool, rest: seq<Lexeme>)
    ensures Text(DParen(nl, inner, nl2)) + rest == One(SPunct(LParen), nl) + (Text(inner) + (One(SPunct(RParen), nl2) + rest))
  {
  }

  lemma BinText(left: Syn, nl: bool, b: BinOp, right: Syn, rest: seq<Lexeme>)
    ensures Text(DBin(left, nl, b, right)) + rest == Text(left) + (One(BinSym(b), nl) + (Text(right) + rest))
  {
  }

  lemma CondText(c: Syn, nl: bool, yes: Syn, nl2: bool, no: Syn, rest: seq<Lexeme>)
    ensures Text(DCond(c, nl, yes, nl2, no)) + rest ==
      Text(c) + (One(SPunct(Question), nl) + (Text(yes) + (One(SPunct(Colon), nl2) + (Text(no) + rest))))
  {
  }

  /** The loop over property accesses extends the derivation read so far. */
  lemma {:induction false} MemberLoopSound(sc: Syn, ls: seq<Lexeme>) returns (s: Syn)
    requires Derives(sc) && Level(sc) == MEMBER && MemberLoop(Ast(sc), ls).Ok?
    ensures Witness(MEMBER, Text(sc) + ls, MemberLoop(Ast(sc), ls), s)
    decreases |ls|, 20
  {
    hide ParseAt, Text, Follows, MemberLoop;
    if Peek(ls, OPERATOR) == Some(TPunct(Point)) {
      var n := PointReads(Ast(sc), ls);
      DotText(sc, ls[0].nl, ls[1].nl, n, ls[2..]);
      s := MemberLoopSound(DDot(sc, ls[0].nl, ls[1].nl, n), ls[2..]);
    } else if Peek(ls, OPERATOR) == Some(TPunct(LBracket)) {
      s := IndexSound(sc, ls);
    } else {
      s := sc;
      LoopStops(sc, ls);
    }
  }

  lemma LoopStops(sc: Syn, ls: seq<Lexeme>)
    requires Level(sc) == MEMBER && MemberLoop(Ast(sc), ls).Ok?
    requires Peek(ls, OPERATOR) != Some(TPunct(Point)) && Peek(ls, OPERATOR) != Some(TPunct(LBracket))
    ensures Follows(Reach(MEMBER, sc), EndsPost(sc), ls) && MemberLoop(Ast(sc), ls) == Ok(Ast(sc), ls)
  {
  }

  lemma PointReads(cur: Expr, ls: seq<Lexeme>) returns (n: Name)
    requires Peek(ls, OPERATOR) == Some(TPunct(Point)) && MemberLoop(cur, ls).Ok?
    ensures |ls| >= 2 && ls == One(SPunct(Point), ls[0].nl) + (One(SName(n), ls[1].nl) + ls[2..])
    ensures MemberLoop(cur, ls) == MemberLoop(EMember(cur, ELit(LStr(n))), ls[2..])
  {
    n := Peek(ls[1..], NAME_ONLY).value.n;
    Head(ls);
    Head(ls[1..]);
    assert ls[1..][1..] == ls[2..];
  }

  lemma {:induction false} IndexSound(sc: Syn, ls: seq<Lexeme>) returns (s: Syn)
    requires Derives(sc) && Level(sc) == MEMBER && MemberLoop(Ast(sc), ls).Ok?
    requires Peek(ls, OPERATOR) == Some(TPunct(LBracket))
    ensures Witness(MEMBER, Text(sc) + ls, MemberLoop(Ast(sc), ls), s)
    decreases |ls|, 19
  {
    hide ParseAt, Text, Follows, Closed;
    Head(ls);
    var inner := ParseAt(EXPR, ls[1..]);
    ClosedSound(inner, RBracket);
    var key := Sound(EXPR, ls[1..]);
    var nl2 := inner.rest[0].nl;
    IndexText(sc, ls[0].nl, key, nl2, inner.rest[1..]);
    s := MemberLoopSound(DIndex(sc, ls[0].nl, key, nl2), inner.rest[1..]);
  }

  lemma {:induction false} PrimarySound(ls: seq<Lexeme>) returns (s: Syn)
    requires Primary(ls).Ok?
    ensures Derives(s) && Level(s) == MEMBER && Ast(s) == Primary(ls).e && Text(s) + Primary(ls).rest == ls
    decreases |ls|, 0, 1
  {
    hide ParseAt, Closed;
    OperandSym(ls);
    Head(ls);
    if Peek(ls, OPERAND) == Some(TThis) {
      s := DThis(ls[0].nl);
    } else if Peek(ls, OPERAND).value.TLit? {
      s := DLit(ls[0].nl, Peek(ls, OPERAND).value.l);
    } else {
      s := ParenSound(ls);
    }
  }

  lemma {:induction false} ParenSound(ls: seq<Lexeme>) returns (s: Syn)
    requires Peek(ls, OPERAND) == Some(TPunct(LParen)) && Primary(ls).Ok?
    ensures Derives(s) && Level(s) == MEMBER && Ast(s) == Primary(ls).e && Text(s) + Primary(ls).rest == ls
    decreases |ls|, 0, 0
  {
    hide ParseAt, Closed, Text, Follows;
    Head(ls);
    var r := ParseAt(EXPR, ls[1..]);
    ClosedSound(r, RParen);
    var inner := Sound(EXPR, ls[1..]);
    s := DParen(ls[0].nl, inner, r.rest[0].nl);
    ParenText(ls[0].nl, inner, r.rest[0].nl, r.rest[1..]);
  }

  lemma {:induction false} BinLoopSound(l: nat, sc: Syn, ls: seq<Lexeme>) returns (s: Syn)
    requires BinaryLevel(l) && Derives(sc) && Level(sc) <= l && BinLoop(l, Ast(sc), ls).Ok?
    requires Follows(Reach(l - 1, sc), EndsPost(sc), ls)
    ensures Witness(l, Text(sc) + ls, BinLoop(l, Ast(sc), ls), s)
    decreases |ls|, 20
  {
    hide ParseAt, Text, Follows;
    OperatorSym(ls);
    BinLoopReads(l, Ast(sc), ls);
    var t := Peek(ls, OPERATOR).value;
    if t.TOp? && Prec(t.b) == l {
      Head(ls);
      var r := ParseAt(l - 1, ls[1..]);
      var right := Sound(l - 1, ls[1..]);
      var next := DBin(sc, ls[0].nl, t.b, right);
      BinText(sc, ls[0].nl, t.b, right, r.rest);
      FollowsLess(l - 1, Reach(l - 1, right), EndsPost(right), r.rest);
      s := BinLoopSound(l, next, r.rest);
    } else {
      s := sc;
      BinLoopEnds(l, sc, ls);
    }
  }

  lemma BinLoopReads(l: nat, cur: Expr, ls: seq<Lexeme>)
    requires BinaryLevel(l) && BinLoop(l, cur, ls).Ok?
    ensures Peek(ls, OPERATOR).Some?
  {
  }

  lemma BinLoopEnds(l: nat, sc: Syn, ls: seq<Lexeme>)
    requires BinaryLevel(l) && Level(sc) <= l && Follows(Reach(l - 1, sc), EndsPost(sc), ls) && Peek(ls, OPERATOR).Some?
    requires var t := Peek(ls, OPERATOR).value; !(t.TOp? && Prec(t.b) == l)
    ensures Follows(Reach(l, sc), EndsPost(sc), ls) && BinLoop(l, Ast(sc), ls) == Ok(Ast(sc), ls)
  {
  }

  lemma {:induction false} CondTailSound(c: Syn, ls: seq<Lexeme>) returns (s: Syn)
    requires Derives(c) && Level(c) <= LOR && CondTail(Ast(c), ls).Ok? && Follows(LOR, EndsPost(c), ls)
    ensures Witness(COND, Text(c) + ls, CondTail(Ast(c), ls), s)
    decreases |ls|, 20
  {
    hide ParseAt, Text, Closed, CondTail, Follows;
    if Peek(ls, OPERATOR) == Some(TPunct(Question)) {
      Head(ls);
      CondUnfolds(Ast(c), ls);
      var y := ParseAt(ASSIGN, ls[1..]);
      ClosedSound(y, Colon);
      var yes := Sound(ASSIGN, ls[1..]);
      var no := Sound(ASSIGN, y.rest[1..]);
      var n := ParseAt(ASSIGN, y.rest[1..]);
      s := DCond(c, ls[0].nl, yes, y.rest[0].nl, no);
      CondText(c, ls[0].nl, yes, y.rest[0].nl, no, n.rest);
      FollowsLess(ASSIGN, Reach(ASSIGN, no), EndsPost(no), n.rest);
    } else {
      s := c;
      CondStops(c, ls);
    }
  }

  lemma CondUnfolds(c: Expr, ls: seq<Lexeme>)
    requires Peek(ls, OPERATOR) == Some(TPunct(Question)) && CondTail(c, ls).Ok?
    ensures ls[0].sym == SPunct(Question)
    ensures var y := Closed(ParseAt(ASSIGN, ls[1..]), Colon);
            y.Ok? && var n := ParseAt(ASSIGN, y.rest); n.Ok? && CondTail(c, ls) == Ok(ECond(c, y.e, n.e), n.rest)
  {
    hide ParseAt, Closed;
  }

  lemma CondStops(c: Syn, ls: seq<Lexeme>)
    requires Level(c) <= LOR && CondTail(Ast(c), ls).Ok? && Follows(LOR, EndsPost(c), ls) && Peek(ls, OPERATOR) != Some(TPunct(Question))
    ensures Follows(Reach(COND, c), EndsPost(c), ls) && CondTail(Ast(c), ls) == Ok(Ast(c), ls)
  {
  }

  lemma {:induction false} AssignTailSound(t: Syn, ls: seq<Lexeme>) returns (s: Syn)
    requires Derives(t) && Level(t) <= COND && AssignTail(Ast(t), ls).Ok? && Follows(Reach(COND, t), EndsPost(t), ls)
    ensures Witness(ASSIGN, Text(t) + ls, AssignTail(Ast(t), ls), s)
    decreases |ls|, 20
  {
    hide ParseAt, Classify, Text, AssignTail, Follows;
    OperatorSym(ls);
    AssignUnfolds(Ast(t), ls);
    if Peek(ls, OPERATOR).value.TAssign? {
      Head(ls);
      var value := Sound(ASSIGN, ls[1..]);
      var a := Peek(ls, OPERATOR).value.a;
      var r := ParseAt(ASSIGN, ls[1..]);
      s := DAssign(t, ls[0].nl, a, value);
      AssignTarget(t, ls);
      AssignText(t, ls[0].nl, a, value, r.rest);
      FollowsLess(ASSIGN, Reach(ASSIGN, value), EndsPost(value), r.rest);
    } else {
      s := t;
      AssignStops(t, ls);
    }
  }

  lemma AssignText(t: Syn, nl: bool, a: AssignOp, value: Syn, rest: seq<Lexeme>)
    ensures Text(DAssign(t, nl, a, value)) + rest == Text(t) + (One(SAssign(a), nl) + (Text(value) + rest))
  {
  }

  lemma AssignUnfolds(target: Expr, ls: seq<Lexeme>)
    requires AssignTail(target, ls).Ok?
    ensures var t := Peek(ls, OPERATOR);
            t.Some? && if t.value.TAssign? then
              var r := ParseAt(ASSIGN, ls[1..]);
              r.Ok? && AssignTail(target, ls) == Ok(EAssign(t.value.a, target, r.e), r.rest)
            else AssignTail(target, ls) == Ok(target, ls)
  {
    hide ParseAt;
  }

  lemma AssignTarget(t: Syn, ls: seq<Lexeme>)
    requires Level(t) <= COND && Follows(Reach(COND, t), EndsPost(t), ls)
    requires Peek(ls, OPERATOR).Some? && Peek(ls, OPERATOR).value.TAssign?
    ensures Level(t) <= LOR
  {
  }

  lemma AssignStops(t: Syn, ls: seq<Lexeme>)
    requires Level(t) <= COND && Follows(Reach(COND, t), EndsPost(t), ls)
    requires Peek(ls, OPERATOR).Some? && !Peek(ls, OPERATOR).value.TAssign?
    ensures Follows(Reach(ASSIGN, t), EndsPost(t), ls)
  {
  }

  /** What the parser accepts is derivable, with the tree it returned. */
  lemma {:induction false} Sound(l: nat, ls: seq<Lexeme>) returns (s: Syn)
    requires l <= EXPR && ParseAt(l, ls).Ok?
    ensures Witness(l, ls, ParseAt(l, ls), s)
    decreases |ls|, l + 2, 1
  {
    if l == MEMBER {
      s := LeftHandSideSound(ls);
    } else if l == POSTFIX {
      s := PostfixSound(ls);
    } else if l == UNARY {
      s := UnarySound(ls);
    } else {
      var e := ParseAt(l - 1, ls);
      var sub := Sound(l - 1, ls);
      if BinaryLevel(l) {
        s := BinLoopSound(l, sub, e.rest);
      } else if l == COND {
        FollowsLess(LOR, Reach(LOR, sub), EndsPost(sub), e.rest);
        s := CondTailSound(sub, e.rest);
      } else {
        s := AssignTailSound(sub, e.rest);
      }
    }
  }

  lemma {:induction false} LeftHandSideSound(ls: seq<Lexeme>) returns (s: Syn)
    requires ParseAt(MEMBER, ls).Ok?
    ensures Witness(MEMBER, ls, ParseAt(MEMBER, ls), s)
    decreases |ls|, 1, 0
  {
    var p := Primary(ls);
    var s0 := PrimarySound(ls);
    var s1 := MemberLoopSound(s0, p.rest);
    s := MemberLoopSound(s1, Member(ls).rest);
  }

  lemma {:induction false} PostfixSound(ls: seq<Lexeme>) returns (s: Syn)
    requires ParseAt(POSTFIX, ls).Ok?
    ensures Witness(POSTFIX, ls, ParseAt(POSTFIX, ls), s)
    decreases |ls|, POSTFIX + 2, 0
  {
    hide PostfixOp, Text, Follows;
    var arg := Sound(MEMBER, ls);
    s := PostfixOpSound(arg, ParseAt(MEMBER, ls).rest);
  }

  lemma PostfixOpSound(arg: Syn, ls: seq<Lexeme>) returns (s: Syn)
    requires Derives(arg) && Level(arg) == MEMBER && Follows(MEMBER, false, ls) && PostfixOp(Ast(arg), ls).Ok?
    ensures Witness(POSTFIX, Text(arg) + ls, PostfixOp(Ast(arg), ls), s)
  {
    hide Text, Follows, PostfixOp, Classify;
    var t := Peek(ls, OPERATOR);
    if !NewLine(ls) && (t == Some(TPunct(PlusPlus)) || t == Some(TPunct(MinusMinus))) {
      var inc := t == Some(TPunct(PlusPlus));
      s := DPost(arg, inc);
      PostTaken(arg, inc, ls);
    } else {
      s := arg;
      PostStops(arg, ls);
    }
  }

  lemma PostTaken(arg: Syn, inc: bool, ls: seq<Lexeme>)
    requires !NewLine(ls) && Peek(ls, OPERATOR) == Some(TPunct(if inc then PlusPlus else MinusMinus))
    ensures ls != [] && PostfixOp(Ast(arg), ls) == Ok(Ast(DPost(arg, inc)), ls[1..])
    ensures Text(DPost(arg, inc)) + ls[1..] == Text(arg) + ls
    ensures Follows(POSTFIX, true, ls[1..])
  {
    Head(ls);
    Regroup(Text(arg), One(ls[0].sym, false), ls[1..]);
  }

  lemma PostStops(arg: Syn, ls: seq<Lexeme>)
    requires Level(arg) == MEMBER && Follows(MEMBER, false, ls) && PostfixOp(Ast(arg), ls).Ok?
    requires var t := Peek(ls, OPERATOR); NewLine(ls) || (t != Some(TPunct(PlusPlus)) && t != Some(TPunct(MinusMinus)))
    ensures PostfixOp(Ast(arg), ls) == Ok(Ast(arg), ls) && Follows(POSTFIX, EndsPost(arg), ls)
  {
  }

  lemma {:induction false} UnarySound(ls: seq<Lexeme>) returns (s: Syn)
    requires ParseAt(UNARY, ls).Ok?
    ensures Witness(UNARY, ls, ParseAt(UNARY, ls), s)
    decreases |ls|, UNARY + 2, 0
  {
    hide ParseAt, Text, Follows, UnSym, UnaryToken;
    UnaryReads(ls);
    var t := Peek(ls, OPERAND).value;
    if UnaryToken(t).Some? {
      var arg := Sound(UNARY, ls[1..]);
      s := DUnary(ls[0].nl, UnaryToken(t).value, arg);
      UnaryText(s.nl, s.op, arg, ParseAt(UNARY, ls[1..]).rest);
    } else {
      s := Sound(POSTFIX, ls);
      UnaryIsPostfix(ls, s);
    }
  }

  lemma UnaryIsPostfix(ls: seq<Lexeme>, s: Syn)
    requires Witness(POSTFIX, ls, ParseAt(POSTFIX, ls), s)
    ensures Witness(UNARY, ls, ParseAt(POSTFIX, ls), s)
  {
    hide ParseAt, Text;
  }

  lemma UnaryReads(ls: seq<Lexeme>)
    requires ParseAt(UNARY, ls).Ok?
    ensures var t := Peek(ls, OPERAND);
            && t.Some?
            && (UnaryToken(t.value) == None ==> ParseAt(UNARY, ls) == ParseAt(POSTFIX, ls))
            && (UnaryToken(t.value).Some? ==>
                  var op, r := UnaryToken(t.value).value, ParseAt(UNARY, ls[1..]);
                  && op != PostInc && op != PostDec && ls == One(UnSym(op), ls[0].nl) + ls[1..]
                  && r.Ok? && ParseAt(UNARY, ls) == Ok(EUnary(op, r.e), r.rest))
  {
    OperandSym(ls);
    if ls != [] {
      Head(ls);
    }
  }

  // ----- the parser decides the grammar -----

  /** The parser accepts a text with tree e and remainder rest exactly when some derivation
      reads that way: nothing more, nothing less. */
  lemma ParserDecides(l: nat, ls: seq<Lexeme>, e: Expr, rest: seq<Lexeme>)
    requires l <= EXPR
    ensures ParseAt(l, ls) == Ok(e, rest) <==> exists s :: Witness(l, ls, Ok(e, rest), s)
  {
    hide ParseAt;
    if ParseAt(l, ls) == Ok(e, rest) {
      var s := Sound(l, ls);
    }
    if s :| Witness(l, ls, Ok(e, rest), s) {
      Complete(l, s, rest);
    }
  }

  /** Two derivations of one text have one tree. */
  lemma Unambiguous(s: Syn, t: Syn)
    requires Derives(s) && Derives(t) && Text(s) == Text(t)
    ensures Ast(s) == Ast(t)
  {
    assert Text(s) + [] == Text(s) && Text(t) + [] == Text(t);
    Complete(EXPR, s, []);
    Complete(EXPR, t, []);
  }
}
