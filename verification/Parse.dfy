/** The recursive-descent parser as functions on the lexemes still to be read.

    Each function is one of the source's: it gives the tree and the lexemes that are left, or
    stops where an assertion of the source does.  The lexer's mode is part of the function: each
    token is read under the goal that the place in the grammar asks for.  The lemmas at the end
    unfold one step of a definition each. */
module Parse {
  import opened Sequences
  import opened Syntax

  /** The result of a parse: a tree and the lexemes left, or a stop at an assertion. */
  datatype Parsed = Stop | Ok(e: Expr, rest: seq<Lexeme>)

  /** The next token; past the end of the text it is the end-of-file token. */
  function Peek(ls: seq<Lexeme>, g: Goal): Option<Tok> {
    if ls == [] then Some(TEof) else Classify(ls[0].sym, g)
  }

  /** A line terminator precedes the next token. */
  predicate NewLine(ls: seq<Lexeme>) {
    ls == [] || ls[0].nl
  }

  function Primary(ls: seq<Lexeme>): (r: Parsed)
    ensures r.Ok? ==> |r.rest| < |ls|
    decreases |ls|, 0
  {
    match Peek(ls, OPERAND)
    case Some(TThis) => Ok(EThis, ls[1..])
    case Some(TLit(l)) => Ok(ELit(l), ls[1..])
    case Some(TPunct(LParen)) => Closed(ParseAt(EXPR, ls[1..]), RParen)
    case _ => Stop
  }

  /** An inner expression must be followed by its closing bracket. */
  function Closed(r: Parsed, p: Punct): Parsed {
    if r.Ok? && r.rest != [] && Peek(r.rest, OPERATOR) == Some(TPunct(p)) then Ok(r.e, r.rest[1..]) else Stop
  }

  /** Property accesses by name and by index. */
  function MemberLoop(cur: Expr, ls: seq<Lexeme>): (r: Parsed)
    ensures r.Ok? ==> |r.rest| <= |ls|
    decreases |ls|, 20
  {
    match Peek(ls, OPERATOR)
    case None => Stop
    case Some(TPunct(Point)) =>
      (match Peek(ls[1..], NAME_ONLY)
       case Some(TId(n)) => MemberLoop(EMember(cur, ELit(LStr(n))), ls[2..])
       case _ => Stop)
    case Some(TPunct(LBracket)) =>
      (match Closed(ParseAt(EXPR, ls[1..]), RBracket)
       case Ok(key, rest) => MemberLoop(EMember(cur, key), rest)
       case Stop => Stop)
    case _ => Ok(cur, ls)
  }

  function Member(ls: seq<Lexeme>): (r: Parsed)
    ensures r.Ok? ==> |r.rest| < |ls|
    decreases |ls|, 1
  {
    match Primary(ls)
    case Ok(e, rest) => MemberLoop(e, rest)
    case Stop => Stop
  }

  function PostfixOp(e: Expr, ls: seq<Lexeme>): (r: Parsed)
    ensures r.Ok? ==> |r.rest| <= |ls|
  {
    match Peek(ls, OPERATOR)
    case None => Stop
    case Some(t) =>
      if NewLine(ls) then Ok(e, ls)
      else if t == TPunct(PlusPlus) then Ok(EUnary(PostInc, e), ls[1..])
      else if t == TPunct(MinusMinus) then Ok(EUnary(PostDec, e), ls[1..])
      else Ok(e, ls)
  }

  /** A row of left-associative operators of level l after the operand cur. */
  function BinLoop(l: nat, cur: Expr, ls: seq<Lexeme>): (r: Parsed)
    requires BinaryLevel(l)
    ensures r.Ok? ==> |r.rest| <= |ls|
    decreases |ls|, 20
  {
    match Peek(ls, OPERATOR)
    case None => Stop
    case Some(TOp(b)) =>
      if Prec(b) != l then Ok(cur, ls)
      else
        (match ParseAt(l - 1, ls[1..])
         case Ok(right, rest) => BinLoop(l, EBin(b, cur, right), rest)
         case Stop => Stop)
    case _ => Ok(cur, ls)
  }

  function CondTail(c: Expr, ls: seq<Lexeme>): (r: Parsed)
    ensures r.Ok? ==> |r.rest| <= |ls|
    decreases |ls|, 20
  {
    match Peek(ls, OPERATOR)
    case None => Stop
    case Some(TPunct(Question)) =>
      (match Closed(ParseAt(ASSIGN, ls[1..]), Colon)
       case Ok(yes, mid) =>
         (match ParseAt(ASSIGN, mid)
          case Ok(no, rest) => Ok(ECond(c, yes, no), rest)
          case Stop => Stop)
       case Stop => Stop)
    case _ => Ok(c, ls)
  }

  function AssignTail(target: Expr, ls: seq<Lexeme>): (r: Parsed)
    ensures r.Ok? ==> |r.rest| <= |ls|
    decreases |ls|, 20
  {
    match Peek(ls, OPERATOR)
    case None => Stop
    case Some(TAssign(a)) =>
      (match ParseAt(ASSIGN, ls[1..])
       case Ok(value, rest) => Ok(EAssign(a, target, value), rest)
       case Stop => Stop)
    case _ => Ok(target, ls)
  }

  /** The cascade: 0 left-hand side, 1 postfix, 2 unary, 3..12 binary, 13 conditional,
      14 assignment, 15 comma. */
  function ParseAt(l: nat, ls: seq<Lexeme>): (r: Parsed)
    requires l <= EXPR
    ensures r.Ok? ==> |r.rest| < |ls|
    decreases |ls|, l + 2
  {
    if l == MEMBER then
      (match Member(ls)
       case Ok(e, rest) => MemberLoop(e, rest)
       case Stop => Stop)
    else if l == POSTFIX then
      (match ParseAt(MEMBER, ls)
       case Ok(e, rest) => PostfixOp(e, rest)
       case Stop => Stop)
    else if l == UNARY then
      (match Peek(ls, OPERAND)
       case None => Stop
       case Some(t) =>
         match UnaryToken(t)
         case Some(op) =>
           (match ParseAt(UNARY, ls[1..])
            case Ok(e, rest) => Ok(EUnary(op, e), rest)
            case Stop => Stop)
         case None => ParseAt(POSTFIX, ls))
    else
      match ParseAt(l - 1, ls)
      case Stop => Stop
      case Ok(e, rest) =>
        if BinaryLevel(l) then BinLoop(l, e, rest)
        else if l == COND then CondTail(e, rest)
        else AssignTail(e, rest)
  }

  /** An expression statement: a semicolon, or its automatic insertion before a closing brace,
      a line terminator or the end of the text. */
  function Statement(ls: seq<Lexeme>): Parsed {
    match ParseAt(EXPR, ls)
    case Stop => Stop
    case Ok(e, rest) =>
      match Peek(rest, OPERATOR)
      case Some(TPunct(Semicolon)) => Ok(e, rest[1..])
      case Some(t) => if t == TPunct(RBrace) || NewLine(rest) then Ok(e, rest) else Stop
      case None => Stop
  }

  // ----- the definitions, one step at a time -----

  lemma PrimaryReads(ls: seq<Lexeme>)
    ensures var t := Peek(ls, OPERAND);
            Primary(ls) ==
              if t == Some(TThis) then Ok(EThis, ls[1..])
              else if t.Some? && t.value.TLit? then Ok(ELit(t.value.l), ls[1..])
              else if t == Some(TPunct(LParen)) then Closed(ParseAt(EXPR, ls[1..]), RParen)
              else Stop
  {
    hide ParseAt;
  }

  lemma AccessReads(cur: Expr, ls: seq<Lexeme>)
    ensures Peek(ls, OPERATOR) == None ==> MemberLoop(cur, ls) == Stop
    ensures Peek(ls, OPERATOR) == Some(TPunct(Point)) ==>
      ls != [] && var t := Peek(ls[1..], NAME_ONLY);
                  MemberLoop(cur, ls) ==
                    if t.Some? && t.value.TId? then MemberLoop(EMember(cur, ELit(LStr(t.value.n))), ls[2..]) else Stop
    ensures Peek(ls, OPERATOR) == Some(TPunct(LBracket)) ==>
      ls != [] && var r := Closed(ParseAt(EXPR, ls[1..]), RBracket);
                  MemberLoop(cur, ls) == if r.Ok? then MemberLoop(EMember(cur, r.e), r.rest) else Stop
    ensures var t := Peek(ls, OPERATOR);
            t.Some? && t.value != TPunct(Point) && t.value != TPunct(LBracket) ==> MemberLoop(cur, ls) == Ok(cur, ls)
  {
    hide ParseAt;
  }

  lemma BinReads(l: nat, cur: Expr, ls: seq<Lexeme>)
    requires BinaryLevel(l)
    ensures var t := Peek(ls, OPERATOR);
            BinLoop(l, cur, ls) ==
              if t == None then Stop
              else if t.value.TOp? && Prec(t.value.b) == l then
                var r := ParseAt(l - 1, ls[1..]);
                if r.Ok? then BinLoop(l, EBin(t.value.b, cur, r.e), r.rest) else Stop
              else Ok(cur, ls)
  {
    hide ParseAt;
  }

  lemma CondReads(c: Expr, ls: seq<Lexeme>)
    ensures var t := Peek(ls, OPERATOR);
            CondTail(c, ls) ==
              if t == None then Stop
              else if t == Some(TPunct(Question)) then
                var y := Closed(ParseAt(ASSIGN, ls[1..]), Colon);
                var n := if y.Ok? then ParseAt(ASSIGN, y.rest) else Stop;
                if n.Ok? then Ok(ECond(c, y.e, n.e), n.rest) else Stop
              else Ok(c, ls)
  {
    hide ParseAt;
  }

  lemma LevelReads(l: nat, ls: seq<Lexeme>)
    requires UNARY < l <= EXPR
    ensures var r := ParseAt(l - 1, ls);
            ParseAt(l, ls) ==
              if r == Stop then Stop
              else if BinaryLevel(l) then BinLoop(l, r.e, r.rest)
              else if l == COND then CondTail(r.e, r.rest)
              else AssignTail(r.e, r.rest)
  {
  }
}
