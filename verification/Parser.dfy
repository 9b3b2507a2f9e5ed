/** The lexer and parser as the program runs them: one token of pushback, and two lexer mode
    flags that the parser switches while it goes.

    Each parse function is proved to do what the function of the same level in module Parse
    does on the lexemes that are left, and to keep the protocol: a token is read once, under
    the goal that its place in the text prescribes, and at most one is pushed back. */
module Parser {
  import opened Sequences
  import opened Syntax
  import opened Parse

  datatype Token = Token(tok: Tok, lineBefore: bool)

  class Lexer {
    const input: seq<Lexeme>
    var ptr: nat
    var regexp: bool
    var parseId: bool
    /** The flags with which each lexeme was read. */
    ghost var log: seq<Goal>

    /** Every lexeme before ptr was read exactly once, under the goal the grammar prescribes. */
    ghost predicate Valid()
      reads `ptr, `log
    {
      ptr <= |input| && |log| == ptr && forall i :: 0 <= i < ptr ==> log[i] == GoalAt(input, i)
    }

    constructor (text: seq<Lexeme>)
      ensures Valid() && input == text && ptr == 0 && !regexp && parseId
    {
      input, ptr, regexp, parseId, log := text, 0, false, true, [];
    }

    /** Reads the next token; None where the lexer stops at an assertion. */
    method Next() returns (t: Option<Token>)
      requires Valid() && (ptr < |input| ==> Goal(regexp, parseId) == GoalAt(input, ptr))
      modifies `ptr, `log
      ensures Valid() && ptr == if old(ptr) == |input| then old(ptr) else old(ptr) + 1
      ensures old(ptr) == |input| ==> t == Some(Token(TEof, true))
      ensures old(ptr) < |input| ==>
        var c := Classify(input[old(ptr)].sym, Goal(regexp, parseId));
        t == if c == None then None else Some(Token(c.value, input[old(ptr)].nl))
    {
      if ptr == |input| {
        return Some(Token(TEof, true));
      }
      log := log + [Goal(regexp, parseId)];
      ptr := ptr + 1;
      var c := Classify(input[ptr - 1].sym, Goal(regexp, parseId));
      if c == None {
        return None;
      }
      t := Some(Token(c.value, input[ptr - 1].nl));
    }
  }

  class Grammar {
    const lex: Lexer
    /** Tokens pushed back, the next one first. */
    var buffer: seq<Token>

    constructor (lex: Lexer)
      requires lex.Valid() && lex.ptr == 0
      ensures this.lex == lex && Valid() && buffer == [] && Rest() == lex.input && Due(OPERAND)
    {
      this.lex, buffer := lex, [];
    }

    /** Position of the next token to be consumed. */
    ghost function Pos(): nat
      reads `buffer, lex`ptr
      requires lex.ptr <= |lex.input|
    {
      if buffer != [] && buffer[0].tok != TEof && lex.ptr > 0 then lex.ptr - 1 else lex.ptr
    }

    /** At most one token is buffered, and it is the one read at its position. */
    ghost predicate Valid()
      reads `buffer, lex`ptr, lex`log
    {
      && lex.Valid() && |buffer| <= 1
      && (buffer != [] ==> LastRead(buffer[0]))
    }

    /** The token that was read last. */
    ghost predicate LastRead(t: Token)
      reads lex`ptr
      requires lex.ptr <= |lex.input|
    {
      if t.tok == TEof then lex.ptr == |lex.input| && t.lineBefore
      else
        && lex.ptr > 0
        && Classify(lex.input[lex.ptr - 1].sym, GoalAt(lex.input, lex.ptr - 1)) == Some(t.tok)
        && t.lineBefore == lex.input[lex.ptr - 1].nl
    }

    ghost function Rest(): seq<Lexeme>
      reads `buffer, lex`ptr
      requires lex.ptr <= |lex.input|
    {
      lex.input[Pos()..]
    }

    /** The next token has to be read under goal g. */
    ghost predicate Due(g: Goal)
      reads `buffer, lex`ptr
      requires lex.ptr <= |lex.input|
    {
      Pos() < |lex.input| ==> GoalAt(lex.input, Pos()) == g
    }

    /** If the next token still has to be read, the flags are set for it. */
    ghost predicate Ready(g: Goal)
      reads this, lex
    {
      Valid() && Due(g) && (buffer == [] ==> Goal(lex.regexp, lex.parseId) == g)
    }

    method Next(ghost g: Goal) returns (t: Option<Token>)
      requires Ready(g)
      modifies `buffer, lex`ptr, lex`log
      ensures Valid() && buffer == []
      ensures t == None <==> Peek(old(Rest()), g) == None
      ensures t.Some? ==> LastRead(t.value) && t.value.tok == Peek(old(Rest()), g).value && t.value.lineBefore == NewLine(old(Rest()))
      ensures t.Some? && t.value.tok != TEof ==>
        old(Rest()) != [] && Rest() == old(Rest())[1..] && Due(NextGoal(g, t.value.tok))
    {
      if |buffer| > 0 {
        t := Some(buffer[0]);
        buffer := buffer[1..];
      } else {
        t := lex.Next();
      }
    }

    /** Consumes a token that has been looked at. */
    method Skip(ghost g: Goal, ghost t: Tok)
      requires Ready(g) && t != TEof && Peek(Rest(), g) == Some(t)
      modifies `buffer, lex`ptr, lex`log
      ensures Valid() && buffer == [] && Due(NextGoal(g, t))
      ensures old(Rest()) != [] && Rest() == old(Rest())[1..]
    {
      hide NextGoal, Classify, GoalAt, LastRead;
      var next := Next(g);
    }

    method Pushback(t: Token)
      requires Valid() && buffer == [] && LastRead(t)
      modifies `buffer
      ensures Valid() && buffer == [t]
    {
      buffer := [t] + buffer;
    }

    method Lookahead(ghost g: Goal) returns (t: Option<Token>)
      requires Ready(g)
      modifies `buffer, lex`ptr, lex`log
      ensures t == None ==> lex.Valid() && Peek(old(Rest()), g) == None
      ensures t.Some? ==>
        && Valid() && Due(g) && Rest() == old(Rest()) && buffer == [t.value]
        && Peek(Rest(), g) == Some(t.value.tok) && t.value.lineBefore == NewLine(Rest())
    {
      t := Next(g);
      if t.Some? {
        Pushback(t.value);
      }
    }

    /** A parse function finished: it stopped exactly where the specification stops, or it
        returned the specified tree, consumed the specified text, and an operator is due. */
    ghost predicate Outcome(p: Parsed, r: Option<Expr>)
      reads this, lex
    {
      && lex.Valid()
      && match r
         case None => p == Stop
         case Some(e) => Ready(OPERATOR) && p == Ok(e, Rest())
    }

    /** As Outcome, where the parse ends with a consumed token, so that nothing is buffered. */
    ghost predicate Took(p: Parsed, r: Option<Expr>)
      reads this, lex
    {
      && lex.Valid()
      && match r
         case None => p == Stop
         case Some(e) => Valid() && buffer == [] && Due(OPERATOR) && lex.parseId && p == Ok(e, Rest())
    }

    lemma OperandGoals()
      ensures NextGoal(OPERAND, TThis) == OPERATOR && NextGoal(OPERAND, TPunct(LParen)) == OPERAND
      ensures forall l :: NextGoal(OPERAND, TLit(l)) == OPERATOR
    {}

    lemma OperatorGoals()
      ensures NextGoal(OPERATOR, TPunct(Point)) == NAME_ONLY && NextGoal(OPERATOR, TPunct(LBracket)) == OPERAND
      ensures NextGoal(OPERATOR, TPunct(Question)) == OPERAND && NextGoal(OPERATOR, TPunct(Colon)) == OPERAND
      ensures NextGoal(OPERATOR, TPunct(PlusPlus)) == OPERATOR && NextGoal(OPERATOR, TPunct(MinusMinus)) == OPERATOR
    {}

    method PrimaryExpr() returns (r: Option<Expr>)
      requires Valid() && Due(OPERAND) && lex.parseId
      modifies `buffer, lex`ptr, lex`log, lex`regexp, lex`parseId
      ensures Took(Primary(old(Rest())), r)
      decreases |Rest()|, 0
    {
      hide ParseAt, MemberLoop, BinLoop, CondTail, AssignTail, Primary, GoalAt, Classify, LastRead, NextGoal, Closed, Rest, Pos, Due;
      PrimaryReads(Rest());
      OperandGoals();
      lex.regexp := true;
      ghost var ls := Rest();
      var la := Lookahead(OPERAND);
      if la == None {
        return None;
      }
      match la.value.tok
      case TThis =>
        Skip(OPERAND, TThis);
        return Some(EThis);
      case TLit(l) =>
        Skip(OPERAND, TLit(l));
        return Some(ELit(l));
      case TPunct(LParen) =>
        Skip(OPERAND, TPunct(LParen));
        r := Bracketed(RParen);
      case _ =>
        return None;
    }

    /** Consumes the given punctuator, an operator being due. */
    method Expect(p: Punct) returns (ok: bool)
      requires Ready(OPERATOR)
      modifies `buffer, lex`ptr, lex`log
      ensures lex.Valid() && (ok <==> old(Rest()) != [] && Peek(old(Rest()), OPERATOR) == Some(TPunct(p)))
      ensures ok ==> Valid() && buffer == [] && Rest() == old(Rest())[1..] && Due(NextGoal(OPERATOR, TPunct(p)))
    {
      var t := Next(OPERATOR);
      ok := t.Some? && t.value.tok == TPunct(p);
    }

    /** An expression and its closing bracket, the opening one being consumed. */
    method Bracketed(close: Punct) returns (r: Option<Expr>)
      requires close == RParen || close == RBracket
      requires Valid() && Due(OPERAND) && lex.parseId
      modifies `buffer, lex`ptr, lex`log, lex`regexp, lex`parseId
      ensures Took(Closed(ParseAt(EXPR, old(Rest())), close), r)
      ensures r.Some? ==> !lex.regexp && |Rest()| < |old(Rest())|
      decreases |Rest()|, EXPR + 3
    {
      hide ParseAt, GoalAt, Classify, LastRead;
      r := Expression();
      if r.Some? {
        var ok := Expect(close);
        if !ok {
          r := None;
        }
      }
    }

    /** The property accesses behind e0. */
    method Accesses(e0: Expr) returns (r: Option<Expr>)
      requires Ready(OPERATOR) && !lex.regexp && lex.parseId
      modifies `buffer, lex`ptr, lex`log, lex`regexp, lex`parseId
      ensures Outcome(MemberLoop(e0, old(Rest())), r)
      ensures r.Some? ==> |buffer| == 1 && !lex.regexp && lex.parseId
      decreases |Rest()|, 20
    {
      hide ParseAt, MemberLoop, BinLoop, CondTail, AssignTail, Primary, GoalAt, Classify, LastRead, NextGoal, Closed;
      OperatorGoals();
      var cur := e0;
      ghost var ls := Rest();
      while true
        invariant Ready(OPERATOR) && !lex.regexp && lex.parseId
        invariant |Rest()| <= |ls| && MemberLoop(e0, ls) == MemberLoop(cur, Rest())
        decreases |Rest()|
      {
        AccessReads(cur, Rest());
        var la := Lookahead(OPERATOR);
        if la == None {
          return None;
        }
        if la.value.tok == TPunct(Point) {
          Skip(OPERATOR, la.value.tok);
          var id := PropertyName();
          if id == None {
            return None;
          }
          cur := EMember(cur, ELit(LStr(id.value)));
        } else if la.value.tok == TPunct(LBracket) {
          Skip(OPERATOR, la.value.tok);
          var key := Bracketed(RBracket);
          if key == None {
            return None;
          }
          cur := EMember(cur, key.value);
        } else {
          return Some(cur);
        }
      }
    }

    /** The name behind a point: keywords are not recognised while it is read. */
    method PropertyName() returns (r: Option<Name>)
      requires Valid() && buffer == [] && Due(NAME_ONLY) && !lex.regexp && lex.parseId
      modifies `buffer, lex`ptr, lex`log, lex`regexp, lex`parseId
      ensures lex.Valid()
      ensures var t := Peek(old(Rest()), NAME_ONLY); r == if t.Some? && t.value.TId? then Some(t.value.n) else None
      ensures r.Some? ==>
        && Valid() && Due(OPERATOR) && buffer == [] && !lex.regexp && lex.parseId
        && old(Rest()) != [] && Rest() == old(Rest())[1..]
    {
      lex.parseId := false;
      var id := Next(NAME_ONLY);
      if id == None || !id.value.tok.TId? {
        return None;
      }
      lex.parseId := true;
      return Some(id.value.tok.n);
    }

    method MemberExpr() returns (r: Option<Expr>)
      requires Valid() && Due(OPERAND) && lex.parseId
      modifies `buffer, lex`ptr, lex`log, lex`regexp, lex`parseId
      ensures Outcome(Member(old(Rest())), r)
      ensures r.Some? ==> |buffer| == 1 && !lex.regexp && lex.parseId
      decreases |Rest()|, 1
    {
      hide MemberLoop, BinLoop, CondTail, AssignTail, Primary, GoalAt, Classify, LastRead, Rest, Pos, Due;
      PrimaryReads(Rest());
      lex.regexp := true;
      var la := Lookahead(OPERAND);
      if la == None || la.value.tok.TWord? {
        return None;
      }
      var p := PrimaryExpr();
      if p == None {
        return None;
      }
      lex.regexp := false;
      r := Accesses(p.value);
    }

    method LeftHandSideExpr() returns (r: Option<Expr>)
      requires Valid() && Due(OPERAND) && lex.parseId
      modifies `buffer, lex`ptr, lex`log, lex`regexp, lex`parseId
      ensures Outcome(ParseAt(MEMBER, old(Rest())), r)
      ensures r.Some? ==> |buffer| == 1 && !lex.regexp && lex.parseId
      decreases |Rest()|, 2
    {
      var m := MemberExpr();
      if m == None {
        return None;
      }
      r := Accesses(m.value);
    }

    method PostfixExpr() returns (r: Option<Expr>)
      requires Valid() && Due(OPERAND) && lex.parseId
      modifies `buffer, lex`ptr, lex`log, lex`regexp, lex`parseId
      ensures Outcome(ParseAt(POSTFIX, old(Rest())), r)
      ensures r.Some? ==> !lex.regexp && lex.parseId
      decreases |Rest()|, 3
    {
      hide MemberLoop, BinLoop, CondTail, AssignTail, Primary, GoalAt, Classify, LastRead, NextGoal, Rest, Pos, Due;
      OperatorGoals();
      var e := LeftHandSideExpr();
      if e == None {
        return None;
      }
      var la := Lookahead(OPERATOR);
      if la == None {
        return None;
      }
      if la.value.lineBefore {
        return e;
      }
      if la.value.tok == TPunct(PlusPlus) {
        Skip(OPERATOR, la.value.tok);
        return Some(EUnary(PostInc, e.value));
      } else if la.value.tok == TPunct(MinusMinus) {
        Skip(OPERATOR, la.value.tok);
        return Some(EUnary(PostDec, e.value));
      }
      return e;
    }

    method UnaryExpr() returns (r: Option<Expr>)
      requires Valid() && Due(OPERAND) && lex.parseId
      modifies `buffer, lex`ptr, lex`log, lex`regexp, lex`parseId
      ensures Outcome(ParseAt(UNARY, old(Rest())), r)
      ensures r.Some? ==> !lex.regexp && lex.parseId
      decreases |Rest()|, 4
    {
      hide MemberLoop, BinLoop, CondTail, AssignTail, Primary, GoalAt, Classify, LastRead, Rest, Pos, Due;
      lex.regexp := true;
      var la := Lookahead(OPERAND);
      lex.regexp := false;
      if la == None {
        return None;
      }
      var op := UnaryToken(la.value.tok);
      if op == None {
        r := PostfixExpr();
      } else {
        Skip(OPERAND, la.value.tok);
        var e := UnaryExpr();
        if e == None {
          return None;
        }
        return Some(EUnary(op.value, e.value));
      }
    }

    /** The operand of a binary level: the next lower function of the cascade. */
    method Lower(l: nat) returns (r: Option<Expr>)
      requires BinaryLevel(l)
      requires Valid() && Due(OPERAND) && lex.parseId
      modifies `buffer, lex`ptr, lex`log, lex`regexp, lex`parseId
      ensures Outcome(ParseAt(l - 1, old(Rest())), r)
      ensures r.Some? ==> !lex.regexp && lex.parseId
      decreases |Rest()|, l + 2, 0
    {
      if l == MUL {
        r := UnaryExpr();
      } else if l == EXPR {
        r := AssignExpr();
      } else {
        r := BinaryExpr(l - 1);
      }
    }

    /** One binary level of the cascade: mulExpr .. lOrExpr, and expr for the comma. */
    method BinaryExpr(l: nat) returns (r: Option<Expr>)
      requires BinaryLevel(l)
      requires Valid() && Due(OPERAND) && lex.parseId
      modifies `buffer, lex`ptr, lex`log, lex`regexp, lex`parseId
      ensures Outcome(ParseAt(l, old(Rest())), r)
      ensures r.Some? ==> |buffer| == 1 && !lex.regexp && lex.parseId
      decreases |Rest()|, l + 2, 1
    {
      hide ParseAt, MemberLoop, BinLoop, CondTail, AssignTail, Primary, GoalAt, Classify, LastRead;
      LevelReads(l, Rest());
      ghost var ls := Rest();
      var first := Lower(l);
      if first == None {
        return None;
      }
      var cur := first.value;
      while true
        invariant Ready(OPERATOR) && !lex.regexp && lex.parseId
        invariant |Rest()| < |ls| && ParseAt(l, ls) == BinLoop(l, cur, Rest())
        decreases |Rest()|
      {
        BinReads(l, cur, Rest());
        var la := Lookahead(OPERATOR);
        if la == None {
          return None;
        }
        if !la.value.tok.TOp? || Prec(la.value.tok.b) != l {
          return Some(cur);
        }
        Skip(OPERATOR, la.value.tok);
        var right := Lower(l);
        if right == None {
          return None;
        }
        cur := EBin(la.value.tok.b, cur, right.value);
      }
    }

    method CondExpr() returns (r: Option<Expr>)
      requires Valid() && Due(OPERAND) && lex.parseId
      modifies `buffer, lex`ptr, lex`log, lex`regexp, lex`parseId
      ensures Outcome(ParseAt(COND, old(Rest())), r)
      ensures r.Some? ==> |buffer| == 1 && !lex.regexp && lex.parseId
      decreases |Rest()|, COND + 2
    {
      hide ParseAt, MemberLoop, BinLoop, CondTail, AssignTail, Primary, GoalAt, Classify, LastRead;
      LevelReads(COND, Rest());
      var c := BinaryExpr(LOR);
      if c == None {
        return None;
      }
      r := CondRest(c.value);
    }

    /** The branches of a conditional, if a question mark follows. */
    method CondRest(c: Expr) returns (r: Option<Expr>)
      requires Ready(OPERATOR) && !lex.regexp && lex.parseId
      modifies `buffer, lex`ptr, lex`log, lex`regexp, lex`parseId
      ensures Outcome(CondTail(c, old(Rest())), r)
      ensures r.Some? ==> |buffer| == 1 && !lex.regexp && lex.parseId
      decreases |Rest()|, 20
    {
      hide ParseAt, CondTail, GoalAt, Classify, LastRead, NextGoal;
      OperatorGoals();
      CondReads(c, Rest());
      var la := Lookahead(OPERATOR);
      if la == None {
        return None;
      }
      if la.value.tok != TPunct(Question) {
        return Some(c);
      }
      Skip(OPERATOR, la.value.tok);
      var yes := AssignExpr();
      if yes == None {
        return None;
      }
      var ok := Expect(Colon);
      if !ok {
        return None;
      }
      var no := AssignExpr();
      if no == None {
        return None;
      }
      return Some(ECond(c, yes.value, no.value));
    }

    method AssignExpr() returns (r: Option<Expr>)
      requires Valid() && Due(OPERAND) && lex.parseId
      modifies `buffer, lex`ptr, lex`log, lex`regexp, lex`parseId
      ensures Outcome(ParseAt(ASSIGN, old(Rest())), r)
      ensures r.Some? ==> |buffer| == 1 && !lex.regexp && lex.parseId
      decreases |Rest()|, ASSIGN + 2
    {
      hide ParseAt, MemberLoop, BinLoop, CondTail, Primary, GoalAt, Classify, LastRead;
      LevelReads(ASSIGN, Rest());
      var target := CondExpr();
      if target == None {
        return None;
      }
      var la := Lookahead(OPERATOR);
      if la == None {
        return None;
      }
      if !la.value.tok.TAssign? {
        return target;
      }
      Skip(OPERATOR, la.value.tok);
      var value := AssignExpr();
      if value == None {
        return None;
      }
      return Some(EAssign(la.value.tok.a, target.value, value.value));
    }

    method Expression() returns (r: Option<Expr>)
      requires Valid() && Due(OPERAND) && lex.parseId
      modifies `buffer, lex`ptr, lex`log, lex`regexp, lex`parseId
      ensures Outcome(ParseAt(EXPR, old(Rest())), r)
      ensures r.Some? ==> |buffer| == 1 && !lex.regexp && lex.parseId
      decreases |Rest()|, EXPR + 2, 2
    {
      r := BinaryExpr(EXPR);
    }

    /** An expression statement with its semicolon, written or inserted. */
    method ExprStatement() returns (r: Option<Expr>)
      requires Valid() && Due(OPERAND) && lex.parseId
      modifies `buffer, lex`ptr, lex`log, lex`regexp, lex`parseId
      ensures lex.Valid() && (r == None <==> Statement(old(Rest())) == Stop)
      ensures r.Some? ==> Valid() && Statement(old(Rest())) == Ok(r.value, Rest())
    {
      hide ParseAt, MemberLoop, BinLoop, CondTail, AssignTail, Primary, GoalAt, Classify, LastRead, NextGoal, Rest, Pos, Due;
      var e := Expression();
      if e == None {
        return None;
      }
      lex.regexp := true;
      var la := Lookahead(OPERATOR);
      lex.regexp := false;
      if la == None {
        return None;
      }
      if la.value.tok == TPunct(Semicolon) {
        Skip(OPERATOR, la.value.tok);
        return e;
      }
      if la.value.tok == TPunct(RBrace) || la.value.lineBefore {
        return e;
      }
      return None;
    }
  }
}
