/** Expression statements and the semicolon that may be left out. */
module Statements {
  import opened Sequences
  import opened Syntax
  import opened Parse
  import opened Derivation
  import opened Printer
  import opened Productions

  /** A lexeme that continues an expression even on a new line; behind a postfix operator there
      are no accesses. */
  predicate GoesOn(s: Sym, post: bool) {
    s.SOp? || s == SName(Kw(KInstanceof)) || s.SAssign? || s == SPunct(Question)
    || (!post && (s == SPunct(Point) || s == SPunct(LBracket)))
  }

  /** Between an expression and what is left there is a semicolon, or none is needed: at the end
      of the text, before a closing brace, or before a line terminator. */
  predicate Ends(post: bool, r: seq<Lexeme>, rest: seq<Lexeme>) {
    if r != [] && r[0].sym == SPunct(Semicolon) then rest == r[1..]
    else
      rest == r
      && (r == [] || r[0].sym == SPunct(RBrace) || (r[0].nl && !Refused(r[0].sym) && !GoesOn(r[0].sym, post)))
  }

  lemma EndsMeans(e: Expr, post: bool, r: seq<Lexeme>, rest: seq<Lexeme>)
    ensures Ends(post, r, rest) ==> Follows(EXPR, post, r)
    ensures Follows(EXPR, post, r) ==> (Ends(post, r, rest) <==> Ended(e, r) == Ok(e, rest))
  {
  }

  /** The step behind the expression. */
  function Ended(e: Expr, r: seq<Lexeme>): Parsed {
    match Peek(r, OPERATOR)
    case Some(TPunct(Semicolon)) => Ok(e, r[1..])
    case Some(t) => if t == TPunct(RBrace) || NewLine(r) then Ok(e, r) else Stop
    case None => Stop
  }

  /** A derivation of e reads the text up to r, where the statement ends. */
  predicate IsStatement(ls: seq<Lexeme>, e: Expr, rest: seq<Lexeme>, s: Syn, r: seq<Lexeme>) {
    Derives(s) && Ast(s) == e && Text(s) + r == ls && Ends(EndsPost(s), r, rest)
  }

  /** A text is read as a statement exactly when it starts with a derivable expression behind
      which the statement ends. */
  lemma StatementIff(ls: seq<Lexeme>, e: Expr, rest: seq<Lexeme>)
    ensures Statement(ls) == Ok(e, rest) <==> exists s, r :: IsStatement(ls, e, rest, s, r)
  {
    hide ParseAt, Text, Derives, Ast, Follows, Ends, Ended;
    var p := ParseAt(EXPR, ls);
    StatementStep(ls);
    if Statement(ls) == Ok(e, rest) {
      var s := Sound(EXPR, ls);
      EndsMeans(e, EndsPost(s), p.rest, rest);
      assert IsStatement(ls, e, rest, s, p.rest);
    }
    if s, r :| IsStatement(ls, e, rest, s, r) {
      EndsMeans(e, EndsPost(s), r, rest);
      Complete(EXPR, s, r);
    }
  }

  lemma StatementStep(ls: seq<Lexeme>)
    ensures var p := ParseAt(EXPR, ls); Statement(ls) == if p == Stop then Stop else Ended(p.e, p.rest)
  {
    hide ParseAt;
  }

  /** A printed expression is read as a statement wherever no semicolon is needed: at the end of
      the text, before a closing brace, and before a line terminator unless the text goes on. */
  lemma InsertionRoundTrip(e: Expr, dotted: Name -> bool, r: seq<Lexeme>)
    requires r == [] || r[0].sym == SPunct(RBrace)
      || (r[0].nl && r[0].sym != SPunct(Semicolon) && !Refused(r[0].sym) && !GoesOn(r[0].sym, false))
    ensures Statement(Text(Print(e, EXPR, dotted)) + r) == Ok(e, r)
  {
    hide Text, Print, Statement;
    var s := Print(e, EXPR, dotted);
    assert IsStatement(Text(s) + r, e, r, s, r);
    StatementIff(Text(s) + r, e, r);
  }

  /** Without a line terminator, anything but a semicolon or a closing brace behind the longest
      expression stops the program. */
  lemma MissingSemicolonStops(s: Syn, r: seq<Lexeme>)
    requires Derives(s) && r != [] && !r[0].nl && Follows(EXPR, EndsPost(s), r)
    requires r[0].sym != SPunct(Semicolon) && r[0].sym != SPunct(RBrace)
    ensures Statement(Text(s) + r) == Stop
  {
    hide ParseAt, Text, Derives, Ended;
    Complete(EXPR, s, r);
    StatementStep(Text(s) + r);
    StopsThere(Ast(s), r);
  }

  lemma StopsThere(e: Expr, r: seq<Lexeme>)
    requires r != [] && !r[0].nl && r[0].sym != SPunct(Semicolon) && r[0].sym != SPunct(RBrace)
    ensures Ended(e, r) == Stop
  {
  }
}
