/** The recursive-descent parser of WHERE clauses (src/sql/parser.cpp): the grammar as functions, the
    parser object that advances through the tokens and pushes nodes, and their agreement. */
module WhereParser {
  import opened Decimal
  import opened WhereSyntax

  /** A syntax error, or a numeral that does not fit 64 bits (thrown by the conversion, not the parser). */
  datatype ParseFault = Syntax | BadNumber

  datatype Outcome<+T> = Parsed(value: T, next: nat) | Failed(fault: ParseFault)

  /** The current token; past the end it stays Eof. */
  function At(ts: seq<Lexeme>, i: nat): Lexeme {
    if i < |ts| then ts[i] else Lexeme(Eof, "")
  }

  predicate IsKw(ts: seq<Lexeme>, i: nat, k: string) {
    At(ts, i) == Keyword(k)
  }

  // ----- the grammar as functions

  function ReadLiteral(ts: seq<Lexeme>, i: nat): (o: Outcome<Literal>)
    ensures o.Parsed? ==> o.next == i + 1 <= |ts|
  {
    var t := At(ts, i);
    if t == Keyword("NULL") then Parsed(NullLit, i + 1)
    else if t.kind.Number? then
      if t.text == [] || !AllDigits(t.text) || NumeralValue(t.text) > INT64_MAX then Failed(BadNumber)
      else Parsed(IntLit(NumeralValue(t.text)), i + 1)
    else if t.kind.StrTok? then Parsed(StrLit(t.text), i + 1)
    else Failed(Syntax)
  }

  function ReadOp(ts: seq<Lexeme>, i: nat): (o: Outcome<CmpOp>)
    ensures o.Parsed? ==> o.next == i + 1 <= |ts|
  {
    match At(ts, i).kind
    case Eq => Parsed(OpEq, i + 1)
    case Ne => Parsed(OpNe, i + 1)
    case Lt => Parsed(OpLt, i + 1)
    case Gt => Parsed(OpGt, i + 1)
    case Le => Parsed(OpLe, i + 1)
    case Ge => Parsed(OpGe, i + 1)
    case _ => Failed(Syntax)
  }

  function ReadPred(ts: seq<Lexeme>, i: nat): (o: Outcome<Pred>)
    ensures o.Parsed? ==> i + 3 <= o.next <= |ts|
  {
    if !At(ts, i).kind.Ident? then Failed(Syntax)
    else
      var col := At(ts, i).text;
      if IsKw(ts, i + 1, "BETWEEN") then
        match ReadLiteral(ts, i + 2)
        case Failed(f) => Failed(f)
        case Parsed(a, j) =>
          if !IsKw(ts, j, "AND") then Failed(Syntax)
          else match ReadLiteral(ts, j + 1)
            case Failed(f) => Failed(f)
            case Parsed(b, k) => Parsed(Between(col, a, b), k)
      else if IsKw(ts, i + 1, "LIKE") then
        if At(ts, i + 2).kind.StrTok? then Parsed(Like(col, At(ts, i + 2).text), i + 3) else Failed(Syntax)
      else
        match ReadOp(ts, i + 1)
        case Failed(f) => Failed(f)
        case Parsed(op, j) =>
          if At(ts, j).kind.Ident? then Parsed(Compare(col, op, ColumnRef(At(ts, j).text)), j + 1)
          else match ReadLiteral(ts, j)
            case Failed(f) => Failed(f)
            case Parsed(l, k) => Parsed(Compare(col, op, Const(l)), k)
  }

  function ReadPrimary(ts: seq<Lexeme>, i: nat): (o: Outcome<Expr>)
    ensures o.Parsed? ==> i < o.next <= |ts|
    decreases |ts| - i, 0
  {
    if i < |ts| && At(ts, i).kind.LParen? then
      match ReadOr(ts, i + 1)
      case Failed(f) => Failed(f)
      case Parsed(e, j) => if At(ts, j).kind.RParen? then Parsed(Paren(e), j + 1) else Failed(Syntax)
    else
      match ReadPred(ts, i)
      case Failed(f) => Failed(f)
      case Parsed(p, j) => Parsed(Test(p), j)
  }

  function ReadAnd(ts: seq<Lexeme>, i: nat): (o: Outcome<Expr>)
    ensures o.Parsed? ==> i < o.next <= |ts|
    decreases |ts| - i, 1
  {
    match ReadPrimary(ts, i)
    case Failed(f) => Failed(f)
    case Parsed(e, j) => AndLoop(ts, j, e)
  }

  /** The rest of a chain of ANDs whose part so far is `left`. */
  function AndLoop(ts: seq<Lexeme>, i: nat, left: Expr): (o: Outcome<Expr>)
    requires i <= |ts|
    ensures o.Parsed? ==> i <= o.next <= |ts|
    decreases |ts| - i, 0
  {
    if !IsKw(ts, i, "AND") then Parsed(left, i)
    else match ReadPrimary(ts, i + 1)
      case Failed(f) => Failed(f)
      case Parsed(r, j) => AndLoop(ts, j, And(left, r))
  }

  function ReadOr(ts: seq<Lexeme>, i: nat): (o: Outcome<Expr>)
    ensures o.Parsed? ==> i < o.next <= |ts|
    decreases |ts| - i, 2
  {
    match ReadAnd(ts, i)
    case Failed(f) => Failed(f)
    case Parsed(e, j) => OrLoop(ts, j, e)
  }

  function OrLoop(ts: seq<Lexeme>, i: nat, left: Expr): (o: Outcome<Expr>)
    requires i <= |ts|
    ensures o.Parsed? ==> i <= o.next <= |ts|
    decreases |ts| - i, 0
  {
    if !IsKw(ts, i, "OR") then Parsed(left, i)
    else match ReadAnd(ts, i + 1)
      case Failed(f) => Failed(f)
      case Parsed(r, j) => OrLoop(ts, j, Or(left, r))
  }

  // ----- parsing undoes printing

  /** The tokens from i on start with `part`. */
  predicate Reads(ts: seq<Lexeme>, i: nat, part: seq<Lexeme>) {
    i + |part| <= |ts| && ts[i..i + |part|] == part
  }

  lemma ReadsParts(ts: seq<Lexeme>, i: nat, a: seq<Lexeme>, b: seq<Lexeme>)
    requires Reads(ts, i, a + b)
    ensures Reads(ts, i, a) && Reads(ts, i + |a|, b)
  {
    assert ts[i..i + |a + b|][..|a|] == a;
    assert ts[i..i + |a + b|][|a|..] == b;
  }

  lemma ReadsOne(ts: seq<Lexeme>, i: nat, t: Lexeme)
    requires Reads(ts, i, [t])
    ensures At(ts, i) == t && i < |ts|
  {
    assert ts[i..i + 1][0] == t;
  }

  lemma LiteralBack(ts: seq<Lexeme>, i: nat, l: Literal)
    requires LiteralOk(l) && At(ts, i) == PrintLiteral(l) && i < |ts|
    ensures ReadLiteral(ts, i) == Parsed(l, i + 1)
    ensures !At(ts, i).kind.Ident?
  {
    if l.IntLit? { NumeralRoundTrip(l.n); }
  }

  lemma PredBack(ts: seq<Lexeme>, i: nat, p: Pred)
    requires PredOk(p) && Reads(ts, i, PrintPred(p))
    ensures ReadPred(ts, i) == Parsed(p, i + |PrintPred(p)|)
    ensures At(ts, i).kind.Ident?
  {
    var q := PrintPred(p);
    forall k | 0 <= k < |q|
      ensures At(ts, i + k) == q[k]
    {
      assert ts[i..i + |q|][k] == q[k];
    }
    match p
    case Compare(c, op, rhs) =>
      assert At(ts, i) == q[0] && At(ts, i + 1) == q[1] && At(ts, i + 2) == q[2];
      if rhs.Const? { LiteralBack(ts, i + 2, rhs.lit); }
    case Between(c, a, b) =>
      assert At(ts, i) == q[0] && At(ts, i + 1) == q[1] && At(ts, i + 3) == q[3];
      LiteralBack(ts, i + 2, a);
      LiteralBack(ts, i + 4, b);
    case Like(c, pat) =>
      assert At(ts, i) == q[0] && At(ts, i + 1) == q[1] && At(ts, i + 2) == q[2];
  }

  /** A printed primary is read back whatever follows it. */
  lemma {:induction false} PrimaryBack(ts: seq<Lexeme>, i: nat, e: Expr)
    requires IsPrimary(e) && Reads(ts, i, Print(e))
    ensures ReadPrimary(ts, i) == Parsed(e, i + |Print(e)|)
    decreases e, 0
  {
    match e
    case Test(p) => PredBack(ts, i, p);
    case Paren(x) =>
      var open, close := Lexeme(LParen, "("), Lexeme(RParen, ")");
      ReadsParts(ts, i, [open] + Print(x), [close]);
      ReadsParts(ts, i, [open], Print(x));
      ReadsOne(ts, i, open);
      ReadsOne(ts, i + 1 + |Print(x)|, close);
      OrBack(ts, i + 1, x);
  }

  lemma AndStep(ts: seq<Lexeme>, j: nat, left: Expr, r: Expr, k: nat)
    requires j < |ts| && IsKw(ts, j, "AND") && ReadPrimary(ts, j + 1) == Parsed(r, k)
    ensures k <= |ts| && AndLoop(ts, j, left) == AndLoop(ts, k, And(left, r))
  {
  }

  lemma OrStep(ts: seq<Lexeme>, j: nat, left: Expr, r: Expr, k: nat)
    requires j < |ts| && IsKw(ts, j, "OR") && ReadAnd(ts, j + 1) == Parsed(r, k)
    ensures k <= |ts| && OrLoop(ts, j, left) == OrLoop(ts, k, Or(left, r))
  {
  }

  /** A printed operator expression, taken apart in the token sequence. */
  lemma ReadsJoin(ts: seq<Lexeme>, i: nat, a: seq<Lexeme>, kw: string, b: seq<Lexeme>)
    requires Reads(ts, i, a + [Keyword(kw)] + b)
    ensures Reads(ts, i, a) && i + |a| < |ts| && IsKw(ts, i + |a|, kw) && Reads(ts, i + |a| + 1, b)
  {
    ReadsParts(ts, i, a + [Keyword(kw)], b);
    ReadsParts(ts, i, a, [Keyword(kw)]);
    ReadsOne(ts, i + |a|, Keyword(kw));
  }

  lemma ReadAndFrom(ts: seq<Lexeme>, i: nat, e: Expr, j: nat)
    requires ReadPrimary(ts, i) == Parsed(e, j)
    ensures j <= |ts| && ReadAnd(ts, i) == AndLoop(ts, j, e)
  {
  }

  lemma ReadOrFrom(ts: seq<Lexeme>, i: nat, e: Expr, j: nat)
    requires ReadAnd(ts, i) == Parsed(e, j)
    ensures j <= |ts| && ReadOr(ts, i) == OrLoop(ts, j, e)
  {
  }

  lemma AndLoopEnds(ts: seq<Lexeme>, j: nat, e: Expr)
    requires j <= |ts| && !IsKw(ts, j, "AND")
    ensures AndLoop(ts, j, e) == Parsed(e, j)
  {
  }

  lemma AndParts(e: Expr)
    requires IsAnd(e) && !IsPrimary(e)
    ensures e.And? && IsAnd(e.l) && IsPrimary(e.r)
    ensures Print(e) == Print(e.l) + [Keyword("AND")] + Print(e.r)
  {
  }

  lemma OrParts(e: Expr)
    requires IsOr(e) && !IsAnd(e)
    ensures e.Or? && IsOr(e.l) && IsAnd(e.r)
    ensures Print(e) == Print(e.l) + [Keyword("OR")] + Print(e.r)
  {
  }

  /** Reading a printed chain of ANDs reaches the loop with the whole chain as its left part. */
  lemma {:induction false} AndReached(ts: seq<Lexeme>, i: nat, e: Expr)
    requires IsAnd(e) && Reads(ts, i, Print(e))
    ensures i + |Print(e)| <= |ts|
    ensures ReadAnd(ts, i) == AndLoop(ts, i + |Print(e)|, e)
    decreases e, 1
  {
    hide *;
    if IsPrimary(e) {
      PrimaryBack(ts, i, e);
      ReadAndFrom(ts, i, e, i + |Print(e)|);
    } else {
      AndParts(e);
      ReadsJoin(ts, i, Print(e.l), "AND", Print(e.r));
      AndReached(ts, i, e.l);
      var j := i + |Print(e.l)|;
      PrimaryBack(ts, j + 1, e.r);
      AndStep(ts, j, e.l, e.r, j + 1 + |Print(e.r)|);
    }
  }

  lemma {:induction false} OrReached(ts: seq<Lexeme>, i: nat, e: Expr)
    requires IsOr(e) && Reads(ts, i, Print(e)) && !IsKw(ts, i + |Print(e)|, "AND")
    ensures i + |Print(e)| <= |ts|
    ensures ReadOr(ts, i) == OrLoop(ts, i + |Print(e)|, e)
    decreases e, 2
  {
    hide *;
    if IsAnd(e) {
      AndReached(ts, i, e);
      AndLoopEnds(ts, i + |Print(e)|, e);
      ReadOrFrom(ts, i, e, i + |Print(e)|);
    } else {
      OrParts(e);
      ReadsJoin(ts, i, Print(e.l), "OR", Print(e.r));
      var j := i + |Print(e.l)|;
      var k := j + 1 + |Print(e.r)|;
      OneKeyword(ts, j);
      OrReached(ts, i, e.l);
      AndReached(ts, j + 1, e.r);
      AndLoopEnds(ts, k, e.r);
      OrStep(ts, j, e.l, e.r, k);
    }
  }

  lemma OneKeyword(ts: seq<Lexeme>, j: nat)
    ensures !(IsKw(ts, j, "OR") && IsKw(ts, j, "AND"))
  {
    assert "OR" != "AND";
  }

  /** Parsing undoes printing: the tokens of any expression of the grammar, followed by anything that does
      not continue it, are read back as that expression, up to exactly its last token. */
  lemma {:induction false} OrBack(ts: seq<Lexeme>, i: nat, e: Expr)
    requires IsOr(e) && Reads(ts, i, Print(e))
    requires !IsKw(ts, i + |Print(e)|, "AND") && !IsKw(ts, i + |Print(e)|, "OR")
    ensures ReadOr(ts, i) == Parsed(e, i + |Print(e)|)
    decreases e, 3
  {
    OrReached(ts, i, e);
  }

  // ----- and printing undoes parsing

  /** A token with the one spelling that printing uses. */
  function Norm(t: Lexeme): Lexeme {
    if t.kind.Number? && AllDigits(t.text) then Lexeme(Number, Numeral(NumeralValue(t.text)))
    else if OpText(t.kind) != "" then Lexeme(t.kind, OpText(t.kind))
    else t
  }

  function NormAll(ts: seq<Lexeme>): (r: seq<Lexeme>)
    ensures |r| == |ts|
  {
    seq(|ts|, i requires 0 <= i < |ts| => Norm(ts[i]))
  }

  /** The tokens i..j-1 are a spelling of e. */
  predicate Spells(ts: seq<Lexeme>, i: nat, j: nat, e: Expr) {
    i <= j <= |ts| && NormAll(ts[i..j]) == Print(e)
  }

  lemma LiteralSpelled(ts: seq<Lexeme>, i: nat)
    requires ReadLiteral(ts, i).Parsed?
    ensures LiteralOk(ReadLiteral(ts, i).value) && Norm(At(ts, i)) == PrintLiteral(ReadLiteral(ts, i).value)
  {
  }

  lemma OpSpelled(ts: seq<Lexeme>, i: nat)
    requires ReadOp(ts, i).Parsed?
    ensures var k := OpKind(ReadOp(ts, i).value); Norm(At(ts, i)) == Lexeme(k, OpText(k))
  {
  }

  lemma PlainSpelled(t: Lexeme)
    ensures t.kind in {Ident, Kw, StrTok} ==> Norm(t) == t
  {
  }

  /** The tokens of a span, spelled. */
  lemma SpanSpelled(ts: seq<Lexeme>, i: nat, n: nat, q: seq<Lexeme>)
    requires i + n <= |ts| && q == NormAll(ts[i..i + n])
    ensures |q| == n && forall k | 0 <= k < n :: q[k] == Norm(At(ts, i + k))
  {
    hide Norm;
    forall k | 0 <= k < n
      ensures q[k] == Norm(At(ts, i + k))
    {
      assert ts[i..i + n][k] == ts[i + k];
    }
  }

  lemma BetweenSpelled(ts: seq<Lexeme>, i: nat)
    requires ReadPred(ts, i).Parsed? && IsKw(ts, i + 1, "BETWEEN")
    ensures var o := ReadPred(ts, i); PredOk(o.value) && Spells(ts, i, o.next, Test(o.value))
  {
    hide Norm, ReadLiteral, PrintLiteral, LiteralOk, NormAll, OpText;
    var q := NormAll(ts[i..i + 5]);
    SpanSpelled(ts, i, 5, q);
    PlainSpelled(At(ts, i));
    PlainSpelled(At(ts, i + 1));
    LiteralSpelled(ts, i + 2);
    PlainSpelled(At(ts, i + 3));
    LiteralSpelled(ts, i + 4);
    assert q == [q[0], q[1], q[2], q[3], q[4]];
  }

  lemma TestSpelled(ts: seq<Lexeme>, i: nat)
    requires ReadPred(ts, i).Parsed? && !IsKw(ts, i + 1, "BETWEEN")
    ensures var o := ReadPred(ts, i); PredOk(o.value) && Spells(ts, i, o.next, Test(o.value))
  {
    hide Norm, ReadLiteral, ReadOp, PrintLiteral, OpKind, OpText, LiteralOk, NormAll;
    var q := NormAll(ts[i..i + 3]);
    SpanSpelled(ts, i, 3, q);
    assert q[0] == Norm(At(ts, i)) && q[1] == Norm(At(ts, i + 1)) && q[2] == Norm(At(ts, i + 2));
    PlainSpelled(At(ts, i));
    PlainSpelled(At(ts, i + 1));
    PlainSpelled(At(ts, i + 2));
    if !IsKw(ts, i + 1, "LIKE") {
      OpSpelled(ts, i + 1);
      if !At(ts, i + 2).kind.Ident? { LiteralSpelled(ts, i + 2); }
    }
    assert q == [q[0], q[1], q[2]];
  }

  lemma PredSpelled(ts: seq<Lexeme>, i: nat)
    requires ReadPred(ts, i).Parsed?
    ensures var o := ReadPred(ts, i);
            PredOk(o.value) && Spells(ts, i, o.next, Test(o.value))
  {
    hide *;
    if IsKw(ts, i + 1, "BETWEEN") {
      BetweenSpelled(ts, i);
    } else {
      TestSpelled(ts, i);
    }
  }

  lemma NormAllSplit(a: seq<Lexeme>, t: Lexeme, b: seq<Lexeme>)
    ensures NormAll(a + [t] + b) == NormAll(a) + [Norm(t)] + NormAll(b)
  {
    hide Norm;
  }

  lemma NormAllAround(a: Lexeme, ts: seq<Lexeme>, b: Lexeme)
    ensures NormAll([a] + ts + [b]) == [Norm(a)] + NormAll(ts) + [Norm(b)]
  {
    hide Norm;
  }

  lemma EndsAt(ts: seq<Lexeme>, i: nat, j: nat)
    requires i < j < |ts|
    ensures ts[i..j + 1] == [ts[i]] + ts[i + 1..j] + [ts[j]]
  {
  }

  lemma SplitAt(ts: seq<Lexeme>, i: nat, j: nat, k: nat)
    requires i <= j < k <= |ts|
    ensures ts[i..k] == ts[i..j] + [ts[j]] + ts[j + 1..k]
  {
  }

  lemma JoinSpelled(ts: seq<Lexeme>, i: nat, j: nat, k: nat, a: Expr, b: Expr, kw: string)
    requires Spells(ts, i, j, a) && IsKw(ts, j, kw) && j < |ts| && Spells(ts, j + 1, k, b)
    ensures i <= k <= |ts| && NormAll(ts[i..k]) == Print(a) + [Keyword(kw)] + Print(b)
  {
    hide NormAll, Print;
    assert Norm(ts[j]) == Keyword(kw);
    SplitAt(ts, i, j, k);
    NormAllSplit(ts[i..j], ts[j], ts[j + 1..k]);
  }

  lemma WrapSpelled(ts: seq<Lexeme>, i: nat, j: nat, e: Expr)
    requires i + 1 <= j < |ts| && At(ts, i).kind.LParen? && At(ts, j).kind.RParen? && Spells(ts, i + 1, j, e)
    ensures Spells(ts, i, j + 1, Paren(e))
  {
    hide NormAll;
    assert Norm(ts[i]) == Lexeme(LParen, "(") && Norm(ts[j]) == Lexeme(RParen, ")");
    assert Print(Paren(e)) == [Lexeme(LParen, "(")] + Print(e) + [Lexeme(RParen, ")")];
    EndsAt(ts, i, j);
    NormAllAround(ts[i], ts[i + 1..j], ts[j]);
  }

  lemma {:induction false} PrimarySpelled(ts: seq<Lexeme>, i: nat)
    requires ReadPrimary(ts, i).Parsed?
    ensures var o := ReadPrimary(ts, i); IsPrimary(o.value) && Spells(ts, i, o.next, o.value)
    decreases |ts| - i, 0
  {
    if i < |ts| && At(ts, i).kind.LParen? {
      OrSpelled(ts, i + 1);
      WrapSpelled(ts, i, ReadOr(ts, i + 1).next, ReadOr(ts, i + 1).value);
    } else {
      PredSpelled(ts, i);
    }
  }

  lemma {:induction false} AndLoopSpelled(ts: seq<Lexeme>, i: nat, j: nat, left: Expr)
    requires IsAnd(left) && Spells(ts, i, j, left) && AndLoop(ts, j, left).Parsed?
    ensures var o := AndLoop(ts, j, left);
            IsAnd(o.value) && Spells(ts, i, o.next, o.value) && !IsKw(ts, o.next, "AND")
    decreases |ts| - j, 0
  {
    if IsKw(ts, j, "AND") {
      PrimarySpelled(ts, j + 1);
      var r := ReadPrimary(ts, j + 1);
      JoinSpelled(ts, i, j, r.next, left, r.value, "AND");
      AndLoopSpelled(ts, i, r.next, And(left, r.value));
    }
  }

  lemma {:induction false} AndSpelled(ts: seq<Lexeme>, i: nat)
    requires ReadAnd(ts, i).Parsed?
    ensures var o := ReadAnd(ts, i);
            IsAnd(o.value) && Spells(ts, i, o.next, o.value) && !IsKw(ts, o.next, "AND")
    decreases |ts| - i, 1
  {
    PrimarySpelled(ts, i);
    var p := ReadPrimary(ts, i);
    AndLoopSpelled(ts, i, p.next, p.value);
  }

  lemma {:induction false} OrLoopSpelled(ts: seq<Lexeme>, i: nat, j: nat, left: Expr)
    requires IsOr(left) && Spells(ts, i, j, left) && OrLoop(ts, j, left).Parsed? && !IsKw(ts, j, "AND")
    ensures var o := OrLoop(ts, j, left);
            IsOr(o.value) && Spells(ts, i, o.next, o.value) && !IsKw(ts, o.next, "AND") && !IsKw(ts, o.next, "OR")
    decreases |ts| - j, 0
  {
    if IsKw(ts, j, "OR") {
      AndSpelled(ts, j + 1);
      var r := ReadAnd(ts, j + 1);
      JoinSpelled(ts, i, j, r.next, left, r.value, "OR");
      OrLoopSpelled(ts, i, r.next, Or(left, r.value));
    }
  }

  /** Whatever the parser accepts is an expression of the grammar, the tokens it consumed are a spelling
      of that expression, and what follows does not continue it. */
  lemma {:induction false} OrSpelled(ts: seq<Lexeme>, i: nat)
    requires ReadOr(ts, i).Parsed?
    ensures var o := ReadOr(ts, i);
            IsOr(o.value) && Spells(ts, i, o.next, o.value) && !IsKw(ts, o.next, "AND") && !IsKw(ts, o.next, "OR")
    decreases |ts| - i, 2
  {
    AndSpelled(ts, i);
    var a := ReadAnd(ts, i);
    OrLoopSpelled(ts, i, a.next, a.value);
  }

  // ----- the parser object

  datatype Result<+T> = Ok(value: T) | Err(fault: ParseFault)

  /** What a parsing method did, compared with the grammar function's outcome from where it started. */
  predicate Follows<T(==)>(o: Outcome<T>, r: Result<T>, pos: nat) {
    match o
    case Parsed(v, j) => r == Ok(v) && pos == j
    case Failed(f) => r == Err(f)
  }

  /** The same for the methods that push nodes and return the index of the last one. */
  predicate Pushes(o: Outcome<Expr>, r: Result<nat>, pos: nat, before: seq<WhereNode>, after: seq<WhereNode>) {
    match o
    case Parsed(e, j) => after == before + Flatten(e, |before|) && r == Ok(|after| - 1) && pos == j
    case Failed(f) => r == Err(f)
  }

  /** The nodes of an operator expression: both operands' nodes, then its own. */
  lemma FlattenJoin(before: seq<WhereNode>, l: Expr, r: Expr)
    ensures var left := before + Flatten(l, |before|);
            var both := left + Flatten(r, |left|);
            && both + [BoolNode(true, |left| - 1, |both| - 1)] == before + Flatten(And(l, r), |before|)
            && both + [BoolNode(false, |left| - 1, |both| - 1)] == before + Flatten(Or(l, r), |before|)
  {
    hide *;
    var a := Flatten(l, |before|);
    var left := before + a;
    var b := Flatten(r, |left|);
    FlattenUnfold(l, r, |before|);
    assert |before| + |a| == |left|;
    ConcatFour(before, a, b, [BoolNode(true, |left| - 1, |left| + |b| - 1)]);
    ConcatFour(before, a, b, [BoolNode(false, |left| - 1, |left| + |b| - 1)]);
  }

  lemma ConcatFour<T>(a: seq<T>, b: seq<T>, c: seq<T>, d: seq<T>)
    ensures a + b + c + d == a + (b + c + d)
  {
  }

  class Parser {
    const toks: seq<Lexeme>
    var pos: nat
    var nodes: seq<WhereNode>
    var root: int

    constructor (toks: seq<Lexeme>)
      ensures this.toks == toks && pos == 0 && nodes == [] && root == -1
    {
      this.toks, pos, nodes, root := toks, 0, [], -1;
    }

    function Cur(): Lexeme
      reads this
    {
      At(toks, pos)
    }

    method Advance()
      modifies this`pos
      ensures pos == old(pos) + 1
    {
      pos := pos + 1;
    }

    method ParseLiteral() returns (r: Result<Literal>)
      modifies this`pos
      ensures Follows(ReadLiteral(toks, old(pos)), r, pos)
    {
      if Cur() == Keyword("NULL") {
        Advance();
        return Ok(NullLit);
      }
      if Cur().kind.Number? {
        var text := Cur().text;
        if text == [] || !AllDigits(text) || NumeralValue(text) > INT64_MAX {
          return Err(BadNumber);
        }
        Advance();
        return Ok(IntLit(NumeralValue(text)));
      }
      if Cur().kind.StrTok? {
        var text := Cur().text;
        Advance();
        return Ok(StrLit(text));
      }
      return Err(Syntax);
    }

    method ParseCmpOp() returns (r: Result<CmpOp>)
      modifies this`pos
      ensures Follows(ReadOp(toks, old(pos)), r, pos)
    {
      var k := Cur().kind;
      if k.Eq? { Advance(); return Ok(OpEq); }
      if k.Ne? { Advance(); return Ok(OpNe); }
      if k.Lt? { Advance(); return Ok(OpLt); }
      if k.Gt? { Advance(); return Ok(OpGt); }
      if k.Le? { Advance(); return Ok(OpLe); }
      if k.Ge? { Advance(); return Ok(OpGe); }
      return Err(Syntax);
    }

    method Push(n: WhereNode) returns (i: nat)
      modifies this`nodes
      ensures nodes == old(nodes) + [n] && i == |nodes| - 1
    {
      nodes := nodes + [n];
      return |nodes| - 1;
    }

    method ParsePredicate() returns (r: Result<nat>)
      modifies this`pos, this`nodes
      ensures match ReadPred(toks, old(pos))
              case Parsed(p, j) => nodes == old(nodes) + [TestNode(p)] && r == Ok(|nodes| - 1) && pos == j
              case Failed(f) => r == Err(f)
    {
      if !Cur().kind.Ident? {
        return Err(Syntax);
      }
      var col := Cur().text;
      Advance();
      if Cur() == Keyword("BETWEEN") {
        Advance();
        var a := ParseLiteral();
        if a.Err? {
          return Err(a.fault);
        }
        if Cur() != Keyword("AND") {
          return Err(Syntax);
        }
        Advance();
        var b := ParseLiteral();
        if b.Err? {
          return Err(b.fault);
        }
        var i := Push(TestNode(Between(col, a.value, b.value)));
        return Ok(i);
      }
      if Cur() == Keyword("LIKE") {
        Advance();
        if !Cur().kind.StrTok? {
          return Err(Syntax);
        }
        var pattern := Cur().text;
        Advance();
        var i := Push(TestNode(Like(col, pattern)));
        return Ok(i);
      }
      var op := ParseCmpOp();
      if op.Err? {
        return Err(op.fault);
      }
      if Cur().kind.Ident? {
        var right := Cur().text;
        Advance();
        var i := Push(TestNode(Compare(col, op.value, ColumnRef(right))));
        return Ok(i);
      }
      var lit := ParseLiteral();
      if lit.Err? {
        return Err(lit.fault);
      }
      var i := Push(TestNode(Compare(col, op.value, Const(lit.value))));
      return Ok(i);
    }

    method ParseBoolPrimary() returns (r: Result<nat>)
      modifies this`pos, this`nodes
      ensures Pushes(ReadPrimary(toks, old(pos)), r, pos, old(nodes), nodes)
      decreases |toks| - pos, 0
    {
      if Cur().kind.LParen? {
        Advance();
        var inner := ParseBoolOr();
        if inner.Err? {
          return inner;
        }
        if !Cur().kind.RParen? {
          return Err(Syntax);
        }
        Advance();
        var i := Push(ParenNode(inner.value));
        return Ok(i);
      }
      r := ParsePredicate();
    }

    method ParseBoolAnd() returns (r: Result<nat>)
      modifies this`pos, this`nodes
      ensures Pushes(ReadAnd(toks, old(pos)), r, pos, old(nodes), nodes)
      decreases |toks| - pos, 1
    {
      hide Flatten, ReadPrimary;
      var first := ParseBoolPrimary();
      if first.Err? {
        return first;
      }
      var left := first.value;
      ghost var e := ReadPrimary(toks, old(pos)).value;
      while Cur() == Keyword("AND")
        invariant old(pos) < pos <= |toks|
        invariant nodes == old(nodes) + Flatten(e, |old(nodes)|) && left == |nodes| - 1
        invariant ReadAnd(toks, old(pos)) == AndLoop(toks, pos, e)
        decreases |toks| - pos
      {
        ghost var at, before := pos, nodes;
        Advance();
        var right := ParseBoolPrimary();
        if right.Err? {
          return right;
        }
        ghost var b := ReadPrimary(toks, at + 1).value;
        left := Push(BoolNode(true, left, right.value));
        FlattenJoin(old(nodes), e, b);
        AndStep(toks, at, e, b, pos);
        e := And(e, b);
      }
      return Ok(left);
    }

    method ParseBoolOr() returns (r: Result<nat>)
      modifies this`pos, this`nodes
      ensures Pushes(ReadOr(toks, old(pos)), r, pos, old(nodes), nodes)
      decreases |toks| - pos, 2
    {
      hide Flatten, ReadAnd;
      var first := ParseBoolAnd();
      if first.Err? {
        return first;
      }
      var left := first.value;
      ghost var e := ReadAnd(toks, old(pos)).value;
      while Cur() == Keyword("OR")
        invariant old(pos) < pos <= |toks|
        invariant nodes == old(nodes) + Flatten(e, |old(nodes)|) && left == |nodes| - 1
        invariant ReadOr(toks, old(pos)) == OrLoop(toks, pos, e)
        decreases |toks| - pos
      {
        ghost var at, before := pos, nodes;
        Advance();
        var right := ParseBoolAnd();
        if right.Err? {
          return right;
        }
        ghost var b := ReadAnd(toks, at + 1).value;
        left := Push(BoolNode(false, left, right.value));
        FlattenJoin(old(nodes), e, b);
        OrStep(toks, at, e, b, pos);
        e := Or(e, b);
      }
      return Ok(left);
    }

    /** Reads an optional WHERE clause into `nodes` and `root`; without one the root stays -1. */
    method ParseWhere() returns (ok: bool)
      requires nodes == [] && root == -1
      modifies this
      ensures !IsKw(toks, old(pos), "WHERE") ==> ok && pos == old(pos) && nodes == [] && root == -1
      ensures IsKw(toks, old(pos), "WHERE") ==>
                (ok <==> ReadOr(toks, old(pos) + 1).Parsed?)
      ensures IsKw(toks, old(pos), "WHERE") && ok ==>
                var o := ReadOr(toks, old(pos) + 1);
                nodes == Flatten(o.value, 0) && root == |nodes| - 1 && pos == o.next
    {
      if Cur() != Keyword("WHERE") {
        return true;
      }
      Advance();
      var r := ParseBoolOr();
      if r.Err? {
        return false;
      }
      root := r.value;
      return true;
    }
  }
}
