/** WHERE clauses: the expression a clause means, the tokens it is written with, and the flat array of
    nodes the parser leaves behind (include/sql/ast.hpp, src/sql/parser.cpp). */
module WhereSyntax {
  import opened Decimal

  datatype TokKind =
    | Ident | Number | StrTok | Star | Comma | LParen | RParen | Semicolon
    | Eq | Ne | Lt | Gt | Le | Ge | Eof | Kw

  /** The kind and text of a token. */
  datatype Lexeme = Lexeme(kind: TokKind, text: string)

  datatype Literal = NullLit | IntLit(n: nat) | StrLit(s: string)
  datatype CmpOp = OpEq | OpNe | OpLt | OpGt | OpLe | OpGe
  datatype Operand = ColumnRef(name: string) | Const(lit: Literal)

  datatype Pred =
    | Compare(col: string, op: CmpOp, rhs: Operand)
    | Between(col: string, a: Literal, b: Literal)
    | Like(col: string, pattern: string)

  datatype Expr = Test(p: Pred) | Paren(e: Expr) | And(l: Expr, r: Expr) | Or(l: Expr, r: Expr)

  /** One node of the flat array: children are named by index. */
  datatype WhereNode =
    | TestNode(p: Pred)
    | ParenNode(child: int)
    | BoolNode(isAnd: bool, left: int, right: int)

  /** Integer literals are read into 64 bits. */
  const INT64_MAX: nat := 0x7FFF_FFFF_FFFF_FFFF

  // ----- the grammar: OR of AND of primaries, both to the left

  predicate LiteralOk(l: Literal) {
    l.IntLit? ==> l.n <= INT64_MAX
  }

  predicate PredOk(p: Pred) {
    match p
    case Compare(_, _, Const(l)) => LiteralOk(l)
    case Compare(_, _, ColumnRef(_)) => true
    case Between(_, a, b) => LiteralOk(a) && LiteralOk(b)
    case Like(_, _) => true
  }

  predicate IsPrimary(e: Expr)
    decreases e, 0
  {
    (e.Test? && PredOk(e.p)) || (e.Paren? && IsOr(e.e))
  }

  predicate IsAnd(e: Expr)
    decreases e, 1
  {
    IsPrimary(e) || (e.And? && IsAnd(e.l) && IsPrimary(e.r))
  }

  predicate IsOr(e: Expr)
    decreases e, 2
  {
    IsAnd(e) || (e.Or? && IsOr(e.l) && IsAnd(e.r))
  }

  // ----- printing

  function Keyword(k: string): Lexeme {
    Lexeme(Kw, k)
  }

  function OpKind(op: CmpOp): TokKind {
    match op
    case OpEq => Eq case OpNe => Ne case OpLt => Lt case OpGt => Gt case OpLe => Le case OpGe => Ge
  }

  function OpText(k: TokKind): string {
    match k
    case Eq => "=" case Ne => "!=" case Lt => "<" case Gt => ">" case Le => "<=" case Ge => ">="
    case LParen => "(" case RParen => ")" case _ => ""
  }

  function PrintLiteral(l: Literal): Lexeme {
    match l
    case NullLit => Keyword("NULL")
    case IntLit(n) => Lexeme(Number, Numeral(n))
    case StrLit(s) => Lexeme(StrTok, s)
  }

  function PrintOperand(o: Operand): Lexeme {
    match o
    case ColumnRef(c) => Lexeme(Ident, c)
    case Const(l) => PrintLiteral(l)
  }

  function PrintPred(p: Pred): seq<Lexeme> {
    match p
    case Compare(c, op, rhs) => [Lexeme(Ident, c), Lexeme(OpKind(op), OpText(OpKind(op))), PrintOperand(rhs)]
    case Between(c, a, b) => [Lexeme(Ident, c), Keyword("BETWEEN"), PrintLiteral(a), Keyword("AND"), PrintLiteral(b)]
    case Like(c, pat) => [Lexeme(Ident, c), Keyword("LIKE"), Lexeme(StrTok, pat)]
  }

  function Print(e: Expr): (ts: seq<Lexeme>)
    ensures ts != []
  {
    match e
    case Test(p) => PrintPred(p)
    case Paren(x) => [Lexeme(LParen, "(")] + Print(x) + [Lexeme(RParen, ")")]
    case And(l, r) => Print(l) + [Keyword("AND")] + Print(r)
    case Or(l, r) => Print(l) + [Keyword("OR")] + Print(r)
  }

  // ----- the flat array

  /** The nodes pushed for e when the array already holds `base` nodes; the last one is e's own. */
  function Flatten(e: Expr, base: nat): (w: seq<WhereNode>)
    ensures w != []
  {
    match e
    case Test(p) => [TestNode(p)]
    case Paren(x) =>
      var c := Flatten(x, base);
      c + [ParenNode(base + |c| - 1)]
    case And(l, r) =>
      var a := Flatten(l, base);
      var b := Flatten(r, base + |a|);
      a + b + [BoolNode(true, base + |a| - 1, base + |a| + |b| - 1)]
    case Or(l, r) =>
      var a := Flatten(l, base);
      var b := Flatten(r, base + |a|);
      a + b + [BoolNode(false, base + |a| - 1, base + |a| + |b| - 1)]
  }

  ghost predicate HasChild(n: WhereNode, c: int) {
    match n
    case TestNode(_) => false
    case ParenNode(x) => x == c
    case BoolNode(_, l, r) => l == c || r == c
  }

  /** Children come before their parents, so evaluation by index ends. */
  ghost predicate ChildrenBefore(w: seq<WhereNode>, base: int) {
    forall i, c | 0 <= i < |w| && HasChild(w[i], c) :: c < base + i
  }

  /** Every child index lies inside the array. */
  ghost predicate ChildrenInside(w: seq<WhereNode>, base: int) {
    forall i, c | 0 <= i < |w| && HasChild(w[i], c) :: base <= c
  }

  /** Node c has node i as its one parent. */
  ghost predicate OnlyParent(w: seq<WhereNode>, c: int, i: nat) {
    i < |w| && HasChild(w[i], c) && forall j | 0 <= j < |w| && HasChild(w[j], c) :: j == i
  }

  ghost predicate HasOneParent(w: seq<WhereNode>, c: int) {
    exists i: nat :: OnlyParent(w, c, i)
  }

  ghost predicate EachHasParent(w: seq<WhereNode>, base: int) {
    forall c | base <= c < base + |w| - 1 :: HasOneParent(w, c)
  }

  /** No node names a child twice. */
  ghost predicate ChildrenDiffer(w: seq<WhereNode>) {
    forall i | 0 <= i < |w| && w[i].BoolNode? :: w[i].left != w[i].right
  }

  lemma FlattenUnfold(l: Expr, r: Expr, base: nat)
    ensures var a := Flatten(l, base);
            var b := Flatten(r, base + |a|);
            && Flatten(And(l, r), base) == a + b + [BoolNode(true, base + |a| - 1, base + |a| + |b| - 1)]
            && Flatten(Or(l, r), base) == a + b + [BoolNode(false, base + |a| - 1, base + |a| + |b| - 1)]
  {
  }

  ghost predicate Local(w: seq<WhereNode>, base: int) {
    ChildrenBefore(w, base) && ChildrenInside(w, base) && ChildrenDiffer(w)
  }

  lemma LocalJoin(a: seq<WhereNode>, b: seq<WhereNode>, isAnd: bool, base: nat)
    requires a != [] && b != [] && Local(a, base) && Local(b, base + |a|)
    ensures Local(a + b + [BoolNode(isAnd, base + |a| - 1, base + |a| + |b| - 1)], base)
  {
    var w := a + b + [BoolNode(isAnd, base + |a| - 1, base + |a| + |b| - 1)];
    assert forall i | 0 <= i < |w| :: w[i] == if i < |a| then a[i] else if i < |a| + |b| then b[i - |a|] else w[|w| - 1];
  }

  lemma LocalOperator(e: Expr, base: nat)
    requires (e.And? || e.Or?) && Local(Flatten(e.l, base), base)
    requires var next := base + |Flatten(e.l, base)|; Local(Flatten(e.r, next), next)
    ensures Local(Flatten(e, base), base)
  {
    hide *;
    FlattenUnfold(e.l, e.r, base);
    assert e == (if e.And? then And(e.l, e.r) else Or(e.l, e.r));
    LocalJoin(Flatten(e.l, base), Flatten(e.r, base + |Flatten(e.l, base)|), e.And?, base);
  }

  lemma LocalTest(p: Pred, base: nat)
    ensures Local(Flatten(Test(p), base), base)
  {
  }

  lemma LocalParen(e: Expr, base: nat)
    requires Local(Flatten(e, base), base)
    ensures Local(Flatten(Paren(e), base), base)
  {
    var c := Flatten(e, base);
    assert Flatten(Paren(e), base) == c + [ParenNode(base + |c| - 1)];
    hide Flatten;
  }

  lemma {:induction false} FlattenIsLocal(e: Expr, base: nat)
    ensures Local(Flatten(e, base), base)
  {
    hide *;
    match e
    case Test(p) =>
      LocalTest(p, base);
    case Paren(x) =>
      FlattenIsLocal(x, base);
      LocalParen(x, base);
    case And(l, r) =>
      FlattenIsLocal(l, base);
      FlattenIsLocal(r, base + |Flatten(l, base)|);
      LocalOperator(e, base);
    case Or(l, r) =>
      FlattenIsLocal(l, base);
      FlattenIsLocal(r, base + |Flatten(l, base)|);
      LocalOperator(e, base);
  }

  lemma FlattenLocal(e: Expr, base: nat)
    ensures ChildrenBefore(Flatten(e, base), base) && ChildrenInside(Flatten(e, base), base)
    ensures ChildrenDiffer(Flatten(e, base))
  {
    FlattenIsLocal(e, base);
  }

  /** Joining two arrays below a new node gives each of their roots, and only them, the new parent. */
  lemma JoinParents(a: seq<WhereNode>, b: seq<WhereNode>, n: WhereNode, base: nat)
    requires a != [] && b != []
    requires ChildrenBefore(a, base) && ChildrenInside(a, base) && EachHasParent(a, base)
    requires ChildrenBefore(b, base + |a|) && ChildrenInside(b, base + |a|) && EachHasParent(b, base + |a|)
    requires n.BoolNode? && n.left == base + |a| - 1 && n.right == base + |a| + |b| - 1
    ensures EachHasParent(a + b + [n], base)
  {
    var w := a + b + [n];
    forall c | base <= c < base + |w| - 1
      ensures HasOneParent(w, c)
    {
      if c < base + |a| - 1 {
        assert HasOneParent(a, c);
        var i: nat :| OnlyParent(a, c, i);
        OnlyInLeft(a, b, n, base, c, i);
      } else if c == base + |a| - 1 || c == base + |w| - 2 {
        RootsParent(a, b, n, base, c);
      } else {
        assert HasOneParent(b, c);
        var i: nat :| OnlyParent(b, c, i);
        OnlyInRight(a, b, n, base, c, i);
      }
    }
  }

  lemma RootsParent(a: seq<WhereNode>, b: seq<WhereNode>, n: WhereNode, base: nat, c: int)
    requires a != [] && b != [] && ChildrenBefore(a, base)
    requires ChildrenBefore(b, base + |a|) && ChildrenInside(b, base + |a|)
    requires n.BoolNode? && n.left == base + |a| - 1 && n.right == base + |a| + |b| - 1
    requires c == n.left || c == n.right
    ensures OnlyParent(a + b + [n], c, |a| + |b|)
  {
    var w := a + b + [n];
    assert w[|a| + |b|] == n;
    assert forall j | 0 <= j < |a| :: w[j] == a[j];
    assert forall j | |a| <= j < |a| + |b| :: w[j] == b[j - |a|];
  }

  lemma OnlyInLeft(a: seq<WhereNode>, b: seq<WhereNode>, n: WhereNode, base: nat, c: int, i: nat)
    requires a != [] && b != [] && OnlyParent(a, c, i) && c < base + |a| - 1
    requires ChildrenInside(b, base + |a|)
    requires n.BoolNode? && n.left == base + |a| - 1 && n.right == base + |a| + |b| - 1
    ensures OnlyParent(a + b + [n], c, i)
  {
    var w := a + b + [n];
    assert w[i] == a[i];
    assert forall j | |a| <= j < |a| + |b| :: w[j] == b[j - |a|];
  }

  lemma OnlyInRight(a: seq<WhereNode>, b: seq<WhereNode>, n: WhereNode, base: nat, c: int, i: nat)
    requires a != [] && b != [] && OnlyParent(b, c, i) && base + |a| <= c < base + |a| + |b| - 1
    requires ChildrenBefore(a, base)
    requires n.BoolNode? && n.left == base + |a| - 1 && n.right == base + |a| + |b| - 1
    ensures OnlyParent(a + b + [n], c, |a| + i)
  {
    var w := a + b + [n];
    assert w[|a| + i] == b[i];
    assert forall j | 0 <= j < |a| :: w[j] == a[j];
    assert forall j | |a| <= j < |a| + |b| :: w[j] == b[j - |a|];
  }

  lemma WrapParents(a: seq<WhereNode>, base: nat)
    requires a != [] && ChildrenBefore(a, base) && EachHasParent(a, base)
    ensures EachHasParent(a + [ParenNode(base + |a| - 1)], base)
  {
    var w := a + [ParenNode(base + |a| - 1)];
    forall c | base <= c < base + |w| - 1
      ensures HasOneParent(w, c)
    {
      if c < base + |a| - 1 {
        assert HasOneParent(a, c);
        var i: nat :| OnlyParent(a, c, i);
        assert OnlyParent(w, c, i);
      } else {
        assert OnlyParent(w, c, |a|);
      }
    }
  }

  /** The array the parser builds is a tree in post-order: children before parents, one parent for every
      node but the last, and the last node is the root. */
  lemma {:induction false} FlattenIsPostOrder(e: Expr, base: nat)
    ensures ChildrenBefore(Flatten(e, base), base) && ChildrenInside(Flatten(e, base), base)
    ensures EachHasParent(Flatten(e, base), base)
  {
    FlattenLocal(e, base);
    match e
    case Test(p) =>
    case Paren(x) =>
      FlattenIsPostOrder(x, base);
      WrapParents(Flatten(x, base), base);
    case And(l, r) =>
      FlattenIsPostOrder(l, base);
      var a := Flatten(l, base);
      FlattenIsPostOrder(r, base + |a|);
      var b := Flatten(r, base + |a|);
      JoinParents(a, b, BoolNode(true, base + |a| - 1, base + |a| + |b| - 1), base);
    case Or(l, r) =>
      FlattenIsPostOrder(l, base);
      var a := Flatten(l, base);
      FlattenIsPostOrder(r, base + |a|);
      var b := Flatten(r, base + |a|);
      JoinParents(a, b, BoolNode(false, base + |a| - 1, base + |a| + |b| - 1), base);
  }
}
