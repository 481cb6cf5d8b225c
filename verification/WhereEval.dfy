/** Evaluating a WHERE clause on a row (src/sql/where_eval.cpp): the evaluator over the flat array, the
    meaning of the expression it came from, and their agreement. */
module WhereEval {
  import opened Values
  import opened StringPools
  import opened TableSpec
  import opened WhereSyntax

  datatype LikeResult = Match | NoMatch | BadRegex

  /** Matching a text against a regular expression (pattern, text), by a library. */
  type LikeFn = (string, string) -> LikeResult

  datatype EvalError = BadNode | UnknownColumn(name: string) | UnknownInBetween | LikeNeedsString | InvalidRegex

  /** The error string that evaluation passes along; None is the empty string. */
  type Err = Option<EvalError>

  datatype Env = Env(cols: seq<ColumnDef>, pool: seq<string>, like: LikeFn)

  /** How a cell compares with a literal: as `value_cmp` does once the literal is a value. */
  function LitCmp(pool: seq<string>, v: Value, l: Literal): int {
    match l
    case NullLit => if v.Null? then 0 else 1
    case IntLit(n) => if v.Null? then -1 else if v.Str? then 1 else if v.n < n then -1 else if v.n > n then 1 else 0
    case StrLit(s) =>
      if !v.Str? then -1
      else if StrLess(Resolve(pool, v.id), s) then -1 else if StrLess(s, Resolve(pool, v.id)) then 1 else 0
  }

  /** What the comparison operators make of the sign of a comparison. */
  predicate OpHolds(op: CmpOp, c: int) {
    match op
    case OpEq => c == 0
    case OpNe => c != 0
    case OpLt => c < 0
    case OpGt => c > 0
    case OpLe => c <= 0
    case OpGe => c >= 0
  }

  datatype Verdict = Holds(b: bool) | Raises(e: EvalError)

  function EvalPred(env: Env, row: Row, p: Pred): Verdict
    requires |row| == |env.cols|
  {
    var i := ColumnIndex(env.cols, p.col);
    match p
    case Compare(c, op, ColumnRef(d)) =>
      if i < 0 then Raises(UnknownColumn(c))
      else
        var j := ColumnIndex(env.cols, d);
        if j < 0 then Raises(UnknownColumn(d)) else Holds(OpHolds(op, Cmp(env.pool, row[i], row[j])))
    case Compare(c, op, Const(l)) =>
      if i < 0 then Raises(UnknownColumn(c)) else Holds(OpHolds(op, LitCmp(env.pool, row[i], l)))
    case Between(_, a, b) =>
      if i < 0 then Raises(UnknownInBetween)
      else Holds(LitCmp(env.pool, row[i], a) >= 0 && LitCmp(env.pool, row[i], b) <= 0)
    case Like(_, pat) =>
      if i < 0 || !row[i].Str? then Raises(LikeNeedsString)
      else
        match env.like(pat, Resolve(env.pool, row[i].id))
        case Match => Holds(true)
        case NoMatch => Holds(false)
        case BadRegex => Raises(InvalidRegex)
  }

  /** A predicate sets the error when it raises one and leaves it alone otherwise. */
  function Settle(v: Verdict, err: Err): (bool, Err) {
    match v
    case Holds(b) => (b, err)
    case Raises(e) => (false, Some(e))
  }

  /** AND and OR: the left operand's value does not spare the right one, but an error does; any error, also one
      from an earlier row, makes them false. */
  function Combine(isAnd: bool, l: (bool, Err), r: (bool, Err)): (bool, Err) {
    if l.1 != None then (false, l.1)
    else if r.1 != None then (false, r.1)
    else (if isAnd then l.0 && r.0 else l.0 || r.0, None)
  }

  /** `eval_node`, on the flat array. */
  ghost function EvalFlat(env: Env, row: Row, w: seq<WhereNode>, idx: int, err: Err): (bool, Err)
    requires |row| == |env.cols| && ChildrenBefore(w, 0)
    decreases if idx < 0 then 0 else idx
  {
    if idx < 0 || idx >= |w| then (false, Some(BadNode))
    else
      match w[idx]
      case TestNode(p) => Settle(EvalPred(env, row, p), err)
      case ParenNode(c) =>
        assert HasChild(w[idx], c);
        if c < 0 then (false, Some(BadNode)) else EvalFlat(env, row, w, c, err)
      case BoolNode(isAnd, l, r) =>
        assert HasChild(w[idx], l) && HasChild(w[idx], r);
        var a := if l < 0 then (false, Some(BadNode)) else EvalFlat(env, row, w, l, err);
        var b := if r < 0 then (false, Some(BadNode)) else EvalFlat(env, row, w, r, a.1);
        Combine(isAnd, a, b)
  }

  /** The same on the expression. */
  function EvalTree(env: Env, row: Row, e: Expr, err: Err): (bool, Err)
    requires |row| == |env.cols|
  {
    match e
    case Test(p) => Settle(EvalPred(env, row, p), err)
    case Paren(x) => EvalTree(env, row, x, err)
    case And(l, r) =>
      var a := EvalTree(env, row, l, err);
      Combine(true, a, EvalTree(env, row, r, a.1))
    case Or(l, r) =>
      var a := EvalTree(env, row, l, err);
      Combine(false, a, EvalTree(env, row, r, a.1))
  }

  /** No predicate of e raises an error on the row. */
  predicate NoError(env: Env, row: Row, e: Expr)
    requires |row| == |env.cols|
  {
    match e
    case Test(p) => EvalPred(env, row, p).Holds?
    case Paren(x) => NoError(env, row, x)
    case And(l, r) => NoError(env, row, l) && NoError(env, row, r)
    case Or(l, r) => NoError(env, row, l) && NoError(env, row, r)
  }

  /** What e says about the row, with no errors about. */
  predicate Meaning(env: Env, row: Row, e: Expr)
    requires |row| == |env.cols|
  {
    match e
    case Test(p) => EvalPred(env, row, p) == Holds(true)
    case Paren(x) => Meaning(env, row, x)
    case And(l, r) => Meaning(env, row, l) && Meaning(env, row, r)
    case Or(l, r) => Meaning(env, row, l) || Meaning(env, row, r)
  }

  /** The error of the leftmost predicate that raises one. */
  function FirstError(env: Env, row: Row, e: Expr): EvalError
    requires |row| == |env.cols| && !NoError(env, row, e)
  {
    match e
    case Test(p) => EvalPred(env, row, p).e
    case Paren(x) => FirstError(env, row, x)
    case And(l, r) => if !NoError(env, row, l) then FirstError(env, row, l) else FirstError(env, row, r)
    case Or(l, r) => if !NoError(env, row, l) then FirstError(env, row, l) else FirstError(env, row, r)
  }

  /** Starting without an error, evaluation computes the meaning if and only if no predicate raises an
      error; otherwise it yields false and the first error. */
  lemma {:induction false} EvalTreeIsMeaning(env: Env, row: Row, e: Expr)
    requires |row| == |env.cols|
    ensures EvalTree(env, row, e, None) ==
              if NoError(env, row, e) then (Meaning(env, row, e), None) else (false, Some(FirstError(env, row, e)))
  {
    hide EvalPred;
    match e
    case Test(p) =>
    case Paren(x) => EvalTreeIsMeaning(env, row, x);
    case And(l, r) =>
      EvalTreeIsMeaning(env, row, l);
      EvalTreeIsMeaning(env, row, r);
    case Or(l, r) =>
      EvalTreeIsMeaning(env, row, l);
      EvalTreeIsMeaning(env, row, r);
  }

  /** The expression inside all outer parentheses. */
  function Stripped(e: Expr): Expr {
    if e.Paren? then Stripped(e.e) else e
  }

  /** Once an earlier row has left an error behind: it never goes away, an AND or OR yields false on every
      later row, and a clause that is a single predicate is still decided by that predicate. */
  lemma {:induction false} ErrorSticks(env: Env, row: Row, e: Expr, err: Err)
    requires |row| == |env.cols| && err != None
    ensures EvalTree(env, row, e, err).1 != None
    ensures Stripped(e).And? || Stripped(e).Or? ==> !EvalTree(env, row, e, err).0
    ensures Stripped(e).Test? ==>
              (EvalTree(env, row, e, err).0 <==> EvalPred(env, row, Stripped(e).p) == Holds(true))
  {
    hide EvalPred;
    match e
    case Test(p) =>
    case Paren(x) => ErrorSticks(env, row, x, err);
    case And(l, r) => ErrorSticks(env, row, l, err);
    case Or(l, r) => ErrorSticks(env, row, l, err);
  }

  // ----- the flat form means what the expression means

  /** The array holds the nodes of e from `base` on. */
  ghost predicate Embeds(w: seq<WhereNode>, base: nat, e: Expr) {
    base + |Flatten(e, base)| <= |w| && w[base..base + |Flatten(e, base)|] == Flatten(e, base)
  }

  lemma EmbedsParts(w: seq<WhereNode>, base: nat, a: seq<WhereNode>, b: seq<WhereNode>)
    requires base + |a + b| <= |w| && w[base..base + |a + b|] == a + b
    ensures w[base..base + |a|] == a && w[base + |a|..base + |a| + |b|] == b
  {
    assert w[base..base + |a + b|][..|a|] == a;
    assert w[base..base + |a + b|][|a|..] == b;
  }

  lemma EmbedsOne(w: seq<WhereNode>, i: nat, n: WhereNode)
    requires i + 1 <= |w| && w[i..i + 1] == [n]
    ensures w[i] == n
  {
    assert w[i..i + 1][0] == n;
  }

  /** The operands of an operator node and the node itself, found in the array. */
  lemma EmbedsJoin(w: seq<WhereNode>, base: nat, e: Expr)
    requires Embeds(w, base, e) && (e.And? || e.Or?)
    ensures var a := Flatten(e.l, base);
            var b := Flatten(e.r, base + |a|);
            && Embeds(w, base, e.l) && Embeds(w, base + |a|, e.r)
            && |Flatten(e, base)| == |a| + |b| + 1
            && base + |a| + |b| < |w| && w[base + |a| + |b|] == BoolNode(e.And?, base + |a| - 1, base + |a| + |b| - 1)
  {
    hide Flatten;
    var a := Flatten(e.l, base);
    var b := Flatten(e.r, base + |a|);
    var n := BoolNode(e.And?, base + |a| - 1, base + |a| + |b| - 1);
    FlattenUnfold(e.l, e.r, base);
    EmbedsParts(w, base, a + b, [n]);
    EmbedsParts(w, base, a, b);
    EmbedsOne(w, base + |a| + |b|, n);
  }

  lemma EmbedsParen(w: seq<WhereNode>, base: nat, e: Expr)
    requires Embeds(w, base, e) && e.Paren?
    ensures var a := Flatten(e.e, base);
            Embeds(w, base, e.e) && |Flatten(e, base)| == |a| + 1 && base + |a| < |w| && w[base + |a|] == ParenNode(base + |a| - 1)
  {
    var a := Flatten(e.e, base);
    EmbedsParts(w, base, a, [ParenNode(base + |a| - 1)]);
    EmbedsOne(w, base + |a|, ParenNode(base + |a| - 1));
  }

  lemma FlatAtOperator(env: Env, row: Row, w: seq<WhereNode>, idx: nat, isAnd: bool, l: nat, r: nat, err: Err)
    requires |row| == |env.cols| && ChildrenBefore(w, 0) && idx < |w| && w[idx] == BoolNode(isAnd, l, r)
    ensures var a := EvalFlat(env, row, w, l, err);
            EvalFlat(env, row, w, idx, err) == Combine(isAnd, a, EvalFlat(env, row, w, r, a.1))
  {
    hide ChildrenBefore, Combine;
    assert HasChild(w[idx], l) && HasChild(w[idx], r);
  }

  lemma FlatAtParen(env: Env, row: Row, w: seq<WhereNode>, idx: nat, c: nat, err: Err)
    requires |row| == |env.cols| && ChildrenBefore(w, 0) && idx < |w| && w[idx] == ParenNode(c)
    ensures EvalFlat(env, row, w, idx, err) == EvalFlat(env, row, w, c, err)
  {
    hide ChildrenBefore;
    assert HasChild(w[idx], c);
  }

  lemma TreeAtOperator(env: Env, row: Row, e: Expr, err: Err)
    requires |row| == |env.cols| && (e.And? || e.Or?)
    ensures var a := EvalTree(env, row, e.l, err);
            EvalTree(env, row, e, err) == Combine(e.And?, a, EvalTree(env, row, e.r, a.1))
  {
  }

  /** Evaluating the flat array at the node of e gives what evaluating e gives, errors included; so the
      "bad node" error is never raised on a parsed clause. */
  lemma {:induction false} EvalFlatIsTree(env: Env, row: Row, w: seq<WhereNode>, base: nat, e: Expr, err: Err)
    requires |row| == |env.cols| && ChildrenBefore(w, 0) && Embeds(w, base, e)
    ensures EvalFlat(env, row, w, base + |Flatten(e, base)| - 1, err) == EvalTree(env, row, e, err)
    decreases e
  {
    hide *;
    match e
    case Test(p) =>
      TestCase(env, row, w, base, p, err);
    case Paren(x) =>
      EmbedsParen(w, base, e);
      EvalFlatIsTree(env, row, w, base, x, err);
      FlatAtParen(env, row, w, base + |Flatten(x, base)|, base + |Flatten(x, base)| - 1, err);
      TreeAtParen(env, row, x, err);
    case And(l, r) => OperatorCase(env, row, w, base, e, err);
    case Or(l, r) => OperatorCase(env, row, w, base, e, err);
  }

  lemma TestCase(env: Env, row: Row, w: seq<WhereNode>, base: nat, p: Pred, err: Err)
    requires |row| == |env.cols| && ChildrenBefore(w, 0) && Embeds(w, base, Test(p))
    ensures EvalFlat(env, row, w, base + |Flatten(Test(p), base)| - 1, err) == EvalTree(env, row, Test(p), err)
  {
    hide EvalPred, ChildrenBefore;
    EmbedsOne(w, base, TestNode(p));
  }

  lemma TreeAtParen(env: Env, row: Row, x: Expr, err: Err)
    requires |row| == |env.cols|
    ensures EvalTree(env, row, Paren(x), err) == EvalTree(env, row, x, err)
  {
  }

  lemma {:induction false} OperatorCase(env: Env, row: Row, w: seq<WhereNode>, base: nat, e: Expr, err: Err)
    requires |row| == |env.cols| && ChildrenBefore(w, 0) && Embeds(w, base, e) && (e.And? || e.Or?)
    ensures EvalFlat(env, row, w, base + |Flatten(e, base)| - 1, err) == EvalTree(env, row, e, err)
    decreases e, 0
  {
    hide *;
    var a := Flatten(e.l, base);
    var b := Flatten(e.r, base + |a|);
    EmbedsJoin(w, base, e);
    EvalFlatIsTree(env, row, w, base, e.l, err);
    var left := EvalTree(env, row, e.l, err);
    EvalFlatIsTree(env, row, w, base + |a|, e.r, left.1);
    FlatAtOperator(env, row, w, base + |a| + |b|, e.And?, base + |a| - 1, base + |a| + |b| - 1, err);
    TreeAtOperator(env, row, e, err);
  }

  /** The whole clause: the root is the last node. */
  lemma ClauseIsTree(env: Env, row: Row, e: Expr, err: Err)
    requires |row| == |env.cols|
    ensures ChildrenBefore(Flatten(e, 0), 0)
    ensures EvalFlat(env, row, Flatten(e, 0), |Flatten(e, 0)| - 1, err) == EvalTree(env, row, e, err)
  {
    FlattenIsPostOrder(e, 0);
    var w := Flatten(e, 0);
    assert w[0..0 + |w|] == w;
    EvalFlatIsTree(env, row, w, 0, e, err);
  }

  // ----- literals as values, and the growing pool

  /** The value of a literal once its string is interned. */
  function LitValue(pool: seq<string>, l: Literal): Value
    requires |pool| > 0
  {
    match l
    case NullLit => Null
    case IntLit(n) => Int(n)
    case StrLit(s) => Value.Str(SlotOf(pool, s))
  }

  function PoolWith(pool: seq<string>, l: Literal): (r: seq<string>)
    requires |pool| > 0
    ensures |r| > 0
  {
    if l.StrLit? then AfterIntern(pool, l.s) else pool
  }

  /** Comparing with the interned literal is comparing with the literal; equality is equality of values. */
  lemma LitCmpIsCmp(pool: seq<string>, bigger: seq<string>, v: Value, l: Literal)
    requires PoolOk(pool) && Interned(pool, v) && PoolOk(bigger) && pool <= bigger
    requires PoolWith(pool, l) <= bigger
    ensures Cmp(bigger, v, LitValue(pool, l)) == LitCmp(pool, v, l)
    ensures Interned(bigger, LitValue(pool, l))
    ensures LitCmp(pool, v, l) == 0 <==> v == LitValue(pool, l)
  {
    if l.StrLit? {
      InternKeepsPool(pool, l.s);
      var id := SlotOf(pool, l.s);
      assert bigger[id] == PoolWith(pool, l)[id];
      assert PoolWith(pool, l)[id] == l.s;
    }
    CmpZeroIffEqual(bigger, v, LitValue(pool, l));
  }

  /** Interning more strings changes no evaluation of a row of interned values. */
  lemma EvalPredStable(env: Env, bigger: seq<string>, row: Row, p: Pred)
    requires |row| == |env.cols| && env.pool <= bigger && InternedRow(env.pool, row)
    ensures EvalPred(env.(pool := bigger), row, p) == EvalPred(env, row, p)
  {
    forall v | v in row
      ensures v.Str? ==> Resolve(bigger, v.id) == Resolve(env.pool, v.id)
    {
      assert Interned(env.pool, v);
    }
    var i := ColumnIndex(env.cols, p.col);
    if i >= 0 { assert row[i] in row; }
    if p.Compare? && p.rhs.ColumnRef? {
      var j := ColumnIndex(env.cols, p.rhs.name);
      if i >= 0 && j >= 0 {
        assert row[j] in row;
        CmpStable(env.pool, bigger, row[i], row[j]);
      }
    }
  }

  lemma {:induction false} EvalFlatStable(env: Env, bigger: seq<string>, row: Row, w: seq<WhereNode>, idx: int, err: Err)
    requires |row| == |env.cols| && ChildrenBefore(w, 0) && env.pool <= bigger && InternedRow(env.pool, row)
    ensures EvalFlat(env.(pool := bigger), row, w, idx, err) == EvalFlat(env, row, w, idx, err)
    decreases if idx < 0 then 0 else idx
  {
    hide EvalPred;
    if 0 <= idx < |w| {
      match w[idx]
      case TestNode(p) => EvalPredStable(env, bigger, row, p);
      case ParenNode(c) =>
        assert HasChild(w[idx], c);
        if c >= 0 { EvalFlatStable(env, bigger, row, w, c, err); }
      case BoolNode(isAnd, l, r) =>
        assert HasChild(w[idx], l) && HasChild(w[idx], r);
        if l >= 0 { EvalFlatStable(env, bigger, row, w, l, err); }
        var a := if l < 0 then (false, Some(BadNode)) else EvalFlat(env, row, w, l, err);
        if r >= 0 { EvalFlatStable(env, bigger, row, w, r, a.1); }
    }
  }

  lemma {:induction false} EvalTreeStable(env: Env, bigger: seq<string>, row: Row, e: Expr, err: Err)
    requires |row| == |env.cols| && env.pool <= bigger && InternedRow(env.pool, row)
    ensures EvalTree(env.(pool := bigger), row, e, err) == EvalTree(env, row, e, err)
    ensures NoError(env.(pool := bigger), row, e) == NoError(env, row, e)
    ensures Meaning(env.(pool := bigger), row, e) == Meaning(env, row, e)
  {
    hide EvalPred;
    match e
    case Test(p) => EvalPredStable(env, bigger, row, p);
    case Paren(x) => EvalTreeStable(env, bigger, row, x, err);
    case And(l, r) =>
      EvalTreeStable(env, bigger, row, l, err);
      EvalTreeStable(env, bigger, row, r, EvalTree(env, row, l, err).1);
    case Or(l, r) =>
      EvalTreeStable(env, bigger, row, l, err);
      EvalTreeStable(env, bigger, row, r, EvalTree(env, row, l, err).1);
  }
}
