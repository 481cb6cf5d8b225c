/** Cell values and their order (src/core/value.cpp), over the strings an interning pool holds
    (src/core/string_pool.cpp). A string value is an id into the pool, so the order of two values
    depends on the pool; `pool` below is the pool's vector of strings. */
module Values {

  datatype Value = Null | Int(n: int) | Str(id: nat)

  /** An id outside the pool resolves to the empty string. */
  function Resolve(pool: seq<string>, id: nat): string {
    if id < |pool| then pool[id] else ""
  }

  /** `operator<` on strings. */
  predicate StrLess(a: string, b: string) {
    b != [] && (a == [] || a[0] < b[0] || (a[0] == b[0] && StrLess(a[1..], b[1..])))
  }

  function KindRank(v: Value): nat {
    match v case Null => 0 case Int(_) => 1 case Str(_) => 2
  }

  /** `value_cmp`: kinds first, then integers by value and strings by contents. */
  function Cmp(pool: seq<string>, a: Value, b: Value): int {
    if KindRank(a) != KindRank(b) then
      if KindRank(a) < KindRank(b) then -1 else 1
    else
      match a
      case Null => 0
      case Int(m) => if m < b.n then -1 else if m > b.n then 1 else 0
      case Str(i) =>
        var sa, sb := Resolve(pool, i), Resolve(pool, b.id);
        if StrLess(sa, sb) then -1 else if StrLess(sb, sa) then 1 else 0
  }

  /** `value_eq`: strings are compared by id, not by contents. */
  predicate ValueEq(a: Value, b: Value) {
    if KindRank(a) != KindRank(b) then false
    else match a
      case Null => true
      case Int(m) => m == b.n
      case Str(i) => i == b.id
  }

  // ----- strings are totally ordered

  lemma {:induction false} StrTrichotomy(a: string, b: string)
    ensures !StrLess(a, a)
    ensures !(StrLess(a, b) && StrLess(b, a))
    ensures StrLess(a, b) || StrLess(b, a) || a == b
  {
    if a != [] {
      StrTrichotomy(a[1..], if b == [] then [] else b[1..]);
      if b != [] && a[0] == b[0] {
        assert a == [a[0]] + a[1..] && b == [b[0]] + b[1..];
      }
    }
  }

  lemma {:induction false} StrTransitive(a: string, b: string, c: string)
    requires StrLess(a, b) && StrLess(b, c)
    ensures StrLess(a, c)
  {
    if a != [] && a[0] == b[0] && b[0] == c[0] {
      StrTransitive(a[1..], b[1..], c[1..]);
    }
  }

  /** The first k characters are equal, and then s ends or has the smaller character. */
  predicate SmallerAt(s: string, t: string, k: nat) {
    k <= |s| && k < |t| && s[..k] == t[..k] && (k == |s| || s[k] < t[k])
  }

  /** The order of the dictionary: s is a proper beginning of t, or smaller in the first character that differs. */
  ghost predicate TextBefore(s: string, t: string) {
    exists k: nat :: SmallerAt(s, t, k)
  }

  lemma {:induction false} StrLessIsBefore(s: string, t: string)
    ensures StrLess(s, t) <==> TextBefore(s, t)
  {
    forall k: nat | SmallerAt(s, t, k) && k > 0
      ensures s != [] && t != [] && s[0] == t[0]
    {
      assert s[0] == s[..k][0] && t[0] == t[..k][0];
    }
    if s == [] || t == [] || s[0] != t[0] {
      if StrLess(s, t) { assert SmallerAt(s, t, 0); }
    } else {
      StrLessIsBefore(s[1..], t[1..]);
      TailBefore(s, t);
    }
  }

  lemma TailBefore(s: string, t: string)
    requires s != [] && t != [] && s[0] == t[0]
    ensures TextBefore(s, t) <==> TextBefore(s[1..], t[1..])
  {
    if TextBefore(s, t) {
      var k: nat :| SmallerAt(s, t, k);
      assert s[1..][..k - 1] == s[..k][1..] && t[1..][..k - 1] == t[..k][1..];
      assert SmallerAt(s[1..], t[1..], k - 1);
    }
    if TextBefore(s[1..], t[1..]) {
      var k: nat :| SmallerAt(s[1..], t[1..], k);
      assert s[..k + 1] == [s[0]] + s[1..][..k] && t[..k + 1] == [t[0]] + t[1..][..k];
      assert SmallerAt(s, t, k + 1);
    }
  }

  // ----- what the order says about contents

  /** A value with its text instead of an id. */
  datatype Datum = Missing | Integer(n: int) | Text(s: string)

  function Content(pool: seq<string>, v: Value): (c: Datum)
    ensures v.Str? && v.id < |pool| ==> c == Text(pool[v.id])
  {
    match v
    case Null => Missing
    case Int(n) => Integer(n)
    case Str(id) => Text(Resolve(pool, id))
  }

  /** NULL comes before all numbers, these in their order, and these before all texts in the order of the dictionary. */
  ghost predicate Before(a: Datum, b: Datum) {
    match a
    case Missing => b != Missing
    case Integer(m) => b.Text? || (b.Integer? && m < b.n)
    case Text(s) => b.Text? && TextBefore(s, b.s)
  }

  /** Comparing values is comparing what they contain. */
  lemma CmpIsOrder(pool: seq<string>, a: Value, b: Value)
    ensures Cmp(pool, a, b) < 0 <==> Before(Content(pool, a), Content(pool, b))
    ensures Cmp(pool, a, b) > 0 <==> Before(Content(pool, b), Content(pool, a))
    ensures Cmp(pool, a, b) == 0 <==> Content(pool, a) == Content(pool, b)
    ensures a.Int? && b.Int? ==> (Cmp(pool, a, b) < 0 <==> a.n < b.n) && (Cmp(pool, a, b) > 0 <==> a.n > b.n)
    ensures a.Null? && !b.Null? ==> Cmp(pool, a, b) < 0
    ensures a.Int? && b.Str? ==> Cmp(pool, a, b) < 0
    ensures a.Str? && b.Str? && a.id < |pool| && b.id < |pool| ==>
              (Cmp(pool, a, b) < 0 <==> TextBefore(pool[a.id], pool[b.id]))
  {
    if a.Str? && b.Str? {
      var s, t := Resolve(pool, a.id), Resolve(pool, b.id);
      StrTrichotomy(s, t);
      StrTrichotomy(s, s);
      StrLessIsBefore(s, t);
      StrLessIsBefore(t, s);
      hide StrLess, TextBefore;
    }
  }

  // ----- values are totally preordered, whatever the pool holds

  lemma CmpMirror(pool: seq<string>, a: Value, b: Value)
    ensures Cmp(pool, a, a) == 0
    ensures Cmp(pool, b, a) == -Cmp(pool, a, b)
  {
    if a.Str? && b.Str? {
      StrTrichotomy(Resolve(pool, a.id), Resolve(pool, b.id));
    }
    if a.Str? { StrTrichotomy(Resolve(pool, a.id), Resolve(pool, a.id)); }
  }

  lemma CmpTransitive(pool: seq<string>, a: Value, b: Value, c: Value)
    requires Cmp(pool, a, b) <= 0 && Cmp(pool, b, c) <= 0
    ensures Cmp(pool, a, c) <= 0
    ensures Cmp(pool, a, c) == 0 ==> Cmp(pool, a, b) == 0 && Cmp(pool, b, c) == 0
  {
    if a.Str? && b.Str? && c.Str? {
      var x, y, z := Resolve(pool, a.id), Resolve(pool, b.id), Resolve(pool, c.id);
      StrTrichotomy(x, y);
      StrTrichotomy(y, z);
      StrTrichotomy(x, z);
      if StrLess(x, y) && StrLess(y, z) { StrTransitive(x, y, z); }
    }
  }

  /** The order laws in the form proofs over whole sequences use. */
  lemma CmpLaws(pool: seq<string>)
    ensures forall a :: Cmp(pool, a, a) == 0
    ensures forall a, b :: Cmp(pool, b, a) == -Cmp(pool, a, b)
    ensures forall a, b, c {:trigger Cmp(pool, a, b), Cmp(pool, b, c)} ::
              Cmp(pool, a, b) <= 0 && Cmp(pool, b, c) <= 0 ==>
                Cmp(pool, a, c) <= 0 && (Cmp(pool, a, c) == 0 ==> Cmp(pool, a, b) == 0 && Cmp(pool, b, c) == 0)
  {
    hide *;
    forall a, b
      ensures Cmp(pool, a, a) == 0 && Cmp(pool, b, a) == -Cmp(pool, a, b)
    {
      CmpMirror(pool, a, b);
    }
    forall a, b, c | Cmp(pool, a, b) <= 0 && Cmp(pool, b, c) <= 0
      ensures Cmp(pool, a, c) <= 0 && (Cmp(pool, a, c) == 0 ==> Cmp(pool, a, b) == 0 && Cmp(pool, b, c) == 0)
    {
      CmpTransitive(pool, a, b, c);
    }
  }

  // ----- interned values

  /** What every pool looks like: slot 0 is the reserved empty marker, and the strings that
      `intern` appended after it are pairwise distinct. */
  predicate PoolOk(pool: seq<string>) {
    && |pool| > 0 && pool[0] == ""
    && forall i, j | 1 <= i < j < |pool| :: pool[i] != pool[j]
  }

  /** The value carries no string, or an id that `intern` can have returned. */
  predicate Interned(pool: seq<string>, v: Value) {
    v.Str? ==> 1 <= v.id < |pool|
  }

  /** On interned values the order agrees with `value_eq` and with equality of values. */
  lemma CmpZeroIffEqual(pool: seq<string>, a: Value, b: Value)
    requires PoolOk(pool) && Interned(pool, a) && Interned(pool, b)
    ensures Cmp(pool, a, b) == 0 <==> a == b
    ensures ValueEq(a, b) <==> a == b
  {
    CmpMirror(pool, a, b);
    if a.Str? && b.Str? {
      StrTrichotomy(pool[a.id], pool[b.id]);
    }
  }

  /** Interning more strings leaves the order of interned values as it was. */
  lemma CmpStable(pool: seq<string>, bigger: seq<string>, a: Value, b: Value)
    requires pool <= bigger && Interned(pool, a) && Interned(pool, b)
    ensures Cmp(bigger, a, b) == Cmp(pool, a, b)
  {
  }
}
