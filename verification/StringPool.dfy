/** String interning (src/core/string_pool.cpp): unique strings are stored once and named by id. */
module StringPools {
  import opened Decimal
  import opened Values

  /** Ids are stored as 32-bit unsigned integers. */
  const ID_LIMIT: nat := 0x1_0000_0000

  /** The slot that `intern(s)` names: the one holding s already, never slot 0, else a new one. */
  function SlotOf(strings: seq<string>, s: string): (id: nat)
    requires |strings| > 0
    ensures 1 <= id <= |strings|
    ensures id < |strings| ==> strings[id] == s
    ensures id == |strings| <==> s !in strings[1..]
  {
    if strings[|strings| - 1] == s && |strings| > 1 then |strings| - 1
    else if |strings| == 1 then 1
    else
      var rest := strings[..|strings| - 1];
      assert strings[1..] == rest[1..] + [strings[|strings| - 1]];
      var id := SlotOf(rest, s);
      if id == |rest| then |strings| else id
  }

  /** The pool after `intern(s)`. */
  function AfterIntern(strings: seq<string>, s: string): (r: seq<string>)
    requires |strings| > 0
    ensures strings <= r
  {
    if SlotOf(strings, s) == |strings| then strings + [s] else strings
  }

  /** The pool after interning all of ss in order. */
  function AfterAll(strings: seq<string>, ss: seq<string>): (r: seq<string>)
    requires |strings| > 0
    ensures |r| > 0
    decreases ss
  {
    if ss == [] then strings else AfterAll(AfterIntern(strings, ss[0]), ss[1..])
  }

  lemma InternKeepsPool(strings: seq<string>, s: string)
    requires PoolOk(strings)
    ensures var after := AfterIntern(strings, s);
            PoolOk(after) && strings <= after && SlotOf(strings, s) < |after| && SlotOf(after, s) == SlotOf(strings, s)
    ensures s in strings[1..] ==> AfterIntern(strings, s) == strings
  {
    var after := AfterIntern(strings, s);
    var id := SlotOf(strings, s);
    forall i, j | 1 <= i < j < |after|
      ensures after[i] != after[j]
    {
      if j == |strings| { assert after[i] == strings[1..][i - 1]; }
    }
    var again := SlotOf(after, s);
    assert after[1..][id - 1] == s;
    assert after[again] == s == after[id];
  }

  /** A slot once taken is found again in every larger pool. */
  lemma SlotStable(strings: seq<string>, bigger: seq<string>, s: string)
    requires PoolOk(strings) && PoolOk(bigger) && strings <= bigger
    requires SlotOf(strings, s) < |strings|
    ensures SlotOf(bigger, s) == SlotOf(strings, s)
  {
    var id, id' := SlotOf(strings, s), SlotOf(bigger, s);
    assert bigger[1..][id - 1] == bigger[id] == s;
    assert bigger[id'] == s;
  }

  lemma {:induction false} RunGrows(strings: seq<string>, ss: seq<string>)
    requires PoolOk(strings)
    ensures PoolOk(AfterAll(strings, ss)) && strings <= AfterAll(strings, ss)
    decreases ss
  {
    if ss != [] {
      InternKeepsPool(strings, ss[0]);
      hide AfterIntern, PoolOk;
      RunGrows(AfterIntern(strings, ss[0]), ss[1..]);
    }
  }

  lemma {:induction false} RunSplits(strings: seq<string>, ss: seq<string>, k: nat)
    requires |strings| > 0 && k <= |ss|
    ensures AfterAll(strings, ss) == AfterAll(AfterAll(strings, ss[..k]), ss[k..])
    decreases ss
  {
    if k == 0 {
      assert ss[..0] == [] && ss[0..] == ss;
    } else {
      hide AfterIntern, SlotOf;
      assert ss[..k][0] == ss[0] && ss[..k][1..] == ss[1..][..k - 1] && ss[1..][k - 1..] == ss[k..];
      RunSplits(AfterIntern(strings, ss[0]), ss[1..], k - 1);
    }
  }

  /** Over every run of `intern`, ids handed out earlier keep resolving to the same strings; the id the
      k-th call hands out resolves to its string at the end of the run, and interning that string again
      hands out that very id. */
  lemma RunKeepsMeaning(strings: seq<string>, ss: seq<string>, k: nat)
    requires PoolOk(strings) && k < |ss|
    ensures var end := AfterAll(strings, ss);
            var id := SlotOf(AfterAll(strings, ss[..k]), ss[k]);
            && (forall old_id | 0 <= old_id < |strings| :: Resolve(end, old_id) == Resolve(strings, old_id))
            && id < |end| && Resolve(end, id) == ss[k] && SlotOf(end, ss[k]) == id
  {
    RunGrows(strings, ss);
    RunGrows(strings, ss[..k]);
    RunSplits(strings, ss, k);
    var held := AfterAll(strings, ss[..k]);
    var after := AfterIntern(held, ss[k]);
    InternKeepsPool(held, ss[k]);
    assert ss[k..][0] == ss[k];
    hide AfterIntern, PoolOk, SlotOf;
    RunGrows(after, ss[k..][1..]);
    assert AfterAll(held, ss[k..]) == AfterAll(after, ss[k..][1..]);
    hide AfterAll;
    SlotStable(after, AfterAll(after, ss[k..][1..]), ss[k]);
  }

  /** Distinct strings interned in one run have distinct ids. */
  lemma DistinctStringsDistinctIds(strings: seq<string>, s: string, t: string)
    requires PoolOk(strings) && s in strings[1..] && t in strings[1..] && s != t
    ensures SlotOf(strings, s) != SlotOf(strings, t)
  {
    assert strings[SlotOf(strings, s)] == s;
  }

  /** After interning a new string, the slots that resolve to it are its own and, for the empty
      string, the reserved one. */
  lemma SlotsThatResolve(strings: seq<string>, s: string, id: nat)
    requires PoolOk(strings) && s !in strings[1..] && id <= |strings|
    ensures Resolve(AfterIntern(strings, s), id) == s <==> id == |strings| || (s == "" && id == 0)
  {
    assert SlotOf(strings, s) == |strings|;
    assert AfterIntern(strings, s) == strings + [s];
    hide SlotOf, AfterIntern;
    if 0 < id < |strings| {
      assert strings[id] == strings[1..][id - 1];
    }
  }

  lemma TruncationFixes(n: nat)
    ensures n % ID_LIMIT <= n && (n % ID_LIMIT == n <==> n < ID_LIMIT)
  {
  }

  /** What truncating the slot number to a 32-bit id does: the id of a newly interned string resolves
      to the string if and only if the pool held fewer than 2^32 strings, or the string is empty and
      its number falls on the reserved slot 0. */
  lemma TruncatedIdResolves(strings: seq<string>, s: string)
    requires PoolOk(strings) && s !in strings[1..]
    ensures Resolve(AfterIntern(strings, s), SlotOf(strings, s) % ID_LIMIT) == s <==>
              |strings| < ID_LIMIT || (s == "" && |strings| % ID_LIMIT == 0)
  {
    var n := |strings|;
    assert SlotOf(strings, s) == n;
    hide *;
    TruncationFixes(n);
    SlotsThatResolve(strings, s, n % ID_LIMIT);
  }

  /** A pool of n different strings: the empty one and numerals. */
  function NumberedPool(n: nat): (pool: seq<string>)
    requires n >= 1
    ensures |pool| == n && pool[0] == "" && forall i | 1 <= i < n :: pool[i] == Numeral(i)
  {
    seq(n, i requires 0 <= i < n => if i == 0 then "" else Numeral(i))
  }

  lemma NumberedPoolOk(n: nat)
    requires n >= 1
    ensures PoolOk(NumberedPool(n))
  {
    forall i, j | 1 <= i < j < n
      ensures NumberedPool(n)[i] != NumberedPool(n)[j]
    {
      NumeralRoundTrip(i);
      NumeralRoundTrip(j);
    }
  }

  /** The condition can fail: in a pool of 2^32 strings the next string gets the truncated id 0, which means the
      empty string. */
  lemma TruncationLosesString()
    ensures var pool := NumberedPool(ID_LIMIT);
      && PoolOk(pool) && "x" !in pool[1..] && SlotOf(pool, "x") % ID_LIMIT == 0
      && Resolve(AfterIntern(pool, "x"), SlotOf(pool, "x") % ID_LIMIT) != "x"
  {
    var pool := NumberedPool(ID_LIMIT);
    NumberedPoolOk(ID_LIMIT);
    forall i | 1 <= i < |pool|
      ensures pool[i] != "x"
    {
      assert IsDigit(Numeral(i)[0]);
    }
    assert "x" !in pool[1..];
    hide NumberedPool, AfterIntern, Resolve, SlotOf;
    TruncatedIdResolves(pool, "x");
  }

  class StringPool {
    var strings: seq<string>
    var index: map<string, nat>

    ghost predicate Valid()
      reads this
    {
      && PoolOk(strings)
      && (forall i | 1 <= i < |strings| :: strings[i] in index && index[strings[i]] == i)
      && (forall s | s in index :: 1 <= index[s] < |strings| && strings[index[s]] == s)
    }

    constructor ()
      ensures Valid() && strings == [""]
    {
      strings := [""];
      index := map[];
    }

    method Intern(s: string) returns (id: nat)
      requires Valid()
      modifies this
      ensures Valid()
      ensures strings == AfterIntern(old(strings), s) && old(strings) <= strings
      ensures id == SlotOf(old(strings), s)
      ensures 1 <= id < |strings| && strings[id] == s
    {
      InternKeepsPool(strings, s);
      if s in index {
        id := index[s];
        assert strings[id] == strings[1..][id - 1];
        return;
      }
      id := |strings|;
      index := index[s := id];
      strings := strings + [s];
    }

    method ResolveId(id: nat) returns (s: string)
      ensures s == Resolve(strings, id)
      ensures s == if id < |strings| then strings[id] else ""
    {
      if id >= |strings| {
        return "";
      }
      return strings[id];
    }

    /** The comparator an index over this pool holds: it reads the pool as it is now. */
    function Compare(a: Value, b: Value): int
      reads this
    {
      Cmp(strings, a, b)
    }
  }
}
