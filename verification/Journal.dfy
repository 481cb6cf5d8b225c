/** The journal (src/core/journal.cpp:23-68): one line of text per statement, and reading the lines back. */
module Journals {
  import opened Decimal

  /** A statement, the database it ran against, and when. */
  datatype Record = Record(ts: nat, db: string, sql: string)

  const TWO_64: nat := 0x1_0000_0000_0000_0000

  // ----- writing

  predicate Breaks(c: char) {
    c == '\n' || c == '\r' || c == '|'
  }

  predicate Plain(s: string) {
    forall i | 0 <= i < |s| :: !Breaks(s[i])
  }

  /** Newlines, carriage returns and bars become blanks. */
  function Clean(s: string): (t: string)
    ensures |t| == |s| && Plain(t)
    ensures forall i | 0 <= i < |s| :: t[i] == if s[i] in "\n\r|" then ' ' else s[i]
  {
    seq(|s|, i requires 0 <= i < |s| => if Breaks(s[i]) then ' ' else s[i])
  }

  lemma CleanKeepsPlain(s: string)
    ensures Clean(s) == s <==> Plain(s)
  {
  }

  method SanitizeLine(s: string) returns (t: string)
    ensures t == Clean(s)
    ensures |t| == |s| && forall i | 0 <= i < |s| :: t[i] == if s[i] in "\n\r|" then ' ' else s[i]
  {
    t := s;
    for i := 0 to |t|
      invariant |t| == |s|
      invariant forall j | 0 <= j < i :: t[j] == Clean(s)[j]
      invariant forall j | i <= j < |s| :: t[j] == s[j]
    {
      if Breaks(t[i]) { t := t[i := ' ']; }
    }
  }

  function Body(r: Record): string {
    Numeral(r.ts) + ['|'] + Clean(r.db) + ['|'] + Clean(r.sql)
  }

  function Written(rs: seq<Record>): string {
    if rs == [] then [] else Written(rs[..|rs| - 1]) + Body(rs[|rs| - 1]) + ['\n']
  }

  function Cleaned(rs: seq<Record>): (cs: seq<Record>)
    ensures |cs| == |rs|
    ensures forall i | 0 <= i < |rs| :: cs[i] == Record(rs[i].ts, Clean(rs[i].db), Clean(rs[i].sql))
  {
    seq(|rs|, i requires 0 <= i < |rs| => Record(rs[i].ts, Clean(rs[i].db), Clean(rs[i].sql)))
  }

  // ----- reading

  /** The first c at or after start, or -1. */
  function Find(s: string, c: char, start: nat): (i: int)
    requires start <= |s|
    ensures -1 <= i < |s|
    ensures i >= 0 ==> start <= i && s[i] == c && c !in s[start..i]
    ensures i < 0 ==> c !in s[start..]
    decreases |s| - start
  {
    if start == |s| then -1
    else if s[start] == c then start
    else
      var i := Find(s, c, start + 1);
      assert s[start..] == [s[start]] + s[start + 1..];
      assert i >= 0 ==> s[start..i] == [s[start]] + s[start + 1..i];
      i
  }

  lemma {:induction false} FindIs(s: string, c: char, start: nat, i: nat)
    requires start <= i < |s| && s[i] == c && c !in s[start..i]
    ensures Find(s, c, start) == i
    decreases i - start
  {
    if start < i {
      assert s[start..i] == [s[start]] + s[start + 1..i];
      FindIs(s, c, start + 1, i);
    }
  }

  predicate IsSpace(c: char) {
    c == ' ' || '\t' <= c <= '\r'
  }

  function AfterSpace(s: string): string {
    if s != [] && IsSpace(s[0]) then AfterSpace(s[1..]) else s
  }

  function LeadingDigits(s: string): (d: string)
    ensures AllDigits(d)
  {
    if s != [] && IsDigit(s[0]) then [s[0]] + LeadingDigits(s[1..]) else []
  }

  /** An unsigned 64-bit number read as the C++ library reads one (blanks, a sign, digits; a minus sign
      negates modulo 2^64), or -1 where it throws: no digits, or out of range. */
  function Unsigned(s: string): (n: int)
    ensures -1 <= n < TWO_64
  {
    var t := AfterSpace(s);
    var signed := t != [] && (t[0] == '-' || t[0] == '+');
    var d := LeadingDigits(if signed then t[1..] else t);
    if d == [] || NumeralValue(d) >= TWO_64 then -1
    else if signed && t[0] == '-' then (TWO_64 - NumeralValue(d)) % TWO_64
    else NumeralValue(d)
  }

  datatype Line = Skipped | Kept(r: Record)

  /** Two bars part a line; lines without them, and lines without a number, are passed over. */
  function ReadLine(line: string): Line {
    var p1 := Find(line, '|', 0);
    if p1 < 0 then Skipped
    else
      var p2 := Find(line, '|', p1 + 1);
      if p2 < 0 then Skipped
      else
        var n := Unsigned(line[..p1]);
        if n < 0 then Skipped else Kept(Record(n, line[p1 + 1..p2], line[p2 + 1..]))
  }

  function LineRecords(line: string): seq<Record> {
    match ReadLine(line) case Skipped => [] case Kept(r) => [r]
  }

  /** The records of a file, line by line; an unfinished last line counts as a line. */
  function Records(data: string): seq<Record>
    decreases |data|
  {
    if data == [] then []
    else
      var nl := Find(data, '\n', 0);
      if nl < 0 then LineRecords(data) else LineRecords(data[..nl]) + Records(data[nl + 1..])
  }

  /** Empty, or finished with a newline. */
  predicate Finished(data: string) {
    data == [] || data[|data| - 1] == '\n'
  }

  class Journal {
    var data: string

    constructor (text: string)
      ensures data == text
    {
      data := text;
    }

    method Append(ts: nat, db: string, sql: string)
      modifies this
      ensures data == old(data) + Written([Record(ts, db, sql)])
      ensures data == old(data) + (Numeral(ts) + "|" + Clean(db) + "|" + Clean(sql) + "\n")
    {
      var d := SanitizeLine(db);
      var q := SanitizeLine(sql);
      var r := Record(ts, db, sql);
      assert Written([r][..0]) == [];
      assert Written([r]) == Body(r) + ['\n'];
      data := data + (Numeral(ts) + ['|'] + d + ['|'] + q + ['\n']);
    }

    method Read() returns (recs: seq<Record>)
      ensures recs == Records(data)
    {
      hide ReadLine, Records, LineRecords;
      recs := [];
      var pos := 0;
      assert data[0..] == data;
      while pos < |data|
        invariant 0 <= pos <= |data|
        invariant recs + Records(data[pos..]) == Records(data)
      {
        var nl := Find(data, '\n', pos);
        var line := if nl < 0 then data[pos..] else data[pos..nl];
        ghost var at := pos;
        pos := if nl < 0 then |data| else nl + 1;
        RecordsStep(data, at, line, pos);
        if line != [] {
          var got := ParseLine(line);
          LineIs(line);
          Associates(recs, LineRecords(line), Records(data[pos..]));
          if got.Kept? { recs := recs + [got.r]; }
        }
      }
      NoRecords(data[pos..]);
    }
  }

  lemma NoRecords(rest: string)
    requires rest == []
    ensures Records(rest) == []
  {
  }

  lemma Associates<T>(a: seq<T>, b: seq<T>, c: seq<T>)
    ensures (a + b) + c == a + (b + c)
    ensures a + [] == a && [] + c == c
  {
  }

  lemma LineIs(line: string)
    ensures LineRecords(line) == match ReadLine(line) case Skipped => [] case Kept(r) => [r]
  {
  }

  /** One turn of the reader's loop; a blank line holds no record. */
  lemma RecordsStep(data: string, pos: nat, line: string, next: nat)
    requires pos < |data|
    requires var nl := Find(data, '\n', pos);
      if nl < 0 then next == |data| && line == data[pos..] else next == nl + 1 && line == data[pos..nl]
    ensures pos < next <= |data|
    ensures Records(data[pos..]) == LineRecords(line) + Records(data[next..])
    ensures line == [] ==> LineRecords(line) == []
  {
    hide *;
    if line == [] { EmptyLine(); }
    var rest := data[pos..];
    if Find(data, '\n', pos) < 0 {
      LastLine(data, pos);
      NoRecords(data[next..]);
      Associates([], LineRecords(rest), []);
    } else {
      assert rest == line + ['\n'] + data[next..];
      FirstLine(line, data[next..]);
    }
  }

  lemma LastLine(data: string, pos: nat)
    requires pos < |data| && Find(data, '\n', pos) < 0
    ensures Records(data[pos..]) == LineRecords(data[pos..])
  {
    hide LineRecords;
    var rest := data[pos..];
    assert rest[0..] == rest;
  }

  lemma EmptyLine()
    ensures LineRecords([]) == []
  {
  }

  method ParseLine(line: string) returns (got: Line)
    ensures got == ReadLine(line)
  {
    var p1 := Find(line, '|', 0);
    var p2 := Find(line, '|', if p1 < 0 then 0 else p1 + 1);
    if p1 < 0 || p2 < 0 { return Skipped; }
    var n := Unsigned(line[..p1]);
    if n < 0 { return Skipped; }
    return Kept(Record(n, line[p1 + 1..p2], line[p2 + 1..]));
  }

  // ----- what a line holds

  lemma {:induction false} SpacePassed(blanks: string, rest: string)
    requires (forall i | 0 <= i < |blanks| :: blanks[i] in " \t\n\U{0b}\U{0c}\r") && (rest == [] || rest[0] !in " \t\n\U{0b}\U{0c}\r")
    ensures AfterSpace(blanks + rest) == rest
  {
    if blanks == [] {
      assert blanks + rest == rest;
    } else {
      assert (blanks + rest)[1..] == blanks[1..] + rest;
      SpacePassed(blanks[1..], rest);
    }
  }

  lemma {:induction false} DigitsTaken(digits: string, rest: string)
    requires AllDigits(digits) && (rest == [] || !IsDigit(rest[0]))
    ensures LeadingDigits(digits + rest) == digits
  {
    if digits == [] {
      assert digits + rest == rest;
    } else {
      assert (digits + rest)[1..] == digits[1..] + rest;
      DigitsTaken(digits[1..], rest);
    }
  }

  /** A number is blanks, perhaps a sign, and digits; what follows the digits is not looked at. Without digits, or from
      2^64 on, there is no number; behind a minus sign it is the one that completes the digits' value to 2^64. */
  lemma UnsignedIs(blanks: string, sign: string, digits: string, rest: string)
    requires forall i | 0 <= i < |blanks| :: blanks[i] in " \t\n\U{0b}\U{0c}\r"
    requires sign in {"", "+", "-"} && AllDigits(digits) && (rest == [] || !IsDigit(rest[0]))
    requires sign == "" && digits == "" ==> rest == [] || rest[0] !in " \t\n\U{0b}\U{0c}\r+-"
    ensures var n, v := Unsigned(blanks + (sign + (digits + rest))), NumeralValue(digits);
      if digits == "" || v >= TWO_64 then n == -1
      else 0 <= n < TWO_64 && if sign == "-" then n == 0 == v || n + v == TWO_64 else n == v
  {
    hide NumeralValue;
    var t := sign + (digits + rest);
    assert digits != [] ==> IsDigit((digits + rest)[0]);
    assert digits == [] ==> digits + rest == rest;
    SpacePassed(blanks, t);
    DigitsTaken(digits, rest);
    if sign == "" {
      assert t == digits + rest;
    } else {
      assert t[0] == sign[0] && t[1..] == digits + rest;
    }
  }

  /** What stands before, between and behind the first two bars of a line. */
  lemma LineParts(ts: string, db: string, sql: string)
    requires '|' !in ts && '|' !in db
    ensures ReadLine(ts + "|" + db + "|" + sql) == if Unsigned(ts) < 0 then Skipped else Kept(Record(Unsigned(ts), db, sql))
    ensures ReadLine(ts) == ReadLine(ts + "|" + db) == Skipped
  {
    hide Unsigned;
    var line, two := ts + "|" + db + "|" + sql, ts + "|" + db;
    var p2 := |ts| + 1 + |db|;
    assert line[..|ts|] == ts && line[|ts| + 1..p2] == db && line[p2 + 1..] == sql;
    FindIs(line, '|', 0, |ts|);
    FindIs(line, '|', |ts| + 1, p2);
    FindIs(two, '|', 0, |ts|);
  }

  // ----- what was written is read back

  lemma {:induction false} DigitsLead(s: string)
    requires AllDigits(s)
    ensures LeadingDigits(s) == s
  {
    if s != [] { DigitsLead(s[1..]); }
  }

  lemma NumeralIsRead(n: nat)
    requires n < TWO_64
    ensures Unsigned(Numeral(n)) == n
  {
    var s := Numeral(n);
    assert IsDigit(s[0]);
    DigitsLead(s);
    NumeralRoundTrip(n);
  }

  lemma BodyIsRead(r: Record)
    requires r.ts < TWO_64
    ensures '\n' !in Body(r)
    ensures ReadLine(Body(r)) == Kept(Record(r.ts, Clean(r.db), Clean(r.sql)))
  {
    hide Clean, Numeral, Unsigned;
    var line, n, db := Body(r), Numeral(r.ts), Clean(r.db);
    var p2 := |n| + 1 + |db|;
    assert line[..|n|] == n && line[|n| + 1..p2] == db && line[p2 + 1..] == Clean(r.sql);
    FindIs(line, '|', 0, |n|);
    FindIs(line, '|', |n| + 1, p2);
    NumeralIsRead(r.ts);
  }

  /** A line that ends is read by itself. */
  lemma FirstLine(line: string, rest: string)
    requires '\n' !in line
    ensures Records(line + ['\n'] + rest) == LineRecords(line) + Records(rest)
  {
    hide LineRecords;
    var data, n := line + ['\n'] + rest, |line|;
    assert data[0..n] == line && data[..n] == line && data[n + 1..] == rest;
    FindIs(data, '\n', 0, n);
  }

  lemma OneIsRead(r: Record)
    requires r.ts < TWO_64
    ensures Records(Body(r) + ['\n']) == [Record(r.ts, Clean(r.db), Clean(r.sql))]
  {
    BodyIsRead(r);
    LineIs(Body(r));
    hide *;
    FirstLine(Body(r), []);
    NoRecords([]);
    assert Body(r) + ['\n'] + [] == Body(r) + ['\n'];
  }

  /** The first line of a finished file, and what follows it. */
  lemma FinishedLine(a: string) returns (line: string, rest: string)
    requires a != [] && Finished(a)
    ensures '\n' !in line && a == line + ['\n'] + rest && Finished(rest)
  {
    var nl := Find(a, '\n', 0);
    assert nl >= 0 by { if nl < 0 { assert a[0..][|a| - 1] == '\n'; } }
    line, rest := a[0..nl], a[nl + 1..];
  }

  /** After a finished line, reading starts afresh. */
  lemma {:induction false} RecordsSplit(a: string, b: string)
    requires Finished(a)
    ensures Records(a + b) == Records(a) + Records(b)
    decreases |a|
  {
    if a == [] {
      NoRecords(a);
      Associates([], [], b);
      Associates([], [], Records(b));
    } else {
      var line, rest := FinishedLine(a);
      hide *;
      FirstLine(line, rest);
      FirstLine(line, rest + b);
      RecordsSplit(rest, b);
      Associates(line + ['\n'], rest, b);
      Associates(LineRecords(line), Records(rest), Records(b));
    }
  }

  /** Reading a journal after any appends gives what it gave before and then the appended records, cleaned,
      in order and none lost. */
  lemma {:induction false} AppendsAreRead(data: string, rs: seq<Record>)
    requires Finished(data) && forall i | 0 <= i < |rs| :: rs[i].ts < TWO_64
    ensures Records(data + Written(rs)) == Records(data) + Cleaned(rs)
    ensures Finished(data + Written(rs))
    decreases |rs|
  {
    if rs == [] {
      assert data + Written(rs) == data;
    } else {
      var front, r := rs[..|rs| - 1], rs[|rs| - 1];
      var before, line := data + Written(front), Body(r) + ['\n'];
      var got := [Record(r.ts, Clean(r.db), Clean(r.sql))];
      assert data + Written(rs) == before + line;
      assert Finished(before + line);
      assert Cleaned(rs) == Cleaned(front) + got;
      hide *;
      AppendsAreRead(data, front);
      RecordsSplit(before, line);
      OneIsRead(r);
      Associates(Records(data), Cleaned(front), got);
    }
  }

  lemma CleanedIs(rs: seq<Record>)
    ensures Cleaned(rs) == rs <==> forall i | 0 <= i < |rs| :: Plain(rs[i].db) && Plain(rs[i].sql)
  {
    hide Clean, Plain;
    forall i | 0 <= i < |rs|
      ensures Cleaned(rs)[i] == rs[i] <==> Plain(rs[i].db) && Plain(rs[i].sql)
    {
      CleanKeepsPlain(rs[i].db);
      CleanKeepsPlain(rs[i].sql);
    }
  }

  /** The originals come back if and only if no field holds a newline, a carriage return or a bar. */
  lemma PlainSurvives(rs: seq<Record>)
    requires forall i | 0 <= i < |rs| :: rs[i].ts < TWO_64
    ensures Records(Written(rs)) == rs <==> forall i | 0 <= i < |rs| :: Plain(rs[i].db) && Plain(rs[i].sql)
  {
    CleanedIs(rs);
    NoRecords([]);
    assert Finished([]);
    hide *;
    AppendsAreRead([], rs);
    Associates([], [], Written(rs));
    Associates([], [], Cleaned(rs));
  }

  // ----- appending to a file whose last line is unfinished

  /** The text after the last newline. */
  function Unfinished(data: string): (l: string)
    ensures '\n' !in l
    ensures |l| <= |data| && data[|data| - |l|..] == l && Finished(data[..|data| - |l|])
  {
    if Finished(data) then []
    else
      var n := |data| - 1;
      var l := Unfinished(data[..n]);
      assert data[..n][..n - |l|] == data[..n - |l|];
      assert data == data[..n] + [data[n]];
      l + [data[n]]
  }

  /** A line that a record with this time may be written behind: none, or one without bars whose text in front
      of the time reads as that very time. */
  predicate Takes(l: string, ts: nat) {
    l == [] || ('|' !in l && Unsigned(l + Numeral(ts)) == ts)
  }

  function CleanRecord(r: Record): Record {
    Record(r.ts, Clean(r.db), Clean(r.sql))
  }

  lemma BarIsFound(s: string, t: string)
    requires '|' in s
    ensures Find(s + t, '|', 0) == Find(s, '|', 0) >= 0
  {
    var i := Find(s, '|', 0);
    assert s[0..] == s;
    assert (s + t)[0..i] == s[0..i];
    FindIs(s + t, '|', 0, i);
  }

  /** Behind a line without bars the record is read, with the time that the joined text denotes. */
  lemma BehindPlainLine(l: string, r: Record)
    requires '|' !in l
    ensures var n := Unsigned(l + Numeral(r.ts));
      ReadLine(l + Body(r)) == (if n < 0 then Skipped else Kept(Record(n, Clean(r.db), Clean(r.sql))))
    ensures ReadLine(l) == Skipped
  {
    var n, db, sql := Numeral(r.ts), Clean(r.db), Clean(r.sql);
    NoBars(r);
    assert Body(r) == n + ['|'] + db + ['|'] + sql;
    hide *;
    ThreeParts(l + n, db, sql);
    Shuffle(l, [], n, db, sql, ['|']);
    NoBarSkipped(l);
  }

  lemma NoBars(r: Record)
    ensures '|' !in Numeral(r.ts) && '|' !in Clean(r.db) && '|' !in Clean(r.sql)
  {
  }

  lemma NoBarSkipped(l: string)
    requires '|' !in l
    ensures ReadLine(l) == Skipped
  {
    assert forall i | 0 <= i < |l| :: l[i] != '|';
  }

  /** A line of three parts, no bar in the first two, is read as these. */
  lemma ThreeParts(a: string, b: string, c: string)
    requires '|' !in a && '|' !in b
    ensures var n := Unsigned(a);
      ReadLine(a + ['|'] + b + ['|'] + c) == if n < 0 then Skipped else Kept(Record(n, b, c))
  {
    hide Unsigned;
    var line, p1 := a + ['|'] + b + ['|'] + c, |a|;
    var p2 := p1 + 1 + |b|;
    assert line[0..p1] == a && line[..p1] == a && line[p1 + 1..p2] == b && line[p2 + 1..] == c;
    FindIs(line, '|', 0, p1);
    FindIs(line, '|', p1 + 1, p2);
  }

  /** A line with one bar becomes a line that keeps none of the record's fields apart. */
  lemma BehindOneBar(l: string, r: Record)
    requires '|' in l && Find(l, '|', Find(l, '|', 0) + 1) < 0
    ensures ReadLine(l) == Skipped
    ensures ReadLine(l + Body(r)).Kept? ==> |ReadLine(l + Body(r)).r.sql| > |Clean(r.sql)|
  {
    var n, db, sql := Numeral(r.ts), Clean(r.db), Clean(r.sql);
    NoBars(r);
    assert Body(r) == n + ['|'] + db + ['|'] + sql;
    var a, b := OneBar(l);
    hide *;
    ThreeParts(a, b + n, db + ['|'] + sql);
    Shuffle(a, b, n, db, sql, ['|']);
    KeptLonger(a, b + n, db + ['|'] + sql);
  }

  lemma KeptLonger(a: string, b: string, c: string)
    requires '|' !in a && '|' !in b
    ensures var got := ReadLine(a + ['|'] + b + ['|'] + c); got.Kept? ==> got.r.sql == c
  {
    hide ReadLine;
    ThreeParts(a, b, c);
  }

  /** The two parts of a line with one bar. */
  lemma OneBar(l: string) returns (a: string, b: string)
    requires '|' in l && Find(l, '|', Find(l, '|', 0) + 1) < 0
    ensures l == a + ['|'] + b && '|' !in a && '|' !in b && ReadLine(l) == Skipped
  {
    BarIsFound(l, []);
    var p := Find(l, '|', 0);
    assert ReadLine(l) == Skipped;
    hide *;
    a, b := l[0..p], l[p + 1..];
    CutAt(l, p);
  }

  lemma CutAt(l: string, p: nat)
    requires p < |l|
    ensures l == l[0..p] + [l[p]] + l[p + 1..]
  {
  }

  lemma Shuffle<T>(a: seq<T>, b: seq<T>, n: seq<T>, d: seq<T>, q: seq<T>, bar: seq<T>)
    ensures (a + bar + b) + (n + bar + d + bar + q) == a + bar + (b + n) + bar + (d + bar + q)
    ensures a + (n + bar + d + bar + q) == (a + n) + bar + d + bar + q
    ensures a + (b + bar) == (a + b) + bar + []
  {
  }

  lemma ReadLineAt(line: string, p1: nat, p2: nat)
    requires Find(line, '|', 0) == p1 < p2 <= |line| && Find(line, '|', p1 + 1) == p2
    ensures ReadLine(line).Kept? <==> Unsigned(line[..p1]) >= 0
  {
    hide Unsigned, Find;
  }

  /** What follows a line with two bars does not move them. */
  lemma SecondBarIsFound(s: string, t: string, p1: nat)
    requires p1 <= |s| && Find(s, '|', p1) >= 0
    ensures Find(s + t, '|', p1) == Find(s, '|', p1)
  {
    var p2 := Find(s, '|', p1);
    assert (s + t)[p1..p2] == s[p1..p2];
    FindIs(s + t, '|', p1, p2);
  }

  /** A line with two bars keeps its own fields, and the record only lengthens its statement. */
  lemma BehindTwoBars(l: string, r: Record)
    requires '|' in l && Find(l, '|', Find(l, '|', 0) + 1) >= 0
    ensures ReadLine(l).Kept? <==> ReadLine(l + Body(r)).Kept?
  {
    var line := l + Body(r);
    hide *;
    var p1 := Find(l, '|', 0);
    BarIsFound(l, Body(r));
    SecondBarIsFound(l, Body(r), p1 + 1);
    var p2 := Find(l, '|', p1 + 1);
    ReadLineAt(l, p1, p2);
    ReadLineAt(line, p1, p2);
    assert line[..p1] == l[..p1];
  }

  /** A record written behind a line is read as itself, and the line as before, exactly if the line takes it. */
  lemma BehindLineIff(l: string, r: Record)
    requires r.ts < TWO_64
    ensures LineRecords(l + Body(r)) == LineRecords(l) + [CleanRecord(r)] <==> Takes(l, r.ts)
  {
    hide ReadLine, Body, Clean, Unsigned, Numeral;
    LineIs(l);
    LineIs(l + Body(r));
    if '|' !in l {
      BehindPlainLine(l, r);
      NumeralIsRead(r.ts);
      EmptyTakes(l, r.ts);
      assert LineRecords(l) + [CleanRecord(r)] == [CleanRecord(r)];
      hide *;
    } else if Find(l, '|', Find(l, '|', 0) + 1) < 0 {
      BehindOneBar(l, r);
      assert LineRecords(l) + [CleanRecord(r)] == [CleanRecord(r)];
    } else {
      BehindTwoBars(l, r);
      assert |LineRecords(l + Body(r))| == |LineRecords(l)|;
    }
  }

  lemma EmptyTakes(l: string, ts: nat)
    requires '|' !in l && ts < TWO_64
    ensures Takes(l, ts) <==> Unsigned(l + Numeral(ts)) == ts
  {
    NumeralIsRead(ts);
    hide Unsigned, Numeral;
    assert l == [] ==> l + Numeral(ts) == Numeral(ts);
  }

  lemma LastRecords(l: string)
    requires '\n' !in l
    ensures Records(l) == LineRecords(l)
  {
    if l == [] {
      EmptyLine();
    } else {
      hide LineRecords;
      assert forall i | 0 <= i < |l| :: l[i] != '\n';
    }
  }

  /** One append to any file, finished or not: reading gives the old records and then the appended one, cleaned,
      if and only if the file's unfinished line is empty, or holds no bar and reads as the record's time when
      that is written behind it. */
  lemma AppendIsReadIff(data: string, r: Record)
    requires r.ts < TWO_64
    ensures Records(data + Written([r])) == Records(data) + [CleanRecord(r)] <==> Takes(Unfinished(data), r.ts)
  {
    var l := Unfinished(data);
    var front := data[..|data| - |l|];
    assert data == front + l;
    assert '\n' !in Body(r) by { BodyIsRead(r); }
    assert Written([r]) == Body(r) + ['\n'] by { OneWritten(r); }
    var line := l + Body(r);
    hide *;
    Associates(front, l, Written([r]));
    Shuffle(l, Body(r), [], [], [], ['\n']);
    RecordsSplit(front, l + Written([r]));
    RecordsSplit(front, l);
    FirstLine(line, []);
    NoRecords([]);
    LastRecords(l);
    BehindLineIff(l, r);
    Cancel(Records(front), LineRecords(line), LineRecords(l) + [CleanRecord(r)]);
    Associates(Records(front), LineRecords(l), [CleanRecord(r)]);
    Associates(LineRecords(line), [], []);
  }

  lemma OneWritten(r: Record)
    ensures Written([r]) == Body(r) + ['\n']
  {
    assert [r][..0] == [];
  }

  lemma Cancel<T>(a: seq<T>, b: seq<T>, c: seq<T>)
    ensures a + b == a + c <==> b == c
  {
    if a + b == a + c {
      assert (a + b)[|a|..] == b && (a + c)[|a|..] == c;
    }
  }

  lemma CancelRight<T>(a: seq<T>, b: seq<T>, c: seq<T>)
    ensures b + a == c + a <==> b == c
  {
    if b + a == c + a {
      assert |b| == |c|;
      assert (b + a)[..|b|] == b && (c + a)[..|c|] == c;
    }
  }

  lemma CleanedCons(rs: seq<Record>)
    requires rs != []
    ensures Cleaned(rs) == [CleanRecord(rs[0])] + Cleaned(rs[1..])
  {
    hide Clean;
  }

  /** Behind the first append the file is finished, and takes all others. */
  lemma FirstDecides(data: string, r: Record, rest: seq<Record>)
    requires r.ts < TWO_64 && forall i | 0 <= i < |rest| :: rest[i].ts < TWO_64
    ensures Records(data + Written([r]) + Written(rest)) == Records(data) + [CleanRecord(r)] + Cleaned(rest) <==>
              Takes(Unfinished(data), r.ts)
  {
    var next := data + Written([r]);
    assert Finished(next) by { OneWritten(r); hide Body; }
    hide *;
    AppendsAreRead(next, rest);
    AppendIsReadIff(data, r);
    CancelRight(Cleaned(rest), Records(next), Records(data) + [CleanRecord(r)]);
  }

  lemma NothingAppended(data: string, rs: seq<Record>)
    requires rs == []
    ensures data + Written(rs) == data && Records(data) + Cleaned(rs) == Records(data)
  {
    hide Records;
  }

  /** Any number of appends to any file: all is read, in order and none lost, if and only if there is nothing to
      append or the unfinished line takes the first record. */
  lemma AppendsAreReadIff(data: string, rs: seq<Record>)
    requires forall i | 0 <= i < |rs| :: rs[i].ts < TWO_64
    ensures Records(data + Written(rs)) == Records(data) + Cleaned(rs) <==> rs == [] || Takes(Unfinished(data), rs[0].ts)
  {
    hide *;
    if rs == [] {
      NothingAppended(data, rs);
    } else {
      var r, rest := rs[0], rs[1..];
      CleanedCons(rs);
      WrittenCons(rs);
      Associates(data, Written([r]), Written(rest));
      Associates(Records(data), [CleanRecord(r)], Cleaned(rest));
      FirstDecides(data, r, rest);
    }
  }

  lemma WrittenSnoc(rs: seq<Record>)
    requires rs != []
    ensures var n := |rs| - 1; Written(rs) == Written(rs[..n]) + (Body(rs[n]) + ['\n'])
  {
    var n := |rs| - 1;
    var front := Written(rs[..n]);
    assert Written(rs) == front + Body(rs[n]) + ['\n'];
    hide *;
    Associates(front, Body(rs[n]), ['\n']);
  }

  lemma {:induction false} WrittenCons(rs: seq<Record>)
    requires rs != []
    ensures Written(rs) == Written([rs[0]]) + Written(rs[1..])
    decreases |rs|
  {
    var n := |rs| - 1;
    if n == 0 {
      assert rs == [rs[0]] && Written(rs[1..]) == [];
    } else {
      var front, tail := rs[..n], rs[1..];
      var last := Body(rs[n]) + ['\n'];
      WrittenSnoc(rs);
      WrittenSnoc(tail);
      hide *;
      assert front[1..] == tail[..n - 1] && tail[n - 1] == rs[n];
      WrittenCons(front);
      Associates(Written([rs[0]]), Written(tail[..n - 1]), last);
    }
  }

  /** Behind a line without bars that spoils the number, the record is lost. */
  lemma RecordLost(l: string, r: Record)
    requires '\n' !in l && '|' !in l && r.ts < TWO_64 && Unsigned(l + Numeral(r.ts)) < 0
    ensures Records(l + Written([r])) == []
  {
    BehindPlainLine(l, r);
    BodyIsRead(r);
    OneWritten(r);
    LineIs(l + Body(r));
    NoNewline(l, Body(r));
    hide *;
    FirstLine(l + Body(r), []);
    NoRecords([]);
    Shuffle(l, Body(r), [], [], [], ['\n']);
  }

  lemma NoNewline(a: string, b: string)
    requires '\n' !in a && '\n' !in b
    ensures '\n' !in a + b
  {
  }

  /** Behind the line "x" a record is lost. */
  lemma TornLineSwallows()
    ensures var data, r := "x", Record(5, [], []);
      !Takes(Unfinished(data), r.ts) && Records(data + Written([r])) == [] && |Records(data) + Cleaned([r])| >= 1
  {
    var r := Record(5, [], []);
    LineX();
    hide *;
    RecordLost("x", r);
    NotTaken("x", 5);
  }

  lemma FiveWritten(c: char)
    ensures [c] + Numeral(5) == [c, '5'] && ['5'] == Numeral(5)
  {
    assert Numeral(5) == "5";
  }

  lemma LineX()
    ensures Unsigned("x" + Numeral(5)) == -1 && Unfinished("x") == "x" && '|' !in "x" && '\n' !in "x"
  {
    FiveWritten('x');
    OneLetter('x');
    hide Numeral;
    assert Unsigned("x5") == -1;
  }

  lemma OneLetter(c: char)
    requires c != '\n'
    ensures Unfinished([c]) == [c] && !Finished([c])
  {
    assert [c][..0] == [];
  }

  lemma NotTaken(l: string, ts: nat)
    requires l != [] && Unsigned(l + Numeral(ts)) < 0
    ensures !Takes(l, ts)
  {
    hide Unsigned, Numeral;
  }

  /** Behind the line "0" the same record is read as if the line had been empty. */
  lemma ZeroLineTakes()
    ensures var data, r := "0", Record(5, [], []);
      !Finished(data) && Takes(Unfinished(data), r.ts) && Records(data + Written([r])) == Records(data) + [CleanRecord(r)]
  {
    hide *;
    var r := Record(5, [], []);
    OneLetter('0');
    ZeroTaken();
    AppendIsReadIff("0", r);
  }

  lemma ZeroTaken()
    ensures Takes("0", 5) && 5 < TWO_64
  {
    FiveWritten('0');
    ZeroFive();
    hide Numeral, Unsigned;
  }

  lemma ZeroFive()
    ensures Unsigned("05") == 5
  {
    assert "05"[..1] == "0" && "0"[..0] == "";
    DigitsLead("05");
    assert NumeralValue("0") == 0 && NumeralValue("05") == 5;
  }
}
