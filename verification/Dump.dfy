/** The register dump and its loader: printing the nonzero entries as CSV and reading the
    text back gives exactly the register contents. */
module Dump {
  import opened Wire
  import opened Sums

  // ---- decimal numbers ----

  function DigitChar(n: nat): char
    requires n < 10
  {
    ('0' as int + n) as char
  }

  predicate IsDigit(c: char) {
    '0' <= c <= '9'
  }

  function DigitValue(c: char): nat {
    if IsDigit(c) then c as int - '0' as int else 0
  }

  function Decimal(n: nat): (s: string)
    ensures |s| >= 1 && forall i :: 0 <= i < |s| ==> IsDigit(s[i])
  {
    if n < 10 then [DigitChar(n)] else Decimal(n / 10) + [DigitChar(n % 10)]
  }

  function ParseNat(s: string): nat {
    if s == "" then 0 else ParseNat(s[..|s| - 1]) * 10 + DigitValue(s[|s| - 1])
  }

  lemma {:induction false} DecimalRoundTrip(n: nat)
    ensures ParseNat(Decimal(n)) == n
  {
    if n < 10 {
      assert ParseNat([DigitChar(n)]) == ParseNat("") * 10 + DigitValue(DigitChar(n));
    } else {
      DecimalRoundTrip(n / 10);
      assert Decimal(n)[..|Decimal(n)| - 1] == Decimal(n / 10);
    }
  }

  // ---- text ----

  /** Offset of the first `c`, or the length. */
  function Find(s: string, c: char): (n: nat)
    ensures n <= |s| && (n < |s| ==> s[n] == c) && forall i :: 0 <= i < n ==> s[i] != c
  {
    if s == "" || s[0] == c then 0 else 1 + Find(s[1..], c)
  }

  function Before(s: string, c: char): string {
    s[..Find(s, c)]
  }

  function After(s: string, c: char): string {
    if Find(s, c) < |s| then s[Find(s, c) + 1..] else ""
  }

  predicate Free(s: string, c: char) {
    forall i :: 0 <= i < |s| ==> s[i] != c
  }

  lemma FindAt(x: string, c: char, y: string)
    requires Free(x, c)
    ensures Find(x + [c] + y, c) == |x|
  {
    var s := x + [c] + y;
    assert s[|x|] == c && forall i :: 0 <= i < |x| ==> s[i] == x[i];
  }

  lemma Cut(x: string, c: char, y: string)
    requires Free(x, c)
    ensures Before(x + [c] + y, c) == x && After(x + [c] + y, c) == y
  {
    FindAt(x, c, y);
  }

  lemma NoCut(x: string, c: char)
    requires Free(x, c)
    ensures Before(x, c) == x
  {
  }

  /** The lines of a text, each with its newline. */
  function Lines(s: string): seq<string> {
    if s == "" then []
    else
      var n := Find(s, '\n');
      if n == |s| then [s] else [s[..n + 1]] + Lines(s[n + 1..])
  }

  lemma LinesCons(x: string, rest: string)
    requires Free(x, '\n')
    ensures Lines(x + ['\n'] + rest) == [x + ['\n']] + Lines(rest)
  {
    FindAt(x, '\n', rest);
    var s := x + ['\n'] + rest;
    assert s[..|x| + 1] == x + ['\n'] && s[|x| + 1..] == rest;
  }

  predicate IsSpace(c: char) {
    c == ' ' || c == '\t' || c == '\n' || c == '\r' || c == '\U{0B}' || c == '\U{0C}'
  }

  function StripLeft(s: string): string {
    if s != "" && IsSpace(s[0]) then StripLeft(s[1..]) else s
  }

  function StripRight(s: string): string {
    if s != "" && IsSpace(s[|s| - 1]) then StripRight(s[..|s| - 1]) else s
  }

  function Strip(s: string): string {
    StripRight(StripLeft(s))
  }

  predicate AllDigits(s: string) {
    s != "" && forall i :: 0 <= i < |s| ==> IsDigit(s[i])
  }

  lemma StripDigits(s: string)
    requires AllDigits(s)
    ensures Strip(s) == s && Strip(s + "\n") == s
  {
    assert StripLeft(s + "\n") == s + "\n";
    assert (s + "\n")[..|s|] == s;
    assert StripRight(s + "\n") == StripRight(s);
  }

  // ---- the loader ----

  function DropMinus(s: string): string {
    if s != "" && s[0] == '-' then DropMinus(s[1..]) else s
  }

  /** A token of digits, with any number of leading minus signs. */
  predicate LooksNumeric(s: string) {
    AllDigits(DropMinus(s))
  }

  /** int(s) of such a token; two or more minus signs raise ValueError. */
  function ToInt(s: string): Result<int> {
    if AllDigits(s) then Ok(ParseNat(s))
    else if s != "" && s[0] == '-' && AllDigits(s[1..]) then Ok(0 - ParseNat(s[1..]))
    else Err(BadNumber)
  }

  type Counts = map<int, int>

  /** One line of a switch dump: bucket and count, or a header or blank line to skip. */
  function LoadLine(acc: Counts, line: string): Result<Counts> {
    var tok := Strip(Before(line, ','));
    var cnt := if Find(line, ',') < |line| then Strip(Before(After(line, ','), ',')) else "0";
    if !LooksNumeric(tok) then Ok(acc)
    else
      match ToInt(tok)
      case Err(e) => Err(e)
      case Ok(b) =>
        if !LooksNumeric(cnt) then Ok(acc[b := 0])
        else
          match ToInt(cnt)
          case Err(e) => Err(e)
          case Ok(n) => Ok(acc[b := n])
  }

  function LoadLines(acc: Counts, lines: seq<string>): Result<Counts>
    decreases |lines|
  {
    if lines == [] then Ok(acc)
    else
      match LoadLine(acc, lines[0])
      case Err(e) => Err(e)
      case Ok(acc') => LoadLines(acc', lines[1..])
  }

  method LoadSwitchBuckets(text: string) returns (r: Result<Counts>)
    ensures r == LoadLines(map[], Lines(text))
  {
    var lines := Lines(text);
    var counts: Counts := map[];
    for i := 0 to |lines|
      invariant LoadLines(map[], lines) == LoadLines(counts, lines[i..])
    {
      var next := LoadLine(counts, lines[i]);
      assert lines[i..][1..] == lines[i + 1..];
      if next.Err? {
        return next;
      }
      counts := next.value;
    }
    r := Ok(counts);
  }

  // ---- the printer ----

  datatype RegEntry = RegEntry(index: nat, perPipe: seq<nat>)

  predicate Shown(e: RegEntry, minCount: nat) {
    Sum(e.perPipe) >= minCount && Sum(e.perPipe) > 0
  }

  function Pairs(ents: seq<RegEntry>, minCount: nat): seq<(nat, nat)> {
    if ents == [] then []
    else
      var e := ents[|ents| - 1];
      Pairs(ents[..|ents| - 1], minCount) + if Shown(e, minCount) then [(e.index, Sum(e.perPipe))] else []
  }

  function InsertSorted(ps: seq<(nat, nat)>, p: (nat, nat)): seq<(nat, nat)> {
    if ps == [] || ps[|ps| - 1].0 <= p.0 then ps + [p]
    else InsertSorted(ps[..|ps| - 1], p) + [ps[|ps| - 1]]
  }

  /** Stable sort by index. */
  function Sorted(ps: seq<(nat, nat)>): seq<(nat, nat)> {
    if ps == [] then [] else InsertSorted(Sorted(ps[..|ps| - 1]), ps[|ps| - 1])
  }

  function PrintRow(p: (nat, nat)): string {
    Decimal(p.0) + [','] + Decimal(p.1)
  }

  function Body(ps: seq<(nat, nat)>): string {
    if ps == [] then "" else PrintRow(ps[0]) + ['\n'] + Body(ps[1..])
  }

  const HEADER: string := "bucket,pkts"

  function Csv(ps: seq<(nat, nat)>): string {
    HEADER + ['\n'] + Body(ps)
  }

  lemma {:induction false} InsertKeeps(ps: seq<(nat, nat)>, p: (nat, nat))
    ensures multiset(InsertSorted(ps, p)) == multiset(ps) + multiset{p}
  {
    if !(ps == [] || ps[|ps| - 1].0 <= p.0) {
      var n := |ps| - 1;
      InsertKeeps(ps[..n], p);
      assert ps == ps[..n] + [ps[n]];
    }
  }

  predicate AscendingKeys(ps: seq<(nat, nat)>) {
    forall i, j :: 0 <= i < j < |ps| ==> ps[i].0 <= ps[j].0
  }

  predicate AtMost(ps: seq<(nat, nat)>, bound: nat) {
    forall i :: 0 <= i < |ps| ==> ps[i].0 <= bound
  }

  lemma {:induction false} InsertBounded(ps: seq<(nat, nat)>, p: (nat, nat), bound: nat)
    requires AtMost(ps, bound) && p.0 <= bound
    ensures AtMost(InsertSorted(ps, p), bound)
  {
    if !(ps == [] || ps[|ps| - 1].0 <= p.0) {
      InsertBounded(ps[..|ps| - 1], p, bound);
    }
  }

  lemma {:induction false} InsertAscends(ps: seq<(nat, nat)>, p: (nat, nat))
    requires AscendingKeys(ps)
    ensures AscendingKeys(InsertSorted(ps, p))
  {
    if !(ps == [] || ps[|ps| - 1].0 <= p.0) {
      var n := |ps| - 1;
      InsertAscends(ps[..n], p);
      InsertBounded(ps[..n], p, ps[n].0);
    }
  }

  /** The printed rows are the shown entries, in ascending order of index. */
  lemma {:induction false} SortedIsSort(ps: seq<(nat, nat)>)
    ensures multiset(Sorted(ps)) == multiset(ps) && AscendingKeys(Sorted(ps))
  {
    if ps != [] {
      var n := |ps| - 1;
      SortedIsSort(ps[..n]);
      InsertKeeps(Sorted(ps[..n]), ps[n]);
      InsertAscends(Sorted(ps[..n]), ps[n]);
      assert ps == ps[..n] + [ps[n]];
    }
  }

  lemma BodyCons(p: (nat, nat), ps: seq<(nat, nat)>)
    ensures Body([p] + ps) == PrintRow(p) + ['\n'] + Body(ps)
  {
    assert ([p] + ps)[1..] == ps;
  }

  lemma {:induction false} BodySnoc(ps: seq<(nat, nat)>, p: (nat, nat))
    ensures Body(ps + [p]) == Body(ps) + PrintRow(p) + ['\n']
    decreases |ps|
  {
    if ps == [] {
      BodyCons(p, []);
      assert [p] + [] == ps + [p];
    } else {
      BodySnoc(ps[1..], p);
      BodyCons(ps[0], ps[1..]);
      BodyCons(ps[0], ps[1..] + [p]);
      assert [ps[0]] + ps[1..] == ps;
      assert [ps[0]] + (ps[1..] + [p]) == ps + [p];
      Regroup(PrintRow(ps[0]) + ['\n'], Body(ps[1..]), PrintRow(p), ['\n']);
    }
  }

  lemma Regroup(a: string, b: string, c: string, d: string)
    ensures a + (b + c + d) == a + b + c + d
  {
  }

  /** Collect the nonzero entries, sort them, write the CSV. */
  method DumpRegister(ents: seq<RegEntry>, minCount: nat) returns (csv: string)
    ensures csv == Csv(Sorted(Pairs(ents, minCount)))
  {
    var pairs: seq<(nat, nat)> := [];
    for i := 0 to |ents|
      invariant pairs == Pairs(ents[..i], minCount)
    {
      assert ents[..i + 1][..i] == ents[..i];
      if Shown(ents[i], minCount) {
        pairs := pairs + [(ents[i].index, Sum(ents[i].perPipe))];
      }
    }
    assert ents[..|ents|] == ents;
    pairs := Sorted(pairs);
    csv := HEADER + "\n";
    for i := 0 to |pairs|
      invariant csv == HEADER + "\n" + Body(pairs[..i])
    {
      BodySnoc(pairs[..i], pairs[i]);
      assert pairs[..i + 1] == pairs[..i] + [pairs[i]];
      csv := csv + PrintRow(pairs[i]) + "\n";
    }
    assert pairs[..|pairs|] == pairs;
  }

  // ---- the round trip ----

  lemma LoadRow(acc: Counts, p: (nat, nat))
    ensures LoadLine(acc, PrintRow(p) + ['\n']) == Ok(acc[p.0 as int := p.1 as int])
  {
    var x, y := Decimal(p.0), Decimal(p.1);
    var line := PrintRow(p) + ['\n'];
    assert line == x + [','] + (y + "\n");
    Cut(x, ',', y + "\n");
    FindAt(x, ',', y + "\n");
    NoCut(y + "\n", ',');
    StripDigits(x);
    StripDigits(y);
    DecimalRoundTrip(p.0);
    DecimalRoundTrip(p.1);
  }

  lemma LoadHeader(acc: Counts)
    ensures LoadLine(acc, HEADER + ['\n']) == Ok(acc)
  {
    var line := HEADER + ['\n'];
    assert line == "bucket" + [','] + "pkts\n";
    Cut("bucket", ',', "pkts\n");
    assert StripLeft("bucket") == "bucket" && StripRight("bucket") == "bucket";
    assert DropMinus("bucket") == "bucket" && !IsDigit("bucket"[0]);
  }

  /** What the rows say, later rows last. */
  function Read(acc: Counts, ps: seq<(nat, nat)>): Counts
    decreases |ps|
  {
    if ps == [] then acc else Read(acc[ps[0].0 as int := ps[0].1 as int], ps[1..])
  }

  lemma {:induction false} LoadBody(acc: Counts, ps: seq<(nat, nat)>)
    ensures LoadLines(acc, Lines(Body(ps))) == Ok(Read(acc, ps))
    decreases |ps|
  {
    if ps != [] {
      var row := PrintRow(ps[0]);
      LinesCons(row, Body(ps[1..]));
      LoadRow(acc, ps[0]);
      LoadBody(acc[ps[0].0 as int := ps[0].1 as int], ps[1..]);
      assert ([row + ['\n']] + Lines(Body(ps[1..])))[1..] == Lines(Body(ps[1..]));
    }
  }

  lemma LoadCsv(ps: seq<(nat, nat)>)
    ensures LoadLines(map[], Lines(Csv(ps))) == Ok(Read(map[], ps))
  {
    LinesCons(HEADER, Body(ps));
    LoadHeader(map[]);
    LoadBody(map[], ps);
    assert ([HEADER + ['\n']] + Lines(Body(ps)))[1..] == Lines(Body(ps));
  }

  predicate DistinctKeys(ps: seq<(nat, nat)>) {
    forall i, j :: 0 <= i < j < |ps| ==> ps[i].0 != ps[j].0
  }

  lemma {:induction false} ReadMeans(acc: Counts, ps: seq<(nat, nat)>, k: int)
    requires DistinctKeys(ps) && forall p :: p in ps ==> p.0 as int !in acc
    ensures k in Read(acc, ps) <==> k in acc || exists p :: p in ps && p.0 as int == k
    ensures k in acc ==> Read(acc, ps)[k] == acc[k]
    ensures forall p :: p in ps && p.0 as int == k ==> Read(acc, ps)[k] == p.1 as int
    decreases |ps|
  {
    if ps != [] {
      var acc' := acc[ps[0].0 as int := ps[0].1 as int];
      assert ps == [ps[0]] + ps[1..];
      ReadMeans(acc', ps[1..], k);
    }
  }

  predicate DistinctEntries(ents: seq<RegEntry>) {
    forall i, j :: 0 <= i < j < |ents| ==> ents[i].index != ents[j].index
  }

  /** Some shown entry with this index and total. */
  ghost predicate ShownAs(ents: seq<RegEntry>, minCount: nat, p: (nat, nat)) {
    exists e :: e in ents && Shown(e, minCount) && p == (e.index, Sum(e.perPipe))
  }

  lemma {:induction false} PairsHas(ents: seq<RegEntry>, minCount: nat, p: (nat, nat))
    ensures p in Pairs(ents, minCount) <==> ShownAs(ents, minCount, p)
  {
    if ents != [] {
      var n := |ents| - 1;
      PairsHas(ents[..n], minCount, p);
      assert forall e :: e in ents <==> e in ents[..n] || e == ents[n];
    }
  }

  lemma {:induction false} PairsDistinct(ents: seq<RegEntry>, minCount: nat)
    requires DistinctEntries(ents)
    ensures DistinctKeys(Pairs(ents, minCount))
  {
    if ents != [] {
      var n := |ents| - 1;
      var ps := Pairs(ents[..n], minCount);
      PairsDistinct(ents[..n], minCount);
      forall i | 0 <= i < |ps| ensures ps[i].0 != ents[n].index {
        PairsHas(ents[..n], minCount, ps[i]);
        assert ps[i] in ps;
      }
    }
  }

  lemma {:induction false} DistinctByContents(ps: seq<(nat, nat)>, qs: seq<(nat, nat)>)
    requires DistinctKeys(ps) && multiset(ps) == multiset(qs)
    ensures DistinctKeys(qs)
  {
    forall i, j | 0 <= i < j < |qs| ensures qs[i].0 != qs[j].0 {
      if qs[i].0 == qs[j].0 {
        assert qs[i] in multiset(ps) && qs[j] in multiset(ps);
        assert qs[i] == qs[j];
        TwiceCounts(qs, i, j);
        OnceCounts(ps, qs[i]);
      }
    }
  }

  lemma TwiceCounts(s: seq<(nat, nat)>, i: nat, j: nat)
    requires i < j < |s| && s[i] == s[j]
    ensures multiset(s)[s[i]] >= 2
  {
    assert s == s[..j] + [s[j]] + s[j + 1..];
    assert s[i] in s[..j];
  }

  lemma {:induction false} OnceCounts(s: seq<(nat, nat)>, p: (nat, nat))
    requires DistinctKeys(s)
    ensures multiset(s)[p] <= 1
  {
    if s != [] {
      var n := |s| - 1;
      OnceCounts(s[..n], p);
      assert s == s[..n] + [s[n]];
      if p == s[n] {
        assert p !in s[..n];
      }
    }
  }

  lemma SortedPairs(ents: seq<RegEntry>, minCount: nat)
    requires DistinctEntries(ents)
    ensures DistinctKeys(Sorted(Pairs(ents, minCount)))
    ensures forall p :: p in Sorted(Pairs(ents, minCount)) <==> ShownAs(ents, minCount, p)
  {
    var ps := Pairs(ents, minCount);
    PairsDistinct(ents, minCount);
    SortedIsSort(ps);
    DistinctByContents(ps, Sorted(ps));
    forall p ensures p in Sorted(ps) <==> ShownAs(ents, minCount, p) {
      PairsHas(ents, minCount, p);
      assert p in multiset(Sorted(ps)) <==> p in multiset(ps);
    }
  }

  ghost predicate HoldsShown(ents: seq<RegEntry>, minCount: nat, m: Counts, k: int)
    requires k in m
  {
    k >= 0 && m[k] >= 0 && ShownAs(ents, minCount, (k, m[k]))
  }

  /** The loader's result holds exactly the shown entries with their totals. */
  ghost predicate Faithful(ents: seq<RegEntry>, minCount: nat, r: Result<Counts>) {
    && r.Ok?
    && (forall k :: k in r.value ==> HoldsShown(ents, minCount, r.value, k))
    && (forall p: (nat, nat) :: ShownAs(ents, minCount, p) ==> p.0 in r.value && r.value[p.0] == p.1)
  }

  /** Print the register, then load the text. */
  function Reload(ents: seq<RegEntry>, minCount: nat): Result<Counts> {
    LoadLines(map[], Lines(Csv(Sorted(Pairs(ents, minCount)))))
  }

  lemma ReadIsFaithful(ents: seq<RegEntry>, minCount: nat, qs: seq<(nat, nat)>)
    requires DistinctKeys(qs) && forall p :: p in qs <==> ShownAs(ents, minCount, p)
    ensures Faithful(ents, minCount, Ok(Read(map[], qs)))
  {
    var m := Read(map[], qs);
    forall k | k in m ensures HoldsShown(ents, minCount, m, k) {
      ReadMeans(map[], qs, k);
    }
    forall p: (nat, nat) | ShownAs(ents, minCount, p) ensures p.0 in m && m[p.0] == p.1 {
      ReadMeans(map[], qs, p.0);
    }
  }

  /** A bucket without a count is loaded with count 0, and a line that names no bucket is
      skipped. */
  lemma LoadBare(acc: Counts, b: nat, word: string)
    requires Free(word, ',') && Strip(word + "\n") == word && !LooksNumeric(word)
    ensures LoadLine(acc, Decimal(b) + "\n") == Ok(acc[b as int := 0])
    ensures LoadLine(acc, Decimal(b) + [','] + (word + "\n")) == Ok(acc[b as int := 0])
    ensures LoadLine(acc, word + "\n") == Ok(acc)
  {
    var x := Decimal(b);
    StripDigits(x);
    NoCut(x + "\n", ',');
    NoCut(word + "\n", ',');
    Cut(x, ',', word + "\n");
    FindAt(x, ',', word + "\n");
    DecimalRoundTrip(b);
    ZeroCount();
  }

  lemma ZeroCount()
    ensures AllDigits("0") && ParseNat("0") == 0
  {
    assert ParseNat("0") == ParseNat("0"[..0]) * 10 + DigitValue('0');
  }

  /** Only white space: blank, tab, newline, carriage return, vertical tab and form feed. */
  predicate Blank(s: string) {
    forall i :: 0 <= i < |s| ==> s[i] in {' ', '\t', '\n', '\r', '\U{0B}', '\U{0C}'}
  }

  lemma {:induction false} BlankLeft(p: string, s: string)
    requires Blank(p)
    ensures StripLeft(p + s) == StripLeft(s)
  {
    if p == "" {
      assert p + s == s;
    } else {
      BlankLeft(p[1..], s);
      assert (p + s)[1..] == p[1..] + s;
    }
  }

  lemma {:induction false} BlankRight(s: string, p: string)
    requires Blank(p)
    ensures StripRight(s + p) == StripRight(s)
  {
    if p == "" {
      assert s + p == s;
    } else {
      BlankRight(s, p[..|p| - 1]);
      assert (s + p)[..|s + p| - 1] == s + p[..|p| - 1];
    }
  }

  lemma BlankStripped(p: string, x: string, q: string)
    requires Blank(p) && Blank(q) && AllDigits(x)
    ensures Strip(p + x + q) == x
  {
    assert p + x + q == p + (x + q);
    BlankLeft(p, x + q);
    assert StripLeft(x + q) == x + q;
    BlankRight(x, q);
  }

  /** White space around bucket and count makes no difference. */
  lemma LoadBlanks(acc: Counts, a: string, b: nat, c: string, d: string, n: nat, e: string)
    requires Blank(a) && Blank(c) && Blank(d) && Blank(e)
    ensures LoadLine(acc, (a + Decimal(b) + c) + [','] + (d + Decimal(n) + e)) == Ok(acc[b as int := n as int])
  {
    BlankStripped(a, Decimal(b), c);
    BlankStripped(d, Decimal(n), e);
    BlankFree(a, Decimal(b), c);
    BlankFree(d, Decimal(n), e);
    LoadTokens(acc, a + Decimal(b) + c, b, d + Decimal(n) + e, n);
  }

  lemma BlankFree(p: string, x: string, q: string)
    requires Blank(p) && Blank(q) && AllDigits(x)
    ensures Free(p + x + q, ',')
  {
  }

  lemma LoadTokens(acc: Counts, x: string, b: nat, y: string, n: nat)
    requires Free(x, ',') && Free(y, ',') && Strip(x) == Decimal(b) && Strip(y) == Decimal(n)
    ensures LoadLine(acc, x + [','] + y) == Ok(acc[b as int := n as int])
  {
    Cut(x, ',', y);
    FindAt(x, ',', y);
    NoCut(y, ',');
    DropNothing(Decimal(b));
    DropNothing(Decimal(n));
    DecimalRoundTrip(b);
    DecimalRoundTrip(n);
  }

  lemma DropNothing(x: string)
    requires AllDigits(x)
    ensures LooksNumeric(x) && ToInt(x) == Ok(ParseNat(x))
  {
    assert IsDigit(x[0]);
  }

  /** One minus sign negates a number, two or more make the loader fail. */
  lemma LoadSigned(acc: Counts, b: nat)
    ensures LoadLine(acc, "-" + Decimal(b) + "\n") == Ok(acc[0 - b := 0])
    ensures LoadLine(acc, "--" + Decimal(b) + "\n") == Err(BadNumber)
  {
    var x := Decimal(b);
    StripSigned("-", x);
    StripSigned("--", x);
    NoCut("-" + x + "\n", ',');
    NoCut("--" + x + "\n", ',');
    SignedToken(x);
    DecimalRoundTrip(b);
    ZeroCount();
  }

  lemma SignedToken(x: string)
    requires AllDigits(x)
    ensures LooksNumeric("-" + x) && ToInt("-" + x) == Ok(0 - ParseNat(x))
    ensures LooksNumeric("--" + x) && ToInt("--" + x) == Err(BadNumber)
  {
    var y, z := "-" + x, "--" + x;
    assert y[1..] == x && z[1..] == y;
    assert IsDigit(x[0]) && DropMinus(x) == x;
    assert DropMinus(y) == x && DropMinus(z) == x;
    assert !IsDigit(y[0]) && !IsDigit(z[0]);
  }

  lemma StripSigned(sign: string, x: string)
    requires AllDigits(x) && (sign == "-" || sign == "--")
    ensures Strip(sign + x + "\n") == sign + x
  {
    var s := sign + x;
    assert StripLeft(s + "\n") == s + "\n";
    assert (s + "\n")[..|s|] == s;
    assert StripRight(s + "\n") == StripRight(s);
  }

  /** The text of a register with one nonzero entry. */
  lemma DumpExample()
    ensures Csv([(3, 120)]) == "bucket,pkts\n3,120\n"
  {
    assert Decimal(120) == Decimal(12) + ['0'] && Decimal(12) == Decimal(1) + ['2'] && Decimal(1) == ['1'];
    assert Decimal(3) == ['3'];
    assert Body([(3, 120)]) == PrintRow((3, 120)) + ['\n'] + Body([(3, 120)][1..]);
  }

  /** Dump/load round trip: for every register content, reading the printed CSV gives exactly
      the shown entries with their totals. */
  lemma RoundTrip(ents: seq<RegEntry>, minCount: nat)
    requires DistinctEntries(ents)
    ensures Faithful(ents, minCount, Reload(ents, minCount))
  {
    var qs := Sorted(Pairs(ents, minCount));
    SortedPairs(ents, minCount);
    LoadCsv(qs);
    ReadIsFaithful(ents, minCount, qs);
  }

  /** The same, entry by entry: an entry comes back exactly when its total over the pipes is
      positive and at least the minimum, and then with that total; nothing else comes back. */
  lemma EntryComesBack(ents: seq<RegEntry>, minCount: nat, e: RegEntry, k: int)
    requires DistinctEntries(ents) && e in ents
    ensures var m := Reload(ents, minCount);
      && m.Ok?
      && (e.index in m.value <==> Sum(e.perPipe) >= 1 && Sum(e.perPipe) >= minCount)
      && (e.index in m.value ==> m.value[e.index] == Sum(e.perPipe))
      && (k in m.value ==> exists d :: d in ents && d.index == k)
  {
    RoundTrip(ents, minCount);
    var m := Reload(ents, minCount).value;
    if Shown(e, minCount) {
      assert ShownAs(ents, minCount, (e.index, Sum(e.perPipe)));
    }
    if e.index in m {
      assert HoldsShown(ents, minCount, m, e.index);
      var d :| d in ents && Shown(d, minCount) && (e.index, m[e.index]) == (d.index, Sum(d.perPipe));
      assert d == e;
    }
    if k in m {
      assert HoldsShown(ents, minCount, m, k);
    }
  }
}
