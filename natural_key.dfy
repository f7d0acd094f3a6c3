/**
 * The natural-order sort key of the EC2 pricing scraper
 * (`sort_key_by_numeric_other`): a key string is cut into maximal runs of
 * digits, of "letters" (A-Z, a-z, `-` and `_`) and of anything else, each run
 * becomes a triple, and keys are compared as sequences of triples, the way
 * Python compares tuples of tuples.
 */
module NaturalKey {

  // ---------------------------------------------------------------------------
  // Runs
  // ---------------------------------------------------------------------------

  /** The three alternatives of the pattern `([0-9]+)|([-A-Z_a-z]+)|([^-0-9A-Z_a-z]+)`. */
  datatype CharClass = Digit | Letter | Other

  function ClassOf(c: char): CharClass {
    if '0' <= c <= '9' then Digit
    else if 'A' <= c <= 'Z' || 'a' <= c <= 'z' || c == '-' || c == '_' then Letter
    else Other
  }

  /** A run: non-empty, every character of one class. */
  predicate IsRun(s: string) {
    |s| > 0 && forall i :: 0 <= i < |s| ==> ClassOf(s[i]) == ClassOf(s[0])
  }

  /** Every piece is a run, and no two neighbouring pieces share a class. */
  predicate MaximalRuns(rs: seq<string>) {
    && (forall i :: 0 <= i < |rs| ==> IsRun(rs[i]))
    && (forall i :: 0 <= i < |rs| - 1 ==> ClassOf(rs[i][0]) != ClassOf(rs[i + 1][0]))
  }

  /** Concatenation of a sequence of strings. */
  function Join(rs: seq<string>): string {
    if rs == [] then [] else rs[0] + Join(rs[1..])
  }

  /** Length of the longest prefix of `s` whose characters share the class of `s[0]`. */
  function RunLength(s: string): (n: nat)
    requires |s| > 0
    ensures 1 <= n <= |s|
    ensures forall i :: 0 <= i < n ==> ClassOf(s[i]) == ClassOf(s[0])
    ensures n < |s| ==> ClassOf(s[n]) != ClassOf(s[0])
  {
    if |s| == 1 || ClassOf(s[1]) != ClassOf(s[0]) then 1 else 1 + RunLength(s[1..])
  }

  /**
   * What `findall` of the pattern returns, one string per match: the runs,
   * left to right. They cover the key exactly, each is of one class, and no two
   * neighbours share a class (each run is maximal).
   */
  function Runs(s: string): (rs: seq<string>)
    ensures Join(rs) == s
    ensures MaximalRuns(rs)
    decreases |s|
  {
    if s == [] then []
    else
      var n := RunLength(s);
      var rest := Runs(s[n..]);
      assert rest != [] ==> rest[0][0] == s[n] by {
        if rest != [] {
          assert Join(rest) == rest[0] + Join(rest[1..]);
        }
      }
      var rs := [s[..n]] + rest;
      assert rs[0] == s[..n] && rs[1..] == rest;
      assert s[..n] + s[n..] == s;
      assert MaximalRuns([s[..n]]);
      MaximalRunsConcat([s[..n]], rest);
      rs
  }

  /** Maximal runs side by side stay maximal when they meet at a change of class. */
  lemma MaximalRunsConcat(x: seq<string>, y: seq<string>)
    requires MaximalRuns(x) && MaximalRuns(y)
    requires x != [] && y != [] ==> ClassOf(x[|x| - 1][0]) != ClassOf(y[0][0])
    ensures MaximalRuns(x + y)
  {
    var xy := x + y;
    forall i | 0 <= i < |xy|
      ensures IsRun(xy[i])
    {
      if i < |x| {
        assert xy[i] == x[i];
      } else {
        assert xy[i] == y[i - |x|];
      }
    }
    forall i | 0 <= i < |xy| - 1
      ensures ClassOf(xy[i][0]) != ClassOf(xy[i + 1][0])
    {
      if i + 1 < |x| {
        assert xy[i] == x[i] && xy[i + 1] == x[i + 1];
      } else if i + 1 == |x| {
        assert xy[i] == x[|x| - 1] && xy[i + 1] == y[0];
      } else {
        assert xy[i] == y[i - |x|] && xy[i + 1] == y[i + 1 - |x|];
      }
    }
  }

  /**
   * The partition into maximal runs is unique: any split of `s` into
   * non-empty single-class pieces with no two neighbours of one class is
   * `Runs(s)`.
   */
  lemma {:induction false} RunsUnique(s: string, rs: seq<string>)
    requires Join(rs) == s && MaximalRuns(rs)
    ensures rs == Runs(s)
    decreases |s|
  {
    if rs == [] {
      assert s == [];
    } else {
      assert IsRun(rs[0]);
      assert s == rs[0] + Join(rs[1..]);
      var n := RunLength(s);
      var m := |rs[0]|;
      assert s[..m] == rs[0];
      if |rs| > 1 {
        assert Join(rs[1..]) == rs[1] + Join(rs[2..]);
        assert IsRun(rs[1]) && rs[1][0] == s[m];
      } else {
        assert Join(rs[1..]) == [];
      }
      if m < n {
        // The next piece would start inside the first maximal run.
        assert false;
      } else if m > n {
        // The first piece would run past the end of the first maximal run.
        assert false;
      }
      assert m == n;
      RunsUnique(s[n..], rs[1..]);
    }
  }

  /** A key that is one run already is its own, single, run. */
  lemma {:induction false} RunsOfRun(s: string)
    requires IsRun(s)
    ensures Runs(s) == [s]
  {
    assert Join([s]) == s + Join([]);
    RunsUnique(s, [s]);
  }

  // ---------------------------------------------------------------------------
  // Triples
  // ---------------------------------------------------------------------------

  /**
   * One element of the key: `(numeric, alpha, other)`. Slots a run does not
   * fill hold -1 (the number) or the empty string (the two strings).
   */
  datatype Part = Part(number: int, word: string, other: string)

  /** The size vocabulary, in its ranking order. */
  const INSTANCE_SIZES: seq<string> :=
    ["micro", "small", "medium", "large", "xlarge", "x-large", "extra-large"]

  /** `list.index`: the first position holding `x`. */
  function IndexOf(xs: seq<string>, x: string): (i: nat)
    requires x in xs
    ensures i < |xs| && xs[i] == x
    ensures forall j :: 0 <= j < i ==> xs[j] != x
  {
    if xs[0] == x then 0 else 1 + IndexOf(xs[1..], x)
  }

  /** `int(run)` for a run of decimal digits. */
  function DecimalValue(digits: string): (n: nat)
    requires forall i :: 0 <= i < |digits| ==> '0' <= digits[i] <= '9'
  {
    if digits == [] then 0
    else 10 * DecimalValue(digits[..|digits| - 1]) + (digits[|digits| - 1] as int - '0' as int)
  }

  /** `str(i)` for a one-digit number. */
  function DigitText(i: nat): (s: string)
    requires i < 10
    ensures |s| == 1 && '0' <= s[0] <= '9'
  {
    [('0' as int + i) as char]
  }

  /** The triple of one run. */
  function PartOf(run: string): (p: Part)
    requires IsRun(run)
  {
    match ClassOf(run[0])
    case Digit => Part(DecimalValue(run), "", "")
    case Letter =>
      Part(-1, if run in INSTANCE_SIZES then DigitText(IndexOf(INSTANCE_SIZES, run)) else run, "")
    case Other => Part(-1, "", run)
  }

  /** The triples of a sequence of runs, one per run, in order. */
  function KeyOfRuns(rs: seq<string>): (k: seq<Part>)
    requires forall i :: 0 <= i < |rs| ==> IsRun(rs[i])
  {
    seq(|rs|, i requires 0 <= i < |rs| => PartOf(rs[i]))
  }

  /** The triples of two sequences of runs, side by side. */
  lemma KeyOfRunsAppend(x: seq<string>, y: seq<string>)
    requires forall i :: 0 <= i < |x| ==> IsRun(x[i])
    requires forall i :: 0 <= i < |y| ==> IsRun(y[i])
    ensures KeyOfRuns(x + y) == KeyOfRuns(x) + KeyOfRuns(y)
  {
    var xy := x + y;
    assert forall i :: 0 <= i < |xy| ==> xy[i] == if i < |x| then x[i] else y[i - |x|];
    var l, r := KeyOfRuns(xy), KeyOfRuns(x) + KeyOfRuns(y);
    forall i | 0 <= i < |l|
      ensures l[i] == r[i]
    {
      if i < |x| {
        assert xy[i] == x[i];
      } else {
        assert xy[i] == y[i - |x|];
      }
    }
  }

  /** The sort key of a dictionary key: one triple per run, in order. */
  function SortKey(key: string): (k: seq<Part>)
    ensures |k| == |Runs(key)|
  {
    KeyOfRuns(Runs(key))
  }

  /**
   * `sort_key_by_numeric_other`: walks the runs, appending one triple per run.
   */
  method SortKeyByNumericOther(key: string) returns (k: seq<Part>)
    ensures k == SortKey(key)
  {
    var runs := Runs(key);
    k := [];
    for i := 0 to |runs|
      invariant |k| == i
      invariant forall j :: 0 <= j < i ==> k[j] == PartOf(runs[j])
    {
      var run := runs[i];
      var numeric: int := -1;
      var alpha := "";
      var other := "";
      assert IsRun(run);
      match ClassOf(run[0]) {
        case Digit => numeric := DecimalValue(run);
        case Letter =>
          alpha := if run in INSTANCE_SIZES then DigitText(IndexOf(INSTANCE_SIZES, run)) else run;
        case Other => other := run;
      }
      assert Part(numeric, alpha, other) == PartOf(run);
      k := k + [Part(numeric, alpha, other)];
    }
  }

  /**
   * Each kind of run fills exactly its own slot: a digit run its integer value,
   * a letter run its size rank or itself, any other run itself. The slots left
   * unused hold -1 and "".
   */
  lemma PartSlots(run: string)
    requires IsRun(run)
    ensures ClassOf(run[0]) == Digit <==> PartOf(run).number >= 0
    ensures ClassOf(run[0]) == Other <==> PartOf(run).other != ""
    ensures ClassOf(run[0]) == Letter <==> PartOf(run).word != ""
    ensures ClassOf(run[0]) == Digit ==> PartOf(run).number == DecimalValue(run)
    ensures ClassOf(run[0]) != Digit ==> PartOf(run).number == -1
    ensures ClassOf(run[0]) == Letter && run in INSTANCE_SIZES ==> PartOf(run).word == DigitText(IndexOf(INSTANCE_SIZES, run))
    ensures ClassOf(run[0]) == Letter && run !in INSTANCE_SIZES ==> PartOf(run).word == run
    ensures ClassOf(run[0]) != Letter ==> PartOf(run).word == ""
    ensures ClassOf(run[0]) == Other ==> PartOf(run).other == run
    ensures ClassOf(run[0]) != Other ==> PartOf(run).other == ""
  {
  }

  // ---------------------------------------------------------------------------
  // Order
  // ---------------------------------------------------------------------------

  /** Python's `<` on strings: code point by code point, a proper prefix first. */
  predicate StrLess(a: string, b: string) {
    |b| > 0 && (|a| == 0 || a[0] < b[0] || (a[0] == b[0] && StrLess(a[1..], b[1..])))
  }

  /** Python's `<` on the triple: number first, then word, then other. */
  predicate PartLess(p: Part, q: Part) {
    p.number < q.number
    || (p.number == q.number && (StrLess(p.word, q.word) || (p.word == q.word && StrLess(p.other, q.other))))
  }

  /** Python's `<` on tuples of triples: the first differing triple decides, a proper prefix first. */
  predicate KeyLess(a: seq<Part>, b: seq<Part>) {
    |b| > 0 && (|a| == 0 || PartLess(a[0], b[0]) || (a[0] == b[0] && KeyLess(a[1..], b[1..])))
  }

  /** `a <= b` for keys. */
  predicate KeyLeq(a: seq<Part>, b: seq<Part>) {
    !KeyLess(b, a)
  }

  lemma {:induction false} StrLessStrictTotal(a: string, b: string, c: string)
    ensures !StrLess(a, a)
    ensures StrLess(a, b) ==> !StrLess(b, a)
    ensures a == b || StrLess(a, b) || StrLess(b, a)
    ensures StrLess(a, b) && StrLess(b, c) ==> StrLess(a, c)
  {
    if |a| > 0 && |b| > 0 && |c| > 0 {
      StrLessStrictTotal(a[1..], b[1..], c[1..]);
      if a[0] == b[0] && a[1..] == b[1..] {
        assert a == [a[0]] + a[1..] && b == [b[0]] + b[1..];
      }
    } else if |a| > 0 && |b| > 0 {
      StrLessStrictTotal(a[1..], b[1..], b[1..]);
      if a[0] == b[0] && a[1..] == b[1..] {
        assert a == [a[0]] + a[1..] && b == [b[0]] + b[1..];
      }
    } else if |a| > 0 {
      StrLessStrictTotal(a[1..], a[1..], a[1..]);
    }
  }

  lemma PartLessStrictTotal(p: Part, q: Part, r: Part)
    ensures !PartLess(p, p)
    ensures PartLess(p, q) ==> !PartLess(q, p)
    ensures p == q || PartLess(p, q) || PartLess(q, p)
    ensures PartLess(p, q) && PartLess(q, r) ==> PartLess(p, r)
  {
    StrLessStrictTotal(p.word, q.word, r.word);
    StrLessStrictTotal(p.other, q.other, r.other);
    StrLessStrictTotal(q.word, p.word, r.word);
    StrLessStrictTotal(q.other, p.other, r.other);
  }

  /**
   * The key order is a strict total order, so a stable sort by it has exactly
   * one outcome, and keys that tie are equal keys.
   */
  lemma {:induction false} KeyLessStrictTotal(a: seq<Part>, b: seq<Part>, c: seq<Part>)
    ensures !KeyLess(a, a)
    ensures KeyLess(a, b) ==> !KeyLess(b, a)
    ensures a == b || KeyLess(a, b) || KeyLess(b, a)
    ensures KeyLess(a, b) && KeyLess(b, c) ==> KeyLess(a, c)
  {
    if |a| > 0 && |b| > 0 && |c| > 0 {
      PartLessStrictTotal(a[0], b[0], c[0]);
      KeyLessStrictTotal(a[1..], b[1..], c[1..]);
      if a[0] == b[0] && a[1..] == b[1..] {
        assert a == [a[0]] + a[1..] && b == [b[0]] + b[1..];
      }
    } else if |a| > 0 && |b| > 0 {
      PartLessStrictTotal(a[0], b[0], b[0]);
      KeyLessStrictTotal(a[1..], b[1..], b[1..]);
      if a[0] == b[0] && a[1..] == b[1..] {
        assert a == [a[0]] + a[1..] && b == [b[0]] + b[1..];
      }
    } else if |a| > 0 {
      PartLessStrictTotal(a[0], a[0], a[0]);
      KeyLessStrictTotal(a[1..], a[1..], a[1..]);
    }
  }

  /** `<=` on keys is transitive. */
  lemma KeyLeqTransitive(a: seq<Part>, b: seq<Part>, c: seq<Part>)
    requires KeyLeq(a, b) && KeyLeq(b, c)
    ensures KeyLeq(a, c)
  {
    KeyLessStrictTotal(a, b, c);
    KeyLessStrictTotal(c, a, b);
  }

  /** Keys that are `<=` both ways are equal. */
  lemma KeyLeqAntisymmetric(a: seq<Part>, b: seq<Part>)
    requires KeyLeq(a, b) && KeyLeq(b, a)
    ensures a == b
  {
    KeyLessStrictTotal(a, b, b);
  }

  // ---------------------------------------------------------------------------
  // What the order does with instance names
  // ---------------------------------------------------------------------------

  /** A run of digits compares by its integer value, not character by character. */
  lemma DigitRunsByValue(a: string, b: string)
    requires IsRun(a) && IsRun(b) && ClassOf(a[0]) == Digit && ClassOf(b[0]) == Digit
    ensures KeyLess(SortKey(a), SortKey(b)) <==> DecimalValue(a) < DecimalValue(b)
  {
    RunsOfRun(a);
    RunsOfRun(b);
  }

  /** The size words rank in vocabulary order: micro, small, medium, large, xlarge, x-large, extra-large. */
  lemma SizeVocabularyOrder(i: nat, j: nat)
    requires i < j < |INSTANCE_SIZES|
    ensures KeyLess(SortKey(INSTANCE_SIZES[i]), SortKey(INSTANCE_SIZES[j]))
  {
    SizeWordKey(i);
    SizeWordKey(j);
  }

  /** No size word occurs twice in the vocabulary. */
  lemma SizesDistinct(j: nat, k: nat)
    requires j < k < |INSTANCE_SIZES|
    ensures INSTANCE_SIZES[j] != INSTANCE_SIZES[k]
  {
    assert INSTANCE_SIZES[j][0] != INSTANCE_SIZES[k][0] || |INSTANCE_SIZES[j]| != |INSTANCE_SIZES[k]|;
  }

  /** `INSTANCE_SIZES.index(w)` of the word at position `i` is `i`. */
  lemma SizeIndex(i: nat)
    requires i < |INSTANCE_SIZES|
    ensures IndexOf(INSTANCE_SIZES, INSTANCE_SIZES[i]) == i
  {
    var r := IndexOf(INSTANCE_SIZES, INSTANCE_SIZES[i]);
    if r < i {
      SizesDistinct(r, i);
    }
  }

  /** Every size word is a single run of letters. */
  lemma SizeWordIsRun(i: nat)
    requires i < |INSTANCE_SIZES|
    ensures IsRun(INSTANCE_SIZES[i]) && ClassOf(INSTANCE_SIZES[i][0]) == Letter
  {
    var w := INSTANCE_SIZES[i];
    assert forall k :: 0 <= k < |w| ==> 'a' <= w[k] <= 'z' || w[k] == '-';
  }

  /** A size word is one letter run and keys as its rank, written as a digit. */
  lemma SizeWordKey(i: nat)
    requires i < |INSTANCE_SIZES|
    ensures SortKey(INSTANCE_SIZES[i]) == [Part(-1, DigitText(i), "")]
  {
    SizeWordIsRun(i);
    SizeIndex(i);
    SortKeyOfRun(INSTANCE_SIZES[i]);
  }

  lemma {:induction false} JoinAppend(x: seq<string>, y: seq<string>)
    ensures Join(x + y) == Join(x) + Join(y)
  {
    if x == [] {
      assert x + y == y;
    } else {
      assert (x + y)[1..] == x[1..] + y;
      JoinAppend(x[1..], y);
    }
  }

  /** The last run ends the key, so it has the class of the key's last character. */
  lemma {:induction false} LastRun(s: string)
    requires |s| > 0
    ensures |Runs(s)| > 0 && ClassOf(Runs(s)[|Runs(s)| - 1][0]) == ClassOf(s[|s| - 1])
    decreases |s|
  {
    var n := RunLength(s);
    var rs := Runs(s);
    assert rs == [s[..n]] + Runs(s[n..]);
    if n < |s| {
      LastRun(s[n..]);
      assert s[n..][|s[n..]| - 1] == s[|s| - 1];
    } else {
      assert ClassOf(s[n - 1]) == ClassOf(s[0]);
    }
  }

  /** Where two strings meet at a change of class, the runs of the whole are the runs of the parts. */
  lemma RunsConcat(a: string, b: string)
    requires |a| > 0 && |b| > 0 && ClassOf(a[|a| - 1]) != ClassOf(b[0])
    ensures Runs(a + b) == Runs(a) + Runs(b)
  {
    var ra, rb := Runs(a), Runs(b);
    JoinAppend(ra, rb);
    LastRun(a);
    assert Join(rb) == rb[0] + Join(rb[1..]);
    MaximalRunsConcat(ra, rb);
    RunsUnique(a + b, ra + rb);
  }

  /** ... and so is the sort key. */
  lemma SortKeyConcat(a: string, b: string)
    requires |a| > 0 && |b| > 0 && ClassOf(a[|a| - 1]) != ClassOf(b[0])
    ensures SortKey(a + b) == SortKey(a) + SortKey(b)
  {
    RunsConcat(a, b);
    KeyOfRunsAppend(Runs(a), Runs(b));
  }

  /** The key of a single run. */
  lemma SortKeyOfRun(run: string)
    requires IsRun(run)
    ensures SortKey(run) == [PartOf(run)]
  {
    RunsOfRun(run);
  }

  /** Two runs of different classes, one after the other. */
  lemma KeyOfTwoRuns(a: string, b: string)
    requires IsRun(a) && IsRun(b) && ClassOf(a[0]) != ClassOf(b[0])
    ensures SortKey(a + b) == [PartOf(a), PartOf(b)]
  {
    SortKeyOfRun(a);
    SortKeyOfRun(b);
    assert ClassOf(a[|a| - 1]) == ClassOf(a[0]);
    SortKeyConcat(a, b);
  }

  /** Three runs, each of another class than the one before. */
  lemma KeyOfThreeRuns(a: string, b: string, c: string)
    requires IsRun(a) && IsRun(b) && IsRun(c)
    requires ClassOf(a[0]) != ClassOf(b[0]) && ClassOf(b[0]) != ClassOf(c[0])
    ensures SortKey(a + b + c) == [PartOf(a), PartOf(b), PartOf(c)]
  {
    var ab := a + b;
    KeyOfTwoRuns(a, b);
    SortKeyOfRun(c);
    assert ab[|ab| - 1] == b[|b| - 1];
    assert ClassOf(b[|b| - 1]) == ClassOf(b[0]);
    SortKeyConcat(ab, c);
  }

  const M5_DOT: seq<Part> := [Part(-1, "m", ""), Part(5, "", ""), Part(-1, "", ".")]

  /** The runs of "m5." and their triples. */
  lemma M5DotRuns()
    ensures IsRun("m") && IsRun("5") && IsRun(".")
    ensures ClassOf('m') == Letter && ClassOf('5') == Digit && ClassOf('.') == Other
    ensures PartOf("m") == Part(-1, "m", "") && PartOf("5") == Part(5, "", "") && PartOf(".") == Part(-1, "", ".")
  {
    assert "m" !in INSTANCE_SIZES;
    assert DecimalValue("5") == 5;
  }

  /** The key of the prefix "m5.". */
  lemma KeyOfM5Dot()
    ensures SortKey("m5.") == M5_DOT
  {
    M5DotRuns();
    KeyOfThreeRuns("m", "5", ".");
    assert "m" + "5" + "." == "m5.";
  }

  /** The triple of "xlarge" is its rank. */
  lemma KeyOfXlarge()
    ensures IsRun("xlarge") && ClassOf("xlarge"[0]) == Letter
    ensures PartOf("xlarge") == Part(-1, "4", "")
  {
    SizeWordIsRun(4);
    SizeWordKey(4);
    SortKeyOfRun(INSTANCE_SIZES[4]);
  }

  /** The key of a count followed by "xlarge", as in "2xlarge". */
  lemma KeyOfMultiple(count: string)
    requires IsRun(count) && ClassOf(count[0]) == Digit
    ensures SortKey(count + "xlarge") == [Part(DecimalValue(count), "", ""), Part(-1, "4", "")]
  {
    KeyOfXlarge();
    KeyOfTwoRuns(count, "xlarge");
  }

  /** A common prefix does not decide the order. */
  lemma {:induction false} KeyLessCommonPrefix(p: seq<Part>, a: seq<Part>, b: seq<Part>)
    ensures KeyLess(p + a, p + b) <==> KeyLess(a, b)
  {
    if p != [] {
      assert (p + a)[1..] == p[1..] + a && (p + b)[1..] == p[1..] + b;
      PartLessStrictTotal(p[0], p[0], p[0]);
      KeyLessCommonPrefix(p[1..], a, b);
    } else {
      assert p + a == a && p + b == b;
    }
  }

  /** After the prefix "m5.", a key that starts with a digit or a letter adds its own triples. */
  lemma KeyAfterM5Dot(rest: string)
    requires |rest| > 0 && ClassOf(rest[0]) != Other
    ensures SortKey("m5." + rest) == M5_DOT + SortKey(rest)
  {
    KeyOfM5Dot();
    assert ClassOf("m5."[2]) == Other;
    SortKeyConcat("m5.", rest);
  }

  /** The key of "m5." followed by a size word. */
  lemma KeyOfM5Size(rank: nat)
    requires rank < |INSTANCE_SIZES|
    ensures SortKey("m5." + INSTANCE_SIZES[rank]) == M5_DOT + [Part(-1, DigitText(rank), "")]
  {
    SizeWordKey(rank);
    SizeWordIsRun(rank);
    KeyAfterM5Dot(INSTANCE_SIZES[rank]);
  }

  /** The key of "m5." followed by a count and "xlarge". */
  lemma KeyOfM5Multiple(count: string)
    requires IsRun(count) && ClassOf(count[0]) == Digit
    ensures SortKey("m5." + (count + "xlarge")) == M5_DOT + [Part(DecimalValue(count), "", ""), Part(-1, "4", "")]
  {
    KeyOfMultiple(count);
    KeyAfterM5Dot(count + "xlarge");
  }

  lemma KeyOfM5Large()
    ensures SortKey("m5.large") == M5_DOT + [Part(-1, "3", "")]
  {
    KeyOfM5Size(3);
    assert "m5." + INSTANCE_SIZES[3] == "m5.large";
  }

  lemma KeyOfM5Xlarge()
    ensures SortKey("m5.xlarge") == M5_DOT + [Part(-1, "4", "")]
  {
    KeyOfM5Size(4);
    assert "m5." + INSTANCE_SIZES[4] == "m5.xlarge";
  }

  lemma KeyOfM5TwoXlarge()
    ensures SortKey("m5.2xlarge") == M5_DOT + [Part(2, "", ""), Part(-1, "4", "")]
  {
    assert DecimalValue("2") == 2;
    KeyOfM5Multiple("2");
    assert "m5." + ("2" + "xlarge") == "m5.2xlarge";
  }

  lemma KeyOfM5SixteenXlarge()
    ensures SortKey("m5.16xlarge") == M5_DOT + [Part(16, "", ""), Part(-1, "4", "")]
  {
    assert DecimalValue("16") == 16 by {
      assert DecimalValue("1") == 1;
    }
    KeyOfM5Multiple("16");
    assert "m5." + ("16" + "xlarge") == "m5.16xlarge";
  }

  /**
   * Instance names order by size rather than by characters:
   * m5.large < m5.xlarge < m5.2xlarge < m5.16xlarge (plain string order
   * would put m5.16xlarge before m5.2xlarge).
   */
  lemma InstanceNameOrder()
    ensures KeyLess(SortKey("m5.large"), SortKey("m5.xlarge"))
    ensures KeyLess(SortKey("m5.xlarge"), SortKey("m5.2xlarge"))
    ensures KeyLess(SortKey("m5.2xlarge"), SortKey("m5.16xlarge"))
  {
    LargeBeforeXlarge();
    XlargeBeforeMultiple();
    SmallerMultipleFirst();
  }

  lemma LargeBeforeXlarge()
    ensures KeyLess(SortKey("m5.large"), SortKey("m5.xlarge"))
  {
    KeyOfM5Large();
    KeyOfM5Xlarge();
    KeyLessCommonPrefix(M5_DOT, [Part(-1, "3", "")], [Part(-1, "4", "")]);
  }

  lemma XlargeBeforeMultiple()
    ensures KeyLess(SortKey("m5.xlarge"), SortKey("m5.2xlarge"))
  {
    KeyOfM5Xlarge();
    KeyOfM5TwoXlarge();
    KeyLessCommonPrefix(M5_DOT, [Part(-1, "4", "")], [Part(2, "", ""), Part(-1, "4", "")]);
  }

  lemma SmallerMultipleFirst()
    ensures KeyLess(SortKey("m5.2xlarge"), SortKey("m5.16xlarge"))
  {
    KeyOfM5TwoXlarge();
    KeyOfM5SixteenXlarge();
    KeyLessCommonPrefix(M5_DOT, [Part(2, "", ""), Part(-1, "4", "")], [Part(16, "", ""), Part(-1, "4", "")]);
  }

  /** The runs of "m7" and "m07" and their triples. */
  lemma M7Runs()
    ensures IsRun("m") && IsRun("7") && IsRun("07")
    ensures ClassOf('m') == Letter && ClassOf('7') == Digit && ClassOf('0') == Digit
    ensures PartOf("m") == Part(-1, "m", "") && PartOf("7") == Part(7, "", "") && PartOf("07") == Part(7, "", "")
  {
    assert "m" !in INSTANCE_SIZES;
    assert DecimalValue("7") == 7;
    assert DecimalValue("07") == 7 by {
      assert DecimalValue("0") == 0;
    }
  }

  lemma KeyOfM7()
    ensures SortKey("m7") == [Part(-1, "m", ""), Part(7, "", "")]
  {
    M7Runs();
    KeyOfTwoRuns("m", "7");
    assert "m" + "7" == "m7";
  }

  lemma KeyOfM07()
    ensures SortKey("m07") == [Part(-1, "m", ""), Part(7, "", "")]
  {
    M7Runs();
    KeyOfTwoRuns("m", "07");
    assert "m" + "07" == "m07";
  }

  /** Distinct keys can tie: leading zeros vanish in `int(run)`, so "m7" and "m07" have one key. */
  lemma LeadingZerosTie()
    ensures SortKey("m7") == SortKey("m07")
  {
    KeyOfM7();
    KeyOfM07();
  }
}
