/**
 * The demonstration pipelines of `JavaStreams.main`, each as a function of
 * its input. Lines read from a file are passed in as a sequence of strings;
 * what a pipeline prints is modelled as the sequence (or value) it produces.
 */
module JavaStreams {
  import opened Wrappers
  import opened JavaInt
  import opened JavaString
  import opened Streams
  import opened IntStreams

  // ---------------------------------------------------------------------------
  // Blocks 1-3: integer ranges

  /** Blocks 1-3: `range(1, 10)`, the same with `skip(5)`, and the sum of `range(1, 5)`. */
  lemma IntegerRanges()
    ensures Range(1, 10) == [1, 2, 3, 4, 5, 6, 7, 8, 9]
    ensures Skip(Range(1, 10), 5) == [6, 7, 8, 9]
    ensures IntSum(Range(1, 5)) == 10
  {
    SkipRange(1, 10, 5);
    IntSumRange(1, 5);
  }

  // ---------------------------------------------------------------------------
  // Block 4: sorted().findFirst()

  /** Block 4: the first string in natural order, or nothing for no strings. */
  function FirstInOrder(names: seq<string>): (r: Option<string>)
    ensures r.None? <==> names == []
    ensures r.Some? ==> r.value in names
    ensures r.Some? ==> forall x :: x in names ==> LessEq(r.value, x)
  {
    SortSorted(names);
    var sorted := Sort(names);
    if sorted == [] then None
    else
      assert sorted[0] in multiset(names);
      assert forall x :: x in names ==> LessEq(sorted[0], x) by {
        forall x | x in names ensures LessEq(sorted[0], x) {
          assert x in multiset(sorted);
          var k :| 0 <= k < |sorted| && sorted[k] == x;
          if k == 0 { LessEqReflexive(x); }
        }
      }
      FindFirst(sorted)
  }

  /** A string of `names` that comes no later than any of them is the one block 4 finds. */
  lemma FirstInOrderIs(names: seq<string>, x: string)
    requires x in names && forall y :: y in names ==> LessEq(x, y)
    ensures FirstInOrder(names) == Some(x)
  {
    var m := FirstInOrder(names).value;
    LessEqAntisymmetric(m, x);
  }

  lemma FirstInOrderExample()
    ensures FirstInOrder(["Ava", "Aneri", "Alberto"]) == Some("Alberto")
  {
    var names := ["Ava", "Aneri", "Alberto"];
    assert LessEq("Alberto", "Ava") by {
      assert "Alberto"[1..] == "lberto" && "Ava"[1..] == "va";
    }
    assert LessEq("Alberto", "Aneri") by {
      assert "Alberto"[1..] == "lberto" && "Aneri"[1..] == "neri";
    }
    LessEqReflexive("Alberto");
    FirstInOrderIs(names, "Alberto");
  }

  // ---------------------------------------------------------------------------
  // Block 5: filter(startsWith("S")).sorted()

  predicate StartsWithS(x: string) {
    StartsWith(x, "S")
  }

  /** Block 5: the names that start with a capital S, in natural order. */
  function NamesStartingWithS(names: seq<string>): (r: seq<string>)
    ensures Sorted(r)
    ensures forall x :: multiset(r)[x] == if StartsWithS(x) then multiset(names)[x] else 0
  {
    var kept := Filter(names, StartsWithS);
    FilterCounts(names, StartsWithS);
    SortSorted(kept);
    Sort(kept)
  }

  /** An ascending arrangement of the names that start with S is what block 5 prints. */
  lemma NamesStartingWithSIs(names: seq<string>, t: seq<string>)
    requires Sorted(t) && multiset(t) == multiset(Filter(names, StartsWithS))
    ensures NamesStartingWithS(names) == t
  {
    SortIsUnique(Filter(names, StartsWithS), t);
  }

  lemma NamesStartingWithSExample(names: seq<string>)
    requires names == ["Al", "Ankit", "Kushal", "Brent", "Sarika", "amanda", "Hans", "Shivika", "Sarah"]
    ensures NamesStartingWithS(names) == ["Sarah", "Sarika", "Shivika"]
  {
    var a, b, c, d := ["Al", "Ankit", "Kushal", "Brent"], ["Sarika"], ["amanda", "Hans"], ["Shivika", "Sarah"];
    NamesInChunks(names, a, b, c, d);
    KeptNamesStartingWithS(a, b, c, d);
    SortedSNames();
    NamesStartingWithSIs(names, ["Sarah", "Sarika", "Shivika"]);
  }

  lemma NamesInChunks(names: seq<string>, a: seq<string>, b: seq<string>, c: seq<string>, d: seq<string>)
    requires names == ["Al", "Ankit", "Kushal", "Brent", "Sarika", "amanda", "Hans", "Shivika", "Sarah"]
    requires a == ["Al", "Ankit", "Kushal", "Brent"] && b == ["Sarika"]
    requires c == ["amanda", "Hans"] && d == ["Shivika", "Sarah"]
    ensures names == a + b + c + d
  {
    assert a + b == ["Al", "Ankit", "Kushal", "Brent", "Sarika"];
    assert c + d == ["amanda", "Hans", "Shivika", "Sarah"];
  }

  /** The names block 5 keeps, in ascending order. */
  lemma SortedSNames()
    ensures Sorted(["Sarah", "Sarika", "Shivika"])
    ensures multiset(["Sarika", "Shivika", "Sarah"]) == multiset(["Sarah", "Sarika", "Shivika"])
  {
    assert LessEq("Sarah", "Sarika") by {
      assert "Sarah"[1..] == "arah" && "Sarika"[1..] == "arika";
      assert "arah"[1..] == "rah" && "arika"[1..] == "rika";
      assert "rah"[1..] == "ah" && "rika"[1..] == "ika";
    }
    assert LessEq("Sarika", "Shivika") by {
      assert "Sarika"[1..] == "arika" && "Shivika"[1..] == "hivika";
    }
    SortedThree("Sarah", "Sarika", "Shivika");
  }

  /** Three strings in ascending order, pairwise, form an ascending sequence. */
  lemma SortedThree(x: string, y: string, z: string)
    requires LessEq(x, y) && LessEq(y, z)
    ensures Sorted([x, y, z])
    ensures multiset([y, z, x]) == multiset([x, y, z])
  {
    LessEqTransitive(x, y, z);
  }

  /** Block 5's filter keeps the three names that start with S, in their order. */
  lemma KeptNamesStartingWithS(a: seq<string>, b: seq<string>, c: seq<string>, d: seq<string>)
    requires a == ["Al", "Ankit", "Kushal", "Brent"] && b == ["Sarika"]
    requires c == ["amanda", "Hans"] && d == ["Shivika", "Sarah"]
    ensures Filter(a + b + c + d, StartsWithS) == ["Sarika", "Shivika", "Sarah"]
  {
    KeptChunks(a, b, c, d);
    FilterAppend(a, b, StartsWithS);
    FilterAppend(a + b, c, StartsWithS);
    FilterAppend(a + b + c, d, StartsWithS);
  }

  lemma KeptChunks(a: seq<string>, b: seq<string>, c: seq<string>, d: seq<string>)
    requires a == ["Al", "Ankit", "Kushal", "Brent"] && b == ["Sarika"]
    requires c == ["amanda", "Hans"] && d == ["Shivika", "Sarah"]
    ensures Filter(a, StartsWithS) == [] && Filter(b, StartsWithS) == b
    ensures Filter(c, StartsWithS) == [] && Filter(d, StartsWithS) == d
  {
    forall i | 0 <= i < |a| ensures !StartsWithS(a[i]) {
      StartsWithChar(a[i], 'S');
    }
    forall i | 0 <= i < |b| ensures StartsWithS(b[i]) {
      StartsWithChar(b[i], 'S');
    }
    forall i | 0 <= i < |c| ensures !StartsWithS(c[i]) {
      StartsWithChar(c[i], 'S');
    }
    forall i | 0 <= i < |d| ensures StartsWithS(d[i]) {
      StartsWithChar(d[i], 'S');
    }
    FilterNone(a, StartsWithS);
    FilterAll(b, StartsWithS);
    FilterNone(c, StartsWithS);
    FilterAll(d, StartsWithS);
  }

  // ---------------------------------------------------------------------------
  // Block 6: map(x -> x * x) and average()

  /** `x * x` on `int`s, wrapping at 32 bits. */
  function Square(x: int): (r: int)
    ensures InRange(r)
    ensures InRange(x * x) ==> r == x * x
  {
    Wrap(x * x)
  }

  /** `average()` of an `IntStream`: empty for no elements, else the mean. */
  function Average(s: seq<int>): (r: Option<real>)
    ensures r.None? <==> s == []
    ensures r.Some? ==> r.value * |s| as real == Sum(s) as real
  {
    if s == [] then None else Some(Sum(s) as real / |s| as real)
  }

  /** Block 6: the squares of 2, 4, ..., 10 sum to 220 over five elements, a mean of 44. */
  lemma AverageOfSquaresExample()
    ensures Map([2, 4, 6, 8, 10], Square) == [4, 16, 36, 64, 100]
    ensures Sum([4, 16, 36, 64, 100]) == 220
    ensures Average(Map([2, 4, 6, 8, 10], Square)) == Some(44.0)
  {
    SquaresExample();
    SumOfSquaresExample();
  }

  lemma SquaresExample()
    ensures Map([2, 4, 6, 8, 10], Square) == [4, 16, 36, 64, 100]
  {
    var squares := Map([2, 4, 6, 8, 10], Square);
    assert squares[0] == 4 && squares[1] == 16 && squares[2] == 36;
    assert squares[3] == 64 && squares[4] == 100;
  }

  lemma SumOfSquaresExample()
    ensures Sum([4, 16, 36, 64, 100]) == 220
  {
    assert [4][..0] == [];
    assert Sum([4]) == 4;
    assert [4, 16][..1] == [4];
    assert Sum([4, 16]) == 20;
    assert [4, 16, 36][..2] == [4, 16];
    assert Sum([4, 16, 36]) == 56;
    assert [4, 16, 36, 64][..3] == [4, 16, 36];
    assert Sum([4, 16, 36, 64]) == 120;
    assert [4, 16, 36, 64, 100][..4] == [4, 16, 36, 64];
  }

  // ---------------------------------------------------------------------------
  // Block 7: map(toLowerCase).filter(startsWith("a"))

  predicate StartsWithA(x: string) {
    StartsWith(x, "a")
  }

  /**
   * Block 7: the lowercased forms of exactly those strings whose lowercased
   * form starts with "a", in their original relative order.
   */
  function LowercaseStartingWithA(people: seq<string>): (r: seq<string>)
    ensures r == Map(Filter(people, Compose(StartsWithA, ToLowerCase)), ToLowerCase)
    ensures forall i :: 0 <= i < |r| ==> StartsWithA(r[i])
  {
    FilterMap(people, ToLowerCase, StartsWithA);
    Filter(Map(people, ToLowerCase), StartsWithA)
  }

  lemma LowercaseStartingWithAExample(people: seq<string>)
    requires people == ["Al", "Ankit", "Brent", "Sarika", "amanda", "Hans", "Shivika", "Sarah"]
    ensures LowercaseStartingWithA(people) == ["al", "ankit", "amanda"]
  {
    var a, b, c, d := ["al", "ankit"], ["brent", "sarika"], ["amanda"], ["hans", "shivika", "sarah"];
    LowercasedPeople(people, a, b, c, d);
    KeptLowercaseStartingWithA(a, b, c, d);
  }

  lemma LowercasedPeople(people: seq<string>, a: seq<string>, b: seq<string>, c: seq<string>, d: seq<string>)
    requires people == ["Al", "Ankit", "Brent", "Sarika", "amanda", "Hans", "Shivika", "Sarah"]
    requires a == ["al", "ankit"] && b == ["brent", "sarika"]
    requires c == ["amanda"] && d == ["hans", "shivika", "sarah"]
    ensures Map(people, ToLowerCase) == a + b + c + d
  {
    var lower := Map(people, ToLowerCase);
    assert lower[0] == "al" && lower[1] == "ankit" && lower[2] == "brent" && lower[3] == "sarika";
    assert lower[4] == "amanda" && lower[5] == "hans" && lower[6] == "shivika" && lower[7] == "sarah";
  }

  /** Block 7's filter keeps the lowercased names that start with "a", in their order. */
  lemma KeptLowercaseStartingWithA(a: seq<string>, b: seq<string>, c: seq<string>, d: seq<string>)
    requires a == ["al", "ankit"] && b == ["brent", "sarika"]
    requires c == ["amanda"] && d == ["hans", "shivika", "sarah"]
    ensures Filter(a + b + c + d, StartsWithA) == ["al", "ankit", "amanda"]
  {
    KeptLowercaseChunks(a, b, c, d);
    FilterAppend(a, b, StartsWithA);
    FilterAppend(a + b, c, StartsWithA);
    FilterAppend(a + b + c, d, StartsWithA);
  }

  lemma KeptLowercaseChunks(a: seq<string>, b: seq<string>, c: seq<string>, d: seq<string>)
    requires a == ["al", "ankit"] && b == ["brent", "sarika"]
    requires c == ["amanda"] && d == ["hans", "shivika", "sarah"]
    ensures Filter(a, StartsWithA) == a && Filter(b, StartsWithA) == []
    ensures Filter(c, StartsWithA) == c && Filter(d, StartsWithA) == []
  {
    forall i | 0 <= i < |a| ensures StartsWithA(a[i]) {
      StartsWithChar(a[i], 'a');
    }
    forall i | 0 <= i < |b| ensures !StartsWithA(b[i]) {
      StartsWithChar(b[i], 'a');
    }
    forall i | 0 <= i < |c| ensures StartsWithA(c[i]) {
      StartsWithChar(c[i], 'a');
    }
    forall i | 0 <= i < |d| ensures !StartsWithA(d[i]) {
      StartsWithChar(d[i], 'a');
    }
    FilterAll(a, StartsWithA);
    FilterNone(b, StartsWithA);
    FilterAll(c, StartsWithA);
    FilterNone(d, StartsWithA);
  }

  // ---------------------------------------------------------------------------
  // Blocks 8 and 9: lines of the band file

  predicate LongerThan13(x: string) {
    |x| > 13
  }

  /**
   * Block 8: `sorted().filter(x -> x.length() > 13)`: the lines longer than
   * 13 characters, every occurrence of each, in natural order.
   */
  function LongBandNames(lines: seq<string>): (r: seq<string>)
    ensures r == Sort(Filter(lines, LongerThan13))
    ensures Sorted(r)
    ensures forall i :: 0 <= i < |r| ==> LongerThan13(r[i])
    ensures forall x :: multiset(r)[x] == if LongerThan13(x) then multiset(lines)[x] else 0
  {
    SortThenFilter(lines, LongerThan13);
    SortSorted(Filter(lines, LongerThan13));
    FilterCounts(lines, LongerThan13);
    Filter(Sort(lines), LongerThan13)
  }

  predicate ContainsJit(x: string) {
    Contains(x, "jit")
  }

  /**
   * Block 9: `filter(x -> x.contains("jit"))` collected to a list: the lines
   * that contain "jit", all of them, in file order.
   */
  function JitBandNames(lines: seq<string>): (r: seq<string>)
    ensures IsSubsequence(r, lines)
    ensures forall i :: 0 <= i < |r| ==> ContainsJit(r[i])
    ensures forall x :: multiset(r)[x] == if ContainsJit(x) then multiset(lines)[x] else 0
  {
    FilterIsSubsequence(lines, ContainsJit);
    FilterCounts(lines, ContainsJit);
    Filter(lines, ContainsJit)
  }


  // ---------------------------------------------------------------------------
  // Blocks 10-12: records of the CSV file

  /** The exceptions that end a CSV pipeline. */
  datatype PipelineError =
    | NumberFormat(input: string)   // Integer.parseInt rejected field 1
    | DuplicateKey(key: string)     // Collectors.toMap met a key twice

  /** `line.split(",")`. */
  function Fields(line: string): (r: seq<string>)
    ensures forall i :: 0 <= i < |r| ==> ',' !in r[i]
    ensures ',' !in line ==> r == [line]
  {
    Split(line, ',')
  }

  predicate HasThreeFields(fields: seq<string>) {
    |fields| == 3
  }

  /** `map(x -> x.split(",")).filter(x -> x.length == 3)`. */
  function Records(lines: seq<string>): (r: seq<seq<string>>)
    ensures |r| <= |lines|
    ensures forall i :: 0 <= i < |r| ==> |r[i]| == 3
  {
    Filter(Map(lines, Fields), HasThreeFields)
  }

  /**
   * Block 10: `(int) count()` of the records: the number of lines that split
   * into exactly three fields (narrowed from `long` to `int`).
   */
  function CountRecords(lines: seq<string>): (n: int)
    ensures InRange(n)
    ensures |lines| <= MaxInt ==> n == |set i | 0 <= i < |lines| && |Fields(lines[i])| == 3|
    ensures |lines| <= MaxInt ==> 0 <= n <= |lines|
  {
    var fields := Map(lines, Fields);
    FilterLength(fields, HasThreeFields);
    assert Positions(fields, HasThreeFields) == set i | 0 <= i < |lines| && |Fields(lines[i])| == 3;
    Wrap(|Records(lines)|)
  }

  /** A record's field 1 parses as an `int` greater than 15. */
  predicate AgeOver15(fields: seq<string>) {
    |fields| == 3 && ParseInt(fields[1]).Success? && ParseInt(fields[1]).value > 15
  }

  /** A line that passes the three-field filter has a field 1 that `parseInt` accepts. */
  predicate AgeParses(fields: seq<string>) {
    |fields| == 3 ==> ParseInt(fields[1]).Success?
  }

  /**
   * What a lazily evaluated pipeline has delivered: the rows that reached its
   * terminal operation and, if it stopped early, the exception that stopped it.
   */
  datatype Emitted = Emitted(rows: seq<seq<string>>, failure: Option<PipelineError>)

  /**
   * Block 11: `split`, keep three-field records, keep those whose field 1
   * parses to more than 15, in file order. A record whose field 1 does not
   * parse throws: the rows before it have already been printed, nothing
   * after it is.
   */
  function SelectRows(lines: seq<string>): (e: Emitted)
    ensures forall i :: 0 <= i < |e.rows| ==> AgeOver15(e.rows[i])
    ensures e.failure.Some? ==> e.failure.value.NumberFormat?
    decreases |lines|
  {
    if lines == [] then Emitted([], None)
    else
      var f := Fields(lines[0]);
      if |f| != 3 then SelectRows(lines[1..])
      else
        match ParseInt(f[1])
        case Failure(_) => Emitted([], Some(NumberFormat(f[1])))
        case Success(v) =>
          var rest := SelectRows(lines[1..]);
          if v > 15 then Emitted([f] + rest.rows, rest.failure) else rest
  }

  /** Records from the front: the first line's record, if any, then the rest. */
  lemma RecordsCons(line: string, lines: seq<string>)
    ensures Records([line] + lines)
            == (if HasThreeFields(Fields(line)) then [Fields(line)] else []) + Records(lines)
  {
    assert Map([line] + lines, Fields) == [Fields(line)] + Map(lines, Fields);
    FilterCons(Fields(line), Map(lines, Fields), HasThreeFields);
  }

  /** The qualifying records from the front: the first line's, if it qualifies, then the rest. */
  lemma QualifyingCons(line: string, lines: seq<string>)
    ensures Filter(Records([line] + lines), AgeOver15)
            == (if AgeOver15(Fields(line)) then [Fields(line)] else []) + Filter(Records(lines), AgeOver15)
  {
    RecordsCons(line, lines);
    var f := Fields(line);
    var head := if HasThreeFields(f) then [f] else [];
    FilterAppend(head, Records(lines), AgeOver15);
    if HasThreeFields(f) {
      FilterCons(f, [], AgeOver15);
      assert [f] + [] == [f];
    } else {
      assert Filter(head, AgeOver15) == [];
    }
  }

  /**
   * Over a stretch of lines whose records all parse, block 11 emits exactly
   * the records with field 1 over 15, and then goes on with what follows.
   */
  lemma {:induction false} SelectRowsPrefix(pre: seq<string>, post: seq<string>)
    requires forall i :: 0 <= i < |pre| ==> AgeParses(Fields(pre[i]))
    ensures SelectRows(pre + post)
            == Emitted(Filter(Records(pre), AgeOver15) + SelectRows(post).rows, SelectRows(post).failure)
    decreases |pre|
  {
    if pre == [] {
      assert pre + post == post;
      assert Records(pre) == [];
    } else {
      var line, rest := pre[0], pre[1..];
      assert pre == [line] + rest;
      assert (pre + post)[0] == line;
      assert (pre + post)[1..] == rest + post;
      SelectRowsPrefix(rest, post);
      QualifyingCons(line, rest);
      var f := Fields(line);
      var t := SelectRows(rest + post);
      var p := SelectRows(post);
      var kept := Filter(Records(rest), AgeOver15);
      assert t == Emitted(kept + p.rows, p.failure);
      if AgeOver15(f) {
        assert Filter(Records(pre), AgeOver15) == [f] + kept;
        assert SelectRows(pre + post) == Emitted([f] + t.rows, t.failure);
        ConsAppend(f, kept, p.rows);
      } else {
        assert Filter(Records(pre), AgeOver15) == kept;
        if |f| == 3 {
          assert AgeParses(f) by { assert pre[0] == line; }
          assert ParseInt(f[1]).Success?;
        }
        assert SelectRows(pre + post) == t;
      }
    }
  }

  /** Associativity of one element, two sequences; kept apart so that SelectRowsPrefix stays small. */
  lemma ConsAppend<T>(x: T, a: seq<T>, b: seq<T>)
    ensures [x] + (a + b) == ([x] + a) + b
  {
  }

  /** When every record parses, block 11 emits exactly the records with field 1 over 15. */
  lemma SelectRowsAllParse(lines: seq<string>)
    requires forall i :: 0 <= i < |lines| ==> AgeParses(Fields(lines[i]))
    ensures SelectRows(lines) == Emitted(Filter(Records(lines), AgeOver15), None)
  {
    SelectRowsPrefix(lines, []);
    assert lines + [] == lines;
  }

  /**
   * When line `k` is the first record whose field 1 does not parse, block 11
   * emits the qualifying records before it and then stops with the
   * NumberFormatException for that field.
   */
  lemma SelectRowsFirstFailure(lines: seq<string>, k: nat)
    requires k < |lines|
    requires forall i :: 0 <= i < k ==> AgeParses(Fields(lines[i]))
    requires !AgeParses(Fields(lines[k]))
    ensures SelectRows(lines)
            == Emitted(Filter(Records(lines[..k]), AgeOver15), Some(NumberFormat(Fields(lines[k])[1])))
  {
    assert lines == lines[..k] + lines[k..];
    SelectRowsPrefix(lines[..k], lines[k..]);
    assert lines[k..][0] == lines[k];
  }

  /** Block 11 runs to completion exactly when every record's field 1 parses. */
  lemma {:induction false} SelectRowsCompletes(lines: seq<string>)
    ensures SelectRows(lines).failure.None?
            <==> forall i :: 0 <= i < |lines| ==> AgeParses(Fields(lines[i]))
    decreases |lines|
  {
    if lines != [] {
      SelectRowsCompletes(lines[1..]);
      assert forall i :: 1 <= i < |lines| ==> lines[i] == lines[1..][i - 1];
    }
  }

  /** Block 11 prints a row as its three fields separated by single blanks. */
  function FormatRow(fields: seq<string>): string
    requires |fields| == 3
  {
    fields[0] + " " + fields[1] + " " + fields[2]
  }

  /** The printed row keeps its fields apart: splitting it on blanks gives them back. */
  lemma FormatRowFields(fields: seq<string>)
    requires |fields| == 3
    requires forall i :: 0 <= i < 3 ==> ' ' !in fields[i]
    ensures Pieces(FormatRow(fields), ' ') == fields
  {
    assert fields[1..][1..] == [fields[2]];
    assert Join(fields[1..], ' ') == fields[1] + [' '] + fields[2];
    assert Join(fields, ' ') == fields[0] + [' '] + (fields[1] + [' '] + fields[2]);
    assert " " == [' '];
    assert Join(fields, ' ') == FormatRow(fields);
    PiecesJoin(fields, ' ');
  }

  /** No two rows share a key (field 0). */
  predicate DistinctKeys(rows: seq<seq<string>>)
    requires forall i :: 0 <= i < |rows| ==> |rows[i]| == 3
  {
    forall i, j :: 0 <= i < j < |rows| ==> rows[i][0] != rows[j][0]
  }

  function KeysOf(rows: seq<seq<string>>): set<string>
    requires forall i :: 0 <= i < |rows| ==> |rows[i]| == 3
  {
    set i | 0 <= i < |rows| :: rows[i][0]
  }

  /**
   * `collect(Collectors.toMap(x -> x[0], x -> Integer.parseInt(x[1])))`:
   * rows are put in encounter order; a key seen before throws.
   */
  function ToMap(rows: seq<seq<string>>): (r: Result<map<string, int>, PipelineError>)
    requires forall i :: 0 <= i < |rows| ==> |rows[i]| == 3
    ensures r.Success? ==> r.value.Keys == KeysOf(rows)
    ensures r.Failure? && r.error.DuplicateKey? ==> r.error.key in KeysOf(rows)
    ensures r.Failure? && r.error.NumberFormat? ==>
              exists i :: 0 <= i < |rows| && rows[i][1] == r.error.input && ParseInt(rows[i][1]).Failure?
  {
    if rows == [] then Success(map[])
    else
      KeysOfSnoc(rows);
      assert forall i :: 0 <= i < |rows| - 1 ==> rows[..|rows| - 1][i] == rows[i];
      match ToMap(rows[..|rows| - 1])
      case Failure(e) => Failure(e)
      case Success(m) =>
        var row := rows[|rows| - 1];
        match ParseInt(row[1])
        case Failure(_) => Failure(NumberFormat(row[1]))
        case Success(v) => if row[0] in m then Failure(DuplicateKey(row[0])) else Success(m[row[0] := v])
  }

  /** The rows toMap can be given: three fields each, field 1 a valid `int`. */
  predicate Collectable(rows: seq<seq<string>>) {
    forall i :: 0 <= i < |rows| ==> |rows[i]| == 3 && ParseInt(rows[i][1]).Success?
  }

  /** The keys of rows with one more row at the end. */
  lemma KeysOfSnoc(rows: seq<seq<string>>)
    requires rows != [] && forall i :: 0 <= i < |rows| ==> |rows[i]| == 3
    ensures KeysOf(rows) == KeysOf(rows[..|rows| - 1]) + {rows[|rows| - 1][0]}
  {
    var n := |rows| - 1;
    var init := rows[..n];
    assert forall i :: 0 <= i < n ==> init[i] == rows[i];
    forall k | k in KeysOf(rows) ensures k in KeysOf(init) + {rows[n][0]} {
      var i :| 0 <= i < |rows| && rows[i][0] == k;
      if i < n { assert init[i][0] == k; }
    }
  }

  /** Rows with one more row at the end have distinct keys iff the new key is new. */
  lemma DistinctKeysSnoc(rows: seq<seq<string>>)
    requires rows != [] && forall i :: 0 <= i < |rows| ==> |rows[i]| == 3
    ensures var n := |rows| - 1;
            DistinctKeys(rows) <==> DistinctKeys(rows[..n]) && rows[n][0] !in KeysOf(rows[..n])
  {
    var n := |rows| - 1;
    var init := rows[..n];
    assert forall i :: 0 <= i < n ==> init[i] == rows[i];
    if rows[n][0] in KeysOf(init) {
      var i :| 0 <= i < n && init[i][0] == rows[n][0];
      assert rows[i][0] == rows[n][0];
    }
    if DistinctKeys(init) && rows[n][0] !in KeysOf(init) {
      forall i, j | 0 <= i < j < |rows| ensures rows[i][0] != rows[j][0] {
        if j == n {
          assert rows[i][0] == init[i][0];
        } else {
          assert rows[i][0] == init[i][0] && rows[j][0] == init[j][0];
        }
      }
    }
  }

  /**
   * toMap succeeds exactly when the keys are distinct; otherwise it stops
   * with a DuplicateKey for a key that occurs twice.
   */
  lemma {:induction false} ToMapSucceeds(rows: seq<seq<string>>)
    requires Collectable(rows)
    ensures ToMap(rows).Success? <==> DistinctKeys(rows)
    ensures ToMap(rows).Success? ==> ToMap(rows).value.Keys == KeysOf(rows)
    ensures ToMap(rows).Failure? ==>
              ToMap(rows).error.DuplicateKey? && ToMap(rows).error.key in KeysOf(rows)
  {
    if rows != [] {
      var n := |rows| - 1;
      var init := rows[..n];
      assert Collectable(init) by {
        assert forall i :: 0 <= i < n ==> init[i] == rows[i];
      }
      ToMapSucceeds(init);
      KeysOfSnoc(rows);
      DistinctKeysSnoc(rows);
      var row := rows[n];
      assert ParseInt(row[1]).Success?;
    }
  }

  /** A map that toMap builds has one entry per row: its key with its parsed field 1. */
  lemma {:induction false} ToMapContents(rows: seq<seq<string>>)
    requires Collectable(rows)
    requires ToMap(rows).Success?
    ensures |ToMap(rows).value| == |rows|
    ensures forall i :: 0 <= i < |rows| ==>
              rows[i][0] in ToMap(rows).value && ToMap(rows).value[rows[i][0]] == ParseInt(rows[i][1]).value
  {
    if rows != [] {
      var n := |rows| - 1;
      var init := rows[..n];
      assert Collectable(init) by {
        assert forall i :: 0 <= i < n ==> init[i] == rows[i];
      }
      var row := rows[n];
      var m := ToMap(init).value;
      ToMapContents(init);
      ToMapSucceeds(init);
      assert row[0] !in m;
      var m' := ToMap(rows).value;
      assert m' == m[row[0] := ParseInt(row[1]).value];
      forall i | 0 <= i < |rows|
        ensures rows[i][0] in m' && m'[rows[i][0]] == ParseInt(rows[i][1]).value
      {
        if i < n {
          var key := rows[i][0];
          assert init[i] == rows[i];
          assert key in m && m[key] == ParseInt(rows[i][1]).value;
          assert key != row[0];
          assert m'[key] == m[key];
        } else {
          assert i == n;
          assert m'[row[0]] == ParseInt(row[1]).value;
        }
      }
    }
  }

  /**
   * Block 12: block 11's rows collected into a map from field 0 to parsed
   * field 1. A duplicate key among the rows collected so far, or a field 1
   * that does not parse, makes the whole pipeline fail.
   */
  function CollectAges(lines: seq<string>): (r: Result<map<string, int>, PipelineError>)
    ensures SelectRows(lines).failure.Some? ==> r.Failure?
    ensures r.Success? ==> r.value.Keys == KeysOf(SelectRows(lines).rows)
  {
    var e := SelectRows(lines);
    match ToMap(e.rows)
    case Failure(err) => Failure(err)
    case Success(m) => if e.failure.Some? then Failure(e.failure.value) else Success(m)
  }

  /**
   * When every record parses, block 12 succeeds exactly when the qualifying
   * records have distinct keys, and then maps each key to its parsed field 1.
   */
  lemma CollectAgesAllParse(lines: seq<string>)
    requires forall i :: 0 <= i < |lines| ==> AgeParses(Fields(lines[i]))
    ensures var rows := Filter(Records(lines), AgeOver15);
            && (CollectAges(lines).Success? <==> DistinctKeys(rows))
            && (CollectAges(lines).Success? ==>
                  CollectAges(lines).value.Keys == KeysOf(rows)
                  && forall i :: 0 <= i < |rows| ==> CollectAges(lines).value[rows[i][0]] == ParseInt(rows[i][1]).value)
            && (CollectAges(lines).Failure? ==> CollectAges(lines).error.DuplicateKey?)
  {
    SelectRowsAllParse(lines);
    var rows := SelectRows(lines).rows;
    ToMapSucceeds(rows);
    if ToMap(rows).Success? {
      ToMapContents(rows);
    }
  }

  /** A record whose field 1 does not parse makes block 12 fail, wherever it is. */
  lemma CollectAgesFailsOnBadAge(lines: seq<string>, k: nat)
    requires k < |lines| && !AgeParses(Fields(lines[k]))
    ensures CollectAges(lines).Failure?
  {
    SelectRowsCompletes(lines);
  }

  // ---------------------------------------------------------------------------
  // Blocks 10-12 on a small data file

  lemma ParseTwoDigits(s: string)
    requires |s| == 2 && IsDigit(s[0]) && IsDigit(s[1])
    ensures ParseInt(s) == Success(10 * DigitValue(s[0]) + DigitValue(s[1]))
  {
    assert AllDigits(s);
    assert s[..1] == [s[0]];
    assert s[..1][..0] == [];
    assert DigitsValue(s[..1]) == DigitValue(s[0]);
    assert DigitsValue(s) == 10 * DigitValue(s[0]) + DigitValue(s[1]);
  }

  /** Blocks 10-12 on any three lines that split as the data file's first three do. */
  lemma ThreeLines(l1: string, l2: string, l3: string)
    requires Fields(l1) == ["B", "17", "2.8"]
    requires Fields(l2) == ["C", "14", "1.9"]
    requires Fields(l3) == ["E", "9"]
    ensures SelectRows([l1, l2, l3]) == Emitted([["B", "17", "2.8"]], None)
    ensures CollectAges([l1, l2, l3]) == Success(map["B" := 17])
  {
    var lines := [l1, l2, l3];
    ParseTwoDigits("17");
    ParseTwoDigits("14");
    assert lines[1..] == [l2, l3] && lines[1..][1..] == [l3] && lines[1..][1..][1..] == [];
    var rows := [["B", "17", "2.8"]];
    assert SelectRows([l3]) == Emitted([], None) by {
      assert [l3][1..] == [];
    }
    assert SelectRows([l2, l3]) == Emitted([], None) by {
      assert ParseInt(Fields(l2)[1]) == Success(14);
    }
    assert ParseInt(Fields(l1)[1]) == Success(17);
    assert SelectRows(lines) == Emitted(rows, None);
    assert rows[..0] == [];
    assert ToMap(rows) == Success(map["B" := 17]);
  }

  /** Block 10 on the same three lines: two of them are records. */
  lemma ThreeLinesCount(l1: string, l2: string, l3: string)
    requires Fields(l1) == ["B", "17", "2.8"]
    requires Fields(l2) == ["C", "14", "1.9"]
    requires Fields(l3) == ["E", "9"]
    ensures CountRecords([l1, l2, l3]) == 2
  {
    var lines := [l1, l2, l3];
    assert (set i | 0 <= i < |lines| && |Fields(lines[i])| == 3) == {0, 1};
  }

  /**
   * Three lines: a record whose field 1 is over 15, one whose field 1 is not,
   * and a line with two fields. Two records are counted, one row is
   * selected, and the map holds its key.
   */
  lemma SmallDataFile()
    ensures CountRecords(["B,17,2.8", "C,14,1.9", "E,9"]) == 2
    ensures SelectRows(["B,17,2.8", "C,14,1.9", "E,9"]) == Emitted([["B", "17", "2.8"]], None)
    ensures CollectAges(["B,17,2.8", "C,14,1.9", "E,9"]) == Success(map["B" := 17])
  {
    SplitRecord("B", "17", "2.8", ',');
    assert "B,17,2.8" == "B" + [','] + "17" + [','] + "2.8";
    SplitRecord("C", "14", "1.9", ',');
    assert "C,14,1.9" == "C" + [','] + "14" + [','] + "1.9";
    SplitPair("E", "9", ',');
    assert "E,9" == "E" + [','] + "9";
    ThreeLines("B,17,2.8", "C,14,1.9", "E,9");
    ThreeLinesCount("B,17,2.8", "C,14,1.9", "E,9");
  }

  /** Two records with the same key, both over 15: the map cannot be built. */
  lemma DuplicateKeyFails(l1: string, l2: string)
    requires Fields(l1) == ["B", "17", "2.8"]
    requires Fields(l2) == ["B", "20", "3.0"]
    ensures CollectAges([l1, l2]) == Failure(DuplicateKey("B"))
  {
    var lines := [l1, l2];
    ParseTwoDigits("17");
    ParseTwoDigits("20");
    assert lines[1..] == [l2] && lines[1..][1..] == [];
    var rows := [["B", "17", "2.8"], ["B", "20", "3.0"]];
    assert SelectRows([l2]) == Emitted([["B", "20", "3.0"]], None) by {
      assert ParseInt(Fields(l2)[1]) == Success(20);
    }
    assert ParseInt(Fields(l1)[1]) == Success(17);
    assert SelectRows(lines) == Emitted(rows, None);
    assert rows[..1] == [["B", "17", "2.8"]] && rows[..1][..0] == [];
    assert ToMap(rows[..1]) == Success(map["B" := 17]);
  }

  /**
   * A record over 15 and then a record whose field 1 is not a number: block
   * 11 has emitted the first row when it stops, and block 12 fails.
   */
  lemma BadAgeFails(l1: string, l2: string)
    requires Fields(l1) == ["B", "17", "2.8"]
    requires Fields(l2) == ["X", "old", "1.0"]
    ensures SelectRows([l1, l2]) == Emitted([["B", "17", "2.8"]], Some(NumberFormat("old")))
    ensures CollectAges([l1, l2]) == Failure(NumberFormat("old"))
  {
    var lines := [l1, l2];
    ParseTwoDigits("17");
    assert !IsDigit("old"[0]);
    assert ParseInt("old").Failure?;
    assert lines[1..] == [l2];
    assert ParseInt(Fields(l1)[1]) == Success(17);
    var rows := [["B", "17", "2.8"]];
    assert rows[..0] == [];
    assert ToMap(rows) == Success(map["B" := 17]);
  }

  // ---------------------------------------------------------------------------
  // Block 14: summaryStatistics()

  /** Block 14: count=7, sum=203, min=2, max=88 for 7, 2, 19, 88, 73, 4, 10. */
  lemma SummaryExample()
    ensures Summarize([7, 2, 19, 88, 73, 4, 10]) == IntSummary(7, 203, 2, 88)
  {
    assert Summarize([]) == EmptySummary;
    assert [7][..0] == [];
    assert Summarize([7]) == IntSummary(1, 7, 7, 7);
    assert [7, 2][..1] == [7];
    assert Summarize([7, 2]) == IntSummary(2, 9, 2, 7);
    assert [7, 2, 19][..2] == [7, 2];
    assert Summarize([7, 2, 19]) == IntSummary(3, 28, 2, 19);
    assert [7, 2, 19, 88][..3] == [7, 2, 19];
    assert Summarize([7, 2, 19, 88]) == IntSummary(4, 116, 2, 88);
    assert [7, 2, 19, 88, 73][..4] == [7, 2, 19, 88];
    assert Summarize([7, 2, 19, 88, 73]) == IntSummary(5, 189, 2, 88);
    assert [7, 2, 19, 88, 73, 4][..5] == [7, 2, 19, 88, 73];
    assert Summarize([7, 2, 19, 88, 73, 4]) == IntSummary(6, 193, 2, 88);
    assert [7, 2, 19, 88, 73, 4, 10][..6] == [7, 2, 19, 88, 73, 4];
  }
}
