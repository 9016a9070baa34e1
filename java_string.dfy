/**
 * The `java.lang.String` operations the pipelines call: `compareTo` (the
 * natural order used by `sorted()`), `startsWith`, `contains`, `toLowerCase`
 * and `split` on a one-character separator. Characters are compared by code
 * value, as Java compares UTF-16 code units.
 */
module JavaString {

  // ---------------------------------------------------------------------------
  // compareTo and the natural order of strings

  /**
   * `a.compareTo(b)`: at the first position where the strings differ, the
   * difference of the two characters; if one string is a prefix of the other,
   * the difference of the lengths.
   */
  function CompareTo(a: string, b: string): (r: int)
    ensures r == 0 <==> a == b
    decreases |a|
  {
    if |a| == 0 || |b| == 0 then |a| - |b|
    else if a[0] != b[0] then a[0] as int - b[0] as int
    else
      assert a == [a[0]] + a[1..] && b == [b[0]] + b[1..];
      CompareTo(a[1..], b[1..])
  }

  /** `a` comes no later than `b` in the natural order of strings. */
  predicate LessEq(a: string, b: string) {
    CompareTo(a, b) <= 0
  }

  /** Swapping the arguments of compareTo negates the result. */
  lemma {:induction false} CompareToAntisymmetric(a: string, b: string)
    ensures CompareTo(a, b) == -CompareTo(b, a)
    decreases |a|
  {
    if |a| > 0 && |b| > 0 && a[0] == b[0] {
      CompareToAntisymmetric(a[1..], b[1..]);
    }
  }

  lemma LessEqReflexive(a: string)
    ensures LessEq(a, a)
  {
    assert CompareTo(a, a) == 0;
  }

  lemma LessEqTotal(a: string, b: string)
    ensures LessEq(a, b) || LessEq(b, a)
  {
    CompareToAntisymmetric(a, b);
  }

  lemma LessEqAntisymmetric(a: string, b: string)
    requires LessEq(a, b) && LessEq(b, a)
    ensures a == b
  {
    CompareToAntisymmetric(a, b);
  }

  lemma {:induction false} LessEqTransitive(a: string, b: string, c: string)
    requires LessEq(a, b) && LessEq(b, c)
    ensures LessEq(a, c)
    decreases |a|
  {
    if |a| > 0 && |b| > 0 && |c| > 0 && a[0] == b[0] && b[0] == c[0] {
      LessEqTransitive(a[1..], b[1..], c[1..]);
    }
  }

  // ---------------------------------------------------------------------------
  // startsWith, contains

  /** `s.startsWith(prefix)`. */
  predicate StartsWith(s: string, prefix: string)
    ensures StartsWith(s, prefix) <==>
              |prefix| <= |s| && forall i :: 0 <= i < |prefix| ==> s[i] == prefix[i]
  {
    |prefix| <= |s| && s[..|prefix|] == prefix
  }

  /** A one-character prefix is the first character. */
  lemma StartsWithChar(s: string, c: char)
    ensures StartsWith(s, [c]) <==> |s| > 0 && s[0] == c
  {
    if |s| > 0 {
      assert s[..1] == [s[0]];
    }
  }

  /** `s.contains(t)`: `t` starts at some position of `s`. */
  predicate Contains(s: string, t: string)
    ensures Contains(s, t) ==> |t| <= |s|
    ensures t == [] ==> Contains(s, t)
    decreases |s|
  {
    StartsWith(s, t) || (|s| > 0 && Contains(s[1..], t))
  }

  /** Contains is exactly "some suffix of `s` starts with `t`". */
  lemma {:induction false} ContainsAt(s: string, t: string)
    ensures Contains(s, t) <==> exists i :: 0 <= i <= |s| && StartsWith(s[i..], t)
    decreases |s|
  {
    assert s[0..] == s;
    if |s| > 0 {
      ContainsAt(s[1..], t);
      if Contains(s[1..], t) {
        var i :| 0 <= i <= |s[1..]| && StartsWith(s[1..][i..], t);
        assert s[1..][i..] == s[i + 1..];
      }
      if i :| 0 <= i <= |s| && StartsWith(s[i..], t) {
        if i > 0 {
          assert s[1..][i - 1..] == s[i..];
        }
      }
    }
  }

  // ---------------------------------------------------------------------------
  // toLowerCase, restricted to ASCII letters

  predicate IsUpper(c: char) {
    'A' <= c <= 'Z'
  }

  function LowerChar(c: char): (d: char)
    ensures !IsUpper(d)
    ensures !IsUpper(c) ==> d == c
    ensures IsUpper(c) ==> d as int == c as int + 32
  {
    if IsUpper(c) then (c as int + 32) as char else c
  }

  /** `s.toLowerCase()` for ASCII text: every capital letter replaced by its small letter. */
  function ToLowerCase(s: string): (r: string)
    ensures |r| == |s|
    ensures forall i :: 0 <= i < |s| ==> r[i] == LowerChar(s[i])
  {
    seq(|s|, i requires 0 <= i < |s| => LowerChar(s[i]))
  }

  /** Lowercasing a lowercased string changes nothing more. */
  lemma ToLowerCaseIdempotent(s: string)
    ensures ToLowerCase(ToLowerCase(s)) == ToLowerCase(s)
    ensures forall i :: 0 <= i < |s| ==> !IsUpper(ToLowerCase(s)[i])
  {
  }

  // ---------------------------------------------------------------------------
  // split on a one-character separator

  /**
   * The pieces of `s` between occurrences of `sep`, empty ones included:
   * at least one, and none of them holds the separator.
   */
  function Pieces(s: string, sep: char): (r: seq<string>)
    ensures |r| > 0
    ensures forall i :: 0 <= i < |r| ==> sep !in r[i]
    decreases |s|
  {
    if s == [] then [""]
    else
      var rest := Pieces(s[1..], sep);
      assert s == [s[0]] + s[1..];
      if s[0] == sep then [""] + rest
      else [[s[0]] + rest[0]] + rest[1..]
  }

  /** `String.join(sep, pieces)`. */
  function Join(pieces: seq<string>, sep: char): string
    requires |pieces| > 0
  {
    if |pieces| == 1 then pieces[0]
    else pieces[0] + [sep] + Join(pieces[1..], sep)
  }

  /** There is one more piece than `s` has separators. */
  lemma {:induction false} PiecesCount(s: string, sep: char)
    ensures |Pieces(s, sep)| == multiset(s)[sep] + 1
    decreases |s|
  {
    if s != [] {
      PiecesCount(s[1..], sep);
      assert s == [s[0]] + s[1..];
      assert multiset(s) == multiset{s[0]} + multiset(s[1..]);
    }
  }

  /** Joining the pieces with the separator gives back the original string. */
  lemma {:induction false} JoinPieces(s: string, sep: char)
    ensures Join(Pieces(s, sep), sep) == s
    decreases |s|
  {
    if s != [] {
      var rest := Pieces(s[1..], sep);
      JoinPieces(s[1..], sep);
      if s[0] == sep {
        assert ([""] + rest)[1..] == rest;
      } else {
        var r := [[s[0]] + rest[0]] + rest[1..];
        if |rest| == 1 {
          assert r == [[s[0]] + rest[0]];
        } else {
          assert r[1..] == rest[1..];
          assert Join(rest, sep) == rest[0] + [sep] + Join(rest[1..], sep);
        }
      }
    }
  }

  /** A string without the separator is a single piece. */
  lemma {:induction false} PiecesOfPiece(w: string, sep: char)
    requires sep !in w
    ensures Pieces(w, sep) == [w]
    decreases |w|
  {
    if w != [] {
      PiecesOfPiece(w[1..], sep);
      assert w == [w[0]] + w[1..];
    }
  }

  /** A separator-free piece followed by the separator splits off as the first piece. */
  lemma {:induction false} PiecesAfterSeparator(w: string, sep: char, rest: string)
    requires sep !in w
    ensures Pieces(w + [sep] + rest, sep) == [w] + Pieces(rest, sep)
    decreases |w|
  {
    var s := w + [sep] + rest;
    if w == [] {
      assert s == [sep] + rest;
      assert s[1..] == rest;
    } else {
      PiecesAfterSeparator(w[1..], sep, rest);
      assert s[1..] == w[1..] + [sep] + rest;
      var tail := Pieces(s[1..], sep);
      assert tail == [w[1..]] + Pieces(rest, sep);
      assert s[0] == w[0] && w[0] != sep;
      assert Pieces(s, sep) == [[w[0]] + tail[0]] + tail[1..];
      assert tail[0] == w[1..] && tail[1..] == Pieces(rest, sep);
      assert [w[0]] + w[1..] == w;
    }
  }

  /** Splitting a join of separator-free pieces gives back the pieces. */
  lemma {:induction false} PiecesJoin(pieces: seq<string>, sep: char)
    requires |pieces| > 0
    requires forall i :: 0 <= i < |pieces| ==> sep !in pieces[i]
    ensures Pieces(Join(pieces, sep), sep) == pieces
    decreases |pieces|
  {
    if |pieces| == 1 {
      PiecesOfPiece(pieces[0], sep);
    } else {
      PiecesJoin(pieces[1..], sep);
      PiecesAfterSeparator(pieces[0], sep, Join(pieces[1..], sep));
      assert pieces == [pieces[0]] + pieces[1..];
    }
  }

  /**
   * Drops the empty strings at the end of `pieces`: the result is the
   * longest prefix that does not end in an empty string.
   */
  function DropTrailingEmpty(pieces: seq<string>): (r: seq<string>)
    ensures |r| <= |pieces| && r == pieces[..|r|]
    ensures r == [] || r[|r| - 1] != ""
    ensures forall i :: |r| <= i < |pieces| ==> pieces[i] == ""
  {
    if pieces == [] || pieces[|pieces| - 1] != "" then pieces
    else DropTrailingEmpty(pieces[..|pieces| - 1])
  }

  /**
   * `s.split(sep)` for a separator that is not a regular-expression
   * metacharacter (limit 0): a string without the separator is its own single
   * field (even the empty string); otherwise the pieces, with trailing empty
   * pieces removed.
   */
  function Split(s: string, sep: char): (r: seq<string>)
    ensures forall i :: 0 <= i < |r| ==> sep !in r[i]
  {
    if sep !in s then [s] else DropTrailingEmpty(Pieces(s, sep))
  }

  /** The last piece is empty exactly when `s` is empty or ends with the separator. */
  lemma {:induction false} LastPieceEmpty(s: string, sep: char)
    ensures var p := Pieces(s, sep); p[|p| - 1] == "" <==> s == [] || s[|s| - 1] == sep
    decreases |s|
  {
    if s != [] {
      LastPieceEmpty(s[1..], sep);
      var rest := Pieces(s[1..], sep);
      if s[0] != sep && |rest| == 1 {
        assert Pieces(s, sep) == [[s[0]] + rest[0]];
      }
    }
  }

  /**
   * A string that does not end with the separator loses nothing to the
   * trailing-empty rule: its split is all of its pieces, and joining the
   * fields gives the string back.
   */
  lemma SplitKeepsAllPieces(s: string, sep: char)
    requires s == [] || s[|s| - 1] != sep
    requires s != [] || sep !in s
    ensures Split(s, sep) == Pieces(s, sep)
    ensures Join(Split(s, sep), sep) == s
  {
    JoinPieces(s, sep);
    if sep !in s {
      PiecesOfPiece(s, sep);
    } else {
      LastPieceEmpty(s, sep);
    }
  }

  /**
   * Splitting a join of two or more separator-free pieces gives back the
   * pieces without their trailing empty ones.
   */
  lemma SplitJoin(pieces: seq<string>, sep: char)
    requires |pieces| >= 2
    requires forall i :: 0 <= i < |pieces| ==> sep !in pieces[i]
    ensures Split(Join(pieces, sep), sep) == DropTrailingEmpty(pieces)
  {
    PiecesJoin(pieces, sep);
    var s := Join(pieces, sep);
    assert s == pieces[0] + [sep] + Join(pieces[1..], sep);
    assert s[|pieces[0]|] == sep;
  }

  /** A trailing separator adds no field: "a,b," has two fields. */
  lemma SplitDropsTrailingField()
    ensures Split("a,b,", ',') == ["a", "b"]
  {
    var p := ["a", "b", ""];
    assert p[1..] == ["b", ""] && p[1..][1..] == [""];
    assert Join(p[1..], ',') == "b,";
    assert Join(p, ',') == "a,b,";
    SplitJoin(p, ',');
    assert DropTrailingEmpty(p) == ["a", "b"] by {
      assert p[..2] == ["a", "b"];
    }
  }

  /** An empty field in the middle is kept: "a,,b" has three fields. */
  lemma SplitKeepsInnerEmptyField()
    ensures Split("a,,b", ',') == ["a", "", "b"]
  {
    var p := ["a", "", "b"];
    assert p[1..] == ["", "b"] && p[1..][1..] == ["b"];
    assert Join(p[1..], ',') == ",b";
    assert Join(p, ',') == "a,,b";
    SplitJoin(p, ',');
  }

  /** The empty line has one (empty) field, a line of separators has none. */
  lemma SplitEmptyAndSeparatorsOnly()
    ensures Split("", ',') == [""]
    ensures Split(",,", ',') == []
  {
    var p := ["", "", ""];
    assert p[1..] == ["", ""] && p[1..][1..] == [""];
    assert Join(p[1..], ',') == ",";
    SplitJoin(p, ',');
    assert DropTrailingEmpty(p) == [] by {
      assert p[..2] == ["", ""];
      assert p[..2][..1] == [""];
      assert p[..2][..1][..0] == [];
    }
  }

  /** Two separator-free fields, the second non-empty, split back apart. */
  lemma SplitPair(a: string, b: string, sep: char)
    requires sep !in a && sep !in b && b != ""
    ensures Split(a + [sep] + b, sep) == [a, b]
  {
    var p := [a, b];
    assert p[1..] == [b];
    assert Join(p, sep) == a + [sep] + b;
    SplitJoin(p, sep);
  }

  /** A record of three separator-free fields, the last non-empty, splits into its fields. */
  lemma SplitRecord(a: string, b: string, c: string, sep: char)
    requires sep !in a && sep !in b && sep !in c && c != ""
    ensures Split(a + [sep] + b + [sep] + c, sep) == [a, b, c]
  {
    var p := [a, b, c];
    assert p[1..] == [b, c] && p[1..][1..] == [c];
    assert Join(p[1..], sep) == b + [sep] + c;
    assert Join(p, sep) == a + [sep] + b + [sep] + c;
    SplitJoin(p, sep);
  }
}
