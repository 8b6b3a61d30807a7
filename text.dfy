/** String operations of the Swift standard library and Foundation that the
    form parser and the file middleware rely on, over `string == seq<char>`
    (one `char` per Swift `Character`). */
module Text {

  /** Index of the first occurrence of `c` in `s`, or `|s|` when there is none. */
  function IndexOf(s: string, c: char): (i: nat)
    ensures i <= |s|
    ensures c !in s[..i]
    ensures i < |s| ==> s[i] == c
    ensures i == |s| <==> c !in s
  {
    if s == [] then 0
    else if s[0] == c then 0
    else 1 + IndexOf(s[1..], c)
  }

  /** `s.hasSuffix(String(c))`. */
  predicate HasSuffix(s: string, c: char) {
    |s| > 0 && s[|s| - 1] == c
  }

  /** `s.hasPrefix(String(c))`. */
  predicate HasPrefix(s: string, c: char) {
    |s| > 0 && s[0] == c
  }

  /** `s` with every occurrence of `c` deleted: what a split loses. */
  function Without(s: string, c: char): (r: string)
    ensures c !in r
  {
    if s == [] then []
    else (if s[0] == c then [] else [s[0]]) + Without(s[1..], c)
  }

  /** Concatenation of all pieces. */
  function Concat(pieces: seq<string>): string {
    if pieces == [] then [] else pieces[0] + Concat(pieces[1..])
  }

  /** The pieces joined with one `sep` between neighbours. */
  function Join(pieces: seq<string>, sep: char): string {
    if pieces == [] then []
    else if |pieces| == 1 then pieces[0]
    else pieces[0] + [sep] + Join(pieces[1..], sep)
  }

  /** The pieces of a split: none is empty and none holds the separator. */
  ghost predicate SplitPieces(pieces: seq<string>, sep: char) {
    forall i :: 0 <= i < |pieces| ==> pieces[i] != [] && sep !in pieces[i]
  }

  /** Swift's `s.split(separator: sep)` with its defaults (`maxSplits: Int.max`,
      `omittingEmptySubsequences: true`): the maximal runs of non-separator
      characters, in order. */
  function Split(s: string, sep: char): (r: seq<string>)
    ensures SplitPieces(r, sep)
    ensures r == [] <==> forall i :: 0 <= i < |s| ==> s[i] == sep
    decreases |s|
  {
    if s == [] then []
    else if s[0] == sep then Split(s[1..], sep)
    else
      var i := IndexOf(s, sep);
      [s[..i]] + Split(s[i..], sep)
  }

  /** Splitting loses the separators and nothing else. */
  lemma {:induction false} SplitKeepsText(s: string, sep: char)
    ensures Concat(Split(s, sep)) == Without(s, sep)
    decreases |s|
  {
    if s == [] {
    } else if s[0] == sep {
      SplitKeepsText(s[1..], sep);
    } else {
      var i := IndexOf(s, sep);
      SplitPiece(s, sep, i);
      SplitKeepsText(s[i..], sep);
      var r := Split(s, sep);
      assert r == [s[..i]] + Split(s[i..], sep);
      assert r[1..] == Split(s[i..], sep);
    }
  }

  /** Removing separators from a separator-free prefix and the rest separately. */
  lemma {:induction false} SplitPiece(s: string, sep: char, i: nat)
    requires i <= |s| && sep !in s[..i]
    ensures Without(s, sep) == s[..i] + Without(s[i..], sep)
    decreases i
  {
    if i > 0 {
      assert s[1..][..i - 1] == s[..i][1..];
      SplitPiece(s[1..], sep, i - 1);
      assert s[1..][i - 1..] == s[i..];
      assert s[..i] == [s[0]] + s[1..][..i - 1];
    }
  }

  /** The first separator after a separator-free prefix is the one right after it. */
  lemma {:induction false} IndexOfAfter(p: string, sep: char, rest: string)
    requires sep !in p
    ensures IndexOf(p + [sep] + rest, sep) == |p|
  {
    if p != [] {
      assert (p + [sep] + rest)[1..] == p[1..] + [sep] + rest;
      IndexOfAfter(p[1..], sep, rest);
    }
  }

  /** Swift's `s.split(separator: sep, maxSplits: 1, omittingEmptySubsequences: false)`:
      the text before and after the FIRST separator, or `s` alone without one. */
  function SplitFirst(s: string, sep: char): (r: seq<string>)
    ensures 1 <= |r| <= 2
    ensures |r| == 1 <==> sep !in s
    ensures |r| == 1 ==> r[0] == s
    ensures |r| == 2 ==> s == r[0] + [sep] + r[1] && sep !in r[0]
  {
    var i := IndexOf(s, sep);
    if i == |s| then [s]
    else
      assert s == s[..i] + [sep] + s[i + 1..];
      [s[..i], s[i + 1..]]
  }

  /** Foundation's `s.replacingOccurrences(of: "+", with: " ")`. */
  function ReplacePlus(s: string): (r: string)
    ensures |r| == |s|
    ensures '+' !in r
    ensures forall i :: 0 <= i < |s| && s[i] != '+' ==> r[i] == s[i]
    ensures forall i :: 0 <= i < |s| && s[i] == '+' ==> r[i] == ' '
  {
    if s == [] then []
    else [if s[0] == '+' then ' ' else s[0]] + ReplacePlus(s[1..])
  }

  /** `sub` occurs in `s` starting at index `i`. */
  predicate OccursAt(s: string, sub: string, i: int) {
    0 <= i <= |s| - |sub| && s[i..i + |sub|] == sub
  }

  /** `s.contains(sub)`: `sub` occurs in `s` as a contiguous run, scanning left to right. */
  function Contains(s: string, sub: string): (b: bool)
    ensures b <==> exists i :: OccursAt(s, sub, i)
    decreases |s|
  {
    if |s| < |sub| then false
    else if s[..|sub|] == sub then assert OccursAt(s, sub, 0); true
    else
      var b := Contains(s[1..], sub);
      assert forall i :: OccursAt(s, sub, i) ==> i > 0 && OccursAt(s[1..], sub, i - 1) by {
        forall i | OccursAt(s, sub, i) ensures i > 0 && OccursAt(s[1..], sub, i - 1) {
          assert s[1..][i - 1..i - 1 + |sub|] == s[i..i + |sub|];
        }
      }
      assert forall j :: OccursAt(s[1..], sub, j) ==> OccursAt(s, sub, j + 1) by {
        forall j | OccursAt(s[1..], sub, j) ensures OccursAt(s, sub, j + 1) {
          assert s[1..][j..j + |sub|] == s[j + 1..j + 1 + |sub|];
        }
      }
      b
  }

  /** Splitting what `Join` built gives back the pieces. */
  lemma {:induction false} SplitJoin(pieces: seq<string>, sep: char)
    requires SplitPieces(pieces, sep)
    ensures Split(Join(pieces, sep), sep) == pieces
  {
    if |pieces| == 1 {
      var p := pieces[0];
      assert IndexOf(p, sep) == |p|;
      assert p[..|p|] == p && p[|p|..] == [];
    } else if |pieces| > 1 {
      SplitBeforeSeparator(pieces[0], sep, Join(pieces[1..], sep));
      SplitJoin(pieces[1..], sep);
      assert pieces == [pieces[0]] + pieces[1..];
    }
  }

  /** The first separator of `a + [sep] + b` is the one after `a` when `a` has none. */
  lemma SplitFirstAt(a: string, sep: char, b: string)
    requires sep !in a
    ensures SplitFirst(a + [sep] + b, sep) == [a, b]
  {
    var s := a + [sep] + b;
    IndexOfAfter(a, sep, b);
    assert s[..|a|] == a && s[|a| + 1..] == b;
  }

  /** A character absent from `s` is absent from every piece of its split. */
  lemma {:induction false} SplitPiecesOmit(s: string, sep: char, c: char)
    requires c !in s
    ensures forall p :: p in Split(s, sep) ==> c !in p
    decreases |s|
  {
    if s != [] {
      if s[0] == sep {
        SplitPiecesOmit(s[1..], sep, c);
      } else {
        var i := IndexOf(s, sep);
        SplitPiecesOmit(s[i..], sep, c);
        assert c !in s[..i];
      }
    }
  }

  /** Replacing `+` changes nothing in text without one. */
  lemma {:induction false} ReplacePlusWithoutPlus(s: string)
    requires '+' !in s
    ensures ReplacePlus(s) == s
  {
    if s != [] {
      ReplacePlusWithoutPlus(s[1..]);
    }
  }

  /** `+` replacement works piecewise. */
  lemma {:induction false} ReplacePlusConcat(a: string, b: string)
    ensures ReplacePlus(a + b) == ReplacePlus(a) + ReplacePlus(b)
  {
    if a != [] {
      assert (a + b)[1..] == a[1..] + b;
      ReplacePlusConcat(a[1..], b);
    }
  }

  /** Replacing `+` neither adds nor removes any character other than `+` and space. */
  lemma {:induction false} ReplacePlusKeeps(s: string, c: char)
    requires c != '+' && c != ' '
    ensures c in ReplacePlus(s) <==> c in s
  {
    if s != [] {
      ReplacePlusKeeps(s[1..], c);
      assert s == [s[0]] + s[1..];
    }
  }

  /** The first separator of `a + rest` is the first one of `a` when `a` has one. */
  lemma {:induction false} IndexOfPrefix(a: string, rest: string, sep: char)
    requires sep in a
    ensures IndexOf(a + rest, sep) == IndexOf(a, sep)
  {
    if a[0] != sep {
      assert (a + rest)[1..] == a[1..] + rest;
      IndexOfPrefix(a[1..], rest, sep);
    }
  }

  /** Splitting cuts at every separator: the pieces on either side of one
      separator are those of the two sides (so doubled, leading and trailing
      separators leave no empty piece). */
  lemma {:induction false} SplitAtSeparator(a: string, sep: char, b: string)
    ensures Split(a + [sep] + b, sep) == Split(a, sep) + Split(b, sep)
    decreases |a|
  {
    if a == [] {
      assert (a + [sep] + b)[1..] == b;
    } else if a[0] == sep {
      assert (a + [sep] + b)[1..] == a[1..] + [sep] + b;
      SplitAtSeparator(a[1..], sep, b);
    } else if sep in a {
      var i := IndexOf(a, sep);
      SplitAtSeparator(a[i..], sep, b);
      SplitFirstPiece(a, sep, b);
    } else {
      SplitLastPiece(a, sep, b);
    }
  }

  /** The first piece of `a + [sep] + b` is that of `a` when `a` holds a separator. */
  lemma SplitFirstPiece(a: string, sep: char, b: string)
    requires a != [] && a[0] != sep && sep in a
    ensures var i := IndexOf(a, sep);
      Split(a + [sep] + b, sep) == [a[..i]] + Split(a[i..] + [sep] + b, sep) &&
      Split(a, sep) == [a[..i]] + Split(a[i..], sep)
  {
    var s := a + [sep] + b;
    var i := IndexOf(a, sep);
    IndexOfPrefix(a, [sep] + b, sep);
    assert s == a + ([sep] + b);
    assert s[..i] == a[..i];
    assert s[i..] == a[i..] + [sep] + b;
  }

  /** The last piece of `a` ends at the separator when `a` holds none. */
  lemma SplitLastPiece(a: string, sep: char, b: string)
    requires a != [] && sep !in a
    ensures Split(a + [sep] + b, sep) == Split(a, sep) + Split(b, sep)
  {
    SplitWhole(a, sep);
    SplitBeforeSeparator(a, sep, b);
  }

  /** A separator-free, non-empty `a` before a separator is one whole piece. */
  lemma SplitBeforeSeparator(a: string, sep: char, b: string)
    requires a != [] && sep !in a
    ensures Split(a + [sep] + b, sep) == [a] + Split(b, sep)
  {
    var s := a + [sep] + b;
    IndexOfAfter(a, sep, b);
    assert s[..|a|] == a;
    assert s[|a|..] == [sep] + b;
    assert ([sep] + b)[1..] == b;
  }

  /** A non-empty text without the separator is a single piece. */
  lemma SplitWhole(s: string, sep: char)
    requires s != [] && sep !in s
    ensures Split(s, sep) == [s]
  {
    SplitJoin([s], sep);
  }
}
