/**
 The few pieces of java.lang.String that the request matcher relies on:
 `endsWith` for a one-character suffix and `split` on a single literal
 delimiter character with the default limit of 0.

 Java's `split(regex)` with limit 0 first cuts the string at every
 occurrence of the delimiter and then removes all trailing empty pieces;
 an input with no occurrence at all is returned unchanged as a
 one-element array. Hence `"a/b/"` gives `["a", "b"]`, `"/a"` gives
 `["", "a"]`, `""` gives `[""]` and `"/"` gives `[]`.
 */
module JavaString {

  /** `s.endsWith(String.valueOf(c))`: `s` is some string followed by `c`. */
  predicate EndsWith(s: string, c: char)
    ensures EndsWith(s, c) <==> |s| > 0 && s == s[..|s| - 1] + [c]
  {
    |s| > 0 && s[|s| - 1] == c
  }

  /** Position of the first occurrence of `c` in `s`, which must contain it. */
  function IndexOf(s: string, c: char): (i: nat)
    requires c in s
    ensures i < |s| && s[i] == c
    ensures c !in s[..i]
  {
    if s[0] == c then 0
    else
      var j := IndexOf(s[1..], c);
      assert s[..1 + j] == [s[0]] + s[1..][..j];
      1 + j
  }

  /** The pieces glued back together with `d` between neighbours; the inverse of `Pieces`. */
  function Join(pieces: seq<string>, d: char): string {
    if |pieces| == 0 then []
    else if |pieces| == 1 then pieces[0]
    else pieces[0] + [d] + Join(pieces[1..], d)
  }

  /** No piece contains the delimiter. */
  predicate DelimiterFree(pieces: seq<string>, d: char) {
    forall i :: 0 <= i < |pieces| ==> d !in pieces[i]
  }

  /**
   All the pieces between occurrences of `d`, empty ones included: one more
   piece than there are delimiters in `s`.
   */
  function Pieces(s: string, d: char): (r: seq<string>)
    ensures |r| >= 1
    ensures DelimiterFree(r, d)
    ensures Join(r, d) == s
    decreases |s|
  {
    if d in s then
      var i := IndexOf(s, d);
      var rest := Pieces(s[i + 1..], d);
      assert s == s[..i] + [d] + s[i + 1..];
      assert ([s[..i]] + rest)[1..] == rest;
      [s[..i]] + rest
    else
      [s]
  }

  /** Removes every empty piece at the end of the sequence. */
  function DropTrailingEmpty(pieces: seq<string>): (r: seq<string>)
    ensures r <= pieces
    ensures forall j :: |r| <= j < |pieces| ==> pieces[j] == []
    ensures |r| > 0 ==> r[|r| - 1] != []
  {
    if |pieces| > 0 && pieces[|pieces| - 1] == [] then
      DropTrailingEmpty(pieces[..|pieces| - 1])
    else
      pieces
  }

  /** `s.split(d)` for a single literal delimiter character, limit 0. */
  function Split(s: string, d: char): (r: seq<string>)
    ensures SplitShape(s, d, r)
  {
    if d !in s then
      [s]
    else
      var all := Pieces(s, d);
      var r := DropTrailingEmpty(all);
      JoinOfDropTrailingEmpty(all, d);
      r
  }

  /**
   What a limit-0 split promises about its result `r`, independently of how
   it is computed: no piece contains the delimiter; the result is `[""]`
   exactly for the empty input; only that result ends in an empty piece;
   and `s` is the pieces joined by `d` followed by nothing but delimiters.
   `SplitUnique` shows that these conditions pin the result down.
   */
  predicate SplitShape(s: string, d: char, r: seq<string>) {
    && DelimiterFree(r, d)
    && (r == [[]] <==> s == [])
    && (|r| > 0 && r[|r| - 1] == [] ==> s == [])
    && Join(r, d) <= s
    && (forall j :: |Join(r, d)| <= j < |s| ==> s[j] == d)
  }

  lemma {:induction false} JoinSnoc(pieces: seq<string>, x: string, d: char)
    requires |pieces| >= 1
    ensures Join(pieces + [x], d) == Join(pieces, d) + [d] + x
    decreases |pieces|
  {
    if |pieces| == 1 {
      assert (pieces + [x])[1..] == [x];
    } else {
      assert (pieces + [x])[1..] == pieces[1..] + [x];
      JoinSnoc(pieces[1..], x, d);
    }
  }

  /** Dropping trailing empty pieces only removes delimiters from the end of the joined string. */
  lemma {:induction false} JoinOfDropTrailingEmpty(pieces: seq<string>, d: char)
    ensures Join(DropTrailingEmpty(pieces), d) <= Join(pieces, d)
    ensures forall j :: |Join(DropTrailingEmpty(pieces), d)| <= j < |Join(pieces, d)| ==> Join(pieces, d)[j] == d
    decreases |pieces|
  {
    if |pieces| > 0 && pieces[|pieces| - 1] == [] {
      var front := pieces[..|pieces| - 1];
      var kept := Join(DropTrailingEmpty(front), d);
      assert DropTrailingEmpty(pieces) == DropTrailingEmpty(front);
      JoinOfDropTrailingEmpty(front, d);
      if |front| >= 1 {
        var whole := Join(pieces, d);
        assert pieces == front + [[]];
        JoinSnoc(front, [], d);
        assert whole == Join(front, d) + [d];
        forall j | |kept| <= j < |whole|
          ensures whole[j] == d
        {
          if j < |Join(front, d)| {
            assert whole[j] == Join(front, d)[j];
          }
        }
      } else {
        assert pieces == [[]];
      }
    }
  }

  /** A non-empty join whose last piece is non-empty and delimiter-free ends in a non-delimiter. */
  lemma {:induction false} JoinEndsWithLastPiece(pieces: seq<string>, d: char)
    requires |pieces| >= 1 && DelimiterFree(pieces, d)
    requires pieces[|pieces| - 1] != []
    ensures |Join(pieces, d)| > 0
    ensures Join(pieces, d)[|Join(pieces, d)| - 1] != d
    decreases |pieces|
  {
    if |pieces| > 1 {
      JoinEndsWithLastPiece(pieces[1..], d);
    } else {
      assert d !in pieces[0];
    }
  }

  /** The delimiter right after a delimiter-free prefix is the first one. */
  lemma IndexOfAfterPrefix(a: string, b: string, d: char)
    requires d !in a
    ensures d in a + [d] + b
    ensures IndexOf(a + [d] + b, d) == |a|
  {
    var s := a + [d] + b;
    assert s[|a|] == d;
    var i := IndexOf(s, d);
  }

  /** Cutting at the first delimiter: a delimiter-free prefix becomes the first piece. */
  lemma PiecesAfterPrefix(a: string, b: string, d: char)
    requires d !in a
    ensures Pieces(a + [d] + b, d) == [a] + Pieces(b, d)
  {
    var s := a + [d] + b;
    IndexOfAfterPrefix(a, b, d);
    assert s[..|a|] == a;
    assert s[|a| + 1..] == b;
  }

  /** `Pieces` undoes `Join` on delimiter-free pieces. */
  lemma {:induction false} PiecesOfJoin(pieces: seq<string>, d: char)
    requires |pieces| >= 1 && DelimiterFree(pieces, d)
    ensures Pieces(Join(pieces, d), d) == pieces
    decreases |pieces|
  {
    if |pieces| > 1 {
      assert d !in pieces[0];
      PiecesAfterPrefix(pieces[0], Join(pieces[1..], d), d);
      PiecesOfJoin(pieces[1..], d);
      assert pieces == [pieces[0]] + pieces[1..];
    } else {
      assert d !in pieces[0];
    }
  }

  /** The joined string of a result satisfying `SplitShape` is empty or ends in a non-delimiter. */
  lemma ShapeJoinEnd(s: string, d: char, r: seq<string>)
    requires SplitShape(s, d, r)
    ensures |Join(r, d)| == 0 || Join(r, d)[|Join(r, d)| - 1] != d
  {
    if |r| > 0 && r[|r| - 1] != [] {
      JoinEndsWithLastPiece(r, d);
    }
  }

  /**
   Two prefixes of `s` that are each followed only by delimiters, and that
   are each empty or end in a non-delimiter, are the same prefix.
   */
  lemma SamePrefixBeforeDelimiters(s: string, d: char, a: string, b: string)
    requires a <= s && b <= s
    requires forall j :: |a| <= j < |s| ==> s[j] == d
    requires forall j :: |b| <= j < |s| ==> s[j] == d
    requires |a| == 0 || a[|a| - 1] != d
    requires |b| == 0 || b[|b| - 1] != d
    ensures a == b
  {
    if |a| == |b| {
      assert a == s[..|a|] == b;
    }
  }

  /** Two delimiter-free, non-empty piece sequences with the same join are equal. */
  lemma JoinInjective(p: seq<string>, q: seq<string>, d: char)
    requires |p| >= 1 && DelimiterFree(p, d)
    requires |q| >= 1 && DelimiterFree(q, d)
    requires Join(p, d) == Join(q, d)
    ensures p == q
  {
    PiecesOfJoin(p, d);
    PiecesOfJoin(q, d);
  }

  /** `SplitShape` determines the result: `Split` is the only sequence that satisfies it. */
  lemma SplitUnique(s: string, d: char, r: seq<string>)
    requires SplitShape(s, d, r)
    ensures r == Split(s, d)
  {
    var q := Split(s, d);
    ShapeJoinEnd(s, d, r);
    ShapeJoinEnd(s, d, q);
    SamePrefixBeforeDelimiters(s, d, Join(r, d), Join(q, d));
    if |r| >= 1 && |q| >= 1 {
      JoinInjective(r, q, d);
    } else if |r| >= 1 {
      // q is empty, so the joined string is empty and r can only be [""]
      PiecesOfJoin(r, d);
    } else if |q| >= 1 {
      PiecesOfJoin(q, d);
    }
  }

  /**
   `Split` inverts `Join` on the sequences it can produce: delimiter-free,
   non-empty, and with a non-empty last piece.
   */
  lemma SplitOfJoin(pieces: seq<string>, d: char)
    requires |pieces| >= 1 && DelimiterFree(pieces, d)
    requires pieces[|pieces| - 1] != []
    ensures Split(Join(pieces, d), d) == pieces
  {
    JoinEndsWithLastPiece(pieces, d);
    SplitUnique(Join(pieces, d), d, pieces);
  }

  /**
   One more delimiter at the end of a non-empty string does not change its
   split: the extra trailing piece is empty and is dropped.
   */
  lemma SplitIgnoresTrailingDelimiter(s: string, d: char)
    requires s != []
    ensures Split(s + [d], d) == Split(s, d)
  {
    var r := Split(s, d);
    var t := s + [d];
    assert Join(r, d) <= t;
    forall j | |Join(r, d)| <= j < |t|
      ensures t[j] == d
    {
      if j < |s| {
        assert t[j] == s[j];
      }
    }
    SplitUnique(t, d, r);
  }

  /** The limit-0 behaviour on the cases that distinguish it from a plain split. */
  lemma SplitExamples()
    ensures Split("a/b/", '/') == ["a", "b"]
    ensures Split("/a", '/') == ["", "a"]
    ensures Split("", '/') == [""]
    ensures Split("/", '/') == []
    ensures Split("a//", '/') == Split("a/", '/') == ["a"]
  {
    SplitExampleTrailing();
    SplitExampleLeading();
    SplitUnique("/", '/', []);
    SplitExampleDoubleTrailing();
  }

  lemma SplitExampleTrailing()
    ensures Split("a/b/", '/') == ["a", "b"]
  {
    assert Join(["a", "b"], '/') == "a/b";
    SplitOfJoin(["a", "b"], '/');
    SplitIgnoresTrailingDelimiter("a/b", '/');
    assert "a/b" + ['/'] == "a/b/";
  }

  lemma SplitExampleLeading()
    ensures Split("/a", '/') == ["", "a"]
  {
    assert Join(["", "a"], '/') == "/a";
    SplitOfJoin(["", "a"], '/');
  }

  lemma SplitExampleDoubleTrailing()
    ensures Split("a//", '/') == Split("a/", '/') == ["a"]
  {
    SplitOfJoin(["a"], '/');
    SplitIgnoresTrailingDelimiter("a", '/');
    SplitIgnoresTrailingDelimiter("a/", '/');
    assert "a" + ['/'] == "a/";
    assert "a/" + ['/'] == "a//";
  }
}
