/** Python's `s.split(", ")` and `", ".join(pieces)` on strings: the split cuts
    at every occurrence of the separator, scanning left to right. */
module PatternSplit {

  const Sep: string := ", "

  /** The separator starts at index `i` of `s`. */
  predicate SepAt(s: string, i: int) {
    0 <= i && i + 1 < |s| && s[i] == ',' && s[i + 1] == ' '
  }

  predicate HasSep(s: string) {
    exists i | 0 <= i < |s| :: SepAt(s, i)
  }

  /** `s.split(", ")`: never empty, since a string without the separator
      splits into itself. */
  function Split(s: string): (pieces: seq<string>)
    ensures |pieces| >= 1
    decreases |s|
  {
    if |s| < 2 then [s]
    else if SepAt(s, 0) then [""] + Split(s[2..])
    else
      var rest := Split(s[1..]);
      [[s[0]] + rest[0]] + rest[1..]
  }

  /** `", ".join(pieces)`. */
  function Join(pieces: seq<string>): string {
    if |pieces| == 0 then ""
    else if |pieces| == 1 then pieces[0]
    else pieces[0] + Sep + Join(pieces[1..])
  }

  /** Putting a character in front of the first piece puts it in front of the
      joined string. */
  lemma {:induction false} JoinPrependChar(c: char, pieces: seq<string>)
    requires |pieces| >= 1
    ensures Join([[c] + pieces[0]] + pieces[1..]) == [c] + Join(pieces)
  {
    var ps := [[c] + pieces[0]] + pieces[1..];
    if |pieces| > 1 {
      assert ps[1..] == pieces[1..];
      calc {
        Join(ps);
        ps[0] + Sep + Join(ps[1..]);
        ([c] + pieces[0]) + Sep + Join(pieces[1..]);
        [c] + (pieces[0] + Sep + Join(pieces[1..]));
        [c] + Join(pieces);
      }
    }
  }

  /** Round trip: joining the pieces of a split gives back the string. */
  lemma {:induction false} JoinSplit(s: string)
    ensures Join(Split(s)) == s
    decreases |s|
  {
    if |s| < 2 {
    } else if SepAt(s, 0) {
      JoinSplit(s[2..]);
      assert s == Sep + s[2..];
      assert ([""] + Split(s[2..]))[1..] == Split(s[2..]);
    } else {
      JoinSplit(s[1..]);
      JoinPrependChar(s[0], Split(s[1..]));
      assert s == [s[0]] + s[1..];
    }
  }

  /** The first piece of a split is a prefix of the string. */
  lemma {:induction false} SplitFirstIsPrefix(s: string)
    ensures Split(s)[0] <= s
    decreases |s|
  {
    if |s| < 2 {
    } else if SepAt(s, 0) {
    } else {
      SplitFirstIsPrefix(s[1..]);
      assert s == [s[0]] + s[1..];
    }
  }

  /** A separator in a suffix is a separator in the whole string. */
  lemma SepInTail(s: string, k: nat)
    requires k <= |s| && HasSep(s[k..])
    ensures HasSep(s)
  {
    var i :| 0 <= i < |s[k..]| && SepAt(s[k..], i);
    assert s[k..][i] == s[i + k] && s[k..][i + 1] == s[i + k + 1];
    assert SepAt(s, i + k);
  }

  /** No piece of a split contains the separator. */
  lemma {:induction false} SplitPiecesLackSep(s: string)
    ensures forall p :: p in Split(s) ==> !HasSep(p)
    decreases |s|
  {
    if |s| < 2 {
      if HasSep(s) {
        var i :| SepAt(s, i);
      }
    } else if SepAt(s, 0) {
      SplitPiecesLackSep(s[2..]);
      assert !SepAt("", 0);
    } else {
      var rest := Split(s[1..]);
      SplitPiecesLackSep(s[1..]);
      SplitFirstIsPrefix(s[1..]);
      var first := [s[0]] + rest[0];
      forall i | 0 <= i < |first| ensures !SepAt(first, i) {
        if i == 0 {
          if |first| >= 2 {
            assert first[1] == rest[0][0] == s[1];
          }
        } else {
          assert rest[0] in rest;
          assert !SepAt(rest[0], i - 1);
          assert first[i] == rest[0][i - 1];
          if i + 1 < |first| {
            assert first[i + 1] == rest[0][i];
          }
        }
      }
      forall p | p in Split(s) ensures !HasSep(p) {
        if p != first {
          assert p in rest[1..];
        }
      }
    }
  }

  /** A piece without the separator, followed by the separator, splits off as
      exactly one piece. */
  lemma {:induction false} SplitAfterPiece(p: string, t: string)
    requires !HasSep(p)
    ensures Split(p + Sep + t) == [p] + Split(t)
    decreases |p|
  {
    var s := p + Sep + t;
    if |p| == 0 {
      assert s == Sep + t;
      assert SepAt(s, 0);
      assert s[2..] == t;
    } else {
      assert !SepAt(s, 0) by {
        if |p| >= 2 {
          assert !SepAt(p, 0);
        } else {
          assert s[1] == ',';
        }
      }
      if HasSep(p[1..]) {
        SepInTail(p, 1);
      }
      SplitAfterPiece(p[1..], t);
      assert s[1..] == p[1..] + Sep + t;
      assert [p[0]] + p[1..] == p;
    }
  }

  /** A string splits into itself alone exactly when it holds no separator. */
  lemma {:induction false} SplitWholeIffNoSep(s: string)
    ensures Split(s) == [s] <==> !HasSep(s)
    decreases |s|
  {
    if HasSep(s) {
      SplitPiecesLackSep(s);
      assert s in Split(s) ==> !HasSep(s);
    } else if |s| >= 2 {
      assert !SepAt(s, 0);
      if HasSep(s[1..]) {
        SepInTail(s, 1);
      }
      SplitWholeIffNoSep(s[1..]);
      assert [s[0]] + s[1..] == s;
    }
  }

  /** Round trip the other way: pieces that hold no separator are recovered
      by splitting their join. */
  lemma {:induction false} SplitJoin(pieces: seq<string>)
    requires |pieces| >= 1
    requires forall p :: p in pieces ==> !HasSep(p)
    ensures Split(Join(pieces)) == pieces
  {
    if |pieces| == 1 {
      SplitWholeIffNoSep(pieces[0]);
    } else {
      assert pieces[0] in pieces;
      assert forall p :: p in pieces[1..] ==> p in pieces;
      SplitJoin(pieces[1..]);
      SplitAfterPiece(pieces[0], Join(pieces[1..]));
      assert [pieces[0]] + pieces[1..] == pieces;
    }
  }

  /** A string without a comma holds no separator. */
  lemma NoSepWithoutComma(s: string)
    requires forall i | 0 <= i < |s| :: s[i] != ','
    ensures !HasSep(s)
  {
  }

  /** A pattern of two names splits into the two names. */
  lemma SplitTwoNamesExample()
    ensures Split("Ruby, Sapphire") == ["Ruby", "Sapphire"]
  {
    NoSepWithoutComma("Ruby");
    NoSepWithoutComma("Sapphire");
    SplitAfterPiece("Ruby", "Sapphire");
    SplitWholeIffNoSep("Sapphire");
    assert "Ruby" + Sep + "Sapphire" == "Ruby, Sapphire";
  }

  /** A pattern of one name splits into a list of that name. */
  lemma SplitOneNameExample()
    ensures Split("Solo") == ["Solo"]
  {
    NoSepWithoutComma("Solo");
    SplitWholeIffNoSep("Solo");
  }
}
