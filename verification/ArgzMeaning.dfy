/** Laws that determine what splitting, joining, folding and making a string of a vector compute. */
module ArgzMeaning {
  import opened Argz

  // ------------------------------------------------------------------ splitting

  lemma {:induction false} SplitAtDelimiter(a: string, b: string, delim: char, piece: string)
    ensures Pieces(a + [delim] + b, delim, piece) == Pieces(a, delim, piece) + Pieces(b, delim, "")
    decreases |a|
  {
    var s := a + [delim] + b;
    if a == "" {
      assert s[0] == delim && s[1..] == b;
    } else {
      assert s[0] == a[0] && s[1..] == a[1..] + [delim] + b;
      SplitAtDelimiter(a[1..], b, delim, if a[0] == delim then "" else piece + [a[0]]);
    }
  }

  /** Splitting at a delimiter splits what is before and what is behind it; a string without delimiters is
      one piece, and the empty string none. */
  lemma PiecesExactly(a: string, b: string, delim: char)
    ensures Pieces("", delim, "") == []
    ensures a != "" && (forall i :: 0 <= i < |a| ==> a[i] != delim) ==> Pieces(a, delim, "") == [a]
    ensures Pieces(a + [delim] + b, delim, "") == Pieces(a, delim, "") + Pieces(b, delim, "")
  {
    if a != "" && forall i :: 0 <= i < |a| ==> a[i] != delim {
      PiecesOfText(a, delim, "", "");
      assert a + "" == a && "" + a == a;
    }
    SplitAtDelimiter(a, b, delim, "");
  }

  /** What is stored beyond the pieces. */
  lemma StoredExactly(s: string, delim: char)
    ensures s == "" ==> Stored(s, delim) == [""]
    ensures s != "" && s[|s| - 1] == delim ==> Stored(s, delim) == Pieces(s, delim, "") + [""]
    ensures s != "" && s[|s| - 1] != delim ==> Stored(s, delim) == Pieces(s, delim, "")
  {
    hide Pieces;
    PiecesExactly("", "", delim);
  }

  // ------------------------------------------------------------------ joining

  /** One delimiter stands between what is joined. */
  lemma {:induction false} JoinedExactly(ps: seq<string>, qs: seq<string>, p: string, delim: char)
    ensures Joined([p], delim) == p && Joined([], delim) == ""
    ensures ps != [] && qs != [] ==> Joined(ps + qs, delim) == Joined(ps, delim) + [delim] + Joined(qs, delim)
    decreases |ps|
  {
    if ps != [] && qs != [] {
      assert (ps + qs)[1..] == ps[1..] + qs;
      if |ps| == 1 {
        assert ps[1..] == [] && ps[1..] + qs == qs;
      } else {
        JoinedExactly(ps[1..], qs, p, delim);
        JoinedTail(ps[0], Joined(ps[1..], delim), Joined(qs, delim), delim);
      }
    }
  }

  lemma JoinedTail(p: string, x: string, y: string, delim: char)
    ensures p + [delim] + (x + [delim] + y) == p + [delim] + x + [delim] + y
  {
  }

  // ------------------------------------------------------------------ folding

  /** Behind `last`, a folded string has no delimiter next to another. */
  lemma {:induction false} FoldedHasNoRuns(s: string, delim: char, last: char, i: nat)
    requires i < |Folded(s, delim, last)| && Folded(s, delim, last)[i] == delim
    ensures (if i == 0 then last else Folded(s, delim, last)[i - 1]) != delim
    decreases |s|
  {
    if s[0] == delim && last == delim {
      FoldedHasNoRuns(s[1..], delim, last, i);
    } else if i > 0 {
      FoldedHasNoRuns(s[1..], delim, s[0], i - 1);
    }
  }

  lemma {:induction false} FoldingKeepsPieces(s: string, delim: char, last: char, piece: string)
    requires last == delim ==> piece == ""
    ensures Pieces(Folded(s, delim, last), delim, piece) == Pieces(s, delim, piece)
    decreases |s|
  {
    if s != "" {
      var rest := s[1..];
      if s[0] == delim && last == delim {
        FoldingKeepsPieces(rest, delim, last, "");
      } else {
        assert ([s[0]] + Folded(rest, delim, s[0]))[1..] == Folded(rest, delim, s[0]);
        FoldingKeepsPieces(rest, delim, s[0], if s[0] == delim then "" else piece + [s[0]]);
      }
    }
  }

  lemma {:induction false} FoldingKeepsTheEnd(s: string, delim: char, last: char)
    requires Folded(s, delim, last) != ""
    ensures s != "" && Folded(s, delim, last)[|Folded(s, delim, last)| - 1] == s[|s| - 1]
    decreases |s|
  {
    var rest := s[1..];
    if s[0] == delim && last == delim {
      FoldingKeepsTheEnd(rest, delim, last);
    } else if Folded(rest, delim, s[0]) != "" {
      FoldingKeepsTheEnd(rest, delim, s[0]);
    } else {
      NothingLeftToFold(rest, delim, s[0]);
    }
  }

  lemma {:induction false} NothingLeftToFold(s: string, delim: char, last: char)
    requires Folded(s, delim, last) == ""
    ensures s != "" ==> last == delim && s[|s| - 1] == delim
    decreases |s|
  {
    if s != "" { NothingLeftToFold(s[1..], delim, last); }
  }

  /** The folded string has the same pieces and the same last character, and neither begins with a delimiter
      nor has two in a row. */
  lemma FoldedExactly(s: string, delim: char, i: nat)
    ensures var f := Folded(s, delim, delim);
            && Pieces(f, delim, "") == Pieces(s, delim, "")
            && (f != "" ==> f[0] != delim && s != "" && f[|f| - 1] == s[|s| - 1])
            && (i + 1 < |f| ==> !(f[i] == delim && f[i + 1] == delim))
  {
    var f := Folded(s, delim, delim);
    FoldingKeepsPieces(s, delim, delim, "");
    if f != "" { FoldingKeepsTheEnd(s, delim, delim); }
    if f != "" && f[0] == delim { FoldedHasNoRuns(s, delim, delim, 0); }
    if i + 1 < |f| && f[i + 1] == delim { FoldedHasNoRuns(s, delim, delim, i + 1); }
  }

  // ------------------------------------------------------------------ making a string of a vector

  /** Every NUL but those at the first byte and at the last becomes a separator, and nothing else changes. */
  lemma StringifiedExactly(buf: string, n: nat, sep: char, i: nat)
    requires n <= |buf| && i < |buf|
    ensures var c := Stringified(buf, n, sep)[i];
            && (1 <= i && i + 2 <= n && buf[i] == '\0' ==> c == sep)
            && (i == 0 || i + 1 >= n || buf[i] != '\0' ==> c == buf[i])
  {
  }
}
