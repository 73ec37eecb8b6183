/** The NUL-separated string vectors of ltdl.c: a list of non-empty strings packed into one buffer,
    each followed by a NUL. */
module Argz {
  import opened Wrappers
  import opened Sequences

  const EOS: char := '\0'

  // ------------------------------------------------------------------ specification

  /** A C string's characters: no NUL among them. */
  predicate IsText(s: string) { forall i :: 0 <= i < |s| ==> s[i] != EOS }

  predicate Entries(ps: seq<string>) {
    forall i :: 0 <= i < |ps| ==> ps[i] != "" && IsText(ps[i])
  }

  /** The vector holding the entries ps. */
  function Packed(ps: seq<string>): string {
    if ps == [] then "" else ps[0] + [EOS] + Packed(ps[1..])
  }

  /** The non-empty pieces of s between delimiters, in order; `piece` is the one being read. */
  function Pieces(s: string, delim: char, piece: string): seq<string>
    decreases |s|
  {
    if s == "" then (if piece == "" then [] else [piece])
    else if s[0] == delim then (if piece == "" then [] else [piece]) + Pieces(s[1..], delim, "")
    else Pieces(s[1..], delim, piece + [s[0]])
  }

  /** The pieces with one delimiter between neighbours. */
  function Joined(ps: seq<string>, delim: char): string {
    if ps == [] then "" else if |ps| == 1 then ps[0] else ps[0] + [delim] + Joined(ps[1..], delim)
  }

  predicate EndsOpen(s: string, delim: char) { s == "" || s[|s| - 1] == delim }

  /** What is stored for s: its pieces, and an empty entry after them when s is empty or ends in a
      delimiter. */
  function Stored(s: string, delim: char): seq<string> {
    Pieces(s, delim, "") + (if EndsOpen(s, delim) then [""] else [])
  }

  /** The entries of a buffer made of NUL-terminated strings. */
  function Unpacked(buf: string, entry: string): seq<string>
    decreases |buf|
  {
    if buf == "" then []
    else if buf[0] == EOS then [entry] + Unpacked(buf[1..], "")
    else Unpacked(buf[1..], entry + [buf[0]])
  }

  /** Position of the NUL that ends the entry at e. */
  function EndOf(buf: string, e: nat): (r: nat)
    requires e < |buf| && buf[|buf| - 1] == EOS
    ensures e <= r < |buf| && buf[r] == EOS && forall i :: e <= i < r ==> buf[i] != EOS
    decreases |buf| - e
  {
    if buf[e] == EOS then e else EndOf(buf, e + 1)
  }

  /** `argz_next`: the entry after the one at e, or the first entry. */
  function NextEntry(buf: string, entry: Option<nat>): Option<nat>
    requires buf != "" ==> buf[|buf| - 1] == EOS
    requires entry.Some? ==> entry.value < |buf|
  {
    match entry
    case None => if |buf| > 0 then Some(0) else None
    case Some(e) => if EndOf(buf, e) + 1 >= |buf| then None else Some(EndOf(buf, e) + 1)
  }

  // ------------------------------------------------------------------ packing

  lemma {:induction false} PackedConcat(a: seq<string>, b: seq<string>)
    ensures Packed(a + b) == Packed(a) + Packed(b)
    decreases |a|
  {
    if a == [] {
      assert a + b == b;
    } else {
      assert (a + b)[1..] == a[1..] + b;
      PackedConcat(a[1..], b);
    }
  }

  lemma PackedOne(p: string)
    ensures Packed([p]) == p + [EOS] == p + ['\0']
  {
    assert [p][1..] == [];
    assert Packed([p]) == p + [EOS] + Packed([]);
  }

  /** Unpacking undoes packing, whatever the entries. */
  lemma {:induction false} UnpackedPacked(ps: seq<string>)
    requires forall i :: 0 <= i < |ps| ==> IsText(ps[i])
    ensures Unpacked(Packed(ps), "") == ps
    decreases |ps|
  {
    if ps != [] {
      UnpackedText(ps[0], "", [EOS] + Packed(ps[1..]));
      assert ps[0] + [EOS] + Packed(ps[1..]) == ps[0] + ([EOS] + Packed(ps[1..]));
      assert ([EOS] + Packed(ps[1..]))[1..] == Packed(ps[1..]);
      assert "" + ps[0] == ps[0];
      UnpackedPacked(ps[1..]);
    }
  }

  lemma {:induction false} UnpackedText(p: string, entry: string, rest: string)
    requires IsText(p)
    ensures Unpacked(p + rest, entry) == Unpacked(rest, entry + p)
    decreases |p|
  {
    if p == "" {
      assert p + rest == rest && entry + p == entry;
    } else {
      assert (p + rest)[1..] == p[1..] + rest;
      UnpackedText(p[1..], entry + [p[0]], rest);
      assert entry + [p[0]] + p[1..] == entry + p;
    }
  }

  // ------------------------------------------------------------------ pieces

  predicate IsPiece(p: string, delim: char) {
    p != "" && forall i :: 0 <= i < |p| ==> p[i] != delim && p[i] != EOS
  }

  /** Pieces are not empty and contain neither delimiters nor NULs. */
  lemma {:induction false} PiecesAreClean(s: string, delim: char, piece: string)
    requires IsText(s) && (piece == "" || IsPiece(piece, delim))
    ensures forall p :: p in Pieces(s, delim, piece) ==> IsPiece(p, delim)
    decreases |s|
  {
    if s != "" {
      if s[0] == delim {
        PiecesAreClean(s[1..], delim, "");
      } else {
        PiecesAreClean(s[1..], delim, piece + [s[0]]);
      }
    }
  }

  lemma {:induction false} PiecesOfText(p: string, delim: char, piece: string, rest: string)
    requires forall i :: 0 <= i < |p| ==> p[i] != delim
    ensures Pieces(p + rest, delim, piece) == Pieces(rest, delim, piece + p)
    decreases |p|
  {
    if p == "" {
      assert p + rest == rest && piece + p == piece;
    } else {
      assert (p + rest)[1..] == p[1..] + rest;
      PiecesOfText(p[1..], delim, piece + [p[0]], rest);
      assert piece + [p[0]] + p[1..] == piece + p;
    }
  }

  /** Splitting undoes joining. */
  lemma {:induction false} PiecesOfJoined(ps: seq<string>, delim: char)
    requires forall p :: p in ps ==> IsPiece(p, delim)
    ensures Pieces(Joined(ps, delim), delim, "") == ps
    decreases |ps|
  {
    if ps != [] { assert ps[0] in ps; }
    if |ps| == 1 {
      PiecesOfText(ps[0], delim, "", "");
      assert ps[0] + "" == ps[0] && "" + ps[0] == ps[0];
    } else if |ps| > 1 {
      var rest := [delim] + Joined(ps[1..], delim);
      assert Joined(ps, delim) == ps[0] + rest;
      PiecesOfText(ps[0], delim, "", rest);
      assert "" + ps[0] == ps[0] && rest[1..] == Joined(ps[1..], delim);
      assert Pieces(rest, delim, ps[0]) == [ps[0]] + Pieces(rest[1..], delim, "");
      assert forall p :: p in ps[1..] ==> p in ps;
      PiecesOfJoined(ps[1..], delim);
    }
  }

  /** The string with runs of delimiters folded and leading ones dropped; `last` is the character
      before s. */
  function Folded(s: string, delim: char, last: char): string
    decreases |s|
  {
    if s == "" then ""
    else if s[0] == delim && last == delim then Folded(s[1..], delim, last)
    else [s[0]] + Folded(s[1..], delim, s[0])
  }

  /** What splitting and joining makes of a string that does not end in a delimiter. */
  lemma {:induction false} JoinedPiecesAreFolded(s: string, delim: char, piece: string)
    requires piece == "" || IsPiece(piece, delim)
    requires IsText(s) && !EndsOpen(s, delim)
    ensures Joined(Pieces(s, delim, piece), delim) ==
            piece + Folded(s, delim, if piece == "" then delim else piece[|piece| - 1])
    ensures Pieces(s, delim, piece) != []
    decreases |s|
  {
    var rest := s[1..];
    var last := if piece == "" then delim else piece[|piece| - 1];
    PiecesHead(s, delim, piece);
    FoldedHead(s, delim, last);
    if s[0] != delim { PieceGrows(s, delim, piece); }
    hide Pieces, Folded, IsText, IsPiece, Joined, EndsOpen;
    if rest == "" {
      NothingFolded(delim, s[0], piece + [s[0]]);
    } else if s[0] == delim {
      JoinedPiecesAreFolded(rest, delim, "");
      if piece != "" {
        JoinedHead(piece, Pieces(rest, delim, ""), delim);
        Regroup(piece, delim, Folded(rest, delim, delim));
        assert "" + Folded(rest, delim, delim) == Folded(rest, delim, delim);
      }
    } else {
      JoinedPiecesAreFolded(rest, delim, piece + [s[0]]);
      Regroup(piece, s[0], Folded(rest, delim, s[0]));
    }
  }

  lemma PieceGrows(s: string, delim: char, piece: string)
    requires s != "" && IsText(s) && (piece == "" || IsPiece(piece, delim)) && s[0] != delim
    ensures IsPiece(piece + [s[0]], delim)
  {
  }

  lemma PiecesHead(s: string, delim: char, piece: string)
    requires IsText(s) && !EndsOpen(s, delim)
    ensures s[1..] != "" ==> !EndsOpen(s[1..], delim)
    ensures s[1..] == "" ==> s[0] != delim
    ensures IsText(s[1..]) && s[0] != EOS
    ensures Pieces(s, delim, piece) ==
            if s[0] != delim then Pieces(s[1..], delim, piece + [s[0]])
            else if piece == "" then Pieces(s[1..], delim, "") else [piece] + Pieces(s[1..], delim, "")
  {
    if s[1..] != "" { assert s[1..][|s| - 2] == s[|s| - 1]; }
  }

  lemma FoldedHead(s: string, delim: char, last: char)
    requires s != ""
    ensures Folded(s, delim, last) ==
            if s[0] == delim && last == delim then Folded(s[1..], delim, delim)
            else [s[0]] + Folded(s[1..], delim, s[0])
  {
  }

  lemma NothingFolded(delim: char, c: char, piece: string)
    requires piece != ""
    ensures Folded("", delim, c) == "" && Pieces("", delim, piece) == [piece] && Joined([piece], delim) == piece
  {
  }

  lemma JoinedHead(p: string, ps: seq<string>, delim: char)
    requires ps != []
    ensures Joined([p] + ps, delim) == p + [delim] + Joined(ps, delim)
  {
    assert ([p] + ps)[1..] == ps;
  }

  /** Splitting and joining a second time changes nothing. */
  lemma NormalFormIsIdempotent(s: string, delim: char)
    requires IsText(s)
    ensures var n := Joined(Pieces(s, delim, ""), delim);
            Joined(Pieces(n, delim, ""), delim) == n
  {
    PiecesAreClean(s, delim, "");
    PiecesOfJoined(Pieces(s, delim, ""), delim);
  }

  // ------------------------------------------------------------------ the code

  /** `argz_create_sep`: the buffer, and the number of its bytes that are in use. */
  method CreateSep(str: string, delim: char) returns (argz: array<char>, argzLen: nat)
    requires IsText(str)
    ensures fresh(argz) && argzLen <= argz.Length == |str| + 1
    ensures argz[..argzLen] == Packed(Stored(str, delim))
  {
    argzLen := |str| + 1;
    argz := new char[argzLen](_ => EOS);
    var p, q := 0, 0;
    ghost var done: seq<string>, cur: string, out: string := [], "", "";
    SplittingStarts(str, delim);
    hide IsText, Packed, Splitting, Stored;
    while p < |str|
      invariant 0 <= q <= p <= |str| && argzLen == q + 1 + (|str| - p)
      invariant argz[..q] == out
      invariant Splitting(str, delim, p, done, cur, out)
    {
      SplittingStep(str, delim, p, done, cur, out);
      if str[p] == delim {
        if q > 0 && argz[q - 1] != EOS {
          argz[q] := EOS;
          q := q + 1;
          done, cur, out := done + [cur], "", out + [EOS];
        } else {
          argzLen := argzLen - 1;
        }
      } else {
        argz[q] := str[p];
        q := q + 1;
        cur, out := cur + [str[p]], out + [str[p]];
      }
      p := p + 1;
    }
    argz[q] := EOS;
    assert argz[..q + 1] == out + [EOS];
    SplittingEnds(str, delim, done, cur, out);
  }

  /** After p characters: `done` are the pieces completed so far, `cur` is the one being read, and `out`
      what has been written. */
  ghost predicate Splitting(s: string, delim: char, p: nat, done: seq<string>, cur: string, out: string)
    requires p <= |s|
  {
    && Pieces(s, delim, "") == done + Pieces(s[p..], delim, cur)
    && IsText(cur) && (cur == "") == EndsOpen(s[..p], delim)
    && out == Packed(done) + cur && (cur != "") == (out != "" && out[|out| - 1] != EOS)
  }

  lemma SplittingStarts(s: string, delim: char)
    ensures Splitting(s, delim, 0, [], "", "")
  {
    assert s[0..] == s && "" == Packed([]) + "";
  }

  lemma SplittingStep(s: string, delim: char, p: nat, done: seq<string>, cur: string, out: string)
    requires p < |s| && IsText(s) && Splitting(s, delim, p, done, cur, out)
    ensures s[p] != EOS && (out != "" && out[|out| - 1] != EOS <==> cur != "")
    ensures if s[p] != delim then Splitting(s, delim, p + 1, done, cur + [s[p]], out + [s[p]])
            else if cur == "" then Splitting(s, delim, p + 1, done, cur, out)
            else Splitting(s, delim, p + 1, done + [cur], "", out + [EOS])
  {
    PiecesStep(s, delim, p, done, cur);
    TextStep(s, cur, p);
    LastOf(out, s[p]);
    LastOf(out, EOS);
    hide Pieces, Packed, EndsOpen, IsText;
    if s[p] != delim {
      assert Packed(done) + cur + [s[p]] == Packed(done) + (cur + [s[p]]);
    } else if cur != "" {
      Terminated(done, cur);
      assert Packed(done + [cur]) + "" == Packed(done + [cur]);
    }
  }

  lemma LastOf(s: string, c: char)
    ensures s + [c] != "" && (s + [c])[|s + [c]| - 1] == c
  {
  }

  lemma TextStep(s: string, cur: string, p: nat)
    requires p < |s| && IsText(s) && IsText(cur)
    ensures s[p] != EOS && IsText(cur + [s[p]]) && IsText("")
  {
  }

  lemma PiecesStep(s: string, delim: char, p: nat, done: seq<string>, cur: string)
    requires p < |s|
    ensures done + Pieces(s[p..], delim, cur) ==
            if s[p] != delim then done + Pieces(s[p + 1..], delim, cur + [s[p]])
            else if cur == "" then done + Pieces(s[p + 1..], delim, "")
            else done + [cur] + Pieces(s[p + 1..], delim, "")
    ensures EndsOpen(s[..p + 1], delim) == (s[p] == delim)
  {
    assert s[p..][1..] == s[p + 1..] && s[..p + 1][p] == s[p];
    if s[p] == delim && cur != "" {
      assert done + ([cur] + Pieces(s[p + 1..], delim, "")) == done + [cur] + Pieces(s[p + 1..], delim, "");
    }
  }

  lemma SplittingEnds(s: string, delim: char, done: seq<string>, cur: string, out: string)
    requires Splitting(s, delim, |s|, done, cur, out)
    ensures out + [EOS] == Packed(Stored(s, delim))
  {
    assert s[|s|..] == "" && s[..|s|] == s;
    NothingLeft(s, delim, cur);
    assert Stored(s, delim) == done + [cur];
    Terminated(done, cur);
  }

  lemma NothingLeft(s: string, delim: char, cur: string)
    requires (cur == "") == EndsOpen(s, delim)
    ensures Pieces("", delim, cur) + (if EndsOpen(s, delim) then [""] else []) == [cur]
  {
  }

  lemma Terminated(done: seq<string>, cur: string)
    ensures Packed(done) + cur + [EOS] == Packed(done + [cur])
  {
    PackedConcat(done, [cur]);
    PackedOne(cur);
    assert Packed(done) + cur + [EOS] == Packed(done) + (cur + [EOS]);
  }

  /** `argz_next` on a buffer whose last byte is a NUL. */
  method ArgzNext(argz: array<char>, argzLen: nat, entry: Option<nat>) returns (next: Option<nat>)
    requires argzLen <= argz.Length && (argzLen > 0 ==> argz[argzLen - 1] == EOS)
    requires entry.Some? ==> entry.value < argzLen
    ensures next == NextEntry(argz[..argzLen], entry)
  {
    if entry.Some? {
      var e := entry.value;
      while argz[e] != EOS
        invariant entry.value <= e < argzLen
        invariant EndOf(argz[..argzLen], e) == EndOf(argz[..argzLen], entry.value)
        decreases argzLen - e
      {
        e := e + 1;
      }
      e := e + 1;
      next := if e >= argzLen then None else Some(e);
    } else {
      next := if argzLen > 0 then Some(0) else None;
    }
  }

  /** The usual loop over a vector: start from no entry and step with `argz_next` to the end. */
  method Iterate(argz: array<char>, argzLen: nat, ghost ps: seq<string>) returns (entries: seq<string>)
    requires argzLen <= argz.Length && argz[..argzLen] == Packed(ps)
    requires forall i :: 0 <= i < |ps| ==> IsText(ps[i])
    ensures entries == ps
  {
    entries := [];
    ghost var buf := argz[..argzLen];
    ghost var n := 0;
    FirstEntry(buf, ps);
    hide Packed, EndOf, NextEntry, EntryStarts;
    var entry: Option<nat> := ArgzNext(argz, argzLen, None);
    while entry.Some?
      invariant 0 <= n <= |ps| && entries == ps[..n]
      invariant EntryStarts(buf, ps, n, entry)
      decreases |ps| - n
    {
      NextEntryStarts(buf, ps, n, entry.value);
      var text := ReadEntry(argz, argzLen, entry.value);
      entry := ArgzNext(argz, argzLen, entry);
      entries := entries + [text];
      n := n + 1;
    }
    NoEntryLeft(buf, ps, n);
  }

  /** The position, if any, at which entry n of the list packed in the buffer starts. */
  ghost predicate EntryStarts(buf: string, ps: seq<string>, n: nat, entry: Option<nat>) {
    && n <= |ps| && (entry.None? <==> n == |ps|)
    && (entry.Some? ==>
          entry.value < |buf| && buf[entry.value..] == Packed(ps[n..]) && buf[..entry.value] == Packed(ps[..n]))
  }

  lemma FirstEntry(buf: string, ps: seq<string>)
    requires buf == Packed(ps)
    ensures buf != "" ==> buf[|buf| - 1] == EOS
    ensures EntryStarts(buf, ps, 0, NextEntry(buf, None))
  {
    PackedEndsClosed(ps);
    assert ps[0..] == ps && buf[0..] == buf && ps[..0] == [];
  }

  lemma NoEntryLeft(buf: string, ps: seq<string>, n: nat)
    requires EntryStarts(buf, ps, n, None)
    ensures n == |ps| && ps[..n] == ps && ps[n..] == []
  {
  }

  /** The text at entry n, and what `argz_next` gives there. */
  lemma NextEntryStarts(buf: string, ps: seq<string>, n: nat, e: nat)
    requires buf == Packed(ps) && EntryStarts(buf, ps, n, Some(e)) && forall i :: 0 <= i < |ps| ==> IsText(ps[i])
    ensures n < |ps| && e < |buf| && buf[|buf| - 1] == EOS
    ensures buf[e..EndOf(buf, e)] == ps[n]
    ensures EntryStarts(buf, ps, n + 1, NextEntry(buf, Some(e)))
  {
    PackedEndsClosed(ps);
    hide Packed;
    assert ps[n..][0] == ps[n] && ps[n..][1..] == ps[n + 1..];
    EntryAt(buf, e, ps[n..]);
    PrefixGrows(buf, e, EndOf(buf, e), ps, n);
  }

  lemma PrefixGrows(buf: string, b: nat, end: nat, ps: seq<string>, n: nat)
    requires n < |ps| && b <= end < |buf| && buf[..b] == Packed(ps[..n]) && buf[b..end] == ps[n] && buf[end] == EOS
    ensures buf[..end + 1] == Packed(ps[..n + 1])
  {
    Terminated(ps[..n], ps[n]);
    assert ps[..n + 1] == ps[..n] + [ps[n]];
    assert buf[..end + 1] == buf[..b] + buf[b..end] + [buf[end]];
  }

  /** The C string that starts at e. */
  method ReadEntry(argz: array<char>, argzLen: nat, e: nat) returns (text: string)
    requires e < argzLen <= argz.Length && argz[argzLen - 1] == EOS
    ensures text == argz[..argzLen][e..EndOf(argz[..argzLen], e)]
  {
    var i := e;
    while argz[i] != EOS
      invariant e <= i < argzLen && EndOf(argz[..argzLen], i) == EndOf(argz[..argzLen], e)
      decreases argzLen - i
    {
      i := i + 1;
    }
    text := argz[e..i];
  }

  lemma PackedEndsClosed(ps: seq<string>)
    ensures Packed(ps) == "" <==> ps == []
    ensures ps != [] ==> Packed(ps)[|Packed(ps)| - 1] == EOS
  {
    if ps != [] {
      var n := |ps| - 1;
      assert ps == ps[..n] + [ps[n]];
      PackedConcat(ps[..n], [ps[n]]);
      PackedOne(ps[n]);
    }
  }

  /** The entry at e is the first of the list packed from there on, and the rest follows it. */
  lemma EntryAt(buf: string, e: nat, ps: seq<string>)
    requires e < |buf| && buf[e..] == Packed(ps) && ps != [] && buf[|buf| - 1] == EOS
    requires IsText(ps[0])
    ensures var end := EndOf(buf, e);
            && buf[e..end] == ps[0] && buf[end + 1..] == Packed(ps[1..])
            && (end + 1 == |buf| <==> |ps| == 1)
  {
    var m := |ps[0]|;
    assert Packed(ps) == ps[0] + [EOS] + Packed(ps[1..]);
    assert buf[e + m] == buf[e..][m] == EOS;
    forall i | e <= i < e + m ensures buf[i] != EOS {
      assert buf[i] == buf[e..][i - e] == ps[0][i - e];
    }
    assert EndOf(buf, e) == e + m;
    assert buf[e..e + m] == buf[e..][..m] == ps[0];
    assert buf[e + m + 1..] == buf[e..][m + 1..] == Packed(ps[1..]);
    PackedEndsClosed(ps[1..]);
  }

  /** What `argz_stringify` makes of n bytes: inner NULs become separators. */
  function Stringified(buf: string, n: nat, sep: char): (r: string)
    requires n <= |buf|
    ensures |r| == |buf|
  {
    seq(|buf|, i requires 0 <= i < |buf| => if 0 < i < n - 1 && buf[i] == EOS then sep else buf[i])
  }

  const TWO64 := 0x1_0000_0000_0000_0000

  /** `argz_stringify`, whose counter is an unsigned number of 64 bits; `inside` is false when the loop
      looks beyond the buffer. */
  method Stringify(argz: array<char>, argzLen0: nat, sep: char) returns (inside: bool)
    requires argzLen0 <= argz.Length < TWO64 - 2
    modifies argz
    ensures inside <==> sep == EOS || argzLen0 >= 2
    ensures argz[..] == if inside && sep != EOS then Stringified(old(argz[..]), argzLen0, sep) else old(argz[..])
  {
    inside := true;
    if sep != EOS {
      var argzLen := (argzLen0 + TWO64 - 1) % TWO64;
      argzLen := (argzLen + TWO64 - 1) % TWO64;
      while argzLen > 0
        invariant 0 <= argzLen && (argzLen0 >= 2 ==> argzLen <= argzLen0 - 2)
        invariant argzLen0 < 2 ==> argzLen >= TWO64 - 2
        invariant argzLen0 >= 2 ==> forall i :: 0 <= i < argz.Length ==>
          argz[i] == if argzLen < i < argzLen0 - 1 && old(argz[i]) == EOS then sep else old(argz[i])
        invariant argzLen0 < 2 ==> argz[..] == old(argz[..])
      {
        if argzLen >= argz.Length {
          inside := false;
          return;
        }
        if argz[argzLen] == EOS { argz[argzLen] := sep; }
        argzLen := argzLen - 1;
      }
      assert argz[..] == Stringified(old(argz[..]), argzLen0, sep);
    }
  }

  lemma {:induction false} StringifiedPacked(ps: seq<string>, sep: char)
    requires ps != [] && Entries(ps)
    ensures |Packed(ps)| >= 2
    ensures Stringified(Packed(ps), |Packed(ps)|, sep) == Joined(ps, sep) + [EOS]
    decreases |ps|
  {
    var p, rest, buf := ps[0], ps[1..], Packed(ps);
    assert buf == p + [EOS] + Packed(rest);
    if rest != [] {
      StringifiedPacked(rest, sep);
      var tail := Stringified(Packed(rest), |Packed(rest)|, sep);
      assert Packed(rest) == rest[0] + [EOS] + Packed(rest[1..]);
      assert Packed(rest)[0] == rest[0][0] != EOS;
      forall i | 0 <= i < |buf| ensures Stringified(buf, |buf|, sep)[i] == (p + [sep] + tail)[i] {
        if i > |p| { assert buf[i] == Packed(rest)[i - |p| - 1]; }
      }
      assert Stringified(buf, |buf|, sep) == p + [sep] + tail;
      assert p + [sep] + (Joined(rest, sep) + [EOS]) == Joined(ps, sep) + [EOS];
    } else {
      assert buf == p + [EOS];
      assert Stringified(buf, |buf|, sep) == p + [EOS];
    }
  }

  /** Splitting a string that does not end in the delimiter stores exactly its non-empty pieces, and
      making a string of the vector again drops leading delimiters and folds runs. */
  lemma SplitThenStringify(s: string, delim: char)
    requires IsText(s) && !EndsOpen(s, delim)
    ensures Stored(s, delim) == Pieces(s, delim, "")
    ensures var buf := Packed(Stored(s, delim));
            |buf| >= 2 && Stringified(buf, |buf|, delim) == Folded(s, delim, delim) + [EOS]
  {
    var ps := Pieces(s, delim, "");
    assert ps + [] == ps;
    PiecesAreClean(s, delim, "");
    forall i | 0 <= i < |ps| ensures ps[i] != "" && IsText(ps[i]) {
      assert ps[i] in ps;
    }
    JoinedPiecesAreFolded(s, delim, "");
    assert "" + Folded(s, delim, delim) == Folded(s, delim, delim);
    StringifiedPacked(ps, delim);
  }

  /** A vector has an empty entry exactly when the string was empty or ended in the delimiter. */
  lemma EmptyEntryExactly(s: string, delim: char)
    requires IsText(s)
    ensures "" in Unpacked(Packed(Stored(s, delim)), "") <==> EndsOpen(s, delim)
  {
    PiecesAreClean(s, delim, "");
    var ps := Stored(s, delim);
    forall i | 0 <= i < |ps| ensures IsText(ps[i]) {
      if i < |Pieces(s, delim, "")| { assert ps[i] in Pieces(s, delim, ""); }
    }
    UnpackedPacked(ps);
    if EndsOpen(s, delim) { assert ps[|ps| - 1] == ""; }
  }
}
