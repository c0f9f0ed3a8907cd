/** The Go `strings` operations the program applies to captured tool output:
    `TrimSpace`, `Split`, `SplitN`, `HasPrefix` (Dafny's prefix operator
    `<=` on sequences), and the two `ReplaceAll` calls. */
module Text {

  /** Go's `unicode.IsSpace`: the ASCII white space characters `\t`, `\n`,
      `\v`, `\f`, `\r` and space, U+0085, U+00A0, and the other code points
      with the Unicode White_Space property. */
  predicate IsSpace(c: char) {
    var n := c as int;
    || c == ' '
    || 9 <= n <= 13
    || n == 0x85 || n == 0xA0 || n == 0x1680
    || 0x2000 <= n <= 0x200A
    || n == 0x2028 || n == 0x2029 || n == 0x202F || n == 0x205F || n == 0x3000
  }

  predicate AllSpace(s: string) {
    forall i :: 0 <= i < |s| ==> IsSpace(s[i])
  }

  /** Drops leading white space. */
  function TrimLeft(s: string): (r: string)
    ensures |r| <= |s|
  {
    if s != [] && IsSpace(s[0]) then TrimLeft(s[1..]) else s
  }

  /** Drops trailing white space. */
  function TrimRight(s: string): (r: string)
    ensures |r| <= |s|
  {
    if s != [] && IsSpace(s[|s| - 1]) then TrimRight(s[..|s| - 1]) else s
  }

  /** Go's `strings.TrimSpace`. */
  function TrimSpace(s: string): (r: string)
    ensures |r| <= |s|
    ensures r != [] ==> !IsSpace(r[0]) && !IsSpace(r[|r| - 1])
  {
    TrimLeftShape(s);
    TrimRightShape(TrimLeft(s));
    TrimRight(TrimLeft(s))
  }

  /** The left trim keeps a suffix, cuts only white space, and leaves a
      text that does not start with white space. */
  lemma {:induction false} TrimLeftShape(s: string)
    ensures var r := TrimLeft(s);
      && r == s[|s| - |r|..]
      && AllSpace(s[..|s| - |r|])
      && (r != [] ==> !IsSpace(r[0]))
    decreases |s|
  {
    if s != [] && IsSpace(s[0]) {
      TrimLeftShape(s[1..]);
      var r := TrimLeft(s);
      assert s[1..][|s| - 1 - |r|..] == s[|s| - |r|..];
      assert s[..|s| - |r|] == [s[0]] + s[1..][..|s| - 1 - |r|];
    }
  }

  /** The right trim keeps a prefix, cuts only white space, and leaves a
      text that does not end with white space. */
  lemma {:induction false} TrimRightShape(s: string)
    ensures var r := TrimRight(s);
      && r == s[..|r|]
      && AllSpace(s[|r|..])
      && (r != [] ==> !IsSpace(r[|r| - 1]))
    decreases |s|
  {
    if s != [] && IsSpace(s[|s| - 1]) {
      var u := s[..|s| - 1];
      TrimRightShape(u);
      var r := TrimRight(s);
      assert u[..|r|] == s[..|r|];
      assert s[|r|..] == u[|r|..] + [s[|s| - 1]];
    }
  }

  /** What trimming keeps: the longest infix of `s` that neither starts nor
      ends with white space, with only white space cut on either side. */
  lemma TrimSpaceInfix(s: string)
    ensures var r := TrimSpace(s);
      && (exists i :: 0 <= i <= |s| - |r| && r == s[i..i + |r|]
                      && AllSpace(s[..i]) && AllSpace(s[i + |r|..]))
      && (r != [] ==> !IsSpace(r[0]) && !IsSpace(r[|r| - 1]))
  {
    var i := TrimSpaceCut(s);
  }

  /** Where `TrimSpace` cuts: the kept text starts at `i`, and only white
      space lies before and after it. */
  lemma TrimSpaceCut(s: string) returns (i: nat)
    ensures var r := TrimSpace(s);
      && i + |r| <= |s| && r == s[i..i + |r|]
      && AllSpace(s[..i]) && AllSpace(s[i + |r|..])
  {
    var left := TrimLeft(s);
    var r := TrimRight(left);
    TrimLeftShape(s);
    TrimRightShape(left);
    i := |s| - |left|;
    assert left == s[i..];
    assert r == s[i..][..|r|] == s[i..i + |r|];
    assert s[i + |r|..] == left[|r|..];
  }

  /** Trimming is idempotent. */
  lemma {:induction false} TrimSpaceIdempotent(s: string)
    ensures TrimSpace(TrimSpace(s)) == TrimSpace(s)
  {
    var t := TrimSpace(s);
    TrimSpaceInfix(s);
    if t != [] {
      assert !IsSpace(t[0]);
      assert TrimLeft(t) == t;
      assert !IsSpace(t[|t| - 1]);
      assert TrimRight(t) == t;
    }
  }

  /** White space added on either side is trimmed away again. */
  lemma {:induction false} TrimSpacePadded(a: string, s: string, b: string)
    requires AllSpace(a) && AllSpace(b)
    ensures TrimSpace(a + s + b) == TrimSpace(s)
  {
    TrimLeftPadded(a, s + b);
    assert a + s + b == a + (s + b);
    var l := TrimLeft(s + b);
    if s != [] && TrimLeft(s) != [] {
      TrimLeftKeeps(s, b);
      assert l == TrimLeft(s) + b;
      TrimRightPadded(TrimLeft(s), b);
    } else {
      TrimLeftAllSpace(s, b);
      assert l == [];
      assert TrimRight(l) == [];
      TrimLeftAllSpace(s, []);
      assert s + [] == s;
    }
  }

  lemma {:induction false} TrimLeftPadded(a: string, s: string)
    requires AllSpace(a)
    ensures TrimLeft(a + s) == TrimLeft(s)
    decreases |a|
  {
    if a != [] {
      assert (a + s)[1..] == a[1..] + s;
      TrimLeftPadded(a[1..], s);
    } else {
      assert a + s == s;
    }
  }

  lemma {:induction false} TrimRightPadded(s: string, b: string)
    requires AllSpace(b)
    ensures TrimRight(s + b) == TrimRight(s)
    decreases |b|
  {
    if b != [] {
      assert (s + b)[..|s + b| - 1] == s + b[..|b| - 1];
      TrimRightPadded(s, b[..|b| - 1]);
    } else {
      assert s + b == s;
    }
  }

  /** Once `s` has something left after trimming its left side, trimming
      the left of `s + b` leaves the same text followed by `b`. */
  lemma {:induction false} TrimLeftKeeps(s: string, b: string)
    requires TrimLeft(s) != []
    ensures TrimLeft(s + b) == TrimLeft(s) + b
    decreases |s|
  {
    assert s != [];
    if IsSpace(s[0]) {
      assert (s + b)[1..] == s[1..] + b;
      TrimLeftKeeps(s[1..], b);
    }
  }

  /** When nothing of `s` survives the left trim, all of `s` is white space. */
  lemma {:induction false} TrimLeftAllSpace(s: string, b: string)
    requires TrimLeft(s) == [] && AllSpace(b)
    ensures TrimLeft(s + b) == []
  {
    TrimLeftShape(s);
    assert AllSpace(s);
    assert AllSpace(s + b);
    TrimLeftPadded(s + b, []);
    assert s + b + [] == s + b;
  }

  /** The left trim stops at a non-space character that follows `s`. */
  lemma {:induction false} TrimLeftBefore(s: string, rest: string)
    requires rest != [] && !IsSpace(rest[0])
    ensures TrimLeft(s + rest) == TrimLeft(s) + rest
    decreases |s|
  {
    if s == [] {
      assert s + rest == rest;
    } else {
      assert (s + rest)[0] == s[0];
      if IsSpace(s[0]) {
        assert (s + rest)[1..] == s[1..] + rest;
        TrimLeftBefore(s[1..], rest);
      }
    }
  }

  /** The right trim stops at a non-space character that precedes `s`. */
  lemma {:induction false} TrimRightAfter(l: string, s: string)
    requires l != [] && !IsSpace(l[|l| - 1])
    ensures TrimRight(l + s) == l + TrimRight(s)
    decreases |s|
  {
    if s == [] {
      assert l + s == l;
    } else {
      assert (l + s)[|l + s| - 1] == s[|s| - 1];
      if IsSpace(s[|s| - 1]) {
        assert (l + s)[..|l + s| - 1] == l + s[..|s| - 1];
        TrimRightAfter(l, s[..|s| - 1]);
      }
    }
  }

  /** Trimming after a left trim is trimming. */
  lemma TrimSpaceOfTrimLeft(s: string)
    ensures TrimSpace(TrimLeft(s)) == TrimSpace(s)
  {
    TrimLeftShape(s);
  }

  /** Trimming after a right trim is trimming. */
  lemma TrimSpaceOfTrimRight(s: string)
    ensures TrimSpace(TrimRight(s)) == TrimSpace(s)
  {
    var r := TrimRight(s);
    TrimRightShape(s);
    assert s == [] + r + s[|r|..];
    TrimSpacePadded([], r, s[|r|..]);
  }

  /** Go's `strings.HasPrefix`. */
  predicate HasPrefix(s: string, prefix: string) {
    prefix <= s
  }

  /** Position of the first `c` in `s`. */
  function IndexOf(s: string, c: char): (i: nat)
    requires c in s
    ensures i < |s| && s[i] == c && c !in s[..i]
  {
    if s[0] == c then 0 else 1 + IndexOf(s[1..], c)
  }

  /** The inverse of `Split`: the parts glued back together with `sep`. */
  function Join(parts: seq<string>, sep: char): string {
    if |parts| == 0 then ""
    else if |parts| == 1 then parts[0]
    else parts[0] + [sep] + Join(parts[1..], sep)
  }

  /** Go's `strings.Split(s, sep)` for a one-character separator: the
      maximal pieces of `s` between separators, so `n` separators give
      `n + 1` pieces and the empty text gives one empty piece. */
  function Split(s: string, sep: char): (parts: seq<string>)
    ensures |parts| >= 1
    ensures |parts| == 1 <==> sep !in s
    decreases |s|
  {
    if sep !in s then [s]
    else
      var i := IndexOf(s, sep);
      [s[..i]] + Split(s[i + 1..], sep)
  }

  /** The pieces of a split join back to the text, and none of them holds
      the separator. */
  lemma {:induction false} SplitPieces(s: string, sep: char)
    ensures Join(Split(s, sep), sep) == s
    ensures forall k :: 0 <= k < |Split(s, sep)| ==> sep !in Split(s, sep)[k]
    decreases |s|
  {
    if sep in s {
      var i := IndexOf(s, sep);
      var rest := Split(s[i + 1..], sep);
      SplitPieces(s[i + 1..], sep);
      GlueFirst(s[..i], rest, sep);
      CutAt(s, i);
      FreeCons(s[..i], rest, sep, |rest|);
      assert Split(s, sep) == [s[..i]] + rest;
    }
  }

  /** A text is its part before `i`, its character at `i`, and its part
      after `i`. */
  lemma CutAt(s: string, i: nat)
    requires i < |s|
    ensures s == s[..i] + [s[i]] + s[i + 1..]
  {
  }

  /** Joining a first piece onto a non-empty list of pieces. */
  lemma GlueFirst(a: string, rest: seq<string>, sep: char)
    requires rest != []
    ensures Join([a] + rest, sep) == a + [sep] + Join(rest, sep)
  {
    assert ([a] + rest)[1..] == rest;
  }

  /** Prepending a separator-free piece to pieces whose first `m` are
      separator-free gives pieces whose first `m + 1` are. */
  lemma FreeCons(a: string, rest: seq<string>, sep: char, m: nat)
    requires sep !in a && m <= |rest|
    requires forall k :: 0 <= k < m ==> sep !in rest[k]
    ensures forall k :: 0 <= k < m + 1 ==> sep !in ([a] + rest)[k]
  {
    forall k | 0 <= k < m + 1 ensures sep !in ([a] + rest)[k] {
      if k > 0 {
        assert ([a] + rest)[k] == rest[k - 1];
      }
    }
  }

  /** Go's `strings.SplitN(s, sep, n)` for `n >= 1`: as `Split`, but at most
      `n` pieces; the last piece is the unsplit remainder and may still
      contain separators. */
  function SplitN(s: string, sep: char, n: nat): (parts: seq<string>)
    requires n >= 1
    ensures 1 <= |parts| <= n
    decreases n
  {
    if n == 1 || sep !in s then [s]
    else
      var i := IndexOf(s, sep);
      [s[..i]] + SplitN(s[i + 1..], sep, n - 1)
  }

  /** The pieces of `SplitN` join back to the text; every piece but the
      last is free of the separator, and so is the last one when fewer than
      `n` pieces come out. */
  lemma {:induction false} SplitNPieces(s: string, sep: char, n: nat)
    requires n >= 1
    ensures SplitNShape(s, sep, n, SplitN(s, sep, n))
    decreases n
  {
    if n > 1 && sep in s {
      SplitNPieces(s[IndexOf(s, sep) + 1..], sep, n - 1);
      SplitNPiecesStep(s, sep, n);
    }
  }

  /** What `SplitNPieces` states about `parts`. */
  predicate SplitNShape(s: string, sep: char, n: nat, parts: seq<string>) {
    && parts != []
    && Join(parts, sep) == s
    && (forall k :: 0 <= k < |parts| - 1 ==> sep !in parts[k])
    && (|parts| < n ==> sep !in parts[|parts| - 1])
  }

  /** The inductive step of `SplitNPieces`: the piece before the first
      separator is put in front. */
  lemma SplitNPiecesStep(s: string, sep: char, n: nat)
    requires n > 1 && sep in s
    requires SplitNShape(s[IndexOf(s, sep) + 1..], sep, n - 1,
                         SplitN(s[IndexOf(s, sep) + 1..], sep, n - 1))
    ensures SplitNShape(s, sep, n, SplitN(s, sep, n))
  {
    var i := IndexOf(s, sep);
    var a := s[..i];
    var rest := SplitN(s[i + 1..], sep, n - 1);
    var parts := SplitN(s, sep, n);
    assert parts == [a] + rest;
    assert Join(parts, sep) == s by {
      GlueFirst(a, rest, sep);
      CutAt(s, i);
    }
    assert forall k :: 0 <= k < |parts| - 1 ==> sep !in parts[k] by {
      FreeCons(a, rest, sep, |rest| - 1);
    }
    assert parts[|parts| - 1] == rest[|rest| - 1];
  }

  /** Number of occurrences of `c` in `s`. */
  function Count(s: string, c: char): nat {
    if s == [] then 0 else (if s[0] == c then 1 else 0) + Count(s[1..], c)
  }

  lemma {:induction false} CountAppend(s: string, t: string, c: char)
    ensures Count(s + t, c) == Count(s, c) + Count(t, c)
    decreases |s|
  {
    if s != [] {
      assert (s + t)[1..] == s[1..] + t;
      CountAppend(s[1..], t, c);
    } else {
      assert s + t == t;
    }
  }

  lemma {:induction false} CountAbsent(s: string, c: char)
    requires c !in s
    ensures Count(s, c) == 0
    decreases |s|
  {
    if s != [] {
      CountAbsent(s[1..], c);
    }
  }

  /** Counting around the first separator. */
  lemma CountAtFirst(s: string, sep: char)
    requires sep in s
    ensures Count(s, sep) == 1 + Count(s[IndexOf(s, sep) + 1..], sep)
  {
    var i := IndexOf(s, sep);
    assert s == s[..i] + ([sep] + s[i + 1..]);
    CountAppend(s[..i], [sep] + s[i + 1..], sep);
    CountAppend([sep], s[i + 1..], sep);
    CountAbsent(s[..i], sep);
  }

  /** The number of pieces `SplitN` makes of a text with `count`
      separators. */
  function Pieces(count: nat, n: nat): nat {
    if count + 1 < n then count + 1 else n
  }

  /** `SplitN(s, sep, n)` yields one piece per separator plus one, but
      never more than `n`. */
  lemma {:induction false} SplitNLength(s: string, sep: char, n: nat)
    requires n >= 1
    ensures |SplitN(s, sep, n)| == Pieces(Count(s, sep), n)
    decreases n, 1
  {
    if n > 1 && sep in s {
      SplitNLengthStep(s, sep, n);
    } else {
      SplitNLengthBase(s, sep, n);
    }
  }

  /** The inductive step of `SplitNLength`: the text holds a separator. */
  lemma {:induction false} SplitNLengthStep(s: string, sep: char, n: nat)
    requires n > 1 && sep in s
    ensures |SplitN(s, sep, n)| == Pieces(Count(s, sep), n)
    decreases n, 0
  {
    var rest := s[IndexOf(s, sep) + 1..];
    SplitNLength(rest, sep, n - 1);
    CountAtFirst(s, sep);
    assert |SplitN(s, sep, n)| == 1 + |SplitN(rest, sep, n - 1)|;
  }

  /** `SplitNLength` when nothing is cut: one piece. */
  lemma SplitNLengthBase(s: string, sep: char, n: nat)
    requires n == 1 || (n > 1 && sep !in s)
    ensures |SplitN(s, sep, n)| == Pieces(Count(s, sep), n)
  {
    if n > 1 {
      CountAbsent(s, sep);
    }
  }

  /** `SplitN(s, sep, n)` yields its full `n` pieces exactly when `s` holds
      at least `n - 1` separators. */
  lemma SplitNFull(s: string, sep: char, n: nat)
    requires n >= 1
    ensures |SplitN(s, sep, n)| == n <==> Count(s, sep) >= n - 1
  {
    SplitNLength(s, sep, n);
  }

  /** When `s` has fewer than `n` pieces to give, `SplitN` is `Split`. */
  lemma {:induction false} SplitNIsSplit(s: string, sep: char, n: nat)
    requires n >= 1 && Count(s, sep) < n
    ensures SplitN(s, sep, n) == Split(s, sep)
    decreases n
  {
    if sep in s {
      var i := IndexOf(s, sep);
      var rest := s[i + 1..];
      CountAtFirst(s, sep);
      assert n > 1;
      assert SplitN(s, sep, n) == [s[..i]] + SplitN(rest, sep, n - 1);
      assert Split(s, sep) == [s[..i]] + Split(rest, sep);
      SplitNIsSplit(rest, sep, n - 1);
    }
  }

  /** `Split` yields one piece more than there are separators. */
  lemma SplitLength(s: string, sep: char)
    ensures |Split(s, sep)| == Count(s, sep) + 1
  {
    SplitNIsSplit(s, sep, Count(s, sep) + 1);
    SplitNLength(s, sep, Count(s, sep) + 1);
  }

  lemma {:induction false} JoinAppend(ps: seq<string>, qs: seq<string>, sep: char)
    requires ps != [] && qs != []
    ensures Join(ps + qs, sep) == Join(ps, sep) + [sep] + Join(qs, sep)
    decreases |ps|
  {
    if |ps| == 1 {
      assert (ps + qs)[1..] == qs;
    } else {
      assert (ps + qs)[1..] == ps[1..] + qs;
      JoinAppend(ps[1..], qs, sep);
    }
  }

  /** `Split` undoes `Join` whenever no piece contains the separator:
      splitting is the unique way to cut a text into separator-free pieces. */
  lemma {:induction false} SplitJoin(ps: seq<string>, sep: char)
    requires ps != []
    requires forall k :: 0 <= k < |ps| ==> sep !in ps[k]
    ensures Split(Join(ps, sep), sep) == ps
    decreases |ps|
  {
    if |ps| > 1 {
      SplitJoin(ps[1..], sep);
      SplitJoinStep(ps, sep);
    }
  }

  /** The inductive step of `SplitJoin`: the first piece is found again
      before the first separator. */
  lemma SplitJoinStep(ps: seq<string>, sep: char)
    requires |ps| > 1
    requires forall k :: 0 <= k < |ps| ==> sep !in ps[k]
    requires Split(Join(ps[1..], sep), sep) == ps[1..]
    ensures Split(Join(ps, sep), sep) == ps
  {
    var a, t := ps[0], Join(ps[1..], sep);
    var s := Join(ps, sep);
    assert s == a + [sep] + t;
    assert sep !in a;
    IndexOfGlued(a, sep, t);
    Glued(a, sep, t);
    assert Split(s, sep) == [a] + Split(t, sep);
    assert ps == [a] + ps[1..];
  }

  /** The parts of `a + [c] + t` on either side of the glue. */
  lemma Glued(a: string, c: char, t: string)
    ensures (a + [c] + t)[..|a|] == a
    ensures (a + [c] + t)[|a|] == c
    ensures (a + [c] + t)[|a| + 1..] == t
  {
  }

  /** The first `c` of `a + [c] + rest`, when `a` has none, is the glue. */
  lemma IndexOfGlued(a: string, c: char, rest: string)
    ensures c in a + [c] + rest
    ensures c !in a ==> IndexOf(a + [c] + rest, c) == |a|
  {
    var s := a + [c] + rest;
    Glued(a, c, rest);
    if c !in a {
      var i := IndexOf(s, c);
      assert s[..|a|] == a;
    }
  }

  /** Splitting distributes over a separator: the pieces of `a`, then the
      pieces of `b`. */
  lemma SplitAppend(a: string, b: string, sep: char)
    ensures Split(a + [sep] + b, sep) == Split(a, sep) + Split(b, sep)
  {
    var pa, pb := Split(a, sep), Split(b, sep);
    var ps := pa + pb;
    SplitPieces(a, sep);
    SplitPieces(b, sep);
    JoinAppend(pa, pb, sep);
    assert Join(ps, sep) == a + [sep] + b;
    FreeAppend(pa, pb, sep);
    SplitJoin(ps, sep);
  }

  /** Two lists of separator-free pieces make one. */
  lemma FreeAppend(ps: seq<string>, qs: seq<string>, sep: char)
    requires forall k :: 0 <= k < |ps| ==> sep !in ps[k]
    requires forall k :: 0 <= k < |qs| ==> sep !in qs[k]
    ensures forall k :: 0 <= k < |ps + qs| ==> sep !in (ps + qs)[k]
  {
    forall k | 0 <= k < |ps + qs| ensures sep !in (ps + qs)[k] {
      if k >= |ps| {
        assert (ps + qs)[k] == qs[k - |ps|];
      }
    }
  }

  /** Go's `strings.ReplaceAll(s, " ", "_")`. */
  function SpacesToUnderscores(s: string): (r: string)
    ensures |r| == |s|
    ensures forall i :: 0 <= i < |s| ==> r[i] == if s[i] == ' ' then '_' else s[i]
    ensures ' ' !in r
  {
    seq(|s|, i requires 0 <= i < |s| => if s[i] == ' ' then '_' else s[i])
  }

  /** Turning spaces into underscores turns the pieces between spaces into
      the pieces between underscores, when the text had no underscore. */
  lemma {:induction false} UnderscoredSplit(s: string)
    requires '_' !in s
    ensures Split(SpacesToUnderscores(s), '_') == Split(s, ' ')
    decreases |s|, 1
  {
    if ' ' !in s {
      UnderscoredNoSpace(s);
    } else {
      UnderscoredAtSpace(s);
    }
  }

  /** `UnderscoredSplit` for a text with a space: the piece before the
      first space, then the rest by induction. */
  lemma {:induction false} UnderscoredAtSpace(s: string)
    requires '_' !in s && ' ' in s
    ensures Split(SpacesToUnderscores(s), '_') == Split(s, ' ')
    decreases |s|, 0
  {
    var a, rest := SpaceCut(s);
    UnderscoredSplit(rest);
    UnderscoredStep(a, rest);
  }

  /** Cutting a text without underscores at its first space: the piece
      before it has neither spaces nor underscores, and the rest has no
      underscores. */
  lemma SpaceCut(s: string) returns (a: string, rest: string)
    requires '_' !in s && ' ' in s
    ensures s == a + [' '] + rest && |rest| < |s|
    ensures ' ' !in a && '_' !in a && '_' !in rest
  {
    var i := IndexOf(s, ' ');
    a, rest := s[..i], s[i + 1..];
    NotInSlices(s, i, '_');
    CutAt(s, i);
  }

  /** A character absent from `s` is absent from both sides of a cut. */
  lemma NotInSlices(s: string, i: nat, c: char)
    requires i < |s| && c !in s
    ensures c !in s[..i] && c !in s[i + 1..]
  {
    assert forall k :: 0 <= k < i ==> s[..i][k] == s[k];
    assert forall k :: i + 1 <= k < |s| ==> s[i + 1..][k - i - 1] == s[k];
  }

  /** `UnderscoredSplit` for a text without spaces: one piece either way. */
  lemma UnderscoredNoSpace(s: string)
    requires ' ' !in s && '_' !in s
    ensures Split(SpacesToUnderscores(s), '_') == Split(s, ' ')
  {
    assert SpacesToUnderscores(s) == s;
  }

  /** The inductive step of `UnderscoredSplit`: a first piece without
      spaces or underscores comes off both splits alike. */
  lemma UnderscoredStep(a: string, rest: string)
    requires ' ' !in a && '_' !in a
    ensures Split(SpacesToUnderscores(a + [' '] + rest), '_') == [a] + Split(SpacesToUnderscores(rest), '_')
    ensures Split(a + [' '] + rest, ' ') == [a] + Split(rest, ' ')
  {
    UnderscoresGlued(a, rest);
    SplitAppend(a, SpacesToUnderscores(rest), '_');
    SplitAppend(a, rest, ' ');
    assert Split(a, '_') == [a];
    assert Split(a, ' ') == [a];
  }

  /** The underscored form of `a`, a space and `rest`, for `a` without spaces. */
  lemma UnderscoresGlued(a: string, rest: string)
    requires ' ' !in a
    ensures SpacesToUnderscores(a + [' '] + rest) == a + ['_'] + SpacesToUnderscores(rest)
  {
    var s, v := a + [' '] + rest, SpacesToUnderscores(rest);
    var u, w := SpacesToUnderscores(s), a + ['_'] + v;
    assert |u| == |w|;
    forall k | 0 <= k < |u| ensures u[k] == w[k] {
      if k < |a| {
        assert s[k] == a[k];
      } else if k > |a| {
        assert s[k] == rest[k - |a| - 1];
      }
    }
  }

  /** Go's `strings.ReplaceAll(s, "\r\n", "\n")`: one left-to-right pass
      that rewrites every CR LF pair into a single LF. */
  function NormalizeNewlines(s: string): (r: string)
    ensures |r| <= |s|
  {
    if |s| >= 2 && s[0] == '\r' && s[1] == '\n' then
      assert s[1..][1..] == s[2..];
      "\n" + NormalizeNewlines(s[2..])
    else if s == [] then []
    else [s[0]] + NormalizeNewlines(s[1..])
  }

  /** Normalising keeps every line feed: only carriage returns go. */
  lemma {:induction false} NormalizeKeepsLineFeeds(s: string)
    ensures Count(NormalizeNewlines(s), '\n') == Count(s, '\n')
    ensures Count(NormalizeNewlines(s), '\r') <= Count(s, '\r')
    decreases |s|
  {
    if |s| >= 2 && s[0] == '\r' && s[1] == '\n' {
      NormalizeKeepsLineFeeds(s[2..]);
      assert s[1..][1..] == s[2..];
      assert ("\n" + NormalizeNewlines(s[2..]))[1..] == NormalizeNewlines(s[2..]);
    } else if s != [] {
      NormalizeKeepsLineFeeds(s[1..]);
      assert ([s[0]] + NormalizeNewlines(s[1..]))[1..] == NormalizeNewlines(s[1..]);
    }
  }

  /** The Windows line-ending form of `s`: every LF preceded by a CR. */
  function ToCrlf(s: string): string {
    if s == [] then []
    else if s[0] == '\n' then "\r\n" + ToCrlf(s[1..])
    else [s[0]] + ToCrlf(s[1..])
  }

  lemma {:induction false} ToCrlfHead(s: string)
    ensures ToCrlf(s) != [] ==> ToCrlf(s)[0] != '\n'
  {
  }

  /** Normalising undoes the conversion to CR LF line endings, for every
      text, including one that already holds carriage returns. */
  lemma {:induction false} NormalizeToCrlf(s: string)
    ensures NormalizeNewlines(ToCrlf(s)) == s
    decreases |s|
  {
    if s != [] {
      var t := ToCrlf(s[1..]);
      NormalizeToCrlf(s[1..]);
      if s[0] == '\n' {
        assert ToCrlf(s) == "\r\n" + t;
        assert ToCrlf(s)[2..] == t;
      } else {
        ToCrlfHead(s[1..]);
        assert ToCrlf(s) == [s[0]] + t;
        assert ToCrlf(s)[1..] == t;
      }
    }
  }

  /** A line with one trailing CR removed, if it has one. */
  function DropCR(line: string): string {
    if line != [] && line[|line| - 1] == '\r' then line[..|line| - 1] else line
  }

  lemma {:induction false} NormalizeNoNewline(s: string)
    requires '\n' !in s
    ensures NormalizeNewlines(s) == s
    decreases |s|
  {
    if s != [] {
      NormalizeNoNewline(s[1..]);
    }
  }

  /** Normalising a text whose first line is `a` drops at most the CR at
      the end of `a` and goes on after the LF. */
  lemma {:induction false} NormalizeFirstLine(a: string, b: string)
    requires '\n' !in a
    ensures NormalizeNewlines(a + "\n" + b) == DropCR(a) + "\n" + NormalizeNewlines(b)
    decreases |a|
  {
    if a == [] {
      assert a + "\n" + b == ['\n'] + b;
      NormalizeCons('\n', b);
    } else if a == "\r" {
      assert (a + "\n" + b)[2..] == b;
    } else {
      NormalizeFirstLine(a[1..], b);
      NormalizeFirstLineStep(a, b);
    }
  }

  /** The inductive step of `NormalizeFirstLine`: the first character of a
      line other than a lone CR is kept. */
  lemma NormalizeFirstLineStep(a: string, b: string)
    requires '\n' !in a && a != [] && a != "\r"
    requires NormalizeNewlines(a[1..] + "\n" + b) == DropCR(a[1..]) + "\n" + NormalizeNewlines(b)
    ensures NormalizeNewlines(a + "\n" + b) == DropCR(a) + "\n" + NormalizeNewlines(b)
  {
    var t := a[1..] + "\n" + b;
    assert a == [a[0]] + a[1..];
    ConcatAssoc([a[0]], a[1..], "\n");
    ConcatAssoc([a[0]], a[1..] + "\n", b);
    assert a[0] == '\r' ==> a[1..] != [] && t[0] == a[1];
    NormalizeCons(a[0], t);
    DropCRCons(a);
    var d := DropCR(a[1..]);
    ConcatAssoc([a[0]], d, "\n");
    ConcatAssoc([a[0]], d + "\n", NormalizeNewlines(b));
  }

  lemma ConcatAssoc(p: string, q: string, r: string)
    ensures (p + q) + r == p + (q + r)
  {
  }

  /** A character that does not start a CR LF pair is kept as it is. */
  lemma NormalizeCons(c: char, t: string)
    requires c != '\r' || t == [] || t[0] != '\n'
    ensures NormalizeNewlines([c] + t) == [c] + NormalizeNewlines(t)
  {
    assert ([c] + t)[1..] == t;
  }

  /** Dropping the trailing CR of a line longer than a lone CR keeps its
      first character. */
  lemma DropCRCons(a: string)
    requires a != [] && a != "\r"
    ensures DropCR(a) == [a[0]] + DropCR(a[1..])
  {
    if |a| == 1 {
      assert a[1..] == [];
    } else {
      assert a[1..][|a| - 2] == a[|a| - 1];
      if a[|a| - 1] == '\r' {
        assert a[..|a| - 1] == [a[0]] + a[1..][..|a| - 2];
      } else {
        assert a == [a[0]] + a[1..];
      }
    }
  }

  /** Every line but the last with its trailing CR removed. */
  function DropCRs(lines: seq<string>): (r: seq<string>)
    ensures |r| == |lines|
  {
    seq(|lines|, i requires 0 <= i < |lines| =>
      if i < |lines| - 1 then DropCR(lines[i]) else lines[i])
  }

  /** What normalisation does to the lines of a text: the same lines, each
      one that a LF ends losing the CR just before that LF. */
  lemma {:induction false} NormalizeLines(s: string)
    ensures Split(NormalizeNewlines(s), '\n') == DropCRs(Split(s, '\n'))
    decreases |s|
  {
    if '\n' !in s {
      NormalizeNoNewline(s);
    } else {
      var i := IndexOf(s, '\n');
      var a, b := s[..i], s[i + 1..];
      assert s == a + "\n" + b;
      NormalizeFirstLine(a, b);
      NormalizeLines(b);
      SplitAppend(a, b, '\n');
      assert '\n' !in DropCR(a);
      SplitAppend(DropCR(a), NormalizeNewlines(b), '\n');
      assert Split(s, '\n') == [a] + Split(b, '\n');
      DropCRsCons(a, Split(b, '\n'));
    }
  }

  lemma DropCRsCons(a: string, rest: seq<string>)
    requires rest != []
    ensures DropCRs([a] + rest) == [DropCR(a)] + DropCRs(rest)
  {
  }
}
