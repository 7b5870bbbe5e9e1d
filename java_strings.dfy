/**
 * The two java.lang.String operations the task manager relies on, modelled
 * on `seq<char>`: `split` with a literal delimiter (or an alternation of
 * literal delimiters) and the default limit 0, and `trim`.
 */
module JavaStrings {

  /** `p` is a prefix of `s`. */
  predicate StartsWith(s: string, p: string)
  {
    |p| <= |s| && s[..|p|] == p
  }

  /** Delimiters are literal and non-empty (a zero-width match never occurs). */
  predicate ValidDelimiters(ds: seq<string>)
  {
    forall k :: 0 <= k < |ds| ==> |ds[k]| > 0
  }

  /** No delimiter contains a space character. */
  predicate SpaceFree(ds: seq<string>)
  {
    forall k, j :: 0 <= k < |ds| && 0 <= j < |ds[k]| ==> ds[k][j] != ' '
  }

  /** Some delimiter of `ds` occurs somewhere inside `s`. */
  predicate ContainsAny(s: string, ds: seq<string>)
  {
    exists i, k {:trigger StartsWith(s[i..], ds[k])} :: 0 <= i < |s| && 0 <= k < |ds| && StartsWith(s[i..], ds[k])
  }

  /**
   * Length of the delimiter that matches at the start of `s`, trying the
   * alternatives in order as a regular-expression alternation does; 0 when
   * none matches.
   */
  function MatchLength(s: string, ds: seq<string>): (n: nat)
    requires ValidDelimiters(ds)
    ensures n == 0 <==> forall k :: 0 <= k < |ds| ==> !StartsWith(s, ds[k])
    ensures n <= |s|
  {
    if |ds| == 0 then 0
    else if StartsWith(s, ds[0]) then |ds[0]|
    else MatchLength(s, ds[1..])
  }

  /** Alternative `k` matches at the start of `s` and no earlier alternative does. */
  predicate FirstMatchAt(s: string, ds: seq<string>, k: int)
  {
    && 0 <= k < |ds|
    && StartsWith(s, ds[k])
    && forall j :: 0 <= j < k ==> !StartsWith(s, ds[j])
  }

  /**
   * A non-zero match length is the length of the first alternative that
   * matches, as a regular-expression alternation picks it; and some
   * alternative is the first to match exactly when the length is non-zero.
   */
  lemma {:induction false} MatchLengthIsFirstMatch(s: string, ds: seq<string>)
    requires ValidDelimiters(ds)
    ensures MatchLength(s, ds) > 0 <==> exists k :: FirstMatchAt(s, ds, k)
    ensures forall k :: FirstMatchAt(s, ds, k) ==> MatchLength(s, ds) == |ds[k]|
  {
    if |ds| == 0 {
    } else if StartsWith(s, ds[0]) {
      assert FirstMatchAt(s, ds, 0);
      assert forall k :: FirstMatchAt(s, ds, k) ==> k == 0;
    } else {
      var tail := ds[1..];
      MatchLengthIsFirstMatch(s, tail);
      forall k | FirstMatchAt(s, tail, k) ensures FirstMatchAt(s, ds, k + 1) {
        forall j | 0 <= j < k + 1 ensures !StartsWith(s, ds[j]) {
          if j > 0 {
            assert ds[j] == tail[j - 1];
          }
        }
      }
      forall k | FirstMatchAt(s, ds, k) ensures k > 0 && FirstMatchAt(s, tail, k - 1) {
        forall j | 0 <= j < k - 1 ensures !StartsWith(s, tail[j]) {
          assert tail[j] == ds[j + 1];
        }
      }
    }
  }

  /**
   * The pieces between leftmost, non-overlapping delimiter matches, scanning
   * from left to right, before any trailing empty piece is removed. A match
   * at position 0 yields a leading empty piece, a match at the end a
   * trailing one.
   */
  function Pieces(s: string, ds: seq<string>): (r: seq<string>)
    requires ValidDelimiters(ds)
    ensures |r| >= 1
    decreases |s|
  {
    if s == [] then [[]]
    else
      var n := MatchLength(s, ds);
      if n > 0 then [[]] + Pieces(s[n..], ds)
      else
        var rest := Pieces(s[1..], ds);
        [[s[0]] + rest[0]] + rest[1..]
  }

  /** Java's limit-0 rule: trailing empty strings are not part of the result. */
  function DropTrailingEmpty(xs: seq<string>): (r: seq<string>)
    ensures |r| <= |xs| && r == xs[..|r|]
    ensures r == [] || r[|r| - 1] != []
    ensures forall k :: |r| <= k < |xs| ==> xs[k] == []
  {
    if xs == [] then []
    else if xs[|xs| - 1] == [] then DropTrailingEmpty(xs[..|xs| - 1])
    else xs
  }

  /**
   * `s.split(regex)` for a regex that is a literal or an alternation of
   * literals: when nothing matches the result is `[s]` (even for the empty
   * string), otherwise the pieces with trailing empty ones dropped.
   */
  function Split(s: string, ds: seq<string>): (parts: seq<string>)
    requires ValidDelimiters(ds)
    ensures |parts| <= |Pieces(s, ds)|
    ensures parts != [] ==> StartsWith(s, parts[0])
    ensures !ContainsAny(s, ds) ==> parts == [s]
  {
    var pieces := Pieces(s, ds);
    PiecesHeadIsPrefix(s, ds);
    OnePieceIsWhole(s, ds);
    if |pieces| == 1 then pieces else DropTrailingEmpty(pieces)
  }

  /**
   * The scan yields a single piece exactly when no delimiter occurs in the
   * text, and that piece is then the whole text: the "no match found" test
   * of `String.split`.
   */
  lemma {:induction false} OnePieceIsWhole(s: string, ds: seq<string>)
    requires ValidDelimiters(ds)
    ensures |Pieces(s, ds)| == 1 <==> !ContainsAny(s, ds)
    ensures |Pieces(s, ds)| == 1 ==> Pieces(s, ds) == [s]
    decreases |s|
  {
    if s == [] {
    } else if MatchLength(s, ds) > 0 {
      var k :| 0 <= k < |ds| && StartsWith(s, ds[k]);
      assert s[0..] == s;
      assert StartsWith(s[0..], ds[k]);
    } else {
      OnePieceIsWhole(s[1..], ds);
      ContainsAnyShift(s, ds);
      if |Pieces(s[1..], ds)| == 1 {
        assert [s[0]] + s[1..] == s;
      }
    }
  }

  /** With no match at the start, a delimiter occurs in the text exactly when it occurs after the first character. */
  lemma ContainsAnyShift(s: string, ds: seq<string>)
    requires ValidDelimiters(ds) && s != [] && MatchLength(s, ds) == 0
    ensures ContainsAny(s, ds) <==> ContainsAny(s[1..], ds)
  {
    if ContainsAny(s, ds) {
      var i, k :| 0 <= i < |s| && 0 <= k < |ds| && StartsWith(s[i..], ds[k]);
      assert s[0..] == s;
      assert i != 0;
      assert s[1..][i - 1..] == s[i..];
    }
    if ContainsAny(s[1..], ds) {
      var i, k :| 0 <= i < |s[1..]| && 0 <= k < |ds| && StartsWith(s[1..][i..], ds[k]);
      assert s[i + 1..] == s[1..][i..];
    }
  }

  /**
   * When some delimiter occurs, `split` returns the pieces with trailing
   * empty ones dropped: by `DropTrailingEmpty`'s contract, a prefix of the
   * pieces that ends in a non-empty piece, all later pieces being empty.
   */
  lemma SplitWhenMatched(s: string, ds: seq<string>)
    requires ValidDelimiters(ds)
    ensures ContainsAny(s, ds) ==> Split(s, ds) == DropTrailingEmpty(Pieces(s, ds))
  {
    OnePieceIsWhole(s, ds);
  }

  /** When the last piece is not empty, `split` drops nothing. */
  lemma SplitKeepsNonEmptyLast(s: string, ds: seq<string>)
    requires ValidDelimiters(ds)
    requires var pieces := Pieces(s, ds); pieces[|pieces| - 1] != []
    ensures Split(s, ds) == Pieces(s, ds)
  {
  }

  /** A single empty piece at the end, after a non-empty one, is dropped by `split`. */
  lemma SplitDropsEmptyLast(s: string, ds: seq<string>, xs: seq<string>)
    requires ValidDelimiters(ds)
    requires xs != [] && xs[|xs| - 1] != [] && Pieces(s, ds) == xs + [[]]
    ensures Split(s, ds) == xs
  {
    var pieces := xs + [[]];
    assert pieces[..|pieces| - 1] == xs;
  }

  /** The first piece is a prefix of the text. */
  lemma {:induction false} PiecesHeadIsPrefix(s: string, ds: seq<string>)
    requires ValidDelimiters(ds)
    ensures StartsWith(s, Pieces(s, ds)[0])
    decreases |s|
  {
    if s != [] && MatchLength(s, ds) == 0 {
      var rest := Pieces(s[1..], ds);
      PiecesHeadIsPrefix(s[1..], ds);
      assert s[..|rest[0]| + 1] == [s[0]] + s[1..][..|rest[0]|];
    }
  }

  /** The pieces glued back together with `sep` between neighbours. */
  function Join(parts: seq<string>, sep: string): string
  {
    if |parts| == 0 then []
    else if |parts| == 1 then parts[0]
    else parts[0] + sep + Join(parts[1..], sep)
  }

  lemma JoinConsFirst(x: string, y: string, tail: seq<string>, sep: string)
    ensures Join([x + y] + tail, sep) == x + Join([y] + tail, sep)
  {
    if |tail| > 0 {
      assert ([x + y] + tail)[1..] == tail;
      assert ([y] + tail)[1..] == tail;
    }
  }

  /** Splitting on one delimiter loses nothing: joining the pieces with it gives `s` back. */
  lemma {:induction false} JoinPieces(s: string, d: string)
    requires d != []
    ensures Join(Pieces(s, [d]), d) == s
    decreases |s|
  {
    if s != [] {
      if MatchLength(s, [d]) > 0 {
        MatchOfOne(s, d);
        JoinPieces(s[|d|..], d);
        JoinAfterMatch(s, d);
      } else {
        JoinPieces(s[1..], d);
        JoinAfterChar(s, d);
      }
    }
  }

  /** The step of `JoinPieces` where the delimiter starts the string. */
  lemma JoinAfterMatch(s: string, d: string)
    requires d != [] && s != [] && MatchLength(s, [d]) > 0
    requires Join(Pieces(s[|d|..], [d]), d) == s[|d|..]
    ensures Join(Pieces(s, [d]), d) == s
  {
    PiecesAfterDelimiter(s, d);
    JoinEmptyFirst(Pieces(s[|d|..], [d]), d);
    DelimiterThenRest(s, d);
  }

  lemma PiecesAfterDelimiter(s: string, d: string)
    requires d != [] && s != [] && MatchLength(s, [d]) > 0
    ensures Pieces(s, [d]) == [[]] + Pieces(s[|d|..], [d])
  {
    MatchOfOne(s, d);
    PiecesMatchHere(s, [d]);
  }

  lemma DelimiterThenRest(s: string, d: string)
    requires d != [] && MatchLength(s, [d]) > 0
    ensures d + s[|d|..] == s
  {
    MatchOfOne(s, d);
    assert s[..|d|] + s[|d|..] == s;
  }

  /** The step of `JoinPieces` where the first character joins the first piece. */
  lemma JoinAfterChar(s: string, d: string)
    requires d != [] && s != [] && MatchLength(s, [d]) == 0
    requires Join(Pieces(s[1..], [d]), d) == s[1..]
    ensures Join(Pieces(s, [d]), d) == s
  {
    assert s[0..] == s;
    var rest := Pieces(s[1..], [d]);
    PiecesNoMatchHere(s, [d]);
    JoinConsFirst([s[0]], rest[0], rest[1..], d);
    assert [rest[0]] + rest[1..] == rest;
    assert [s[0]] + s[1..] == s;
  }

  /** A single delimiter matches with its own length, and the match is the delimiter. */
  lemma MatchOfOne(s: string, d: string)
    requires d != [] && MatchLength(s, [d]) > 0
    ensures MatchLength(s, [d]) == |d| && s[..|d|] == d
  {
    assert [d][1..] == [];
  }

  lemma JoinEmptyFirst(tail: seq<string>, d: string)
    requires |tail| >= 1
    ensures Join([[]] + tail, d) == d + Join(tail, d)
  {
    var r := [[]] + tail;
    assert r[0] == [] && r[1..] == tail;
  }

  /**
   * When no delimiter matches before position `k`, the first piece runs
   * through `s[..k]` and continues as the first piece of `s[k..]`.
   */
  lemma {:induction false} PiecesSkip(s: string, k: nat, ds: seq<string>)
    requires ValidDelimiters(ds) && k <= |s|
    requires forall i {:trigger MatchLength(s[i..], ds)} :: 0 <= i < k ==> MatchLength(s[i..], ds) == 0
    ensures var tail := Pieces(s[k..], ds); Pieces(s, ds) == [s[..k] + tail[0]] + tail[1..]
  {
    var tail := Pieces(s[k..], ds);
    if k == 0 {
      assert s[k..] == s;
      assert [s[..k] + tail[0]] + tail[1..] == tail by {
        assert s[..k] + tail[0] == tail[0];
      }
    } else {
      assert MatchLength(s[0..], ds) == 0;
      PiecesNoMatchHere(s, ds);
      NoMatchShifts(s, k, ds);
      PiecesSkip(s[1..], k - 1, ds);
      PrependFirst(s, k, tail[0]);
    }
  }

  /** Without a match at its start, a string's first character joins the first piece of the rest. */
  lemma PiecesNoMatchHere(s: string, ds: seq<string>)
    requires ValidDelimiters(ds) && s != [] && MatchLength(s[0..], ds) == 0
    ensures var rest := Pieces(s[1..], ds); Pieces(s, ds) == [[s[0]] + rest[0]] + rest[1..]
  {
    assert s[0..] == s;
  }

  lemma NoMatchShifts(s: string, k: nat, ds: seq<string>)
    requires ValidDelimiters(ds) && 0 < k <= |s|
    requires forall i {:trigger MatchLength(s[i..], ds)} :: 0 <= i < k ==> MatchLength(s[i..], ds) == 0
    ensures forall i {:trigger MatchLength(s[1..][i..], ds)} :: 0 <= i < k - 1 ==> MatchLength(s[1..][i..], ds) == 0
    ensures s[1..][k - 1..] == s[k..]
  {
    forall i | 0 <= i < k - 1 ensures MatchLength(s[1..][i..], ds) == 0 {
      assert s[1..][i..] == s[i + 1..];
    }
  }

  lemma PrependFirst(s: string, k: nat, x: string)
    requires 0 < k <= |s|
    ensures [s[0]] + (s[1..][..k - 1] + x) == s[..k] + x
  {
    assert [s[0]] + s[1..][..k - 1] == s[..k];
  }

  /** A match of length `n` at position `k`, and none before it, closes the first piece at `k`. */
  lemma PiecesCut(s: string, k: nat, ds: seq<string>)
    requires ValidDelimiters(ds) && k < |s|
    requires forall i {:trigger MatchLength(s[i..], ds)} :: 0 <= i < k ==> MatchLength(s[i..], ds) == 0
    requires MatchLength(s[k..], ds) > 0
    ensures Pieces(s, ds) == [s[..k]] + Pieces(s[k + MatchLength(s[k..], ds)..], ds)
  {
    var n := MatchLength(s[k..], ds);
    PiecesSkip(s, k, ds);
    PiecesMatchHere(s[k..], ds);
    DropDrop(s, k, n);
    CloseFirstPiece(s[..k], Pieces(s[k..], ds), Pieces(s[k + n..], ds));
  }

  lemma DropDrop(s: string, k: nat, n: nat)
    requires k + n <= |s|
    ensures s[k..][n..] == s[k + n..]
  {
  }

  lemma CloseFirstPiece(head: string, tail: seq<string>, rest: seq<string>)
    requires tail == [[]] + rest
    ensures [head + tail[0]] + tail[1..] == [head] + rest
  {
    assert head + [] == head;
  }

  /** A match at the start of a string closes an empty first piece. */
  lemma PiecesMatchHere(t: string, ds: seq<string>)
    requires ValidDelimiters(ds) && t != [] && MatchLength(t, ds) > 0
    ensures Pieces(t, ds) == [[]] + Pieces(t[MatchLength(t, ds)..], ds)
  {
  }

  /** With no match anywhere the string is a single piece. */
  lemma PiecesWhole(s: string, ds: seq<string>)
    requires ValidDelimiters(ds)
    requires forall i {:trigger MatchLength(s[i..], ds)} :: 0 <= i < |s| ==> MatchLength(s[i..], ds) == 0
    ensures Pieces(s, ds) == [s]
  {
    var tail := Pieces(s[|s|..], ds);
    assert tail == [[]] by {
      assert s[|s|..] == [];
    }
    assert [s[..|s|] + tail[0]] + tail[1..] == [s] by {
      assert s[..|s|] + [] == s;
    }
    PiecesSkip(s, |s|, ds);
  }

  /**
   * A string that never contains the character every delimiter starts with
   * contains no delimiter.
   */
  lemma NoDelimiterWithoutLeadChar(s: string, ds: seq<string>, c: char)
    requires ValidDelimiters(ds)
    requires forall k :: 0 <= k < |ds| ==> ds[k][0] == c
    requires forall i :: 0 <= i < |s| ==> s[i] != c
    ensures !ContainsAny(s, ds)
  {
    forall i, k | 0 <= i < |s| && 0 <= k < |ds| ensures !StartsWith(s[i..], ds[k]) {
      assert s[i..][0] == s[i];
    }
  }

  /** A string free of every delimiter yields no match at any of its positions. */
  lemma NoMatchInside(x: string, ds: seq<string>)
    requires ValidDelimiters(ds) && !ContainsAny(x, ds)
    ensures forall i {:trigger MatchLength(x[i..], ds)} :: 0 <= i < |x| ==> MatchLength(x[i..], ds) == 0
  {
  }

  /**
   * A space in front of a delimiter-free string, with space-free delimiters,
   * still yields no match: the text after the last delimiter of a command.
   */
  lemma NoMatchAfterSpace(x: string, ds: seq<string>)
    requires ValidDelimiters(ds) && SpaceFree(ds) && !ContainsAny(x, ds)
    ensures forall i {:trigger MatchLength((" " + x)[i..], ds)} :: 0 <= i < |" " + x| ==> MatchLength((" " + x)[i..], ds) == 0
  {
    var s := " " + x;
    forall i, k | 0 <= i < |s| && 0 <= k < |ds| ensures !StartsWith(s[i..], ds[k]) {
      if i == 0 {
        assert ds[k][0] != s[0];
      } else {
        assert s[i..] == x[i - 1..];
      }
    }
  }

  /**
   * In `" " + x + " " + tail` with `x` delimiter-free and delimiters without
   * spaces, no delimiter matches before the position of `tail`: a match
   * would either lie inside `x` or contain one of the two spaces.
   */
  lemma NoMatchInPadded(x: string, tail: string, ds: seq<string>)
    requires ValidDelimiters(ds) && SpaceFree(ds) && !ContainsAny(x, ds)
    ensures var s := " " + x + " " + tail;
      forall i {:trigger MatchLength(s[i..], ds)} :: 0 <= i < |x| + 2 ==> MatchLength(s[i..], ds) == 0
  {
    var s := " " + x + " " + tail;
    forall i, k | 0 <= i < |x| + 2 && 0 <= k < |ds| ensures !StartsWith(s[i..], ds[k]) {
      var p := ds[k];
      if i == 0 {
        assert p[0] != s[0];
      } else if i + |p| <= |x| + 1 {
        assert s[i..][..|p|] == x[i - 1..][..|p|];
        assert !StartsWith(x[i - 1..], p);
      } else if i + |p| <= |s| {
        assert p[|x| + 1 - i] != s[i..][|x| + 1 - i];
      }
    }
  }

  /**
   * Hence the first piece of `" " + x + " " + tail` is everything up to
   * `tail` followed by the first piece of `tail`.
   */
  lemma PiecesPadded(x: string, tail: string, ds: seq<string>)
    requires ValidDelimiters(ds) && SpaceFree(ds) && !ContainsAny(x, ds)
    ensures var t := Pieces(tail, ds);
      Pieces(" " + x + " " + tail, ds) == [" " + x + " " + t[0]] + t[1..]
  {
    var s := " " + x + " " + tail;
    NoMatchInPadded(x, tail, ds);
    PiecesSkip(s, |x| + 2, ds);
    assert s[|x| + 2..] == tail;
    assert s[..|x| + 2] == " " + x + " ";
  }

  /** Characters `String.trim` removes: every code point up to U+0020. */
  predicate TrimsAway(c: char)
  {
    c <= ' '
  }

  /** Neither end of `s` is a character `trim` would remove. */
  predicate NoOuterSpace(s: string)
  {
    s == [] || (!TrimsAway(s[0]) && !TrimsAway(s[|s| - 1]))
  }

  /** Every character of `s` is one `trim` removes. */
  predicate AllTrimmable(s: string)
  {
    forall i :: 0 <= i < |s| ==> TrimsAway(s[i])
  }

  /** `trim`'s first loop: from `st`, skip characters it removes. */
  function TrimStart(s: string, st: nat): (r: nat)
    requires st <= |s|
    ensures st <= r <= |s|
    ensures forall k :: st <= k < r ==> TrimsAway(s[k])
    ensures r < |s| ==> !TrimsAway(s[r])
    decreases |s| - st
  {
    if st < |s| && TrimsAway(s[st]) then TrimStart(s, st + 1) else st
  }

  /** `trim`'s second loop: from `len`, drop removable characters at the back, not past `st`. */
  function TrimEnd(s: string, st: nat, len: nat): (r: nat)
    requires st <= len <= |s|
    ensures st <= r <= len
    ensures forall k :: r <= k < len ==> TrimsAway(s[k])
    ensures st < r ==> !TrimsAway(s[r - 1])
    decreases len
  {
    if st < len && TrimsAway(s[len - 1]) then TrimEnd(s, st, len - 1) else len
  }

  /**
   * `String.trim`: the slice of `s` left after removing every character at
   * or below U+0020 from both ends; neither end of the result is such a
   * character and everything cut off is.
   */
  function Trim(s: string): (r: string)
    ensures NoOuterSpace(r)
    ensures exists i :: 0 <= i <= |s| - |r| && r == s[i..i + |r|] && AllTrimmable(s[..i]) && AllTrimmable(s[i + |r|..])
  {
    var st := TrimStart(s, 0);
    var len := TrimEnd(s, st, |s|);
    TrimCuts(s, st, len);
    s[st..len]
  }

  /** The slice between the two loop bounds, and what lies outside it. */
  lemma TrimCuts(s: string, st: nat, len: nat)
    requires st == TrimStart(s, 0) && len == TrimEnd(s, st, |s|)
    ensures AllTrimmable(s[..st]) && AllTrimmable(s[len..]) && NoOuterSpace(s[st..len])
  {
    assert AllTrimmable(s[..st]) by {
      forall k | 0 <= k < st ensures TrimsAway(s[..st][k]) {
        assert s[..st][k] == s[k];
      }
    }
    assert AllTrimmable(s[len..]) by {
      forall k | 0 <= k < |s| - len ensures TrimsAway(s[len..][k]) {
        assert s[len..][k] == s[len + k];
      }
    }
    if st < len {
      assert s[st..len][0] == s[st];
      assert s[st..len][len - st - 1] == s[len - 1];
    }
  }

  /** The first loop stops at the first character from `st` on that it keeps. */
  lemma {:induction false} TrimStartIs(s: string, st: nat, m: nat)
    requires st <= m <= |s|
    requires forall k :: st <= k < m ==> TrimsAway(s[k])
    requires m < |s| ==> !TrimsAway(s[m])
    ensures TrimStart(s, st) == m
    decreases m - st
  {
    if st < m {
      TrimStartIs(s, st + 1, m);
    }
  }

  /** The second loop stops just after the last character before `len` that it keeps. */
  lemma {:induction false} TrimEndIs(s: string, st: nat, len: nat, m: nat)
    requires st <= m <= len <= |s|
    requires forall k :: m <= k < len ==> TrimsAway(s[k])
    requires st < m ==> !TrimsAway(s[m - 1])
    ensures TrimEnd(s, st, len) == m
    decreases len - m
  {
    if m < len {
      TrimEndIs(s, st, len - 1, m);
    }
  }

  /** Trimming blanks in front of a trimmed text gives that text. */
  lemma TrimAfter(pre: string, d: string)
    requires AllTrimmable(pre) && NoOuterSpace(d)
    ensures Trim(pre + d) == d
  {
    assert pre + d == pre + d + [];
    TrimPadded(pre, d, []);
  }

  /** Trimming strips exactly the padding around a string that has no outer space. */
  lemma TrimPadded(pre: string, d: string, post: string)
    requires AllTrimmable(pre) && AllTrimmable(post) && NoOuterSpace(d)
    ensures Trim(pre + d + post) == d
  {
    if d == [] {
      TrimBlank(pre, post);
    } else {
      TrimAround(pre, d, post);
    }
  }

  /** Whitespace alone trims to nothing. */
  lemma TrimBlank(pre: string, post: string)
    requires AllTrimmable(pre) && AllTrimmable(post)
    ensures Trim(pre + [] + post) == []
  {
    var s := pre + [] + post;
    forall k | 0 <= k < |s| ensures TrimsAway(s[k]) {
      if k < |pre| { assert s[k] == pre[k]; } else { assert s[k] == post[k - |pre|]; }
    }
    TrimStartIs(s, 0, |s|);
    TrimEndIs(s, |s|, |s|, |s|);
  }

  lemma TrimAround(pre: string, d: string, post: string)
    requires AllTrimmable(pre) && AllTrimmable(post) && d != [] && NoOuterSpace(d)
    ensures Trim(pre + d + post) == d
  {
    var s := pre + d + post;
    var e := |pre| + |d|;
    forall k | 0 <= k < |pre| ensures TrimsAway(s[k]) {
      assert s[k] == pre[k];
    }
    assert s[|pre|] == d[0];
    TrimStartIs(s, 0, |pre|);
    forall k | e <= k < |s| ensures TrimsAway(s[k]) {
      assert s[k] == post[k - e];
    }
    assert s[e - 1] == d[|d| - 1];
    TrimEndIs(s, |pre|, |s|, e);
    assert s[|pre|..e] == d;
  }

  /** `trim` is idempotent. */
  lemma TrimIdempotent(s: string)
    ensures Trim(Trim(s)) == Trim(s)
  {
    var t := Trim(s);
    assert t == [] + t + [];
    TrimPadded([], t, []);
  }
}
