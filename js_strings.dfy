/** The JavaScript string operations the allergen check and the sentence
    highlighter rely on: `trim`, `toLowerCase` (ASCII letters only),
    `includes`, and `split` on a character class, with and without `+`. */
module JsStrings {

  /** The characters `String.prototype.trim` removes: the ECMAScript
      WhiteSpace set (tab, vertical tab, form feed, space, no-break space,
      byte order mark and the Unicode space separators) and the
      LineTerminator set (LF, CR, LS, PS). */
  predicate IsWhitespace(c: char) {
    c == ' ' || c == '\t' || c == '\n' || c == '\r' || c == '\U{000B}' || c == '\U{000C}'
    || c == '\U{00A0}' || c == '\U{1680}' || ('\U{2000}' <= c <= '\U{200A}')
    || c == '\U{2028}' || c == '\U{2029}' || c == '\U{202F}' || c == '\U{205F}'
    || c == '\U{3000}' || c == '\U{FEFF}'
  }

  predicate AllWhitespace(s: string) {
    forall i :: 0 <= i < |s| ==> IsWhitespace(s[i])
  }

  /** Neither end of `s` is whitespace. */
  predicate IsTrimmed(s: string) {
    s == [] || (!IsWhitespace(s[0]) && !IsWhitespace(s[|s| - 1]))
  }

  function TrimStart(s: string): (r: string)
    ensures |r| <= |s| && r == s[|s| - |r|..]
    ensures r == [] || !IsWhitespace(r[0])
  {
    if |s| > 0 && IsWhitespace(s[0]) then TrimStart(s[1..]) else s
  }

  function TrimEnd(s: string): (r: string)
    ensures |r| <= |s| && r == s[..|r|]
    ensures r == [] || !IsWhitespace(r[|r| - 1])
  {
    if |s| > 0 && IsWhitespace(s[|s| - 1]) then TrimEnd(s[..|s| - 1]) else s
  }

  /** What `TrimStart` drops is whitespace. */
  lemma {:induction false} TrimStartDropsBlank(s: string)
    ensures AllWhitespace(s[..|s| - |TrimStart(s)|])
  {
    if |s| > 0 && IsWhitespace(s[0]) {
      TrimStartDropsBlank(s[1..]);
      var n := |s| - |TrimStart(s)|;
      forall k | 0 <= k < n ensures IsWhitespace(s[k]) {
        if k > 0 {
          assert s[k] == s[1..][..n - 1][k - 1];
        }
      }
    }
  }

  /** What `TrimEnd` drops is whitespace. */
  lemma {:induction false} TrimEndDropsBlank(s: string)
    ensures AllWhitespace(s[|TrimEnd(s)|..])
  {
    if |s| > 0 && IsWhitespace(s[|s| - 1]) {
      var t := s[..|s| - 1];
      TrimEndDropsBlank(t);
      var m := |TrimEnd(s)|;
      forall k | m <= k < |s| ensures IsWhitespace(s[k]) {
        if k < |s| - 1 {
          assert s[k] == t[m..][k - m];
        }
      }
    }
  }

  /** `s.trim()`. */
  function Trim(s: string): string {
    TrimEnd(TrimStart(s))
  }

  /** `Trim` removes exactly a whitespace prefix and a whitespace suffix and
      leaves a string with no whitespace at either end. */
  lemma TrimSpec(s: string)
    ensures IsTrimmed(Trim(s))
    ensures exists i, j :: 0 <= i <= j <= |s| && Trim(s) == s[i..j]
                           && AllWhitespace(s[..i]) && AllWhitespace(s[j..])
  {
    var t := TrimStart(s);
    var r := TrimEnd(t);
    TrimStartDropsBlank(s);
    TrimEndDropsBlank(t);
    BlankEnds(s, t, r);
    TrimIsTrimmed(s);
    var i := |s| - |t|;
    var j := i + |r|;
    assert 0 <= i <= j <= |s| && Trim(s) == s[i..j] && AllWhitespace(s[..i]) && AllWhitespace(s[j..]);
  }

  lemma TrimIsTrimmed(s: string)
    ensures IsTrimmed(Trim(s))
  {
    var t := TrimStart(s);
    var r := TrimEnd(t);
    if r != [] {
      assert r[0] == t[0];
    }
  }

  /** A middle part `r` of `s` obtained by dropping a blank prefix and then
      a blank suffix. */
  lemma BlankEnds(s: string, t: string, r: string)
    requires |t| <= |s| && t == s[|s| - |t|..] && AllWhitespace(s[..|s| - |t|])
    requires |r| <= |t| && r == t[..|r|] && AllWhitespace(t[|r|..])
    ensures var i := |s| - |t|;
            var j := i + |r|;
            0 <= i <= j <= |s| && r == s[i..j] && AllWhitespace(s[..i]) && AllWhitespace(s[j..])
  {
    var i := |s| - |t|;
    var j := i + |r|;
    assert s[j..] == t[|r|..];
  }

  /** Trimming gives the empty string exactly when the input is blank. */
  lemma TrimEmptyIffBlank(s: string)
    ensures Trim(s) == [] <==> AllWhitespace(s)
  {
    var t := TrimStart(s);
    BlankTrimStart(s);
    TrimStartDropsBlank(s);
    TrimEndDropsBlank(t);
    if Trim(s) == [] {
      assert s == s[..|s| - |t|] + t;
    }
  }

  lemma {:induction false} BlankTrimStart(s: string)
    ensures AllWhitespace(s) ==> TrimStart(s) == []
  {
    if AllWhitespace(s) && |s| > 0 {
      assert AllWhitespace(s[1..]) by {
        forall k | 0 <= k < |s| - 1 ensures IsWhitespace(s[1..][k]) {
          assert s[1..][k] == s[k + 1];
        }
      }
      BlankTrimStart(s[1..]);
    }
  }

  /** Trimming a trimmed string changes nothing. */
  lemma TrimIdempotent(s: string)
    requires IsTrimmed(s)
    ensures Trim(s) == s
  {
  }

  function LowerChar(c: char): char {
    if 'A' <= c <= 'Z' then (c as int + 32) as char else c
  }

  /** `s.toLowerCase()` restricted to ASCII letters. */
  function Lower(s: string): (r: string)
    ensures |r| == |s|
  {
    seq(|s|, i requires 0 <= i < |s| => LowerChar(s[i]))
  }

  /** No ASCII capital letter occurs in `s`. */
  predicate IsLower(s: string) {
    forall i :: 0 <= i < |s| ==> !('A' <= s[i] <= 'Z')
  }

  lemma LowerIsLower(s: string)
    ensures IsLower(Lower(s))
    ensures Lower(Lower(s)) == Lower(s)
  {
  }

  /** Lowercasing leaves lower-case strings alone. */
  lemma LowerOfLower(s: string)
    requires IsLower(s)
    ensures Lower(s) == s
  {
  }

  lemma LowerAppend(a: string, b: string)
    ensures Lower(a + b) == Lower(a) + Lower(b)
  {
  }

  lemma LowerSlice(s: string, i: int, j: int)
    requires 0 <= i <= j <= |s|
    ensures Lower(s[i..j]) == Lower(s)[i..j]
  {
  }

  /** Lower-casing does not touch whitespace, so it commutes with `Trim`. */
  lemma {:induction false} TrimStartLower(s: string)
    ensures TrimStart(Lower(s)) == Lower(TrimStart(s))
    decreases |s|
  {
    if |s| > 0 && IsWhitespace(s[0]) {
      assert Lower(s)[0] == s[0];
      assert Lower(s)[1..] == Lower(s[1..]);
      TrimStartLower(s[1..]);
    } else if |s| > 0 {
      assert !IsWhitespace(Lower(s)[0]);
    }
  }

  lemma {:induction false} TrimEndLower(s: string)
    ensures TrimEnd(Lower(s)) == Lower(TrimEnd(s))
    decreases |s|
  {
    if |s| > 0 && IsWhitespace(s[|s| - 1]) {
      assert Lower(s)[|s| - 1] == s[|s| - 1];
      assert Lower(s)[..|s| - 1] == Lower(s[..|s| - 1]);
      TrimEndLower(s[..|s| - 1]);
    } else if |s| > 0 {
      assert !IsWhitespace(Lower(s)[|s| - 1]);
    }
  }

  lemma TrimLower(s: string)
    ensures Trim(Lower(s)) == Lower(Trim(s))
  {
    TrimStartLower(s);
    TrimEndLower(TrimStart(s));
  }

  /** Blankness does not depend on letter case. */
  lemma LowerBlank(s: string)
    ensures AllWhitespace(Lower(s)) <==> AllWhitespace(s)
  {
    assert forall k :: 0 <= k < |s| ==> (IsWhitespace(Lower(s)[k]) <==> IsWhitespace(s[k]));
  }

  /** Every character of `Trim(s)` is a character of `s`. */
  lemma TrimChars(s: string)
    ensures forall c :: c in Trim(s) ==> c in s
  {
    var t := TrimStart(s);
    assert forall c :: c in t ==> c in s;
  }

  /** Lower-casing keeps a character that is not a lower-case letter out. */
  lemma LowerKeepsOut(s: string, c: char)
    requires c !in s && !('a' <= c <= 'z')
    ensures c !in Lower(s)
  {
    forall k | 0 <= k < |s| ensures Lower(s)[k] != c {
      assert s[k] != c;
    }
  }

  /** A trimmed lower-cased string has no capital. */
  lemma TrimLowerIsLower(s: string)
    ensures IsLower(Trim(Lower(s)))
  {
    TrimLower(s);
    LowerIsLower(Trim(s));
  }

  /** `s.includes(t)`: `t` occurs in `s` at some position. */
  predicate Contains(s: string, t: string) {
    exists i :: 0 <= i <= |s| && t <= s[i..]
  }

  /** A string occurs in itself, and a sub-range of a string occurs in it. */
  lemma ContainsSlice(s: string, i: int, j: int)
    requires 0 <= i <= j <= |s|
    ensures Contains(s, s[i..j])
  {
    assert s[i..j] <= s[i..];
  }

  /** Occurrence is transitive: an infix of an infix is an infix. */
  lemma ContainsTransitive(a: string, b: string, c: string)
    requires Contains(a, b) && Contains(b, c)
    ensures Contains(a, c)
  {
    var i :| 0 <= i <= |a| && b <= a[i..];
    var j :| 0 <= j <= |b| && c <= b[j..];
    assert j + |c| <= |b| && i + |b| <= |a|;
    forall k | 0 <= k < |c| ensures c[k] == a[i + j..][k] {
      assert c[k] == b[j + k];
      assert b[j + k] == a[i + j + k];
    }
    assert c <= a[i + j..];
  }

  /** `s.split(sep)` for a separator made of one character out of `seps`
      (the regular expression `/[...]/` or a one-character string): the
      pieces between consecutive separators, so there is one more piece
      than there are separators, and `""` gives `[""]`. */
  function Split(s: string, seps: set<char>): (r: seq<string>)
    ensures |r| >= 1
  {
    if s == [] then [[]]
    else
      var rest := Split(s[1..], seps);
      if s[0] in seps then [[]] + rest else [[s[0]] + rest[0]] + rest[1..]
  }

  /** No piece of a split contains a separator. */
  lemma {:induction false} SplitPiecesHaveNoSeparator(s: string, seps: set<char>)
    ensures forall k, c :: 0 <= k < |Split(s, seps)| && c in Split(s, seps)[k] ==> c !in seps
  {
    if s != [] {
      SplitPiecesHaveNoSeparator(s[1..], seps);
    }
  }

  /** Splitting at a separator splits the text into the pieces before it
      and the pieces after it. */
  lemma {:induction false} SplitAtSeparator(a: string, b: string, c: char, seps: set<char>)
    requires c in seps
    ensures Split(a + [c] + b, seps) == Split(a, seps) + Split(b, seps)
  {
    var s := a + [c] + b;
    var rb := Split(b, seps);
    if a == [] {
      assert Split(s, seps) == [[]] + rb by {
        assert s[0] == c && s[1..] == b;
      }
    } else {
      var t := a[1..];
      var ra := Split(t, seps);
      var rs := Split(s[1..], seps);
      assert rs == ra + rb by {
        assert s[1..] == t + [c] + b;
        SplitAtSeparator(t, b, c, seps);
      }
      assert s[0] == a[0];
      if a[0] in seps {
        assert Split(s, seps) == ([[]] + ra) + rb;
      } else {
        assert Split(s, seps) == [[a[0]] + rs[0]] + rs[1..];
        ConsPieceAppend(a[0], ra, rb);
      }
    }
  }

  /** Extending the first piece of a list of pieces commutes with appending
      more pieces. */
  lemma ConsPieceAppend(x: char, ra: seq<string>, rb: seq<string>)
    requires |ra| >= 1
    ensures [[x] + (ra + rb)[0]] + (ra + rb)[1..] == ([[x] + ra[0]] + ra[1..]) + rb
  {
    assert (ra + rb)[0] == ra[0];
    assert (ra + rb)[1..] == ra[1..] + rb;
  }

  /** The pieces joined back with the separator character `c`. */
  function JoinWith(pieces: seq<string>, c: char): string {
    if |pieces| == 0 then []
    else if |pieces| == 1 then pieces[0]
    else pieces[0] + [c] + JoinWith(pieces[1..], c)
  }

  /** Splitting on a single character and joining back with it gives the
      original text. */
  lemma {:induction false} SplitJoinRoundTrip(s: string, c: char)
    ensures JoinWith(Split(s, {c}), c) == s
  {
    if s != [] {
      var t := s[1..];
      var rest := Split(t, {c});
      var r := Split(s, {c});
      SplitJoinRoundTrip(t, c);
      assert s == [s[0]] + t;
      if s[0] == c {
        assert r == [[]] + rest;
        assert r[1..] == rest;
        assert JoinWith(r, c) == [] + [c] + JoinWith(rest, c);
      } else {
        assert r == [[s[0]] + rest[0]] + rest[1..];
        if |rest| == 1 {
          assert JoinWith(r, c) == [s[0]] + rest[0];
        } else {
          assert r[1..] == rest[1..];
          assert JoinWith(rest, c) == rest[0] + [c] + JoinWith(rest[1..], c);
          assert JoinWith(r, c) == [s[0]] + rest[0] + [c] + JoinWith(rest[1..], c);
        }
      }
    }
  }

  /** The text after the last occurrence of `c` (all of `s` when `c` does
      not occur): the last of the pieces `Split(s, {c})`. */
  function LastPiece(s: string, c: char): string {
    var ps := Split(s, {c});
    ps[|ps| - 1]
  }

  /** The last piece is a suffix of `s` without `c`; it is empty when `s`
      ends with `c` and it is all of `s` when `c` does not occur. */
  lemma LastPieceSpec(s: string, c: char)
    ensures c !in LastPiece(s, c)
    ensures |LastPiece(s, c)| <= |s| && LastPiece(s, c) == s[|s| - |LastPiece(s, c)|..]
    ensures |s| > 0 && s[|s| - 1] == c ==> LastPiece(s, c) == []
    ensures c !in s ==> |Split(s, {c})| == 1
    ensures |Split(s, {c})| == 1 ==> LastPiece(s, c) == s
  {
    SplitPiecesHaveNoSeparator(s, {c});
    SplitSingle(s, c);
    LastPieceSuffix(s, c);
    LastPieceAfterTrailing(s, c);
  }

  /** A text splits into one piece, itself, exactly when it lacks `c`. */
  lemma {:induction false} SplitSingle(s: string, c: char)
    ensures c !in s <==> |Split(s, {c})| == 1
    ensures |Split(s, {c})| == 1 ==> Split(s, {c})[0] == s
  {
    if s != [] {
      SplitSingle(s[1..], c);
      assert s == [s[0]] + s[1..];
    }
  }

  lemma {:induction false} LastPieceSuffix(s: string, c: char)
    ensures |LastPiece(s, c)| <= |s| && LastPiece(s, c) == s[|s| - |LastPiece(s, c)|..]
  {
    if s != [] {
      var t := s[1..];
      LastPieceSuffix(t, c);
      LastPieceStep(s, c);
      if !(s[0] != c && |Split(t, {c})| == 1) {
        var l := LastPiece(t, c);
        assert t[|t| - |l|..] == s[|s| - |l|..];
      }
    }
  }

  /** The last piece of a non-empty text: the text itself when its tail
      splits into one piece and it does not start with `c`, otherwise the
      last piece of its tail. */
  lemma LastPieceStep(s: string, c: char)
    requires s != []
    ensures LastPiece(s, c) == if s[0] != c && |Split(s[1..], {c})| == 1 then s else LastPiece(s[1..], c)
  {
    var t := s[1..];
    var rest := Split(t, {c});
    var r := Split(s, {c});
    if s[0] == c {
      assert r == [[]] + rest;
    } else {
      assert r == [[s[0]] + rest[0]] + rest[1..];
      if |rest| == 1 {
        SplitSingle(t, c);
        assert s == [s[0]] + t;
      } else {
        assert r[|r| - 1] == rest[|rest| - 1];
      }
    }
  }

  /** The last piece starts right after a separator, unless it is the whole
      string. */
  lemma {:induction false} LastPieceBoundary(s: string, c: char)
    requires |LastPiece(s, c)| < |s|
    ensures s[|s| - |LastPiece(s, c)| - 1] == c
  {
    var t := s[1..];
    var l := LastPiece(t, c);
    LastPieceStep(s, c);
    LastPieceSuffix(t, c);
    assert LastPiece(s, c) == l;
    if |l| < |t| {
      LastPieceBoundary(t, c);
      assert t[|t| - |l| - 1] == s[|s| - |l| - 1];
    } else if s[0] != c {
      // Then the tail has a `c` but its last piece, all of it, has none.
      SplitSingle(t, c);
      LastPieceSpec(t, c);
    }
  }

  lemma {:induction false} LastPieceAfterTrailing(s: string, c: char)
    ensures |s| > 0 && s[|s| - 1] == c ==> LastPiece(s, c) == []
  {
    if |s| > 0 && s[|s| - 1] == c {
      var t := s[1..];
      LastPieceStep(s, c);
      if |s| == 1 {
        assert t == [];
      } else {
        assert t[|t| - 1] == c;
        LastPieceAfterTrailing(t, c);
        assert |Split(t, {c})| != 1 by {
          SplitSingle(t, c);
          assert c in t;
        }
        assert LastPiece(s, c) == LastPiece(t, c);
      }
    }
  }

  /** `s.split(/[...]+/)`: like `Split`, except that a run of separator
      characters separates one single piece from the next. A separator run
      at the very start or the very end still yields an empty first or last
      piece. */
  function SplitRuns(s: string, seps: set<char>): (r: seq<string>)
    ensures |r| >= 1
  {
    if s == [] then [[]]
    else
      var rest := SplitRuns(s[1..], seps);
      if s[0] in seps then
        (if |s| > 1 && s[1] in seps then rest else [[]] + rest)
      else [[s[0]] + rest[0]] + rest[1..]
  }

  /** All the characters of `s` that are not in `seps`, in order. */
  function Remove(s: string, seps: set<char>): (r: string) {
    if s == [] then []
    else (if s[0] in seps then [] else [s[0]]) + Remove(s[1..], seps)
  }

  function Concat(pieces: seq<string>): string {
    if pieces == [] then [] else pieces[0] + Concat(pieces[1..])
  }

  /** The pieces of a run split hold no separator and, put together again,
      hold every other character of the text in order: nothing is lost. */
  lemma {:induction false} SplitRunsSpec(s: string, seps: set<char>)
    ensures forall k, c :: 0 <= k < |SplitRuns(s, seps)| && c in SplitRuns(s, seps)[k] ==> c !in seps
    ensures Concat(SplitRuns(s, seps)) == Remove(s, seps)
  {
    if s != [] {
      var rest := SplitRuns(s[1..], seps);
      SplitRunsSpec(s[1..], seps);
      if s[0] !in seps {
        var r := SplitRuns(s, seps);
        assert r[1..] == rest[1..];
        assert Concat(rest) == rest[0] + Concat(rest[1..]);
      }
    }
  }

  /** A non-empty text of separators only. */
  predicate IsRun(r: string, seps: set<char>) {
    r != [] && forall i :: 0 <= i < |r| ==> r[i] in seps
  }

  /** A whole separator run between two texts ends exactly one piece:
      splitting the joined text gives the pieces of the left text followed
      by those of the right. With `SplitRunsNoSeparator` this fixes the split
      of every text: one piece per maximal stretch without separators. */
  lemma {:induction false} SplitRunsAtRun(a: string, r: string, b: string, seps: set<char>)
    requires IsRun(r, seps)
    requires a == [] || a[|a| - 1] !in seps
    requires b == [] || b[0] !in seps
    ensures SplitRuns(a + r + b, seps) == SplitRuns(a, seps) + SplitRuns(b, seps)
    decreases |a|
  {
    if a == [] {
      assert a + r + b == r + b;
      SplitRunsLeadingRun(r, b, seps);
    } else {
      var t := a[1..];
      var u := t + r + b;
      assert a + r + b == [a[0]] + u && a == [a[0]] + t;
      SplitRunsAtRun(t, r, b, seps);
      if a[0] in seps {
        assert t != [] && u[0] == t[0];
      }
      SplitRunsConsStep(a[0], t, u, SplitRuns(b, seps), seps);
    }
  }

  /** The inductive step of `SplitRunsAtRun`: putting one more character in
      front of both texts. */
  lemma SplitRunsConsStep(x: char, t: string, u: string, sb: seq<string>, seps: set<char>)
    requires SplitRuns(u, seps) == SplitRuns(t, seps) + sb
    requires x in seps ==> t != [] && u != [] && u[0] == t[0]
    ensures SplitRuns([x] + u, seps) == SplitRuns([x] + t, seps) + sb
  {
    SplitRunsCons(x, u, seps);
    SplitRunsCons(x, t, seps);
    if x !in seps {
      ConsPieceAppend(x, SplitRuns(t, seps), sb);
    }
  }

  /** The definition of `SplitRuns`, stated for a text `[x] + u`. */
  lemma SplitRunsCons(x: char, u: string, seps: set<char>)
    ensures SplitRuns([x] + u, seps)
         == if x in seps then (if u != [] && u[0] in seps then SplitRuns(u, seps) else [[]] + SplitRuns(u, seps))
            else [[x] + SplitRuns(u, seps)[0]] + SplitRuns(u, seps)[1..]
  {
    assert ([x] + u)[1..] == u;
  }

  /** A leading separator run gives one empty first piece. */
  lemma {:induction false} SplitRunsLeadingRun(r: string, b: string, seps: set<char>)
    requires IsRun(r, seps)
    requires b == [] || b[0] !in seps
    ensures SplitRuns(r + b, seps) == [[]] + SplitRuns(b, seps)
    decreases |r|
  {
    var s := r + b;
    assert s[0] == r[0] && s[1..] == r[1..] + b;
    if |r| > 1 {
      assert s[1] == r[1];
      assert IsRun(r[1..], seps) by {
        forall i | 0 <= i < |r| - 1 ensures r[1..][i] in seps {
          assert r[1..][i] == r[i + 1];
        }
      }
      SplitRunsLeadingRun(r[1..], b, seps);
    } else {
      assert s[1..] == b;
    }
  }

  /** A text without separators is a single piece. */
  lemma {:induction false} SplitRunsNoSeparator(s: string, seps: set<char>)
    requires forall i :: 0 <= i < |s| ==> s[i] !in seps
    ensures SplitRuns(s, seps) == [s]
    decreases |s|
  {
    if s != [] {
      SplitRunsNoSeparator(s[1..], seps);
      assert [s[0]] + s[1..] == s;
    }
  }

  /** Every piece of a run split occurs in the text. */
  lemma {:induction false} SplitRunsPiecesOccur(s: string, seps: set<char>, k: int)
    requires 0 <= k < |SplitRuns(s, seps)|
    ensures Contains(s, SplitRuns(s, seps)[k])
  {
    var r := SplitRuns(s, seps);
    if k == 0 {
      SplitRunsFirstPieceIsPrefix(s, seps);
      assert r[0] <= s[0..];
    } else {
      // A later piece is a piece of the split of the tail.
      var rest := SplitRuns(s[1..], seps);
      var k' := if s[0] in seps && !(|s| > 1 && s[1] in seps) then k - 1 else k;
      assert r[k] == rest[k'];
      SplitRunsPiecesOccur(s[1..], seps, k');
      ContainsInTail(s, rest[k']);
    }
  }

  /** What occurs in the tail of a string occurs in the string. */
  lemma ContainsInTail(s: string, t: string)
    requires s != [] && Contains(s[1..], t)
    ensures Contains(s, t)
  {
    var i :| 0 <= i <= |s| - 1 && t <= s[1..][i..];
    assert s[1..][i..] == s[i + 1..];
  }

  /** The first piece of a run split is a prefix of the text. */
  lemma {:induction false} SplitRunsFirstPieceIsPrefix(s: string, seps: set<char>)
    ensures SplitRuns(s, seps)[0] <= s
    ensures s != [] && s[0] in seps ==> SplitRuns(s, seps)[0] == []
  {
    if s != [] {
      SplitRunsFirstPieceIsPrefix(s[1..], seps);
    }
  }

  /** Separators that are neither upper- nor lower-case ASCII letters are
      untouched by `Lower` and never produced by it. */
  predicate NotLetters(seps: set<char>) {
    forall c :: c in seps ==> !('A' <= c <= 'Z') && !('a' <= c <= 'z')
  }

  /** Lower-casing a text and then splitting it at runs of non-letter
      separators gives the lower-cased pieces of the original split. */
  lemma {:induction false} SplitRunsLower(s: string, seps: set<char>)
    requires NotLetters(seps)
    ensures |SplitRuns(Lower(s), seps)| == |SplitRuns(s, seps)|
    ensures forall k :: 0 <= k < |SplitRuns(s, seps)| ==> SplitRuns(Lower(s), seps)[k] == Lower(SplitRuns(s, seps)[k])
  {
    if s != [] {
      var l := Lower(s);
      LowerSlice(s, 1, |s|);
      assert l[1..] == Lower(s[1..]);
      SplitRunsLower(s[1..], seps);
      SplitRunsLowerStep(s, seps);
    }
  }

  /** `ls` is `ps` with every piece lower-cased. */
  predicate LowerPieces(ls: seq<string>, ps: seq<string>) {
    |ls| == |ps| && forall k :: 0 <= k < |ps| ==> ls[k] == Lower(ps[k])
  }

  lemma SplitRunsLowerStep(s: string, seps: set<char>)
    requires NotLetters(seps) && s != []
    requires LowerPieces(SplitRuns(Lower(s)[1..], seps), SplitRuns(s[1..], seps))
    ensures LowerPieces(SplitRuns(Lower(s), seps), SplitRuns(s, seps))
  {
    var l := Lower(s);
    var rest := SplitRuns(s[1..], seps);
    var lrest := SplitRuns(l[1..], seps);
    assert l[0] in seps <==> s[0] in seps;
    if s[0] in seps {
      if |s| > 1 && s[1] in seps {
        assert l[1] in seps;
        assert SplitRuns(s, seps) == rest && SplitRuns(l, seps) == lrest;
      } else {
        assert !(|l| > 1 && l[1] in seps);
        assert SplitRuns(s, seps) == [[]] + rest && SplitRuns(l, seps) == [[]] + lrest;
        LowerPiecesEmptyCons(lrest, rest);
      }
    } else {
      assert SplitRuns(s, seps) == [[s[0]] + rest[0]] + rest[1..];
      assert SplitRuns(l, seps) == [[l[0]] + lrest[0]] + lrest[1..];
      LowerPiecesCons(s[0], lrest, rest);
    }
  }

  lemma LowerPiecesEmptyCons(ls: seq<string>, ps: seq<string>)
    requires LowerPieces(ls, ps)
    ensures LowerPieces([[]] + ls, [[]] + ps)
  {
    assert Lower([]) == [];
  }

  lemma LowerPiecesCons(x: char, ls: seq<string>, ps: seq<string>)
    requires LowerPieces(ls, ps) && |ps| >= 1
    ensures LowerPieces([[LowerChar(x)] + ls[0]] + ls[1..], [[x] + ps[0]] + ps[1..])
  {
    LowerAppend([x], ps[0]);
  }
}
