/** The JavaScript string operations the handlers use: `trim`, `split` with a
    string separator, and `join`, with the facts that connect them. */
module Text {

  /** The characters `String.prototype.trim` removes: the ECMAScript WhiteSpace
      code points (tab, vertical tab, form feed, space, no-break space, byte
      order mark and the Unicode space separators) and the LineTerminator code
      points (line feed, carriage return, line and paragraph separators). */
  predicate IsSpace(c: char) {
    c == '\t' || c == '\n' || c == '\U{000B}' || c == '\U{000C}' || c == '\r'
    || c == ' ' || c == '\U{00A0}' || c == '\U{1680}'
    || ('\U{2000}' <= c <= '\U{200A}')
    || c == '\U{2028}' || c == '\U{2029}' || c == '\U{202F}' || c == '\U{205F}'
    || c == '\U{3000}' || c == '\U{FEFF}'
  }

  /** Neither end of `s` is whitespace. */
  predicate IsTrimmed(s: string) {
    s == [] || (!IsSpace(s[0]) && !IsSpace(s[|s| - 1]))
  }

  /** `s` is all whitespace (or empty). */
  predicate IsBlank(s: string) {
    forall i :: 0 <= i < |s| ==> IsSpace(s[i])
  }

  /** `s` with its leading whitespace removed: a suffix of `s`. */
  function TrimStart(s: string): (r: string)
    ensures |r| <= |s| && r == s[|s| - |r|..]
    ensures forall i :: 0 <= i < |s| - |r| ==> IsSpace(s[i])
    ensures r != [] ==> !IsSpace(r[0])
  {
    if s != [] && IsSpace(s[0]) then TrimStart(s[1..]) else s
  }

  /** `s` with its trailing whitespace removed: a prefix of `s`. */
  function TrimEnd(s: string): (r: string)
    ensures |r| <= |s| && r == s[..|r|]
    ensures forall i :: |r| <= i < |s| ==> IsSpace(s[i])
    ensures r != [] ==> !IsSpace(r[|r| - 1])
  {
    if s != [] && IsSpace(s[|s| - 1]) then TrimEnd(s[..|s| - 1]) else s
  }

  /** `String.prototype.trim`. The result has no whitespace at either end, a
      trimmed string is returned as it is, and the result is empty exactly when
      `s` is all whitespace (the test `!s.trim()` of the source). */
  function Trim(s: string): (r: string)
    ensures IsTrimmed(r)
    ensures IsTrimmed(s) ==> r == s
    ensures r == [] <==> IsBlank(s)
  {
    var t := TrimStart(s);
    assert t != [] ==> !IsSpace(s[|s| - |t|]);
    TrimEnd(t)
  }

  lemma TrimIdempotent(s: string)
    ensures Trim(Trim(s)) == Trim(s)
  {
  }

  /** `q` occurs in `s` at index `k`. */
  predicate OccursAt(s: string, q: string, k: nat) {
    k + |q| <= |s| && s[k..k + |q|] == q
  }

  /** `q` is a substring of `s`. */
  predicate Contains(s: string, q: string) {
    exists k: nat | k <= |s| :: OccursAt(s, q, k)
  }

  /** No proper suffix of `sep` is also a prefix of it, so two occurrences of
      `sep` can never overlap (true of `","` and of `", "`). */
  predicate Unbordered(sep: string) {
    forall k :: 0 < k < |sep| ==> sep[k..] != sep[..|sep| - k]
  }

  /** `String.prototype.split` with a non-empty string separator: the pieces
      between the leftmost non-overlapping occurrences of `sep`. There is
      always at least one piece, and the first is a prefix of `s`. */
  function Split(s: string, sep: string): (r: seq<string>)
    requires sep != []
    ensures |r| >= 1
    ensures |r[0]| <= |s| && r[0] == s[..|r[0]|]
    decreases |s|
  {
    if |s| < |sep| then [s]
    else if s[..|sep|] == sep then [[]] + Split(s[|sep|..], sep)
    else
      var rest := Split(s[1..], sep);
      [[s[0]] + rest[0]] + rest[1..]
  }

  /** An occurrence in a slice of `s` is an occurrence in `s`. */
  lemma ContainsInSlice(s: string, lo: nat, hi: nat, q: string)
    requires lo <= hi <= |s| && Contains(s[lo..hi], q)
    ensures Contains(s, q)
  {
    var k: nat :| k <= hi - lo && OccursAt(s[lo..hi], q, k);
    assert s[lo..hi][k..k + |q|] == q;
    assert s[lo + k..lo + k + |q|] == q by {
      forall j | 0 <= j < |q| ensures s[lo + k + j] == q[j] {
        assert s[lo..hi][k..k + |q|][j] == q[j];
      }
    }
    assert OccursAt(s, q, lo + k);
  }

  /** An occurrence in `b` is still one after a prefix is put in front. */
  lemma ContainsInSuffix(a: string, b: string, q: string)
    requires Contains(b, q)
    ensures Contains(a + b, q)
  {
    var k: nat :| k <= |b| && OccursAt(b, q, k);
    assert (a + b)[|a| + k..|a| + k + |q|] == b[k..k + |q|];
    assert OccursAt(a + b, q, |a| + k);
  }

  /** `Array.prototype.join` with separator `sep`. */
  function Join(xs: seq<string>, sep: string): string {
    if xs == [] then []
    else if |xs| == 1 then xs[0]
    else xs[0] + sep + Join(xs[1..], sep)
  }

  /** Every entry of a list occurs in the list joined. */
  lemma {:induction false} JoinContains(xs: seq<string>, sep: string)
    ensures forall i :: 0 <= i < |xs| ==> Contains(Join(xs, sep), xs[i])
  {
    if xs != [] {
      assert OccursAt(Join(xs, sep), xs[0], 0);
      if |xs| > 1 {
        JoinContains(xs[1..], sep);
        forall i | 1 <= i < |xs| ensures Contains(Join(xs, sep), xs[i]) {
          assert xs[i] == xs[1..][i - 1];
          ContainsInSuffix(xs[0] + sep, Join(xs[1..], sep), xs[i]);
        }
      }
    }
  }

  /** Number of occurrences of `c` in `s`. */
  function Count(s: string, c: char): nat {
    if s == [] then 0 else (if s[0] == c then 1 else 0) + Count(s[1..], c)
  }

  /** Joining the pieces of a split with the same separator gives back the text. */
  lemma {:induction false} JoinSplit(s: string, sep: string)
    requires sep != []
    ensures Join(Split(s, sep), sep) == s
    decreases |s|
  {
    var r := Split(s, sep);
    if |s| < |sep| {
    } else if s[..|sep|] == sep {
      var tail := Split(s[|sep|..], sep);
      JoinSplit(s[|sep|..], sep);
      assert r == [[]] + tail && r[1..] == tail;
      assert Join(r, sep) == [] + sep + Join(tail, sep);
      assert s == sep + s[|sep|..];
    } else {
      var rest := Split(s[1..], sep);
      JoinSplit(s[1..], sep);
      assert r == [[s[0]] + rest[0]] + rest[1..];
      if |rest| == 1 {
        assert Join(r, sep) == [s[0]] + rest[0];
      } else {
        assert r[1..] == rest[1..];
        assert Join(r, sep) == [s[0]] + rest[0] + sep + Join(rest[1..], sep);
        assert Join(rest, sep) == rest[0] + sep + Join(rest[1..], sep);
      }
      assert s == [s[0]] + s[1..];
    }
  }

  /** Splitting on a single character yields one more piece than there are
      occurrences of that character: no piece is ever dropped. */
  lemma {:induction false} SplitCount(s: string, c: char)
    ensures |Split(s, [c])| == Count(s, c) + 1
    decreases |s|
  {
    if |s| >= 1 {
      SplitCount(s[1..], c);
      assert s[..1] == [c] <==> s[0] == c;
    }
  }

  /** A character put in front of a text without `sep` does not create an
      occurrence, unless the result starts with `sep`. */
  lemma ConsLacksSep(c: char, x: string, sep: string)
    requires !Contains(x, sep)
    requires |sep| <= |x| + 1 ==> ([c] + x)[..|sep|] != sep
    ensures !Contains([c] + x, sep)
  {
    var p := [c] + x;
    forall k: nat | k + |sep| <= |p| ensures !OccursAt(p, sep, k) {
      if k > 0 {
        assert x[k - 1..k - 1 + |sep|] == p[k..k + |sep|];
        assert !OccursAt(x, sep, k - 1);
      }
    }
  }

  /** No piece of a split contains the separator. */
  lemma {:induction false} SplitPiecesLackSep(s: string, sep: string)
    requires sep != []
    ensures forall i :: 0 <= i < |Split(s, sep)| ==> !Contains(Split(s, sep)[i], sep)
    decreases |s|
  {
    var r := Split(s, sep);
    if |s| < |sep| {
      assert r == [s];
    } else if s[..|sep|] == sep {
      SplitPiecesLackSep(s[|sep|..], sep);
      assert !OccursAt([], sep, 0);
      assert r == [[]] + Split(s[|sep|..], sep);
    } else {
      var rest := Split(s[1..], sep);
      SplitPiecesLackSep(s[1..], sep);
      var p := [s[0]] + rest[0];
      assert p == s[..|p|];
      assert |sep| <= |p| ==> p[..|sep|] == s[..|sep|];
      ConsLacksSep(s[0], rest[0], sep);
      assert r == [p] + rest[1..];
    }
  }

  /** A text without the separator splits into itself alone. */
  lemma {:induction false} SplitOfPiece(x: string, sep: string)
    requires sep != [] && !Contains(x, sep)
    ensures Split(x, sep) == [x]
    decreases |x|
  {
    if |x| >= |sep| {
      assert !OccursAt(x, sep, 0);
      forall k: nat | OccursAt(x[1..], sep, k) ensures OccursAt(x, sep, k + 1) {
        assert x[1..][k..k + |sep|] == x[k + 1..k + 1 + |sep|];
      }
      SplitOfPiece(x[1..], sep);
      assert [x[0]] + x[1..] == x;
    }
  }

  /** A piece without the separator, followed by an unbordered separator,
      comes off the front of a split whole. */
  lemma {:induction false} SplitAfterPiece(x: string, sep: string, rest: string)
    requires sep != [] && Unbordered(sep) && !Contains(x, sep)
    ensures Split(x + sep + rest, sep) == [x] + Split(rest, sep)
    decreases |x|
  {
    var s := x + sep + rest;
    if x == [] {
      assert s == sep + rest;
      assert s[..|sep|] == sep && s[|sep|..] == rest;
    } else {
      if |sep| <= |x| {
        assert x[..|sep|] == s[..|sep|];
        assert !OccursAt(x, sep, 0);
      } else {
        var k := |x|;
        assert s[..|sep|][k..] == sep[..|sep| - k];
        assert sep[k..] != sep[..|sep| - k];
      }
      forall k: nat | OccursAt(x[1..], sep, k) ensures OccursAt(x, sep, k + 1) {
        assert x[1..][k..k + |sep|] == x[k + 1..k + 1 + |sep|];
      }
      SplitAfterPiece(x[1..], sep, rest);
      assert s[1..] == x[1..] + sep + rest;
      assert [x[0]] + x[1..] == x;
    }
  }

  /** Splitting a join gives back the pieces, provided none of them contains
      the separator and the separator cannot overlap itself. */
  lemma {:induction false} SplitJoin(xs: seq<string>, sep: string)
    requires sep != [] && Unbordered(sep) && xs != []
    requires forall i :: 0 <= i < |xs| ==> !Contains(xs[i], sep)
    ensures Split(Join(xs, sep), sep) == xs
  {
    if |xs| == 1 {
      SplitOfPiece(xs[0], sep);
    } else {
      SplitAfterPiece(xs[0], sep, Join(xs[1..], sep));
      SplitJoin(xs[1..], sep);
      assert xs == [xs[0]] + xs[1..];
    }
  }

  /** Trimming cannot create an occurrence of `q`. */
  lemma TrimKeepsAbsent(s: string, q: string)
    requires !Contains(s, q)
    ensures !Contains(Trim(s), q)
  {
    var t := TrimStart(s);
    var r := Trim(s);
    var a := |s| - |t|;
    assert r == s[a..a + |r|] by {
      assert r == t[..|r|] && t == s[a..];
    }
    if Contains(r, q) {
      ContainsInSlice(s, a, a + |r|, q);
    }
  }
}
