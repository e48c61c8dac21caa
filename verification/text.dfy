/** The pieces of Python's `str` that the dashboard relies on: `isspace`,
    `strip`, `split(sep)` and the substring test `k in s`. Strings are
    sequences of Dafny `char`s, that is, of Unicode scalar values. */
module Text {

  /** Python's `str.isspace` on one character, listed by code point:
      tab to carriage return, the information separators 0x1C-0x1F, space,
      NEL, no-break space, Ogham space mark, the en/em spaces 0x2000-0x200A,
      the line and paragraph separators, narrow no-break space, medium
      mathematical space and the ideographic space. */
  predicate IsSpace(c: char) {
    var n := c as int;
    (0x09 <= n <= 0x0D) || (0x1C <= n <= 0x20) || n == 0x85 || n == 0xA0
    || n == 0x1680 || (0x2000 <= n <= 0x200A) || n == 0x2028 || n == 0x2029
    || n == 0x202F || n == 0x205F || n == 0x3000
  }

  /** Every character is whitespace (the empty string included). */
  predicate IsBlank(s: string) {
    forall i :: 0 <= i < |s| ==> IsSpace(s[i])
  }

  /** `k` occurs in `s` starting at position `i`. */
  predicate OccursAt(s: string, k: string, i: int) {
    0 <= i <= |s| - |k| && s[i..i + |k|] == k
  }

  /** Python's `s.lstrip()`: the suffix left after dropping leading whitespace. */
  function TrimStart(s: string): (r: string)
    ensures |r| <= |s| && r == s[|s| - |r|..]
    ensures r == [] || !IsSpace(r[0])
  {
    if s != [] && IsSpace(s[0]) then TrimStart(s[1..]) else s
  }

  /** What `lstrip` drops is whitespace. */
  lemma {:induction false} TrimStartDropsSpace(s: string)
    ensures forall i :: 0 <= i < |s| - |TrimStart(s)| ==> IsSpace(s[i])
  {
    if s != [] && IsSpace(s[0]) {
      TrimStartDropsSpace(s[1..]);
      assert forall i :: 1 <= i < |s| - |TrimStart(s)| ==> s[i] == s[1..][i - 1];
    }
  }

  /** Python's `s.rstrip()`: the prefix left after dropping trailing whitespace. */
  function TrimEnd(s: string): (r: string)
    ensures |r| <= |s| && r == s[..|r|]
    ensures r == [] || !IsSpace(r[|r| - 1])
  {
    if s != [] && IsSpace(s[|s| - 1]) then TrimEnd(s[..|s| - 1]) else s
  }

  /** What `rstrip` drops is whitespace. */
  lemma {:induction false} TrimEndDropsSpace(s: string)
    ensures forall i :: |TrimEnd(s)| <= i < |s| ==> IsSpace(s[i])
  {
    if s != [] && IsSpace(s[|s| - 1]) {
      TrimEndDropsSpace(s[..|s| - 1]);
    }
  }

  /** No whitespace at either end: what `strip()` guarantees. */
  predicate Trimmed(s: string) {
    s == [] || (!IsSpace(s[0]) && !IsSpace(s[|s| - 1]))
  }

  /** Python's `s.strip()`. The result is a contiguous slice of `s`, empty
      exactly when `s` is blank, and otherwise starts and ends with a
      non-whitespace character. */
  function Strip(s: string): (r: string)
    ensures r == [] <==> IsBlank(s)
    ensures r == [] || (!IsSpace(r[0]) && !IsSpace(r[|r| - 1]))
  {
    TrimStartBlank(s);
    TrimEndOfTrimmed(TrimStart(s));
    TrimEnd(TrimStart(s))
  }

  /** `lstrip` empties exactly the blank strings. */
  lemma TrimStartBlank(s: string)
    ensures TrimStart(s) == [] <==> IsBlank(s)
  {
    TrimStartDropsSpace(s);
    var t := TrimStart(s);
    if t != [] {
      assert t[0] == s[|s| - |t|];
    }
  }

  /** `rstrip` of a string that starts with a non-whitespace character
      keeps that character. */
  lemma TrimEndOfTrimmed(t: string)
    requires t == [] || !IsSpace(t[0])
    ensures TrimEnd(t) == [] <==> t == []
  {
    TrimEndDropsSpace(t);
  }

  /** The stripped string is a contiguous slice of the original. */
  lemma StripIsSlice(s: string)
    ensures OccursAt(s, Strip(s), |s| - |TrimStart(s)|)
  {
    var t := TrimStart(s);
    var k := |s| - |t|;
    var r := TrimEnd(t);
    assert Strip(s) == r;
    assert t == s[k..];
    assert r == t[..|r|];
    SliceOfSuffix(s, k, |r|);
  }

  /** Taking `n` characters of the suffix from `off` is the slice `off..off+n`. */
  lemma SliceOfSuffix(s: string, off: nat, n: nat)
    requires off + n <= |s|
    ensures s[off..][..n] == s[off..off + n]
  {
  }

  /** Trimming never introduces a character. */
  lemma TrimKeepsOut(s: string, c: char)
    requires c !in s
    ensures c !in TrimStart(s) && c !in TrimEnd(s) && c !in Strip(s)
  {
    var t := TrimStart(s);
    assert t == s[|s| - |t|..];
    assert TrimEnd(s) == s[..|TrimEnd(s)|];
    assert TrimEnd(t) == t[..|TrimEnd(t)|];
  }

  /** A string that already has no whitespace at either end is its own strip. */
  lemma StripUnchanged(s: string)
    requires Trimmed(s)
    ensures Strip(s) == s
  {
  }

  /** `strip` is idempotent. */
  lemma StripIdempotent(s: string)
    ensures Strip(Strip(s)) == Strip(s)
  {
    StripUnchanged(Strip(s));
  }

  /** Leading whitespace stops at the first non-whitespace character. */
  lemma {:induction false} TrimStartAcross(p: string, c: char, q: string)
    requires !IsSpace(c)
    ensures TrimStart(p + [c] + q) == TrimStart(p) + [c] + q
  {
    if p != [] {
      assert (p + [c] + q)[1..] == p[1..] + [c] + q;
      TrimStartAcross(p[1..], c, q);
    }
  }

  /** Trailing whitespace stops at the last non-whitespace character. */
  lemma {:induction false} TrimEndAcross(p: string, c: char, q: string)
    requires !IsSpace(c)
    ensures TrimEnd(p + [c] + q) == p + [c] + TrimEnd(q)
  {
    var s := p + [c] + q;
    if q != [] {
      assert s[..|s| - 1] == p + [c] + q[..|q| - 1];
      TrimEndAcross(p, c, q[..|q| - 1]);
    }
  }

  /** Stripping the part before the first `c` of an already stripped string
      gives the same as stripping the part before the first `c` of the raw
      string, for any non-whitespace separator `c`. */
  lemma StripBeforeSeparator(u: string, c: char)
    requires !IsSpace(c)
    ensures Strip(Split(Strip(u), c)[0]) == Strip(Split(u, c)[0])
  {
    var parts := Split(u, c);
    if c !in u {
      SplitNoSeparator(u, c);
      TrimKeepsOut(u, c);
      SplitNoSeparator(Strip(u), c);
      StripIdempotent(u);
    } else {
      SplitPiecesFree(u, c);
      JoinSplit(u, c);
      if |parts| == 1 {
        assert false;
      }
      var p, q := parts[0], Join(parts[1..], c);
      assert u == p + [c] + q;
      var p' := TrimStart(p);
      TrimStartAcross(p, c, q);
      TrimEndAcross(p', c, q);
      assert Strip(u) == p' + [c] + TrimEnd(q);
      TrimKeepsOut(p, c);
      SplitAtFirst(p', c, TrimEnd(q));
      assert Split(Strip(u), c)[0] == p';
      assert TrimStart(p') == p';
    }
  }

  /** Appending a character to a non-blank string appends it to its `lstrip`. */
  lemma {:induction false} TrimStartSnoc(s: string, c: char)
    ensures TrimStart(s + [c]) == if IsBlank(s) then TrimStart([c]) else TrimStart(s) + [c]
  {
    if s == [] {
      assert s + [c] == [c];
    } else if IsSpace(s[0]) {
      var t := s[1..];
      assert (s + [c])[1..] == t + [c];
      TrimStartSnoc(t, c);
      BlankCons(s);
    } else {
      assert !IsBlank(s);
    }
  }

  /** A non-empty string is blank when its head is whitespace and its tail
      is blank. */
  lemma BlankCons(s: string)
    requires s != []
    ensures IsBlank(s) <==> IsSpace(s[0]) && IsBlank(s[1..])
  {
    if IsSpace(s[0]) && IsBlank(s[1..]) {
      forall i | 1 <= i < |s|
        ensures IsSpace(s[i])
      {
        assert s[i] == s[1..][i - 1];
      }
    }
  }

  /** Stripping what `rstrip` left is the same as stripping the original. */
  lemma {:induction false} StripTrimEnd(s: string)
    ensures Strip(TrimEnd(s)) == Strip(s)
  {
    if s != [] && IsSpace(s[|s| - 1]) {
      var s', c := s[..|s| - 1], s[|s| - 1];
      assert s == s' + [c];
      assert TrimEnd(s) == TrimEnd(s');
      StripTrimEnd(s');
      StripSnocSpace(s', c);
    }
  }

  /** A trailing whitespace character does not change the stripped string. */
  lemma StripSnocSpace(s: string, c: char)
    requires IsSpace(c)
    ensures Strip(s + [c]) == Strip(s)
  {
    TrimStartSnoc(s, c);
    if IsBlank(s) {
      assert TrimStart([c]) == [];
    } else {
      var t := TrimStart(s);
      assert (t + [c])[..|t|] == t;
      assert TrimEnd(t + [c]) == TrimEnd(t);
    }
  }

  /** Stripping what `lstrip` left is the same as stripping the original. */
  lemma StripTrimStart(s: string)
    ensures Strip(TrimStart(s)) == Strip(s)
  {
    var t := TrimStart(s);
    assert TrimStart(t) == t;
  }

  /** `lstrip` preserves the prefix order. */
  lemma {:induction false} TrimStartPrefix(p: string, s: string)
    requires p <= s
    ensures TrimStart(p) <= TrimStart(s)
  {
    if p != [] && IsSpace(p[0]) {
      TrimStartPrefix(p[1..], s[1..]);
    }
  }

  /** `rstrip` preserves the prefix order: the last non-whitespace character
      of the shorter string is kept in the longer one. */
  lemma TrimEndPrefix(p: string, s: string)
    requires p <= s
    ensures TrimEnd(p) <= TrimEnd(s)
  {
    var j := |TrimEnd(p)|;
    if j > 0 {
      assert s[j - 1] == TrimEnd(p)[j - 1];
      assert j <= |TrimEnd(s)|;
      assert TrimEnd(s)[..j] == s[..j];
    }
  }

  /** Stripping a prefix gives a prefix of the stripped string. */
  lemma StripPrefix(p: string, s: string)
    requires p <= s
    ensures Strip(p) <= Strip(s)
  {
    TrimStartPrefix(p, s);
    TrimEndPrefix(TrimStart(p), TrimStart(s));
  }

  /** Joins pieces with `sep` between neighbours: Python's `sep.join(parts)`,
      for a non-empty list. */
  function Join(parts: seq<string>, sep: char): (r: string)
    requires |parts| >= 1
  {
    if |parts| == 1 then parts[0] else parts[0] + [sep] + Join(parts[1..], sep)
  }

  /** Python's `s.split(sep)` for a one-character separator; it always
      yields at least one piece. */
  function Split(s: string, sep: char): (parts: seq<string>)
    ensures |parts| >= 1
  {
    if s == [] then [""]
    else
      var rest := Split(s[1..], sep);
      if s[0] == sep then [""] + rest
      else [[s[0]] + rest[0]] + rest[1..]
  }

  /** No piece of a split contains the separator. */
  lemma {:induction false} SplitPiecesFree(s: string, sep: char)
    ensures forall i :: 0 <= i < |Split(s, sep)| ==> sep !in Split(s, sep)[i]
  {
    if s != [] {
      SplitPiecesFree(s[1..], sep);
    }
  }

  /** Joining the pieces of a split with the separator gives back the
      string. */
  lemma {:induction false} JoinSplit(s: string, sep: char)
    ensures Join(Split(s, sep), sep) == s
  {
    if s != [] {
      var rest := Split(s[1..], sep);
      JoinSplit(s[1..], sep);
      if s[0] == sep {
        assert s == [sep] + s[1..];
      } else {
        var parts := [[s[0]] + rest[0]] + rest[1..];
        assert parts[1..] == rest[1..];
        assert s == [s[0]] + s[1..];
      }
    }
  }

  /** A character absent from `s` is absent from every piece of its split. */
  lemma {:induction false} SplitKeepsOut(s: string, sep: char, c: char)
    requires c !in s
    ensures forall i :: 0 <= i < |Split(s, sep)| ==> c !in Split(s, sep)[i]
  {
    if s != [] {
      SplitKeepsOut(s[1..], sep, c);
    }
  }

  /** A separator-free string splits into itself alone. */
  lemma {:induction false} SplitNoSeparator(s: string, sep: char)
    requires sep !in s
    ensures Split(s, sep) == [s]
  {
    if s != [] {
      SplitNoSeparator(s[1..], sep);
      assert s == [s[0]] + s[1..];
    }
  }

  /** Splitting `p + sep + t`, where `p` holds no separator, yields `p`
      followed by the pieces of `t`. */
  lemma {:induction false} SplitAtFirst(p: string, sep: char, t: string)
    requires sep !in p
    ensures Split(p + [sep] + t, sep) == [p] + Split(t, sep)
  {
    var s := p + [sep] + t;
    if p == [] {
      assert s[1..] == t;
    } else {
      assert s[1..] == p[1..] + [sep] + t;
      SplitAtFirst(p[1..], sep, t);
      assert [p[0]] + p[1..] == p;
    }
  }

  /** The round trip in the other direction: separator-free pieces split
      back out of their join. */
  lemma {:induction false} SplitJoin(parts: seq<string>, sep: char)
    requires |parts| >= 1
    requires forall i :: 0 <= i < |parts| ==> sep !in parts[i]
    ensures Split(Join(parts, sep), sep) == parts
  {
    if |parts| == 1 {
      SplitNoSeparator(parts[0], sep);
    } else {
      SplitJoin(parts[1..], sep);
      SplitAtFirst(parts[0], sep, Join(parts[1..], sep));
    }
  }

  /** `lstrip` of a join only touches the first piece. */
  lemma JoinTrimStart(parts: seq<string>, sep: char)
    requires |parts| >= 1 && !IsSpace(sep)
    ensures TrimStart(Join(parts, sep)) == Join([TrimStart(parts[0])] + parts[1..], sep)
  {
    var q := [TrimStart(parts[0])] + parts[1..];
    if |parts| > 1 {
      assert q[1..] == parts[1..];
      TrimStartAcross(parts[0], sep, Join(parts[1..], sep));
    }
  }

  /** `rstrip` of a join only touches the last piece. */
  lemma {:induction false} JoinTrimEnd(parts: seq<string>, sep: char)
    requires |parts| >= 1 && !IsSpace(sep)
    ensures TrimEnd(Join(parts, sep))
         == Join(parts[..|parts| - 1] + [TrimEnd(parts[|parts| - 1])], sep)
  {
    var n := |parts|;
    var q := parts[..n - 1] + [TrimEnd(parts[n - 1])];
    if n > 1 {
      JoinTrimEnd(parts[1..], sep);
      assert parts[1..][..n - 2] + [TrimEnd(parts[1..][n - 2])] == q[1..];
      TrimEndAcross(parts[0], sep, Join(parts[1..], sep));
    }
  }

  /** The pieces after `lstrip` of the first and `rstrip` of the last:
      what stripping a joined string does to its pieces. */
  function TrimOuter(parts: seq<string>): (r: seq<string>)
    requires |parts| >= 1
    ensures |r| == |parts|
  {
    var n := |parts|;
    var a := [TrimStart(parts[0])] + parts[1..];
    a[..n - 1] + [TrimEnd(a[n - 1])]
  }

  /** The outer-trimmed pieces one by one. */
  lemma TrimOuterAt(parts: seq<string>, i: nat)
    requires |parts| >= 1 && i < |parts|
    ensures var n := |parts|;
      TrimOuter(parts)[i]
        == if n == 1 then Strip(parts[0])
           else if i == 0 then TrimStart(parts[0])
           else if i == n - 1 then TrimEnd(parts[i])
           else parts[i]
  {
    var n := |parts|;
    var a := [TrimStart(parts[0])] + parts[1..];
    var r := a[..n - 1] + [TrimEnd(a[n - 1])];
    assert TrimOuter(parts) == r;
    if i < n - 1 {
      assert r[i] == a[i];
    } else {
      assert r[i] == TrimEnd(a[i]);
    }
    if i == 0 {
      assert a[i] == TrimStart(parts[0]);
    } else {
      assert a[i] == parts[i];
    }
  }

  /** Each outer-trimmed piece keeps out what its piece kept out and strips
      to the same value. */
  lemma TrimOuterPiece(parts: seq<string>, sep: char, i: nat)
    requires |parts| >= 1 && i < |parts| && sep !in parts[i]
    ensures sep !in TrimOuter(parts)[i]
    ensures Strip(TrimOuter(parts)[i]) == Strip(parts[i])
  {
    var n := |parts|;
    var x := parts[i];
    TrimOuterAt(parts, i);
    TrimKeepsOut(x, sep);
    if n == 1 {
      StripIdempotent(x);
    } else if i == 0 {
      StripTrimStart(x);
    } else if i == n - 1 {
      StripTrimEnd(x);
    }
  }

  /** Stripping a string before splitting it on a non-whitespace separator
      keeps the number of pieces, and each piece strips to the same value as
      the corresponding piece of the unstripped string. */
  lemma SplitStrip(s: string, sep: char)
    requires !IsSpace(sep)
    ensures |Split(Strip(s), sep)| == |Split(s, sep)|
    ensures forall i :: 0 <= i < |Split(s, sep)| ==>
              Strip(Split(Strip(s), sep)[i]) == Strip(Split(s, sep)[i])
  {
    var ps := Split(s, sep);
    var b := TrimOuter(ps);
    JoinSplit(s, sep);
    SplitPiecesFree(s, sep);
    StripJoin(ps, sep);
    forall i | 0 <= i < |ps|
      ensures sep !in b[i] && Strip(b[i]) == Strip(ps[i])
    {
      TrimOuterPiece(ps, sep, i);
    }
    SplitJoin(b, sep);
  }

  /** `SplitStrip` for the piece at index `i`. */
  lemma SplitStripAt(s: string, sep: char, i: nat)
    requires !IsSpace(sep) && i < |Split(s, sep)|
    ensures |Split(Strip(s), sep)| == |Split(s, sep)|
    ensures Strip(Split(Strip(s), sep)[i]) == Strip(Split(s, sep)[i])
  {
    SplitStrip(s, sep);
  }

  /** Stripping a join strips its outer pieces. */
  lemma StripJoin(parts: seq<string>, sep: char)
    requires |parts| >= 1 && !IsSpace(sep)
    ensures Strip(Join(parts, sep)) == Join(TrimOuter(parts), sep)
  {
    var n := |parts|;
    var a := [TrimStart(parts[0])] + parts[1..];
    var b := a[..n - 1] + [TrimEnd(a[n - 1])];
    JoinTrimStart(parts, sep);
    JoinTrimEnd(a, sep);
    StripInSteps(Join(parts, sep), Join(a, sep), Join(b, sep));
    assert TrimOuter(parts) == b;
  }

  /** `strip` is `rstrip` after `lstrip`. */
  lemma StripInSteps(s: string, t: string, r: string)
    requires TrimStart(s) == t && TrimEnd(t) == r
    ensures Strip(s) == r
  {
  }

  /** The first piece of a split is the longest separator-free prefix: it
      is a prefix of `s` without `sep`, and it is either all of `s` or
      followed by `sep`. */
  lemma SplitFirstPiece(s: string, sep: char)
    ensures Split(s, sep)[0] <= s
    ensures sep !in Split(s, sep)[0]
    ensures var p := Split(s, sep)[0]; |p| == |s| || s[|p|] == sep
  {
    var parts := Split(s, sep);
    JoinSplit(s, sep);
    SplitPiecesFree(s, sep);
    if |parts| > 1 {
      assert s == parts[0] + [sep] + Join(parts[1..], sep);
    }
  }

  /** Python's substring test `k in s`: the empty string is in every
      string, and nothing longer than `s` is in `s`. */
  predicate Contains(s: string, k: string)
    ensures k == [] ==> Contains(s, k)
    ensures Contains(s, k) ==> |k| <= |s|
  {
    k <= s || (s != [] && Contains(s[1..], k))
  }

  /** `k in s` holds exactly when `k` occurs at some position of `s`. */
  lemma ContainsAt(s: string, k: string)
    ensures Contains(s, k) <==> exists i :: OccursAt(s, k, i)
  {
    if Contains(s, k) {
      OccursOfContains(s, k);
    }
    if exists i :: OccursAt(s, k, i) {
      var i :| OccursAt(s, k, i);
      ContainsOfOccurs(s, k, i);
    }
  }

  /** A contained `k` occurs at some position. */
  lemma {:induction false} OccursOfContains(s: string, k: string)
    requires Contains(s, k)
    ensures exists i :: OccursAt(s, k, i)
  {
    if k <= s {
      assert OccursAt(s, k, 0);
    } else {
      OccursOfContains(s[1..], k);
      var i :| OccursAt(s[1..], k, i);
      assert s[i + 1..i + 1 + |k|] == s[1..][i..i + |k|];
      assert OccursAt(s, k, i + 1);
    }
  }

  /** A `k` occurring at some position is contained. */
  lemma {:induction false} ContainsOfOccurs(s: string, k: string, i: int)
    requires OccursAt(s, k, i)
    ensures Contains(s, k)
    decreases i
  {
    if i == 0 {
      assert s[..|k|] == k;
    } else {
      assert s[1..][i - 1..i - 1 + |k|] == s[i..i + |k|];
      ContainsOfOccurs(s[1..], k, i - 1);
    }
  }

  /** A keyword with a character that never occurs in `s` is not contained
      in `s`. */
  lemma NotContainsMissingChar(s: string, k: string, j: nat)
    requires j < |k| && k[j] !in s
    ensures !Contains(s, k)
  {
    ContainsAt(s, k);
    forall i | 0 <= i <= |s| - |k| ensures !OccursAt(s, k, i) {
      assert s[i..i + |k|][j] == s[i + j];
    }
  }

  /** Python's `any(k in s for k in keys)`: some listed keyword is
      contained. */
  predicate AnyContains(s: string, keys: seq<string>)
    ensures AnyContains(s, keys) <==> exists i :: 0 <= i < |keys| && Contains(s, keys[i])
  {
    if keys == [] then false
    else
      assert forall i :: 1 <= i < |keys| ==> keys[i] == keys[1..][i - 1];
      Contains(s, keys[0]) || AnyContains(s, keys[1..])
  }
}
