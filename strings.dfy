/** The handful of Python `str` operations the core relies on, restricted to
    ASCII: `isspace`, `lower`, `strip`, `split(d)`, `d.join`, the `in`
    substring test and the code-point order used by `sorted`. */
module Strings {

  /** Python's `str.isspace` on ASCII: TAB, LF, VT, FF, CR (9..13), the four
      information separators (28..31) and SPACE (32). */
  predicate IsSpace(c: char) {
    9 <= c as int <= 13 || 28 <= c as int <= 32
  }

  predicate IsUpper(c: char) {
    'A' <= c <= 'Z'
  }

  function LowerChar(c: char): (r: char)
    ensures !IsUpper(r)
    ensures IsSpace(r) <==> IsSpace(c)
    ensures r == ',' <==> c == ','
  {
    if IsUpper(c) then (c as int + 32) as char else c
  }

  /** `str.lower()` on ASCII letters; every other character is kept. */
  function Lower(s: string): (r: string)
    ensures |r| == |s|
    ensures forall i :: 0 <= i < |s| ==> r[i] == LowerChar(s[i])
  {
    seq(|s|, i requires 0 <= i < |s| => LowerChar(s[i]))
  }

  lemma LowerOfLowercase(s: string)
    requires forall i :: 0 <= i < |s| ==> !IsUpper(s[i])
    ensures Lower(s) == s
  {
  }

  /** No surrounding whitespace: what `strip()` leaves behind. */
  predicate Bare(s: string) {
    s == [] || (!IsSpace(s[0]) && !IsSpace(s[|s| - 1]))
  }

  /** The end of the run of whitespace starting at `k`. */
  function LeadingEnd(s: string, k: nat): (n: nat)
    requires k <= |s|
    ensures k <= n <= |s|
    ensures forall i :: k <= i < n ==> IsSpace(s[i])
    ensures n < |s| ==> !IsSpace(s[n])
    decreases |s| - k
  {
    if k < |s| && IsSpace(s[k]) then LeadingEnd(s, k + 1) else k
  }

  /** The start of the run of whitespace ending at `k`, not going below `lo`. */
  function TrailingStart(s: string, lo: nat, k: nat): (n: nat)
    requires lo <= k <= |s|
    ensures lo <= n <= k
    ensures forall i :: n <= i < k ==> IsSpace(s[i])
    ensures n > lo ==> !IsSpace(s[n - 1])
    decreases k
  {
    if k > lo && IsSpace(s[k - 1]) then TrailingStart(s, lo, k - 1) else k
  }

  /** `str.strip()`: the longest infix of `s` with no surrounding whitespace. */
  function Strip(s: string): (r: string)
    ensures Bare(r)
    ensures forall c :: c in r ==> c in s
    ensures r == [] <==> forall i :: 0 <= i < |s| ==> IsSpace(s[i])
    ensures Bare(s) ==> r == s
  {
    var a := LeadingEnd(s, 0);
    var b := TrailingStart(s, a, |s|);
    assert a < b ==> s[a..b][0] == s[a] && s[a..b][b - a - 1] == s[b - 1];
    assert s != [] && Bare(s) ==> a == 0 && b == |s|;
    s[a..b]
  }

  /** What `strip` removes is whitespace: the result is the infix of `s` left
      once a whitespace prefix and a whitespace suffix are cut off. With `Bare`
      this fixes the result: the longest such infix. */
  lemma StripInfix(s: string)
    ensures exists a, b :: && 0 <= a <= b <= |s| && Strip(s) == s[a..b]
                           && (forall i :: 0 <= i < a ==> IsSpace(s[i]))
                           && (forall i :: b <= i < |s| ==> IsSpace(s[i]))
  {
    var a := LeadingEnd(s, 0);
    var b := TrailingStart(s, a, |s|);
    assert Strip(s) == s[a..b];
  }

  /** Python's `s.split(d)`: the pieces between separators, in order; there is
      always at least one piece ("" splits to [""]). */
  function Split(s: string, d: char): (r: seq<string>)
    ensures |r| >= 1
    ensures forall i :: 0 <= i < |r| ==> d !in r[i]
    ensures forall i, c :: 0 <= i < |r| && c in r[i] ==> c in s
    decreases |s|
  {
    if s == [] then [""]
    else
      var rest := Split(s[1..], d);
      assert forall c :: c in s[1..] ==> c in s;
      if s[0] == d then [""] + rest
      else [[s[0]] + rest[0]] + rest[1..]
  }

  /** Python's `d.join(ps)`. */
  function Join(ps: seq<string>, d: char): string
  {
    if ps == [] then ""
    else if |ps| == 1 then ps[0]
    else ps[0] + [d] + Join(ps[1..], d)
  }

  /** Joining the pieces of a split gives back the string. */
  lemma {:induction false} JoinSplit(s: string, d: char)
    ensures Join(Split(s, d), d) == s
    decreases |s|
  {
    if s != [] {
      var rest := Split(s[1..], d);
      JoinSplit(s[1..], d);
      if s[0] == d {
        assert Split(s, d) == [""] + rest;
      } else {
        var ps := Split(s, d);
        assert ps == [[s[0]] + rest[0]] + rest[1..];
        if |rest| == 1 {
          assert Join(ps, d) == [s[0]] + rest[0];
        } else {
          assert ps[1..] == rest[1..];
          assert Join(rest, d) == rest[0] + [d] + Join(rest[1..], d);
          assert Join(ps, d) == [s[0]] + rest[0] + [d] + Join(rest[1..], d);
        }
      }
    }
  }

  lemma {:induction false} SplitPiece(p: string, d: char)
    requires d !in p
    ensures Split(p, d) == [p]
    decreases |p|
  {
    if p != [] {
      SplitPiece(p[1..], d);
      assert [p[0]] + p[1..] == p;
    }
  }

  lemma {:induction false} SplitPieceThen(p: string, d: char, t: string)
    requires d !in p
    ensures Split(p + [d] + t, d) == [p] + Split(t, d)
    decreases |p|
  {
    if p == [] {
      assert ([] + [d] + t)[1..] == t;
    } else {
      assert (p + [d] + t)[1..] == p[1..] + [d] + t;
      SplitPieceThen(p[1..], d, t);
      assert [p[0]] + p[1..] == p;
    }
  }

  /** Splitting a join of separator-free pieces gives back the pieces. */
  lemma {:induction false} SplitJoin(ps: seq<string>, d: char)
    requires |ps| >= 1
    requires forall i :: 0 <= i < |ps| ==> d !in ps[i]
    ensures Split(Join(ps, d), d) == ps
    decreases |ps|
  {
    if |ps| == 1 {
      SplitPiece(ps[0], d);
    } else {
      SplitJoin(ps[1..], d);
      SplitPieceThen(ps[0], d, Join(ps[1..], d));
      assert [ps[0]] + ps[1..] == ps;
    }
  }

  /** Python's `w in t` on strings: `w` occurs contiguously somewhere in `t`. */
  predicate IsSubstring(w: string, t: string) {
    exists i :: 0 <= i <= |t| - |w| && OccursAt(w, t, i)
  }

  predicate OccursAt(w: string, t: string, i: int) {
    0 <= i <= |t| - |w| && t[i..i + |w|] == w
  }

  /** Python's `a < b` on strings: code-point lexicographic order, a proper
      prefix coming first. */
  predicate Less(a: string, b: string)
    decreases |a|
  {
    b != [] && (a == [] || a[0] < b[0] || (a[0] == b[0] && Less(a[1..], b[1..])))
  }

  lemma {:induction false} LessIrreflexive(a: string)
    ensures !Less(a, a)
    decreases |a|
  {
    if a != [] {
      LessIrreflexive(a[1..]);
    }
  }

  lemma {:induction false} LessTransitive(a: string, b: string, c: string)
    requires Less(a, b) && Less(b, c)
    ensures Less(a, c)
    decreases |a|
  {
    if a != [] && a[0] == b[0] && b[0] == c[0] {
      LessTransitive(a[1..], b[1..], c[1..]);
    }
  }

  lemma {:induction false} LessTotal(a: string, b: string)
    ensures a == b || Less(a, b) || Less(b, a)
    decreases |a|
  {
    if a != [] && b != [] && a[0] == b[0] {
      LessTotal(a[1..], b[1..]);
      if a[1..] == b[1..] {
        assert a == [a[0]] + a[1..] && b == [b[0]] + b[1..];
      }
    }
  }

  lemma LessAsymmetric(a: string, b: string)
    requires Less(a, b)
    ensures !Less(b, a)
  {
    if Less(b, a) {
      LessTransitive(a, b, a);
      LessIrreflexive(a);
    }
  }

  /** Strictly increasing: sorted and free of duplicates, as `sorted(set(...))`. */
  predicate StrictlySorted(v: seq<string>) {
    forall i, j :: 0 <= i < j < |v| ==> Less(v[i], v[j])
  }

  /** A finite set of strings has exactly one strictly increasing listing. */
  lemma {:induction false} SortedUnique(a: seq<string>, b: seq<string>)
    requires StrictlySorted(a) && StrictlySorted(b)
    requires forall u :: u in a <==> u in b
    ensures a == b
    decreases |a|
  {
    assert a != [] ==> a[0] in b;
    assert b != [] ==> b[0] in a;
    if a != [] && b != [] {
      if a[0] != b[0] {
        assert a[0] in b && b[0] in a;
        var i :| 0 <= i < |b| && b[i] == a[0];
        var j :| 0 <= j < |a| && a[j] == b[0];
        assert i > 0 && j > 0;
        assert Less(b[0], a[0]) && Less(a[0], b[0]);
        LessAsymmetric(b[0], a[0]);
        assert false;
      }
      forall u ensures u in a[1..] <==> u in b[1..] {
        if u in a[1..] {
          var k :| 1 <= k < |a| && a[k] == u;
          assert Less(a[0], u);
          if u == a[0] { LessIrreflexive(u); }
          assert u in b && u != b[0];
        }
        if u in b[1..] {
          var k :| 1 <= k < |b| && b[k] == u;
          assert Less(b[0], u);
          if u == b[0] { LessIrreflexive(u); }
          assert u in a && u != a[0];
        }
      }
      SortedUnique(a[1..], b[1..]);
      assert a == [a[0]] + a[1..] && b == [b[0]] + b[1..];
    }
  }
}
