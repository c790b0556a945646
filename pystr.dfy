/**
 * The few operations of Python's `str` that the downloader relies on:
 * `find`, `split(sep)`, `strip(chars)`, `rfind` and `lower`, on strings as
 * sequences of characters.
 */
module PyStr {

  /** `sep` occurs in `s` starting at index `k`. */
  predicate OccursAt(s: string, sep: string, k: int) {
    0 <= k && k + |sep| <= |s| && s[k..k + |sep|] == sep
  }

  /** `sep` does not occur anywhere in `s`. */
  ghost predicate NoOccurrence(s: string, sep: string) {
    forall k :: !OccursAt(s, sep, k)
  }

  /** `sep` starts nowhere in `s` at an index from `lo` up to, not including, `hi`. */
  ghost predicate NoneBetween(s: string, sep: string, lo: int, hi: int) {
    forall k :: lo <= k < hi ==> !OccursAt(s, sep, k)
  }

  /** `s.find(sep, start)`: the first index at or after `start` where `sep` occurs, or -1. */
  function Find(s: string, sep: string, start: nat): (r: int)
    ensures r == -1 || (start <= r && OccursAt(s, sep, r))
    ensures forall k :: start <= k && (r == -1 || k < r) ==> !OccursAt(s, sep, k)
    decreases |s| - start
  {
    if start + |sep| > |s| then -1
    else if s[start..start + |sep|] == sep then start
    else Find(s, sep, start + 1)
  }

  /** `s.find(c)` for one character, with `|s|` standing for "not found". */
  function IndexOf(s: string, c: char): (r: nat)
    ensures r <= |s| && (r == |s| || s[r] == c)
    ensures forall k :: 0 <= k < r ==> s[k] != c
    ensures r == |s| <==> c !in s
    decreases |s|
  {
    if s == [] then 0 else if s[0] == c then 0 else 1 + IndexOf(s[1..], c)
  }

  /** The first `c` in `a + b` is the first one in `b` when `a` has none. */
  lemma IndexOfAfter(a: string, b: string, c: char)
    requires c !in a
    ensures IndexOf(a + b, c) == |a| + IndexOf(b, c)
  {
    var s := a + b;
    assert forall k :: 0 <= k < |a| ==> s[k] == a[k];
    assert forall k :: 0 <= k < |b| ==> s[|a| + k] == b[k];
  }

  /** `sep.join(parts)`. */
  function Join(parts: seq<string>, sep: string): string
    decreases |parts|
  {
    if |parts| == 0 then ""
    else if |parts| == 1 then parts[0]
    else parts[0] + sep + Join(parts[1..], sep)
  }

  /**
   * `s.split(sep)` for a non-empty separator: the pieces between the
   * non-overlapping occurrences of `sep`, found left to right.
   */
  function Split(s: string, sep: string): (parts: seq<string>)
    requires sep != []
    ensures |parts| >= 1
    decreases |s|
  {
    var i := Find(s, sep, 0);
    if i == -1 then [s] else [s[..i]] + Split(s[i + |sep|..], sep)
  }

  /** Joining the pieces with the separator gives the string back. */
  lemma {:induction false} SplitJoin(s: string, sep: string)
    requires sep != []
    ensures Join(Split(s, sep), sep) == s
    decreases |s|
  {
    var i := Find(s, sep, 0);
    if i != -1 {
      var rest := s[i + |sep|..];
      var parts := Split(s, sep);
      SplitJoin(rest, sep);
      assert parts[1..] == Split(rest, sep);
      calc {
        Join(parts, sep);
        parts[0] + sep + Join(parts[1..], sep);
        s[..i] + sep + rest;
        { assert s[i..i + |sep|] == sep; }
        s;
      }
    }
  }

  /** No piece contains the separator, and there is more than one piece exactly when it occurs. */
  lemma {:induction false} SplitPieces(s: string, sep: string)
    requires sep != []
    ensures forall j :: 0 <= j < |Split(s, sep)| ==> NoOccurrence(Split(s, sep)[j], sep)
    ensures |Split(s, sep)| == 1 <==> NoOccurrence(s, sep)
    decreases |s|
  {
    var i := Find(s, sep, 0);
    if i == -1 {
      assert NoOccurrence(s, sep);
    } else {
      var rest := s[i + |sep|..];
      SplitPieces(rest, sep);
      PrefixKeepsAbsence(s, sep, i);
      assert OccursAt(s, sep, i);
      var parts := Split(s, sep);
      assert parts == [s[..i]] + Split(rest, sep);
      forall j | 0 <= j < |parts|
        ensures NoOccurrence(parts[j], sep)
      {
        if j > 0 {
          assert parts[j] == Split(rest, sep)[j - 1];
        }
      }
    }
  }

  /**
   * The first piece of `s.split(sep)` is the text before the first
   * occurrence of `sep`, or all of `s`.
   */
  lemma FirstPiece(s: string, sep: string)
    requires sep != []
    ensures var f := Split(s, sep)[0];
      && |f| <= |s| && f == s[..|f|]
      && NoneBetween(s, sep, 0, |f|)
      && (|f| == |s| || OccursAt(s, sep, |f|))
  {
    var j := Find(s, sep, 0);
    if j == -1 {
      assert Split(s, sep)[0] == s;
    } else {
      assert Split(s, sep)[0] == s[..j];
    }
  }

  /** An occurrence in `s[b..]` at `k` is an occurrence in `s` at `b + k`. */
  lemma ShiftOccurrence(s: string, sep: string, b: nat, k: nat)
    requires b <= |s|
    ensures OccursAt(s[b..], sep, k) <==> OccursAt(s, sep, b + k)
  {
    if k + |sep| <= |s| - b {
      assert s[b..][k..k + |sep|] == s[b + k..b + k + |sep|];
    }
  }

  /** The second piece of a split is the first piece of what follows the first separator. */
  lemma SplitSecond(s: string, sep: string, b: nat)
    requires sep != [] && Find(s, sep, 0) >= 0 && b == Find(s, sep, 0) + |sep|
    ensures b <= |s| && |Split(s, sep)| >= 2
    ensures Split(s, sep)[1] == Split(s[b..], sep)[0]
  {
  }

  /** The first piece of `s[b..]` is the stretch of `s` from `b` to `PieceEnd(s, sep, b)`. */
  lemma PieceFrom(s: string, sep: string, b: nat, f: string)
    requires sep != [] && b <= |s| && f == Split(s[b..], sep)[0]
    ensures b + |f| <= |s| && s[b..PieceEnd(s, sep, b)] == f
  {
    FirstPiece(s[b..], sep);
    ShiftPiece(s, sep, b, f);
    PieceEndAt(s, sep, b, |f|);
    SliceTo(s, b, PieceEnd(s, sep, b), f);
  }

  /** A piece found at the front of `s[b..]` is found in `s` at `b`, with the same neighbours. */
  lemma ShiftPiece(s: string, sep: string, b: nat, f: string)
    requires b <= |s| && |f| <= |s| - b && f == s[b..][..|f|]
    requires NoneBetween(s[b..], sep, 0, |f|)
    requires |f| == |s| - b || OccursAt(s[b..], sep, |f|)
    ensures b + |f| <= |s| && s[b..b + |f|] == f
    ensures NoneBetween(s, sep, b, b + |f|)
    ensures b + |f| == |s| || OccursAt(s, sep, b + |f|)
  {
    assert s[b..b + |f|] == s[b..][..|f|];
    forall k | b <= k < b + |f|
      ensures !OccursAt(s, sep, k)
    {
      ShiftOccurrence(s, sep, b, k - b);
    }
    if |f| < |s| - b {
      ShiftOccurrence(s, sep, b, |f|);
    }
  }

  /** Where a piece that starts at `b` ends: at the next occurrence of `sep`, or at the end of `s`. */
  function PieceEnd(s: string, sep: string, b: nat): (r: nat)
    requires b <= |s|
    ensures b <= r <= |s|
  {
    var e := Find(s, sep, b);
    if e < 0 then |s| else e
  }

  /**
   * The second piece of `s.split(sep)` stated with `find`: it is there
   * exactly when `sep` occurs, and then it runs from just after the first
   * occurrence to the next occurrence found from there, or to the end.
   */
  lemma SplitSecondPieceBetween(s: string, sep: string)
    requires sep != []
    ensures Find(s, sep, 0) < 0 <==> |Split(s, sep)| < 2
    ensures Find(s, sep, 0) >= 0 ==>
      && Find(s, sep, 0) + |sep| <= |s|
      && Split(s, sep)[1] == s[Find(s, sep, 0) + |sep|..PieceEnd(s, sep, Find(s, sep, 0) + |sep|)]
  {
    if Find(s, sep, 0) < 0 {
      SplitWithout(s, sep);
    } else {
      SecondPieceEnd(s, sep);
    }
  }

  lemma SecondPieceEnd(s: string, sep: string)
    requires sep != [] && Find(s, sep, 0) >= 0
    ensures |Split(s, sep)| >= 2
    ensures Find(s, sep, 0) + |sep| <= |s|
    ensures Split(s, sep)[1] == s[Find(s, sep, 0) + |sep|..PieceEnd(s, sep, Find(s, sep, 0) + |sep|)]
  {
    var b := Find(s, sep, 0) + |sep|;
    SplitSecond(s, sep, b);
    PieceFrom(s, sep, b, Split(s[b..], sep)[0]);
  }

  lemma SliceTo(s: string, b: nat, e: nat, f: string)
    requires e == b + |f| && e <= |s| && s[b..b + |f|] == f
    ensures s[b..e] == f
  {
  }

  /** A stretch free of `sep`, followed by `sep` or the end, ends where `PieceEnd` says. */
  lemma PieceEndAt(s: string, sep: string, b: nat, n: nat)
    requires sep != [] && b + n <= |s|
    requires NoneBetween(s, sep, b, b + n)
    requires b + n == |s| || OccursAt(s, sep, b + n)
    ensures PieceEnd(s, sep, b) == b + n
  {
    if b + n == |s| {
      FindNone(s, sep, b);
    } else {
      FindIs(s, sep, b, b + n);
    }
  }

  /**
   * In `a + sep + b`, where neither part holds `sep` and the first
   * character of `sep` appears nowhere else in it, `sep` occurs only once.
   */
  lemma OnlyOccurrenceBetween(a: string, sep: string, b: string)
    requires sep != [] && sep[0] !in sep[1..]
    requires NoOccurrence(a, sep) && NoOccurrence(b, sep)
    ensures Find(a + sep + b, sep, 0) == |a|
    ensures Find(a + sep + b, sep, |a| + |sep|) == -1
  {
    var d := a + sep + b;
    assert d[|a|..|a| + |sep|] == sep;
    forall k | 0 <= k < |a|
      ensures !OccursAt(d, sep, k)
    {
      NotBeforeSeparator(a, sep, b, k);
    }
    FindIs(d, sep, 0, |a|);
    forall k | |a| + |sep| <= k
      ensures !OccursAt(d, sep, k)
    {
      NotAfterSeparator(a, sep, b, k);
    }
    FindNone(d, sep, |a| + |sep|);
  }

  /** `find` from `start` stops at the first occurrence. */
  lemma {:induction false} FindIs(s: string, sep: string, start: nat, r: nat)
    requires start <= r && OccursAt(s, sep, r)
    requires NoneBetween(s, sep, start, r)
    ensures Find(s, sep, start) == r
    decreases r - start
  {
    if start < r {
      assert !OccursAt(s, sep, start);
      FindIs(s, sep, start + 1, r);
    }
  }

  /** `find` from `start` fails when nothing from there on is an occurrence. */
  lemma {:induction false} FindNone(s: string, sep: string, start: nat)
    requires sep != [] && start <= |s|
    requires NoneBetween(s, sep, start, |s|)
    ensures Find(s, sep, start) == -1
    decreases |s| - start
  {
    if start + |sep| <= |s| {
      assert !OccursAt(s, sep, start);
      FindNone(s, sep, start + 1);
    }
  }

  /** Without an occurrence, `split` gives the string as its only piece. */
  lemma SplitWithout(s: string, sep: string)
    requires sep != [] && Find(s, sep, 0) < 0
    ensures Split(s, sep) == [s]
  {
  }

  lemma NotBeforeSeparator(a: string, sep: string, b: string, k: nat)
    requires sep != [] && sep[0] !in sep[1..]
    requires NoOccurrence(a, sep)
    requires k < |a|
    ensures !OccursAt(a + sep + b, sep, k)
  {
    var d := a + sep + b;
    if k + |sep| <= |a| {
      assert d[k..k + |sep|] == a[k..k + |sep|];
      assert !OccursAt(a, sep, k);
    } else {
      // the window starting at `k` meets the first character of `sep`
      // at an offset `j` where `sep` itself carries a different one
      var j := |a| - k;
      assert sep[1..][j - 1] == sep[j];
      assert d[k..k + |sep|][j] == sep[0] != sep[j];
    }
  }

  lemma NotAfterSeparator(a: string, sep: string, b: string, k: nat)
    requires NoOccurrence(b, sep)
    requires |a| + |sep| <= k
    ensures !OccursAt(a + sep + b, sep, k)
  {
    var d := a + sep + b;
    var m := |a| + |sep|;
    if OccursAt(d, sep, k) {
      assert d[k..k + |sep|] == b[k - m..k - m + |sep|];
      assert OccursAt(b, sep, k - m);
    }
  }

  /** A separator with a character that `s` lacks does not occur in `s`. */
  lemma AbsentCharacter(s: string, sep: string, j: nat)
    requires j < |sep| && sep[j] !in s
    ensures NoOccurrence(s, sep)
  {
    forall k: int
      ensures !OccursAt(s, sep, k)
    {
      if 0 <= k && k + |sep| <= |s| {
        assert s[k..k + |sep|][j] == s[k + j] != sep[j];
      }
    }
  }

  /** A prefix of `s` that ends before the first occurrence of `sep` has no occurrence. */
  lemma PrefixKeepsAbsence(s: string, sep: string, i: nat)
    requires sep != [] && i <= |s|
    requires forall k :: 0 <= k < i ==> !OccursAt(s, sep, k)
    ensures NoOccurrence(s[..i], sep)
  {
    forall k | OccursAt(s[..i], sep, k)
      ensures false
    {
      assert s[..i][k..k + |sep|] == s[k..k + |sep|];
      assert OccursAt(s, sep, k);
    }
  }

  /** The first index at or after `i` where `s` holds something other than `c`, or `|s|`. */
  function LeadingEnd(s: string, c: char, i: nat): (r: nat)
    requires i <= |s|
    ensures i <= r <= |s|
    ensures forall k :: i <= k < r ==> s[k] == c
    ensures r == |s| || s[r] != c
    decreases |s| - i
  {
    if i < |s| && s[i] == c then LeadingEnd(s, c, i + 1) else i
  }

  /** One past the last index before `j` where `s` holds something other than `c`, or 0. */
  function TrailingStart(s: string, c: char, j: nat): (r: nat)
    requires j <= |s|
    ensures r <= j
    ensures forall k :: r <= k < j ==> s[k] == c
    ensures r == 0 || s[r - 1] != c
    decreases j
  {
    if 0 < j && s[j - 1] == c then TrailingStart(s, c, j - 1) else j
  }

  /** `s.strip(c)` for a single character `c`: the runs of `c` at both ends are removed. */
  function Strip(s: string, c: char): string {
    var a := LeadingEnd(s, c, 0);
    var b := TrailingStart(s, c, |s|);
    if b <= a then [] else s[a..b]
  }

  /** Stripping `c` from `c + q + c`, where `q` holds no `c`, gives `q`. */
  lemma StripEnclosed(q: string, c: char)
    requires c !in q
    ensures Strip([c] + q + [c], c) == q
  {
    var s := [c] + q + [c];
    assert s[0] == c && s[|s| - 1] == c;
    if q == [] {
      assert LeadingEnd(s, c, 0) == LeadingEnd(s, c, 1) == LeadingEnd(s, c, 2) == 2;
    } else {
      assert s[1] == q[0] && s[|s| - 2] == q[|q| - 1];
      assert LeadingEnd(s, c, 0) == LeadingEnd(s, c, 1) == 1;
      assert TrailingStart(s, c, |s|) == TrailingStart(s, c, |s| - 1) == |s| - 1;
      assert s[1..|s| - 1] == q;
    }
  }

  /**
   * What `strip` promises: the result is a contiguous part of `s`, every
   * character removed on either side is `c`, and the result neither starts
   * nor ends with `c`.
   */
  lemma StripSpec(s: string, c: char)
    ensures var r := Strip(s, c);
      var a := LeadingEnd(s, c, 0);
      && a + |r| <= |s| && s[a..a + |r|] == r
      && (forall k :: 0 <= k < a ==> s[k] == c)
      && (forall k :: a + |r| <= k < |s| ==> s[k] == c)
      && (r == [] || (r[0] != c && r[|r| - 1] != c))
  {
    var a := LeadingEnd(s, c, 0);
    var b := TrailingStart(s, c, |s|);
    if b <= a {
      // a run of `c` from the right that reaches `a` leaves nothing else
      assert a == |s|;
    } else {
      assert |Strip(s, c)| == b - a;
    }
  }

  /** `s.rfind(c)`: the last index holding `c`, or -1. */
  function RFind(s: string, c: char): (r: int)
    ensures -1 <= r < |s|
    ensures r >= 0 ==> s[r] == c
    ensures forall k :: r < k < |s| ==> s[k] != c
    decreases |s|
  {
    if s == [] then -1
    else if s[|s| - 1] == c then |s| - 1
    else RFind(s[..|s| - 1], c)
  }

  /**
   * `str.lower` on one character, exact for the Latin-1 range in which
   * `http.client` decodes header text: A-Z and the upper-case letters
   * U+00C0..U+00DE except the multiplication sign U+00D7.
   */
  function LowerChar(c: char): (r: char)
    ensures ('A' <= c <= 'Z') ==> r as int == c as int + 32
    ensures (0xC0 <= c as int <= 0xDE && c as int != 0xD7) ==> r as int == c as int + 32
    ensures !('A' <= c <= 'Z') && !(0xC0 <= c as int <= 0xDE && c as int != 0xD7) ==> r == c
  {
    if 'A' <= c <= 'Z' || (0xC0 <= c as int <= 0xDE && c as int != 0xD7) then
      (c as int + 32) as char
    else
      c
  }

  function Lower(s: string): (r: string)
    ensures |r| == |s|
    ensures forall k :: 0 <= k < |s| ==> r[k] == LowerChar(s[k])
  {
    seq(|s|, k requires 0 <= k < |s| => LowerChar(s[k]))
  }

  /** Lower-casing twice changes nothing more: no result of `LowerChar` is upper-case. */
  lemma LowerIdempotent(s: string)
    ensures Lower(Lower(s)) == Lower(s)
  {
    forall k | 0 <= k < |s|
      ensures LowerChar(LowerChar(s[k])) == LowerChar(s[k])
    {
      var c := s[k];
      var r := LowerChar(c);
      if 'A' <= c <= 'Z' {
        assert 'a' <= r <= 'z';
      } else if 0xC0 <= c as int <= 0xDE && c as int != 0xD7 {
        assert 0xE0 <= r as int <= 0xFE;
      }
    }
  }
}
