/**
 * The string operations the two core files rely on: `split` on a literal
 * separator (Rust's `str::split` and JavaScript's `String.prototype.split`
 * agree on it), `join`, Rust's `str::trim`, prefix and substring tests,
 * and JavaScript's `<` on strings.
 */
module Strings {
  import opened Wrappers

  /** Rust's `char::is_whitespace`: the Unicode White_Space property. */
  predicate IsWhitespace(c: char) {
    || ('\t' <= c <= '\r') || c == ' '
    || c == '\U{0085}' || c == '\U{00A0}' || c == '\U{1680}'
    || ('\U{2000}' <= c <= '\U{200A}')
    || c == '\U{2028}' || c == '\U{2029}' || c == '\U{202F}' || c == '\U{205F}' || c == '\U{3000}'
  }

  /** Neither starts nor ends with whitespace. */
  predicate Trimmed(s: string) {
    s == [] || (!IsWhitespace(s[0]) && !IsWhitespace(s[|s| - 1]))
  }

  /** The first index at or after `i` that is not whitespace. */
  function SkipStart(s: string, i: nat): (k: nat)
    requires i <= |s|
    ensures i <= k <= |s|
    ensures forall j :: i <= j < k ==> IsWhitespace(s[j])
    ensures k == |s| || !IsWhitespace(s[k])
    decreases |s| - i
  {
    if i < |s| && IsWhitespace(s[i]) then SkipStart(s, i + 1) else i
  }
  /** The last index down from `hi` (not below `lo`) that follows a non-whitespace character. */
  function SkipEnd(s: string, lo: nat, hi: nat): (k: nat)
    requires lo <= hi <= |s|
    ensures lo <= k <= hi
    ensures forall j :: k <= j < hi ==> IsWhitespace(s[j])
    ensures k == lo || !IsWhitespace(s[k - 1])
    decreases hi
  {
    if lo < hi && IsWhitespace(s[hi - 1]) then SkipEnd(s, lo, hi - 1) else hi
  }
  /** `str::trim`: `s` without its leading and trailing whitespace. */
  function Trim(s: string): (r: string)
    ensures Trimmed(r)
    ensures exists a, b :: 0 <= a <= b <= |s| && r == s[a..b]
              && (forall j :: 0 <= j < a ==> IsWhitespace(s[j]))
              && (forall j :: b <= j < |s| ==> IsWhitespace(s[j]))
  {
    var a := SkipStart(s, 0);
    var b := SkipEnd(s, a, |s|);
    assert forall j :: b <= j < |s| ==> IsWhitespace(s[j]);
    s[a..b]
  }
  lemma TrimOfTrimmed(s: string)
    requires Trimmed(s)
    ensures Trim(s) == s
  {
  }

  /** `pat` occurs in `s` starting at index `i`. */
  predicate OccursAt(s: string, pat: string, i: int) {
    0 <= i && i + |pat| <= |s| && s[i..i + |pat|] == pat
  }

  /** `str::contains` / `String.prototype.includes`. */
  predicate Contains(s: string, pat: string) {
    exists i | 0 <= i <= |s| - |pat| :: OccursAt(s, pat, i)
  }

  /** `str::starts_with`. */
  predicate StartsWith(s: string, prefix: string) {
    |prefix| <= |s| && s[..|prefix|] == prefix
  }

  lemma OccursInTail(s: string, pat: string, j: int)
    requires |s| > 0 && 0 <= j
    ensures OccursAt(s[1..], pat, j) <==> OccursAt(s, pat, j + 1)
  {
    if 0 <= j && j + 1 + |pat| <= |s| {
      assert s[1..][j..j + |pat|] == s[j + 1..j + 1 + |pat|];
    }
  }

  /** Index of the leftmost occurrence of a non-empty `pat` in `s`. */
  function Find(s: string, pat: string): (r: Option<nat>)
    requires |pat| > 0
    ensures r.Some? ==> OccursAt(s, pat, r.value)
    ensures r.Some? ==> forall j :: 0 <= j < r.value ==> !OccursAt(s, pat, j)
    ensures r.None? <==> !Contains(s, pat)
    decreases |s|
  {
    if |s| < |pat| then None
    else if s[..|pat|] == pat then Some(0)
    else
      var t := Find(s[1..], pat);
      assert forall j :: 0 < j ==> (OccursAt(s[1..], pat, j - 1) <==> OccursAt(s, pat, j)) by {
        forall j | 0 < j ensures OccursAt(s[1..], pat, j - 1) <==> OccursAt(s, pat, j) {
          OccursInTail(s, pat, j - 1);
        }
      }
      assert !OccursAt(s, pat, 0);
      match t
      case None =>
        assert forall j :: !OccursAt(s, pat, j) by {
          forall j ensures !OccursAt(s, pat, j) {
            if j > 0 { assert !OccursAt(s[1..], pat, j - 1); }
          }
        }
        None
      case Some(i) =>
        assert OccursAt(s, pat, i + 1);
        assert forall j :: 0 <= j < i + 1 ==> !OccursAt(s, pat, j) by {
          forall j | 0 < j < i + 1 ensures !OccursAt(s, pat, j) {
            assert !OccursAt(s[1..], pat, j - 1);
          }
        }
        Some(i + 1)
  }

  /** The text before the first `sep`, or all of `s` when there is none. */
  function Before(s: string, sep: string): string
    requires |sep| > 0
  {
    match Find(s, sep)
    case None => s
    case Some(i) => s[..i]
  }

  /** The text after the first `sep`, or "" when there is none. */
  function After(s: string, sep: string): string
    requires |sep| > 0
  {
    match Find(s, sep)
    case None => []
    case Some(i) => s[i + |sep|..]
  }

  /** `Vec::join` / `Array.prototype.join`: the pieces with `sep` between them. */
  function Join(pieces: seq<string>, sep: string): string {
    if |pieces| == 0 then []
    else if |pieces| == 1 then pieces[0]
    else pieces[0] + sep + Join(pieces[1..], sep)
  }

  lemma PrefixBeforeFirstOccurrence(s: string, pat: string, i: nat)
    requires |pat| > 0 && i <= |s|
    requires forall j :: 0 <= j < i ==> !OccursAt(s, pat, j)
    ensures !Contains(s[..i], pat)
  {
    forall j | OccursAt(s[..i], pat, j) ensures false {
      assert s[..i][j..j + |pat|] == s[j..j + |pat|];
      assert OccursAt(s, pat, j);
    }
  }

  /**
   * Splitting on a non-empty separator: at least one piece, more than one
   * exactly when the separator occurs, no piece contains the separator, and
   * joining the pieces back gives the original string.
   */
  function Split(s: string, sep: string): (r: seq<string>)
    requires |sep| > 0
    ensures |r| >= 1
    ensures |r| >= 2 <==> Contains(s, sep)
    ensures forall i :: 0 <= i < |r| ==> !Contains(r[i], sep)
    ensures Join(r, sep) == s
    decreases |s|
  {
    match Find(s, sep)
    case None => [s]
    case Some(i) =>
      PrefixBeforeFirstOccurrence(s, sep, i);
      var rest := Split(s[i + |sep|..], sep);
      assert s == s[..i] + sep + s[i + |sep|..] by {
        assert s[i..i + |sep|] == sep;
      }
      [s[..i]] + rest
  }

  lemma SplitHead(s: string, sep: string)
    requires |sep| > 0
    ensures Split(s, sep)[0] == Before(s, sep)
    ensures |Split(s, sep)| >= 2 ==> Split(s, sep)[1..] == Split(After(s, sep), sep)
  {
  }

  /** JavaScript's `<` on two strings: lexicographic, a proper prefix first. */
  predicate Less(a: string, b: string)
    decreases |a|
  {
    if |a| == 0 then |b| > 0
    else if |b| == 0 then false
    else if a[0] != b[0] then a[0] < b[0]
    else Less(a[1..], b[1..])
  }

  lemma {:induction false} LessIrreflexive(a: string)
    ensures !Less(a, a)
  {
    if |a| > 0 { LessIrreflexive(a[1..]); }
  }

  lemma {:induction false} LessTransitive(a: string, b: string, c: string)
    requires Less(a, b) && Less(b, c)
    ensures Less(a, c)
    decreases |a|
  {
    if |a| > 0 && a[0] == b[0] && b[0] == c[0] {
      LessTransitive(a[1..], b[1..], c[1..]);
    }
  }

  lemma {:induction false} LessTotal(a: string, b: string)
    ensures a == b || Less(a, b) || Less(b, a)
    decreases |a|
  {
    if |a| > 0 && |b| > 0 && a[0] == b[0] {
      LessTotal(a[1..], b[1..]);
      if a[1..] == b[1..] {
        assert a == [a[0]] + a[1..] && b == [b[0]] + b[1..];
      }
    }
  }

  /** "Not less than" is transitive: what a descending sort relies on. */
  lemma AtLeastTransitive(a: string, b: string, c: string)
    requires !Less(a, b) && !Less(b, c)
    ensures !Less(a, c)
  {
    LessTotal(a, b);
    if Less(a, c) {
      if a == b {
      } else {
        LessTransitive(b, a, c);
      }
    }
  }

  /** Number of occurrences of `c` in `s`. */
  function CountChar(s: string, c: char): nat {
    if s == [] then 0 else (if s[0] == c then 1 else 0) + CountChar(s[1..], c)
  }

  lemma {:induction false} CountCharConcat(a: string, b: string, c: char)
    ensures CountChar(a + b, c) == CountChar(a, c) + CountChar(b, c)
  {
    if a == [] {
      assert a + b == b;
    } else {
      assert (a + b)[1..] == a[1..] + b;
      CountCharConcat(a[1..], b, c);
    }
  }

  lemma {:induction false} CountCharAbsent(s: string, c: char)
    requires !Contains(s, [c])
    ensures CountChar(s, c) == 0
  {
    if s != [] {
      assert s[0] != c by { assert !OccursAt(s, [c], 0); }
      forall j | 0 <= j ensures !OccursAt(s[1..], [c], j) {
        OccursInTail(s, [c], j);
      }
      CountCharAbsent(s[1..], c);
    }
  }

  lemma ContainsChar(s: string, c: char)
    ensures Contains(s, [c]) <==> c in s
  {
    if c in s {
      var i :| 0 <= i < |s| && s[i] == c;
      assert OccursAt(s, [c], i);
    }
    if Contains(s, [c]) {
      var i :| 0 <= i <= |s| - 1 && OccursAt(s, [c], i);
      assert 0 <= i < |s|;
      assert s[i..i + 1] == [c];
      assert s[i] == c;
    }
  }

  /** The pieces of a split on one character do not hold that character. */
  lemma SplitCharPieces(s: string, c: char)
    ensures forall i :: 0 <= i < |Split(s, [c])| ==> c !in Split(s, [c])[i]
  {
    var pieces := Split(s, [c]);
    forall i | 0 <= i < |pieces| ensures c !in pieces[i] {
      ContainsChar(pieces[i], c);
    }
  }

  /** Joining splits at any inner boundary into the pieces before it and those after it. */
  lemma {:induction false} JoinAt(pieces: seq<string>, k: nat, sep: string)
    requires 0 < k < |pieces|
    ensures Join(pieces, sep) == Join(pieces[..k], sep) + sep + Join(pieces[k..], sep)
    decreases k
  {
    if k > 1 {
      JoinAt(pieces[1..], k - 1, sep);
      assert pieces[1..][..k - 1] == pieces[..k][1..];
      assert pieces[1..][k - 1..] == pieces[k..];
    }
  }

  /** The join of the pieces from `k` on starts with piece `k`. */
  lemma JoinFrom(pieces: seq<string>, k: nat, sep: string)
    requires k < |pieces|
    ensures Join(pieces[k..], sep) == pieces[k] + (if |pieces| > k + 1 then sep + Join(pieces[k + 1..], sep) else [])
  {
    if |pieces| > k + 1 {
      assert pieces[k..][1..] == pieces[k + 1..];
    }
  }

  /** Joining pieces free of `c` with `c` puts one `c` between each two of them. */
  lemma {:induction false} CountCharJoin(pieces: seq<string>, c: char)
    requires |pieces| >= 1
    requires forall i :: 0 <= i < |pieces| ==> c !in pieces[i]
    ensures CountChar(Join(pieces, [c]), c) == |pieces| - 1
  {
    ContainsChar(pieces[0], c);
    CountCharAbsent(pieces[0], c);
    if |pieces| > 1 {
      CountCharJoin(pieces[1..], c);
      CountCharConcat(pieces[0] + [c], Join(pieces[1..], [c]), c);
      CountCharConcat(pieces[0], [c], c);
      assert CountChar([c], c) == 1;
    }
  }

  /** Splitting on one character gives one piece more than it has occurrences. */
  lemma {:induction false} SplitCharCount(s: string, c: char)
    ensures |Split(s, [c])| == CountChar(s, c) + 1
    decreases |s|
  {
    var sep := [c];
    match Find(s, sep)
    case None =>
      CountCharAbsent(s, c);
    case Some(i) =>
      PrefixBeforeFirstOccurrence(s, sep, i);
      assert Split(s, sep) == [s[..i]] + Split(s[i + 1..], sep);
      CountCharAbsent(s[..i], c);
      SplitCharCount(s[i + 1..], c);
      assert s == s[..i] + (sep + s[i + 1..]) by { assert s[i..i + 1] == sep; }
      CountCharConcat(s[..i], sep + s[i + 1..], c);
      CountCharConcat(sep, s[i + 1..], c);
      assert CountChar(sep, c) == 1;
      assert CountChar(s, c) == 1 + CountChar(s[i + 1..], c);
  }
}
