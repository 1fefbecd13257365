/**
 * The Python `str` operations the pipeline relies on (`find`, `rfind`,
 * `split`, `rsplit(_, 1)`, `join`, `replace`, `strip` and its variants,
 * `startswith`, `endswith`, `in` and zero-padded decimal formatting),
 * written over `seq<char>` with the properties the rest of the model uses.
 */
module Strings {
  import opened Wrappers

  /** `pat` occurs in `s` at index `i`. */
  predicate OccursAt(s: string, pat: string, i: nat) {
    i + |pat| <= |s| && s[i..i + |pat|] == pat
  }

  /** `s.startswith(prefix)` */
  predicate StartsWith(s: string, prefix: string) {
    |prefix| <= |s| && s[..|prefix|] == prefix
  }

  /** `s.endswith(suffix)` */
  predicate EndsWith(s: string, suffix: string) {
    |suffix| <= |s| && s[|s| - |suffix|..] == suffix
  }

  /** The first occurrence of `pat` in `s` at or after index `k`. */
  function FindFrom(s: string, pat: string, k: nat): (r: Option<nat>)
    requires pat != []
    ensures r.Some? ==> k <= r.value && OccursAt(s, pat, r.value)
    ensures r.Some? ==> forall j: nat :: k <= j < r.value ==> !OccursAt(s, pat, j)
    ensures r.None? ==> forall j: nat :: k <= j ==> !OccursAt(s, pat, j)
    decreases |s| - k
  {
    if |s| < k + |pat| then None
    else if OccursAt(s, pat, k) then Some(k)
    else FindFrom(s, pat, k + 1)
  }

  /** `s.find(pat)`, with `None` for Python's -1. */
  function Find(s: string, pat: string): Option<nat>
    requires pat != []
  {
    FindFrom(s, pat, 0)
  }

  /** An occurrence with none before it is the one `Find` returns. */
  lemma FindFirst(s: string, pat: string, k: nat)
    requires pat != [] && OccursAt(s, pat, k)
    requires forall j: nat :: j < k ==> !OccursAt(s, pat, j)
    ensures Find(s, pat) == Some(k)
  {
  }

  /** `pat in s` */
  predicate Contains(s: string, pat: string)
    requires pat != []
  {
    Find(s, pat).Some?
  }

  /** The last occurrence of `pat` in `s` at or before index `k`. */
  function RFindAtMost(s: string, pat: string, k: int): (r: Option<nat>)
    requires pat != []
    ensures r.Some? ==> r.value <= k && OccursAt(s, pat, r.value)
    ensures r.Some? ==> forall j: nat :: r.value < j <= k ==> !OccursAt(s, pat, j)
    ensures r.None? ==> forall j: nat :: j <= k ==> !OccursAt(s, pat, j)
    decreases k + 1
  {
    if k < 0 then None
    else if OccursAt(s, pat, k) then Some(k)
    else RFindAtMost(s, pat, k - 1)
  }

  /** An occurrence with none after it, up to `k`, is the one `RFindAtMost` returns. */
  lemma RFindLast(s: string, pat: string, k: int, m: nat)
    requires pat != [] && m <= k && OccursAt(s, pat, m)
    requires forall j: nat :: m < j <= k ==> !OccursAt(s, pat, j)
    ensures RFindAtMost(s, pat, k) == Some(m)
  {
  }

  /** `s.rsplit(sep, 1)[0]`: the text before the last occurrence of `sep`, or all of `s`. */
  function RSplitOnceHead(s: string, sep: string): string
    requires sep != []
  {
    match RFindAtMost(s, sep, |s| - |sep|)
    case None => s
    case Some(i) => s[..i]
  }

  /** When `s` ends with `sep`, `rsplit(sep, 1)[0]` removes exactly that suffix. */
  lemma RSplitOnceHeadOfSuffix(s: string, sep: string)
    requires sep != [] && EndsWith(s, sep)
    ensures RSplitOnceHead(s, sep) + sep == s
  {
    var k := |s| - |sep|;
    assert OccursAt(s, sep, k);
    var r := RFindAtMost(s, sep, k);
    assert r == Some(k);
    assert s == s[..k] + s[k..];
  }

  /** `s.split(sep)` for a non-empty separator. */
  function Split(s: string, sep: string): (r: seq<string>)
    requires sep != []
    ensures |r| >= 1
    decreases |s|
  {
    match Find(s, sep)
    case None => [s]
    case Some(i) => [s[..i]] + Split(s[i + |sep|..], sep)
  }

  /** The last element of a non-empty sequence (Python's `xs[-1]`). */
  function Last<T>(xs: seq<T>): T
    requires xs != []
  {
    xs[|xs| - 1]
  }

  /** An occurrence in a suffix is an occurrence in the whole string, shifted by where the suffix starts. */
  lemma OccursAtShift(s: string, k: nat, pat: string, j: nat)
    requires k <= |s| && OccursAt(s[k..], pat, j)
    ensures OccursAt(s, pat, k + j)
  {
    assert s[k..][j..j + |pat|] == s[k + j..k + j + |pat|];
  }

  /** One step of a split: the pieces after the first separator are those of the rest. */
  lemma SplitStep(s: string, sep: string, i: nat)
    requires sep != [] && Find(s, sep) == Some(i)
    ensures i + |sep| <= |s| && OccursAt(s, sep, i)
    ensures Last(Split(s, sep)) == Last(Split(s[i + |sep|..], sep))
  {
    var pieces := Split(s[i + |sep|..], sep);
    assert Split(s, sep) == [s[..i]] + pieces;
    LastAppend([s[..i]], pieces);
  }

  /** Appending to a non-empty sequence keeps its last element last. */
  lemma LastAppend<T>(a: seq<T>, b: seq<T>)
    requires b != []
    ensures Last(a + b) == Last(b)
  {
  }

  /** The last piece of a split is a suffix of the string. */
  lemma {:induction false} SplitLastIsSuffix(s: string, sep: string)
    requires sep != []
    ensures EndsWith(s, Last(Split(s, sep)))
    decreases |s|
  {
    match Find(s, sep)
    case None =>
    case Some(i) =>
      var rest := s[i + |sep|..];
      SplitStep(s, sep, i);
      SplitLastIsSuffix(rest, sep);
      var l := Last(Split(rest, sep));
      assert s[|s| - |l|..] == rest[|rest| - |l|..];
  }

  /** When the separator occurs, the last piece of a split directly follows an occurrence of it. */
  lemma {:induction false} SplitLastPreceded(s: string, sep: string)
    requires sep != [] && Find(s, sep).Some?
    ensures |Last(Split(s, sep))| + |sep| <= |s|
    ensures OccursAt(s, sep, |s| - |Last(Split(s, sep))| - |sep|)
    decreases |s|
  {
    var i := Find(s, sep).value;
    SplitStep(s, sep, i);
    var rest := s[i + |sep|..];
    var l := Last(Split(rest, sep));
    assert Last(Split(s, sep)) == l;
    if Find(rest, sep).Some? {
      SplitLastPreceded(rest, sep);
      var k := |rest| - |l| - |sep|;
      OccursAtShift(s, i + |sep|, sep, k);
      assert (i + |sep|) + k == |s| - |l| - |sep|;
    } else {
      assert l == rest by {
        assert Split(rest, sep) == [rest];
      }
    }
  }

  /** The last piece of a split does not contain the separator. */
  lemma SplitLastAvoidsSeparator(s: string, sep: string)
    requires sep != []
    ensures !Contains(Last(Split(s, sep)), sep)
  {
    SplitPiecesAvoidSeparator(s, sep);
  }

  /** `sep.join(parts)` */
  function Join(sep: string, parts: seq<string>): string
  {
    if |parts| == 0 then ""
    else if |parts| == 1 then parts[0]
    else parts[0] + sep + Join(sep, parts[1..])
  }

  /** A join starts with its first part. */
  lemma JoinStartsWith(sep: string, parts: seq<string>)
    requires parts != []
    ensures StartsWith(Join(sep, parts), parts[0])
  {
    if |parts| > 1 {
      assert Join(sep, parts)[..|parts[0]|] == parts[0];
    }
  }

  /** Joining the pieces of a split with the same separator gives back the string. */
  lemma {:induction false} JoinSplit(s: string, sep: string)
    requires sep != []
    ensures Join(sep, Split(s, sep)) == s
    decreases |s|
  {
    match Find(s, sep)
    case None =>
    case Some(i) =>
      var rest := s[i + |sep|..];
      var tail := Split(rest, sep);
      assert OccursAt(s, sep, i);
      assert Split(s, sep) == [s[..i]] + tail;
      JoinSplit(rest, sep);
      JoinCons(sep, s[..i], tail);
      assert s == s[..i] + s[i..i + |sep|] + rest;
  }

  /** A character in neither the separator nor any part is not in the join. */
  lemma {:induction false} JoinAvoids(c: char, sep: string, parts: seq<string>)
    requires c !in sep && forall k :: 0 <= k < |parts| ==> c !in parts[k]
    ensures c !in Join(sep, parts)
    decreases |parts|
  {
    if |parts| > 1 {
      JoinAvoids(c, sep, parts[1..]);
    }
  }

  /** A pattern does not occur where its first character does not. */
  lemma AbsentHead(s: string, pat: string)
    requires pat != [] && pat[0] !in s
    ensures !Contains(s, pat)
  {
    forall j: nat
      ensures !OccursAt(s, pat, j)
    {
      if j + |pat| <= |s| {
        assert s[j..j + |pat|][0] == s[j];
      }
    }
  }

  /** Joining a part in front of a non-empty list puts the separator between them. */
  lemma JoinCons(sep: string, a: string, tail: seq<string>)
    requires tail != []
    ensures Join(sep, [a] + tail) == a + sep + Join(sep, tail)
  {
    assert ([a] + tail)[1..] == tail;
  }

  /** No piece of a split contains the separator. */
  lemma {:induction false} SplitPiecesAvoidSeparator(s: string, sep: string)
    requires sep != []
    ensures forall k :: 0 <= k < |Split(s, sep)| ==> !Contains(Split(s, sep)[k], sep)
    decreases |s|
  {
    match Find(s, sep)
    case None =>
    case Some(i) =>
      var rest := s[i + |sep|..];
      SplitPiecesAvoidSeparator(rest, sep);
      var head := s[..i];
      forall j: nat | OccursAt(head, sep, j)
        ensures false
      {
        assert head[j..j + |sep|] == s[j..j + |sep|];
        assert OccursAt(s, sep, j);
      }
      assert Find(head, sep).None?;
  }

  /** A character that does not occur in `p`. */
  lemma SingleCharAbsent(p: string, c: char)
    requires c !in p
    ensures Find(p, [c]).None?
  {
    forall j: nat | j < |p|
      ensures !OccursAt(p, [c], j)
    {
      assert p[j..j + 1] == [p[j]];
    }
  }

  /** A character occurs in a string exactly when the one-character pattern is found in it. */
  lemma CharFound(s: string, c: char)
    ensures c in s <==> Find(s, [c]).Some?
  {
    if c in s {
      var k :| 0 <= k < |s| && s[k] == c;
      assert s[k..k + 1] == [c];
      assert OccursAt(s, [c], k);
    } else {
      SingleCharAbsent(s, c);
    }
  }

  /**
   * Splitting a join recovers the parts, when no part holds the first
   * character of the separator (for a one-character separator: no part holds
   * the separator).
   */
  lemma {:induction false} SplitJoin(parts: seq<string>, sep: string)
    requires |parts| >= 1 && sep != []
    requires forall k :: 0 <= k < |parts| ==> sep[0] !in parts[k]
    ensures Split(Join(sep, parts), sep) == parts
    decreases |parts|
  {
    if |parts| == 1 {
      forall j: nat
        ensures !OccursAt(parts[0], sep, j)
      {
        if j + |sep| <= |parts[0]| {
          assert parts[0][j..j + |sep|][0] == parts[0][j];
        }
      }
    } else {
      var p0 := parts[0];
      var rest := Join(sep, parts[1..]);
      var s := p0 + sep + rest;
      assert Join(sep, parts) == s;
      assert OccursAt(s, sep, |p0|) by { assert s[|p0|..|p0| + |sep|] == sep; }
      forall j: nat | j < |p0|
        ensures !OccursAt(s, sep, j)
      {
        assert j + |sep| <= |s| ==> s[j..j + |sep|][0] == p0[j];
      }
      FindFirst(s, sep, |p0|);
      assert s[..|p0|] == p0;
      assert s[|p0| + |sep|..] == rest;
      SplitJoin(parts[1..], sep);
    }
  }

  /** `s.replace(pat, rep)`: every non-overlapping occurrence, scanning left to right. */
  function Replace(s: string, pat: string, rep: string): string
    requires pat != []
    decreases |s|
  {
    if |s| < |pat| then s
    else if s[..|pat|] == pat then rep + Replace(s[|pat|..], pat, rep)
    else [s[0]] + Replace(s[1..], pat, rep)
  }

  /** Up to the first occurrence, replacing keeps the text; the occurrence becomes `rep`, and the rest is replaced in turn. */
  lemma ReplaceAtFirst(s: string, pat: string, rep: string, i: nat)
    requires pat != [] && Find(s, pat) == Some(i)
    ensures Replace(s, pat, rep) == s[..i] + rep + Replace(s[i + |pat|..], pat, rep)
  {
    var a, b, tail := s[..i], s[i..], s[i + |pat|..];
    assert s == a + b;
    assert forall j: nat :: j < |a| ==> !OccursAt(a + b, pat, j) by {
      assert FindFrom(s, pat, 0) == Some(i);
    }
    assert OccursAt(b, pat, 0) && b[|pat|..] == tail by {
      assert OccursAt(s, pat, i);
    }
    ReplaceKeepsPrefix(a, b, pat, rep);
    ReplaceAtStart(b, pat, rep);
    assert Replace(s, pat, rep) == a + (rep + Replace(tail, pat, rep));
    AppendAssoc(a, rep, Replace(tail, pat, rep));
  }

  /** Concatenation is associative. */
  lemma AppendAssoc<T>(a: seq<T>, b: seq<T>, c: seq<T>)
    ensures a + (b + c) == a + b + c
  {
  }

  /** Text in front of the first occurrence is kept as it is. */
  lemma {:induction false} ReplaceKeepsPrefix(a: string, b: string, pat: string, rep: string)
    requires pat != [] && forall j: nat :: j < |a| ==> !OccursAt(a + b, pat, j)
    ensures Replace(a + b, pat, rep) == a + Replace(b, pat, rep)
    decreases |a|
  {
    if a == [] {
      assert a + b == b;
    } else if |a + b| < |pat| {
      assert Replace(b, pat, rep) == b;
    } else {
      var ab := a + b;
      assert ab[1..] == a[1..] + b;
      forall j: nat | j < |a[1..]|
        ensures !OccursAt(a[1..] + b, pat, j)
      {
        if OccursAt(ab[1..], pat, j) {
          OccursAtShift(ab, 1, pat, j);
        }
      }
      ReplaceKeepsPrefix(a[1..], b, pat, rep);
      ReplaceHeadKept(ab, pat, rep);
      assert [a[0]] + a[1..] == a;
    }
  }

  /** An occurrence at the start becomes `rep`, and the rest is replaced in turn. */
  lemma ReplaceAtStart(s: string, pat: string, rep: string)
    requires pat != [] && OccursAt(s, pat, 0)
    ensures Replace(s, pat, rep) == rep + Replace(s[|pat|..], pat, rep)
  {
    assert s[..|pat|] == pat;
  }

  /** Without an occurrence at the start, the first character is kept and the tail is replaced. */
  lemma ReplaceHeadKept(s: string, pat: string, rep: string)
    requires pat != [] && |s| >= |pat| && !OccursAt(s, pat, 0)
    ensures Replace(s, pat, rep) == [s[0]] + Replace(s[1..], pat, rep)
  {
  }

  /** `s.replace(pat, rep)` is `rep.join(s.split(pat))`: the text between occurrences is kept, in order, and every occurrence becomes `rep`. */
  lemma {:induction false} ReplaceIsJoinSplit(s: string, pat: string, rep: string)
    requires pat != []
    ensures Replace(s, pat, rep) == Join(rep, Split(s, pat))
    decreases |s|
  {
    match Find(s, pat)
    case None =>
      ReplaceAbsent(s, pat, rep);
    case Some(i) =>
      var rest := s[i + |pat|..];
      assert OccursAt(s, pat, i);
      assert Split(s, pat) == [s[..i]] + Split(rest, pat);
      ReplaceAtFirst(s, pat, rep, i);
      ReplaceIsJoinSplit(rest, pat, rep);
      JoinCons(rep, s[..i], Split(rest, pat));
  }

  /** Replacing a pattern that does not occur leaves the string unchanged. */
  lemma {:induction false} ReplaceAbsent(s: string, pat: string, rep: string)
    requires pat != [] && !Contains(s, pat)
    ensures Replace(s, pat, rep) == s
    decreases |s|
  {
    if |s| >= |pat| {
      assert !OccursAt(s, pat, 0);
      var t := s[1..];
      forall j: nat | OccursAt(t, pat, j)
        ensures false
      {
        assert t[j..j + |pat|] == s[j + 1..j + 1 + |pat|];
        assert OccursAt(s, pat, j + 1);
      }
      assert !Contains(t, pat);
      ReplaceAbsent(t, pat, rep);
    }
  }

  /** Replacing one character by another acts position by position. */
  lemma {:induction false} ReplaceCharAt(s: string, a: char, b: char)
    ensures |Replace(s, [a], [b])| == |s|
    ensures forall i :: 0 <= i < |s| ==> Replace(s, [a], [b])[i] == if s[i] == a then b else s[i]
    decreases |s|
  {
    if s != [] {
      ReplaceCharAt(s[1..], a, b);
      assert s[..1] == [a] <==> s[0] == a;
      assert s[1..] == s[|[a]|..];
    }
  }

  /** Replacing `a` by `b` and then `b` by `a` is the identity when `b` did not occur. */
  lemma ReplaceCharRoundTrip(s: string, a: char, b: char)
    requires b !in s
    ensures Replace(Replace(s, [a], [b]), [b], [a]) == s
  {
    var t := Replace(s, [a], [b]);
    ReplaceCharAt(s, a, b);
    ReplaceCharAt(t, b, a);
  }

  /** After replacing `a` by a different `b`, no `a` is left. */
  lemma ReplaceCharRemoves(s: string, a: char, b: char)
    requires a != b
    ensures a !in Replace(s, [a], [b])
  {
    ReplaceCharAt(s, a, b);
  }

  /** `s.lstrip(chars)` */
  function LStrip(s: string, cs: set<char>): (r: string)
  {
    s[LeadingIn(s, cs)..]
  }

  /** The number of leading characters of `s` that are in `cs`. */
  function LeadingIn(s: string, cs: set<char>): (n: nat)
    ensures n <= |s|
    ensures forall i :: 0 <= i < n ==> s[i] in cs
    ensures n < |s| ==> s[n] !in cs
    decreases |s|
  {
    if s != [] && s[0] in cs then 1 + LeadingIn(s[1..], cs) else 0
  }

  /** `s.rstrip(chars)` */
  function RStrip(s: string, cs: set<char>): (r: string)
    ensures |r| <= |s| && r == s[..|r|]
    ensures forall i :: |r| <= i < |s| ==> s[i] in cs
    ensures r != [] ==> r[|r| - 1] !in cs
    decreases |s|
  {
    if s != [] && s[|s| - 1] in cs then RStrip(s[..|s| - 1], cs) else s
  }

  /** `s.strip(chars)` */
  function Strip(s: string, cs: set<char>): string
  {
    LStrip(RStrip(s, cs), cs)
  }

  /** Stripping leaves nothing exactly when every character is one of those stripped. */
  lemma StripEmpty(s: string, cs: set<char>)
    ensures Strip(s, cs) == [] <==> forall i :: 0 <= i < |s| ==> s[i] in cs
  {
    var r := RStrip(s, cs);
    var n := LeadingIn(r, cs);
    assert forall i :: 0 <= i < |r| ==> r[i] == s[i];
    assert Strip(s, cs) == r[n..];
  }

  /** The characters Python's argument-less `strip`, `lstrip` and `rstrip` remove. */
  const Whitespace: set<char> := {
    '\t', '\n', '\U{B}', '\U{C}', '\r', '\U{1C}', '\U{1D}', '\U{1E}', '\U{1F}', ' ',
    '\U{85}', '\U{A0}', '\U{1680}', '\U{2000}', '\U{2001}', '\U{2002}', '\U{2003}',
    '\U{2004}', '\U{2005}', '\U{2006}', '\U{2007}', '\U{2008}', '\U{2009}', '\U{200A}',
    '\U{2028}', '\U{2029}', '\U{202F}', '\U{205F}', '\U{3000}'
  }

  /** A string with no stripped character at either end is its own strip. */
  lemma StripUnchanged(s: string, cs: set<char>)
    requires s != [] ==> s[0] !in cs && s[|s| - 1] !in cs
    ensures Strip(s, cs) == s
  {
  }

  /** Strip removes a trailing character of the set from a string that does not otherwise need stripping. */
  lemma StripTrailing(s: string, c: char, cs: set<char>)
    requires s != [] && s[0] !in cs && s[|s| - 1] !in cs && c in cs
    ensures Strip(s + [c], cs) == s
  {
    assert (s + [c])[..|s|] == s;
  }

  /** The decimal digit for `d < 10`. */
  function Digit(d: nat): char
    requires d < 10
  {
    ['0', '1', '2', '3', '4', '5', '6', '7', '8', '9'][d]
  }

  predicate IsDigits(s: string) {
    forall i :: 0 <= i < |s| ==> '0' <= s[i] <= '9'
  }

  /** `str(n)` for a natural number. */
  function DecimalDigits(n: nat): (r: string)
    ensures r != [] && IsDigits(r)
    decreases n
  {
    if n < 10 then [Digit(n)] else DecimalDigits(n / 10) + [Digit(n % 10)]
  }

  /** The number a string of decimal digits denotes (`int(s)`). */
  function DecimalValue(s: string): nat
    requires IsDigits(s)
  {
    if s == [] then 0 else DecimalValue(s[..|s| - 1]) * 10 + (s[|s| - 1] as int - '0' as int)
  }

  lemma {:induction false} DecimalRoundTrip(n: nat)
    ensures DecimalValue(DecimalDigits(n)) == n
    decreases n
  {
    if n >= 10 {
      DecimalRoundTrip(n / 10);
      var d := DecimalDigits(n);
      assert d[..|d| - 1] == DecimalDigits(n / 10);
    }
  }

  /** `n` zeros. */
  function Zeros(n: nat): (r: string)
    ensures |r| == n && forall i :: 0 <= i < n ==> r[i] == '0'
  {
    if n == 0 then "" else Zeros(n - 1) + "0"
  }

  /** `f"{n:0{width}d}"`: the decimal form of `n`, left-padded with zeros to at least `width` characters. */
  function ZeroPad(n: nat, width: nat): (r: string)
    ensures IsDigits(r) && |r| >= width
    ensures |DecimalDigits(n)| <= width ==> |r| == width
  {
    var d := DecimalDigits(n);
    (if |d| < width then Zeros(width - |d|) else "") + d
  }

  /** Leading zeros do not change a decimal value. */
  lemma {:induction false} LeadingZeros(z: nat, d: string)
    requires IsDigits(d)
    ensures IsDigits(Zeros(z) + d) && DecimalValue(Zeros(z) + d) == DecimalValue(d)
    decreases |d| + z
  {
    var s := Zeros(z) + d;
    if d == [] {
      assert s == Zeros(z);
      if z > 0 {
        assert s[..|s| - 1] == Zeros(z - 1);
        LeadingZeros(z - 1, []);
        assert Zeros(z - 1) + [] == Zeros(z - 1);
      }
    } else {
      var init := d[..|d| - 1];
      LeadingZeros(z, init);
      assert s[..|s| - 1] == Zeros(z) + init;
    }
  }

  /** Zero padding is read back as the number it was made from, so distinct numbers pad to distinct strings. */
  lemma ZeroPadValue(n: nat, width: nat)
    ensures DecimalValue(ZeroPad(n, width)) == n
  {
    var d := DecimalDigits(n);
    DecimalRoundTrip(n);
    if |d| < width {
      LeadingZeros(width - |d|, d);
    } else {
      assert ZeroPad(n, width) == d;
    }
  }

  lemma ZeroPadInjective(m: nat, n: nat, width: nat)
    requires ZeroPad(m, width) == ZeroPad(n, width)
    ensures m == n
  {
    ZeroPadValue(m, width);
    ZeroPadValue(n, width);
  }
}
