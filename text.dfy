/**
 * The PHP string primitives the core relies on, over `string` (one `char`
 * per byte of the PHP string): `trim`/`rtrim`/`ltrim` with their default
 * character set, `explode`/`implode` on a one-character delimiter, `empty()`
 * on strings, `strtolower`, `str_starts_with`, `array_filter` and the
 * `basename`/`pathinfo` extension rules of a POSIX build.
 */
module Text {

  import Wrappers

  /** The characters stripped by `trim`, `rtrim` and `ltrim` by default: " \t\n\r\0\x0B". */
  predicate IsTrimChar(c: char) {
    c == ' ' || c == '\t' || c == '\n' || c == '\r' || c == '\0' || c as int == 11
  }

  predicate AllTrimChars(s: string) {
    forall i :: 0 <= i < |s| ==> IsTrimChar(s[i])
  }

  /** PHP `rtrim($s)`. */
  function RTrim(s: string): (r: string)
    ensures |r| <= |s| && r == s[..|r|]
    ensures r == [] || !IsTrimChar(r[|r| - 1])
    ensures AllTrimChars(s[|r|..])
  {
    if |s| > 0 && IsTrimChar(s[|s| - 1]) then
      var r := RTrim(s[..|s| - 1]);
      assert s[..|s| - 1][..|r|] == s[..|r|];
      assert s[|r|..] == s[..|s| - 1][|r|..] + [s[|s| - 1]];
      r
    else s
  }

  /** PHP `ltrim($s)`. */
  function LTrim(s: string): (r: string)
    ensures |r| <= |s| && r == s[|s| - |r|..]
    ensures r == [] || !IsTrimChar(r[0])
    ensures AllTrimChars(s[..|s| - |r|])
  {
    if |s| > 0 && IsTrimChar(s[0]) then
      var r := LTrim(s[1..]);
      LTrimStep(s, r);
      r
    else s
  }

  /** One stripped leading character: the facts about the rest carry over to `s`. */
  lemma LTrimStep(s: string, r: string)
    requires |s| > 0 && IsTrimChar(s[0])
    requires |r| <= |s| - 1 && r == s[1..][|s| - 1 - |r|..]
    requires AllTrimChars(s[1..][..|s| - 1 - |r|])
    ensures r == s[|s| - |r|..] && AllTrimChars(s[..|s| - |r|])
  {
    var k := |s| - |r|;
    assert s[1..][k - 1..] == s[k..];
    forall i | 0 <= i < k ensures IsTrimChar(s[..k][i]) {
      if i > 0 {
        assert s[..k][i] == s[1..][..k - 1][i - 1];
      }
    }
  }

  /** PHP `trim($s)`. */
  function Trim(s: string): string {
    LTrim(RTrim(s))
  }

  /** A string that neither starts nor ends with a trimmed character is its own trim. */
  lemma TrimOfTrimmed(s: string)
    requires s == [] || (!IsTrimChar(s[0]) && !IsTrimChar(s[|s| - 1]))
    ensures Trim(s) == s
  {
  }

  lemma {:induction false} RTrimOfBlank(s: string)
    requires AllTrimChars(s)
    ensures RTrim(s) == []
  {
    if |s| > 0 {
      RTrimOfBlank(s[..|s| - 1]);
    }
  }

  /** `trim($s) === ''` exactly when every character of `s` is one `trim` strips. */
  lemma {:induction false} TrimEmptyIffBlank(s: string)
    ensures Trim(s) == [] <==> AllTrimChars(s)
  {
    var r := RTrim(s);
    if Trim(s) == [] {
      assert LTrim(r) == [];
      assert r[..|r| - 0] == r;
      assert AllTrimChars(r);
      assert r == [];
      assert s[0..] == s;
    }
    if AllTrimChars(s) {
      RTrimOfBlank(s);
    }
  }

  lemma {:induction false} RTrimIdempotent(s: string)
    ensures RTrim(RTrim(s)) == RTrim(s)
  {
    var r := RTrim(s);
    assert r == [] || !IsTrimChar(r[|r| - 1]);
  }

  lemma {:induction false} LTrimIdempotent(s: string)
    ensures LTrim(LTrim(s)) == LTrim(s)
  {
    var r := LTrim(s);
    assert r == [] || !IsTrimChar(r[0]);
  }

  lemma {:induction false} LTrimKeepsRTrimmed(s: string)
    requires s == [] || !IsTrimChar(s[|s| - 1])
    ensures RTrim(LTrim(s)) == LTrim(s)
  {
    var l := LTrim(s);
    if l != [] {
      assert l[|l| - 1] == s[|s| - 1];
    }
  }

  /** `trim` is idempotent: trimming an already trimmed string changes nothing. */
  lemma TrimIdempotent(s: string)
    ensures Trim(Trim(s)) == Trim(s)
  {
    var r := RTrim(s);
    var t := LTrim(r);
    LTrimKeepsRTrimmed(r);
    assert RTrim(t) == t;
    LTrimIdempotent(r);
  }

  /** PHP `empty($s)` for a string: true for "" and for "0". */
  predicate IsFalsy(s: string) {
    s == "" || s == "0"
  }

  /** PHP `str_starts_with($s, $prefix)`. */
  predicate StartsWith(s: string, prefix: string) {
    |prefix| <= |s| && s[..|prefix|] == prefix
  }

  predicate IsAsciiUpper(c: char) {
    'A' <= c <= 'Z'
  }

  function LowerChar(c: char): (r: char)
    ensures !IsAsciiUpper(r)
  {
    if IsAsciiUpper(c) then (c as int + 32) as char else c
  }

  /** PHP 8 `strtolower`: ASCII letters only, independent of the locale. */
  function ToLower(s: string): (r: string)
    ensures |r| == |s|
    ensures forall i :: 0 <= i < |s| ==> r[i] == LowerChar(s[i])
  {
    seq(|s|, i requires 0 <= i < |s| => LowerChar(s[i]))
  }

  lemma ToLowerOfLower(s: string)
    requires forall i :: 0 <= i < |s| ==> !IsAsciiUpper(s[i])
    ensures ToLower(s) == s
  {
  }

  /** Lower-casing commutes with taking a slice. */
  lemma ToLowerSlice(s: string, a: nat, b: nat)
    requires a <= b <= |s|
    ensures ToLower(s)[a..b] == ToLower(s[a..b])
  {
  }

  lemma ToLowerIdempotent(s: string)
    ensures ToLower(ToLower(s)) == ToLower(s)
  {
  }

  /** PHP `explode($d, $s)` for a one-character delimiter: never an empty list. */
  function Explode(s: string, d: char): (r: seq<string>)
    ensures |r| >= 1
    ensures forall i :: 0 <= i < |r| ==> d !in r[i]
  {
    if |s| == 0 then [""]
    else
      var rest := Explode(s[1..], d);
      if s[0] == d then [""] + rest else [[s[0]] + rest[0]] + rest[1..]
  }

  /** PHP `implode($d, $lines)` for a one-character glue. */
  function Implode(lines: seq<string>, d: char): string {
    if |lines| == 0 then ""
    else if |lines| == 1 then lines[0]
    else lines[0] + [d] + Implode(lines[1..], d)
  }

  /** Joining from position `k` is the line at `k`, the glue, and the join of the rest. */
  lemma ImplodeAt(lines: seq<string>, k: nat, d: char)
    requires k + 1 < |lines|
    ensures Implode(lines[k..], d) == lines[k] + [d] + Implode(lines[k + 1..], d)
  {
    assert lines[k..][1..] == lines[k + 1..];
  }

  /** Joining the pieces of `explode` gives back the original string. */
  lemma {:induction false} ImplodeExplode(s: string, d: char)
    ensures Implode(Explode(s, d), d) == s
  {
    if |s| > 0 {
      var rest := Explode(s[1..], d);
      ImplodeExplode(s[1..], d);
      if s[0] == d {
        assert Explode(s, d) == [""] + rest;
        assert ([""] + rest)[1..] == rest;
        assert s == [d] + s[1..];
      } else {
        var ls := [[s[0]] + rest[0]] + rest[1..];
        assert Explode(s, d) == ls;
        if |rest| == 1 {
          assert s == [s[0]] + s[1..];
        } else {
          assert ls[1..] == rest[1..];
          assert s == [s[0]] + s[1..];
        }
      }
    }
  }

  lemma {:induction false} ExplodeNoDelimiter(a: string, d: char)
    requires d !in a
    ensures Explode(a, d) == [a]
  {
    if |a| > 0 {
      ExplodeNoDelimiter(a[1..], d);
      assert [a[0]] + a[1..] == a;
    }
  }

  lemma {:induction false} ExplodeAfterPiece(a: string, b: string, d: char)
    requires d !in a
    ensures Explode(a + [d] + b, d) == [a] + Explode(b, d)
  {
    if |a| == 0 {
      assert (a + [d] + b)[1..] == b;
    } else {
      assert (a + [d] + b)[1..] == a[1..] + [d] + b;
      ExplodeAfterPiece(a[1..], b, d);
      assert [a[0]] + a[1..] == a;
    }
  }

  /** Splitting a join of delimiter-free pieces gives back the pieces. */
  lemma {:induction false} ExplodeImplode(lines: seq<string>, d: char)
    requires |lines| >= 1
    requires forall i :: 0 <= i < |lines| ==> d !in lines[i]
    ensures Explode(Implode(lines, d), d) == lines
  {
    if |lines| == 1 {
      ExplodeNoDelimiter(lines[0], d);
    } else {
      ExplodeImplode(lines[1..], d);
      ExplodeAfterPiece(lines[0], Implode(lines[1..], d), d);
      assert [lines[0]] + lines[1..] == lines;
    }
  }

  /** `array_filter($s, $p)` with its keys dropped: the elements satisfying `p`, in order. */
  function Filter<T(!new)>(s: seq<T>, p: T -> bool): (r: seq<T>)
    ensures |r| <= |s|
    ensures forall x :: x in r <==> x in s && p(x)
  {
    if |s| == 0 then [] else if p(s[0]) then [s[0]] + Filter(s[1..], p) else Filter(s[1..], p)
  }

  /** Every kept element is kept as often as it occurs in `s`; the others not at all. */
  lemma {:induction false} FilterCounts<T(!new)>(s: seq<T>, p: T -> bool)
    ensures forall x :: multiset(Filter(s, p))[x] == if p(x) then multiset(s)[x] else 0
  {
    if |s| > 0 {
      FilterCounts(s[1..], p);
      assert s == [s[0]] + s[1..];
      assert multiset(s) == multiset([s[0]]) + multiset(s[1..]);
      var rest := Filter(s[1..], p);
      if p(s[0]) {
        assert multiset(Filter(s, p)) == multiset([s[0]]) + multiset(rest);
      } else {
        assert Filter(s, p) == rest;
      }
    }
  }

  /** `idx` places every element of `r` at strictly increasing positions of `s`: `r` is a subsequence of `s`. */
  ghost predicate IsEmbedding<T>(idx: seq<nat>, r: seq<T>, s: seq<T>) {
    |idx| == |r|
    && (forall k :: 0 <= k < |idx| ==> idx[k] < |s| && s[idx[k]] == r[k])
    && (forall k, l :: 0 <= k < l < |idx| ==> idx[k] < idx[l])
  }

  /** An embedding into the tail of `s` shifts into `s`, with or without the head in front. */
  lemma ShiftEmbedding<T>(idx: seq<nat>, r: seq<T>, s: seq<T>)
    requires |s| > 0 && IsEmbedding(idx, r, s[1..])
    ensures var shifted := seq(|idx|, k requires 0 <= k < |idx| => idx[k] + 1);
            IsEmbedding(shifted, r, s) && IsEmbedding([0] + shifted, [s[0]] + r, s)
  {
    var shifted := seq(|idx|, k requires 0 <= k < |idx| => idx[k] + 1);
    forall k | 0 <= k < |shifted| ensures shifted[k] < |s| && s[shifted[k]] == r[k] {
      assert s[1..][idx[k]] == r[k];
    }
    var e := [0] + shifted;
    var er := [s[0]] + r;
    forall k | 0 <= k < |e| ensures e[k] < |s| && s[e[k]] == er[k] {
      if k > 0 {
        assert e[k] == shifted[k - 1] && er[k] == r[k - 1];
      }
    }
  }

  /** The kept elements keep their relative order. */
  lemma {:induction false} FilterEmbeds<T(!new)>(s: seq<T>, p: T -> bool)
    ensures exists idx :: IsEmbedding(idx, Filter(s, p), s)
  {
    if |s| == 0 {
      assert IsEmbedding([], Filter(s, p), s);
    } else {
      FilterEmbeds(s[1..], p);
      var rest := Filter(s[1..], p);
      var idx :| IsEmbedding(idx, rest, s[1..]);
      ShiftEmbedding(idx, rest, s);
      var shifted := seq(|idx|, k requires 0 <= k < |idx| => idx[k] + 1);
      if p(s[0]) {
        assert Filter(s, p) == [s[0]] + rest;
        assert IsEmbedding([0] + shifted, Filter(s, p), s);
      } else {
        assert Filter(s, p) == rest;
        assert IsEmbedding(shifted, Filter(s, p), s);
      }
    }
  }

  /** `array_filter($s)` without a callback on strings: drops the falsy "" and "0". */
  function DropFalsy(s: seq<string>): (r: seq<string>)
    ensures forall x :: x in r <==> x in s && !IsFalsy(x)
    ensures forall x :: multiset(r)[x] == if IsFalsy(x) then 0 else multiset(s)[x]
  {
    FilterCounts(s, (x: string) => !IsFalsy(x));
    Filter(s, (x: string) => !IsFalsy(x))
  }

  /** `array_map($f, $s)`. */
  function Map<A, B>(s: seq<A>, f: A -> B): (r: seq<B>)
    ensures |r| == |s|
    ensures forall i :: 0 <= i < |s| ==> r[i] == f(s[i])
  {
    seq(|s|, i requires 0 <= i < |s| => f(s[i]))
  }

  /** Regrouping a concatenation, stated once so callers need not unfold their operands. */
  lemma Regroup<T>(a: seq<T>, b: seq<T>, c: seq<T>)
    ensures a + b + c == a + (b + c)
  {
  }

  /** The empty prefix and suffix, likewise. */
  lemma EmptyPrefix<T>(s: seq<T>)
    ensures [] + s == s
  {
  }

  lemma EmptySuffix<T>(s: seq<T>)
    ensures s + [] == s
  {
  }

  /** Regrouping a five-piece concatenation around its first two pieces. */
  lemma Regroup5<T>(a: seq<T>, b: seq<T>, c: seq<T>, d: seq<T>, e: seq<T>)
    ensures a + b + c + d + e == a + (b + (c + d + e))
  {
  }

  lemma Regroup4<T>(a: seq<T>, b: seq<T>, c: seq<T>, d: seq<T>)
    ensures a + b + c + d == a + (b + (c + d))
  {
  }

  /** A sequence is its prefix followed by the rest. */
  lemma SplitAt<T>(s: seq<T>, n: nat)
    requires n <= |s|
    ensures s == s[..n] + s[n..]
  {
  }

  /** The two pieces of a concatenation, read back by slicing. */
  lemma Pieces<T>(a: seq<T>, b: seq<T>)
    ensures (a + b)[..|a|] == a && (a + b)[|a|..] == b
  {
  }

  /** The first, middle and last pieces of a concatenation, read back by slicing. */
  lemma Framed<T>(a: seq<T>, m: seq<T>, b: seq<T>)
    ensures |a + m + b| >= |a| + |b|
    ensures (a + m + b)[..|a|] == a
    ensures (a + m + b)[|a + m + b| - |b|..] == b
    ensures (a + m + b)[|a|..|a + m + b| - |b|] == m
  {
  }

  lemma MapAppend<A, B>(a: seq<A>, b: seq<A>, f: A -> B)
    ensures Map(a + b, f) == Map(a, f) + Map(b, f)
  {
    var l := Map(a + b, f);
    var r := Map(a, f) + Map(b, f);
    forall k | 0 <= k < |l| ensures l[k] == r[k] {
      if k < |a| {
        assert (a + b)[k] == a[k];
      } else {
        assert (a + b)[k] == b[k - |a|];
      }
    }
  }

  /** Mapping one more element appends its image. */
  lemma MapSnoc<A, B>(s: seq<A>, f: A -> B, i: nat)
    requires i < |s|
    ensures Map(s[..i + 1], f) == Map(s[..i], f) + [f(s[i])]
  {
    var l := Map(s[..i + 1], f);
    var r := Map(s[..i], f) + [f(s[i])];
    assert |l| == |r|;
    forall k | 0 <= k < |l| ensures l[k] == r[k] {
      assert s[..i + 1][k] == s[k];
    }
  }

  /** The index just past the last `c` of `s`, or 0 when `s` has no `c`. */
  function AfterLastIndex(s: string, c: char): (k: nat)
    ensures k <= |s|
    ensures k > 0 ==> s[k - 1] == c
    ensures forall i :: k <= i < |s| ==> s[i] != c
    decreases |s|
  {
    if |s| == 0 then 0
    else if s[|s| - 1] == c then |s|
    else AfterLastIndex(s[..|s| - 1], c)
  }

  /** The part of `s` after its last `c`, or all of `s` when it has no `c`. */
  function AfterLast(s: string, c: char): (r: string)
    ensures c !in r
    ensures c !in s ==> r == s
  {
    var k := AfterLastIndex(s, c);
    assert k > 0 ==> s[k - 1] in s;
    s[k..]
  }

  /** The result of `AfterLast` is the suffix that follows an occurrence of `c`, when there is one. */
  lemma AfterLastFollows(s: string, c: char)
    requires c in s
    ensures var r := AfterLast(s, c);
            |r| < |s| && s[|s| - |r| - 1] == c && s[|s| - |r|..] == r
  {
    var k := AfterLastIndex(s, c);
    var j :| 0 <= j < |s| && s[j] == c;
    assert k > 0;
  }

  /** The length of `s` without its trailing `c` characters. */
  function TrailingStart(s: string, c: char): (n: nat)
    ensures n <= |s|
    ensures n == 0 || s[n - 1] != c
    ensures forall i :: n <= i < |s| ==> s[i] == c
    decreases |s|
  {
    if |s| > 0 && s[|s| - 1] == c then TrailingStart(s[..|s| - 1], c) else |s|
  }

  /** `s` without its trailing `c` characters. */
  function StripTrailing(s: string, c: char): (r: string)
    ensures r == [] || r[|r| - 1] != c
  {
    s[..TrailingStart(s, c)]
  }

  /** PHP `basename($path)` on a POSIX system: only '/' separates components. */
  function Basename(path: string): string {
    AfterLast(StripTrailing(path, '/'), '/')
  }

  /** PHP `pathinfo($path, PATHINFO_EXTENSION)`: the text after the last '.' of the basename, or "". */
  function PathExtension(path: string): (r: string)
    ensures '.' !in r
    ensures '.' !in Basename(path) ==> r == ""
  {
    var b := Basename(path);
    if '.' in b then AfterLast(b, '.') else ""
  }

  /** The position of the first `c` in `s`, if any (PHP `strpos` with a one-character needle). */
  function IndexOf(s: string, c: char): (r: Wrappers.Option<nat>)
    ensures r.None? <==> c !in s
    ensures r.Some? ==> r.value < |s| && s[r.value] == c && c !in s[..r.value]
  {
    if |s| == 0 then Wrappers.None
    else if s[0] == c then Wrappers.Some(0)
    else
      match IndexOf(s[1..], c)
      case None => Wrappers.None
      case Some(i) =>
        assert s[..i + 1] == [s[0]] + s[1..][..i];
        Wrappers.Some(i + 1)
  }

  /** The first `c` of `p + tail` is the one `tail` starts with, when `p` has none. */
  lemma IndexOfAfter(p: string, tail: string, c: char)
    requires c !in p && |tail| > 0 && tail[0] == c
    ensures IndexOf(p + tail, c) == Wrappers.Some(|p|)
  {
    var s := p + tail;
    assert s[|p|] == c;
    assert forall j :: 0 <= j < |p| ==> s[j] == p[j] && p[j] in p;
  }

  /** PHP `implode($glue, $items)` for a glue string of any length. */
  function ImplodeWith(items: seq<string>, glue: string): string {
    if |items| == 0 then ""
    else if |items| == 1 then items[0]
    else items[0] + glue + ImplodeWith(items[1..], glue)
  }
}
