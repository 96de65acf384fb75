/** The few Python string built-ins the onboarding back end relies on:
    `str.split()` with no separator, `sep.join(parts)`, list slicing,
    `str.lower()`, `str.endswith` and `str.replace`. */
module PyStr {

  /** Characters for which Python's `str.isspace()` holds; `str.split()`
      with no argument breaks on runs of these. */
  predicate IsSpace(c: char) {
    || ('\t' <= c <= '\r')
    || ('\U{1C}' <= c <= '\U{1F}')
    || c == ' ' || c == '\U{85}' || c == '\U{A0}' || c == '\U{1680}'
    || ('\U{2000}' <= c <= '\U{200A}')
    || c == '\U{2028}' || c == '\U{2029}' || c == '\U{202F}' || c == '\U{205F}' || c == '\U{3000}'
  }

  /** A word as `str.split()` produces it: non-empty, no whitespace. */
  predicate IsWord(w: string) {
    |w| > 0 && forall i :: 0 <= i < |w| ==> !IsSpace(w[i])
  }

  predicate AllSpace(s: string) {
    forall i :: 0 <= i < |s| ==> IsSpace(s[i])
  }

  /** `s` with its leading whitespace removed. */
  function DropSpace(s: string): (r: string)
    ensures |r| <= |s|
    ensures r == [] || !IsSpace(r[0])
  {
    if s == [] || !IsSpace(s[0]) then s else DropSpace(s[1..])
  }

  /** The longest prefix of `s` without whitespace. */
  function WordPrefix(s: string): (w: string)
    ensures |w| <= |s|
    ensures s != [] && !IsSpace(s[0]) ==> w != []
  {
    if s == [] || IsSpace(s[0]) then [] else [s[0]] + WordPrefix(s[1..])
  }

  /** `DropSpace` removes a whitespace prefix and stops at a non-space. */
  lemma {:induction false} DropSpaceFacts(s: string)
    ensures var r := DropSpace(s);
      r == s[|s| - |r|..] && AllSpace(s[..|s| - |r|])
  {
    if s != [] && IsSpace(s[0]) {
      DropSpaceFacts(s[1..]);
      var r := DropSpace(s);
      assert s[1..][..|s| - 1 - |r|] == s[1..|s| - |r|];
    }
  }

  /** `WordPrefix` is a prefix, has no whitespace, and stops at whitespace. */
  lemma {:induction false} WordPrefixFacts(s: string)
    ensures var w := WordPrefix(s);
      w == s[..|w|] && (forall i :: 0 <= i < |w| ==> !IsSpace(w[i])) &&
      (|w| == |s| || IsSpace(s[|w|]))
  {
    if s != [] && !IsSpace(s[0]) {
      WordPrefixFacts(s[1..]);
      var w := WordPrefix(s);
      assert w == [s[0]] + WordPrefix(s[1..]);
      forall i | 0 <= i < |w| ensures !IsSpace(w[i]) {
        if i > 0 {
          assert w[i] == WordPrefix(s[1..])[i - 1];
        }
      }
    }
  }

  /** Python's `s.split()`: the maximal runs of non-whitespace, in order. */
  function Split(s: string): seq<string>
    decreases |s|
  {
    var t := DropSpace(s);
    if t == [] then []
    else
      var w := WordPrefix(t);
      assert w != [];
      [w] + Split(t[|w|..])
  }

  /** Python's `sep.join(parts)`. */
  function Join(parts: seq<string>, sep: string): string
  {
    if parts == [] then ""
    else if |parts| == 1 then parts[0]
    else parts[0] + sep + Join(parts[1..], sep)
  }

  /** Where `parts[k]` begins inside `Join(parts, sep)`. */
  function Offset(parts: seq<string>, sep: string, k: nat): nat
    requires k <= |parts|
  {
    if k == 0 then 0 else |parts[0]| + |sep| + Offset(parts[1..], sep, k - 1)
  }

  /** `t` occurs in `s` starting at position `p`. */
  predicate At(s: string, t: string, p: int) {
    0 <= p && p + |t| <= |s| && s[p..p + |t|] == t
  }

  /** Python's `s.endswith(suffix)`. */
  predicate EndsWith(s: string, suffix: string) {
    |suffix| <= |s| && s[|s| - |suffix|..] == suffix
  }

  /** `pat` occurs somewhere in `s`. */
  predicate Occurs(s: string, pat: string) {
    exists p :: 0 <= p <= |s| - |pat| && At(s, pat, p)
  }

  function LowerChar(c: char): char {
    if 'A' <= c <= 'Z' then (c as int - 'A' as int + 'a' as int) as char else c
  }

  /** Python's `s.lower()`, restricted to the ASCII letters: no capital is
      left, a capital moves 32 code points up to its small letter, and
      every other character stays as it is. */
  function Lower(s: string): (r: string)
    ensures |r| == |s|
    ensures forall i :: 0 <= i < |r| ==> !('A' <= r[i] <= 'Z')
    ensures forall i :: 0 <= i < |s| && 'A' <= s[i] <= 'Z' ==> r[i] as int == s[i] as int + 32
    ensures forall i :: 0 <= i < |s| && !('A' <= s[i] <= 'Z') ==> r[i] == s[i]
  {
    seq(|s|, i requires 0 <= i < |s| => LowerChar(s[i]))
  }

  /** Python's `s.replace(pat, rep)` for a non-empty `pat`: one scan from the
      left, replacing non-overlapping occurrences. */
  function Replace(s: string, pat: string, rep: string): string
    requires pat != []
    decreases |s|
  {
    if |s| < |pat| then s
    else if s[..|pat|] == pat then rep + Replace(s[|pat|..], pat, rep)
    else [s[0]] + Replace(s[1..], pat, rep)
  }

  /** No proper prefix of `pat` is also a suffix of it, so two occurrences of
      `pat` can never overlap. */
  predicate BorderFree(pat: string) {
    forall k :: 0 < k < |pat| ==> pat[..k] != pat[|pat| - k..]
  }

  /** How Python normalises one bound of a slice `s[lo:hi]` of length `n`. */
  function SliceBound(x: int, n: nat): (b: nat)
    ensures b <= n
    ensures 0 <= x <= n ==> b == x
  {
    if x < 0 then (if x + n < 0 then 0 else x + n)
    else if x > n then n
    else x
  }

  /** Python's `s[lo:hi]`, negative and out-of-range bounds included. */
  function PySlice<T>(s: seq<T>, lo: int, hi: int): seq<T> {
    var a, b := SliceBound(lo, |s|), SliceBound(hi, |s|);
    if a < b then s[a..b] else []
  }

  // ---------------------------------------------------------------------
  // Properties

  /** A slice with in-range start and non-negative length is the usual
      sub-sequence, cut off at the end of `s`. */
  lemma PySliceWindow<T>(s: seq<T>, lo: int, len: int)
    requires 0 <= lo <= |s| && 0 <= len
    ensures PySlice(s, lo, lo + len) == s[lo..if lo + len <= |s| then lo + len else |s|]
  {
  }

  /** Everything `split()` yields is a word. */
  lemma {:induction false} SplitYieldsWords(s: string)
    ensures forall i :: 0 <= i < |Split(s)| ==> IsWord(Split(s)[i])
    decreases |s|
  {
    var t := DropSpace(s);
    DropSpaceFacts(s);
    if t != [] {
      var w := WordPrefix(t);
      WordPrefixFacts(t);
      SplitYieldsWords(t[|w|..]);
      var ws := Split(s);
      assert ws == [w] + Split(t[|w|..]);
      forall i | 0 <= i < |ws| ensures IsWord(ws[i]) {
        if i > 0 {
          assert ws[i] == Split(t[|w|..])[i - 1];
        }
      }
    }
  }

  /** Text without words is exactly text made of whitespace only. */
  lemma {:induction false} SplitEmptyIffAllSpace(s: string)
    ensures Split(s) == [] <==> AllSpace(s)
  {
    var t := DropSpace(s);
    DropSpaceFacts(s);
    if t != [] {
      assert s[|s| - |t|] == t[0];
    } else {
      assert s[..|s|] == s;
    }
  }

  lemma DropSpaceOfWord(s: string)
    requires s == [] || !IsSpace(s[0])
    ensures DropSpace(s) == s
  {
  }

  lemma {:induction false} WordPrefixOfWord(w: string, rest: string)
    requires forall i :: 0 <= i < |w| ==> !IsSpace(w[i])
    requires rest == [] || IsSpace(rest[0])
    ensures WordPrefix(w + rest) == w
    decreases |w|
  {
    if w != [] {
      assert (w + rest)[1..] == w[1..] + rest;
      WordPrefixOfWord(w[1..], rest);
    } else if rest != [] {
      assert (w + rest)[0] == rest[0];
    }
  }

  /** Splitting `w` followed by one space and more text takes `w` off the front. */
  lemma SplitConsWord(w: string, rest: string)
    requires IsWord(w)
    ensures Split(w + " " + rest) == [w] + Split(rest)
  {
    var s := w + " " + rest;
    assert s[0] == w[0];
    DropSpaceOfWord(s);
    assert s == w + (" " + rest);
    WordPrefixOfWord(w, " " + rest);
    WordPrefixFacts(s);
    assert s[|w|..] == " " + rest;
    assert DropSpace(" " + rest) == DropSpace(rest) by {
      assert (" " + rest)[1..] == rest;
    }
    var t := DropSpace(rest);
    if t == [] {
      assert Split(rest) == [];
    }
  }

  lemma HeadTail<T>(s: seq<T>)
    requires s != []
    ensures s == [s[0]] + s[1..]
  {
  }

  /** Splitting a single word gives back that word. */
  lemma SplitWord(w: string)
    requires IsWord(w)
    ensures Split(w) == [w]
  {
    DropSpaceOfWord(w);
    WordPrefixOfWord(w, []);
    assert w + [] == w;
    assert w[|w|..] == [];
  }

  /** Joining words with single spaces and splitting again is the identity:
      `" ".join` loses nothing that `split()` needs. */
  lemma {:induction false} SplitJoinRoundTrip(ws: seq<string>)
    requires forall i :: 0 <= i < |ws| ==> IsWord(ws[i])
    ensures Split(Join(ws, " ")) == ws
  {
    if ws == [] {
    } else if |ws| == 1 {
      SplitWord(ws[0]);
    } else {
      var tail := ws[1..];
      assert forall i :: 0 <= i < |tail| ==> IsWord(tail[i]) by {
        forall i | 0 <= i < |tail| ensures IsWord(tail[i]) {
          assert tail[i] == ws[i + 1];
        }
      }
      assert IsWord(ws[0]);
      SplitJoinRoundTrip(tail);
      assert Join(ws, " ") == ws[0] + " " + Join(tail, " ");
      SplitConsWord(ws[0], Join(tail, " "));
      HeadTail(ws);
    }
  }

  /** A string is found at the front of anything it starts. */
  lemma AtFront(a: string, rest: string)
    ensures At(a + rest, a, 0)
  {
    assert (a + rest)[..|a|] == a;
  }

  /** A string is found at the back of anything it ends. */
  lemma AtBack(a: string, b: string)
    ensures At(a + b, b, |a|)
  {
    assert (a + b)[|a|..|a| + |b|] == b;
  }

  /** Appending to a string keeps every occurrence in it. */
  lemma AtExtend(s: string, rest: string, t: string, p: int)
    requires At(s, t, p)
    ensures At(s + rest, t, p)
  {
    assert (s + rest)[p..p + |t|] == s[p..p + |t|];
  }

  /** Prepending `head` moves every occurrence right by `|head|`. */
  lemma AtShift(head: string, s: string, t: string, p: int)
    requires At(s, t, p)
    ensures At(head + s, t, |head| + p)
  {
    assert (head + s)[|head| + p..|head| + p + |t|] == s[p..p + |t|];
  }

  /** Joining two or more parts puts the separator after the first. */
  lemma JoinCons(parts: seq<string>, sep: string)
    requires |parts| > 1
    ensures Join(parts, sep) == parts[0] + sep + Join(parts[1..], sep)
    ensures Offset(parts, sep, 1) == |parts[0] + sep|
  {
  }

  /** Every part sits at its offset in the joined string: the parts keep
      their order. */
  lemma {:induction false} JoinPartAt(parts: seq<string>, sep: string, k: nat)
    requires k < |parts|
    ensures At(Join(parts, sep), parts[k], Offset(parts, sep, k))
  {
    if |parts| == 1 {
      assert Join(parts, sep) == parts[0];
    } else {
      var head, tail := parts[0] + sep, Join(parts[1..], sep);
      JoinCons(parts, sep);
      if k == 0 {
        AtFront(parts[0], sep);
        AtExtend(head, tail, parts[0], 0);
      } else {
        JoinPartAt(parts[1..], sep, k - 1);
        assert parts[1..][k - 1] == parts[k];
        AtShift(head, tail, parts[k], Offset(parts[1..], sep, k - 1));
      }
    }
  }

  /** Every part but the last is followed by the separator. */
  lemma {:induction false} JoinSepAt(parts: seq<string>, sep: string, k: nat)
    requires k + 1 < |parts|
    ensures At(Join(parts, sep), sep, Offset(parts, sep, k) + |parts[k]|)
  {
    var head, tail := parts[0] + sep, Join(parts[1..], sep);
    JoinCons(parts, sep);
    if k == 0 {
      AtBack(parts[0], sep);
      AtExtend(head, tail, sep, |parts[0]|);
    } else {
      JoinSepAt(parts[1..], sep, k - 1);
      assert parts[1..][k - 1] == parts[k];
      AtShift(head, tail, sep, Offset(parts[1..], sep, k - 1) + |parts[k]|);
    }
  }

  /** The last part ends the joined string. */
  lemma {:induction false} JoinEnd(parts: seq<string>, sep: string)
    requires |parts| > 0
    ensures Offset(parts, sep, |parts| - 1) + |parts[|parts| - 1]| == |Join(parts, sep)|
  {
    if |parts| > 1 {
      JoinCons(parts, sep);
      JoinEnd(parts[1..], sep);
      assert parts[1..][|parts| - 2] == parts[|parts| - 1];
    }
  }

  /** A part that is not the last is found, with the separator after it, at
      its offset; the next part starts right after. */
  lemma PartSepAt(parts: seq<string>, sep: string, k: nat)
    requires k + 1 < |parts|
    ensures At(Join(parts, sep), parts[k] + sep, Offset(parts, sep, k))
    ensures Offset(parts, sep, k + 1) == Offset(parts, sep, k) + |parts[k] + sep|
  {
    JoinPartAt(parts, sep, k);
    JoinSepAt(parts, sep, k);
    OffsetStep(parts, sep, k);
    AdjacentAt(Join(parts, sep), parts[k], sep, Offset(parts, sep, k));
  }

  /** Three consecutive parts, each followed by the separator, are found
      together at the first one's offset. */
  lemma ThreePartsAt(parts: seq<string>, sep: string, k: nat)
    requires k + 3 < |parts|
    ensures At(Join(parts, sep), parts[k] + sep + parts[k + 1] + sep + parts[k + 2] + sep,
               Offset(parts, sep, k))
  {
    var j, o := Join(parts, sep), Offset(parts, sep, k);
    PartSepAt(parts, sep, k);
    PartSepAt(parts, sep, k + 1);
    PartSepAt(parts, sep, k + 2);
    AtSplit(j, parts[k + 1], sep, o + |parts[k] + sep|);
    AtSplit(j, parts[k + 2], sep, o + |parts[k] + sep| + |parts[k + 1] + sep|);
    AdjacentAt(j, parts[k] + sep, parts[k + 1], o);
    AdjacentAt(j, parts[k] + sep + parts[k + 1], sep, o);
    AdjacentAt(j, parts[k] + sep + parts[k + 1] + sep, parts[k + 2], o);
    AdjacentAt(j, parts[k] + sep + parts[k + 1] + sep + parts[k + 2], sep, o);
  }

  /** Each part begins right after the previous part and the separator. */
  lemma {:induction false} OffsetStep(parts: seq<string>, sep: string, k: nat)
    requires k < |parts|
    ensures Offset(parts, sep, k + 1) == Offset(parts, sep, k) + |parts[k]| + |sep|
  {
    if k > 0 {
      assert parts[1..][k - 1] == parts[k];
      OffsetStep(parts[1..], sep, k - 1);
    }
  }

  /** Two strings found one right after the other form their concatenation. */
  lemma AdjacentAt(s: string, a: string, b: string, p: int)
    requires At(s, a, p) && At(s, b, p + |a|)
    ensures At(s, a + b, p)
  {
    assert s[p..p + |a| + |b|] == s[p..p + |a|] + s[p + |a|..p + |a| + |b|];
  }

  /** The two halves of a string found at `p` are found at `p` and right after. */
  lemma AtSplit(s: string, a: string, b: string, p: int)
    requires At(s, a + b, p)
    ensures At(s, a, p) && At(s, b, p + |a|)
  {
    assert s[p..p + |a|] == s[p..p + |a| + |b|][..|a|];
    assert s[p + |a|..p + |a| + |b|] == s[p..p + |a| + |b|][|a|..];
  }

  /** A part's offset depends only on the parts before it. */
  lemma {:induction false} OffsetPrefix(a: seq<string>, b: seq<string>, sep: string, k: nat)
    requires k <= |a| && k <= |b| && a[..k] == b[..k]
    ensures Offset(a, sep, k) == Offset(b, sep, k)
  {
    if k > 0 {
      assert a[0] == a[..k][0] == b[..k][0] == b[0];
      assert a[1..][..k - 1] == a[..k][1..] == b[..k][1..] == b[1..][..k - 1];
      OffsetPrefix(a[1..], b[1..], sep, k - 1);
    }
  }

  /** `replace` leaves a string without the pattern unchanged. */
  lemma {:induction false} ReplaceAbsent(s: string, pat: string, rep: string)
    requires pat != []
    requires !Occurs(s, pat)
    ensures Replace(s, pat, rep) == s
    decreases |s|
  {
    if |s| >= |pat| {
      assert !At(s, pat, 0);
      assert s[..|pat|] != pat;
      assert !Occurs(s[1..], pat) by {
        forall p | 0 <= p <= |s[1..]| - |pat|
          ensures !At(s[1..], pat, p)
        {
          assert !At(s, pat, p + 1);
          assert s[1..][p..p + |pat|] == s[p + 1..p + 1 + |pat|];
        }
      }
      ReplaceAbsent(s[1..], pat, rep);
      assert s == [s[0]] + s[1..];
    }
  }

  /** A match of `pat` at the front of `base + pat`, with `base` shorter than
      `pat`, would make the last `|pat| - |base|` characters of `pat` equal to
      its first ones. */
  lemma StraddlingMatchIsBorder(base: string, pat: string)
    requires 0 < |base| < |pat|
    requires (base + pat)[..|pat|] == pat
    ensures pat[..|pat| - |base|] == pat[|base|..]
  {
    var s := base + pat;
    var k := |pat| - |base|;
    forall i | 0 <= i < k
      ensures pat[..k][i] == pat[|base|..][i]
    {
      assert s[..|pat|][|base| + i] == pat[i];
    }
  }

  /** A border-free pattern after a base shorter than it: only the final
      `pat` is replaced. */
  lemma {:induction false} ReplaceTrailingShort(base: string, pat: string, rep: string)
    requires |base| < |pat| && BorderFree(pat)
    ensures Replace(base + pat, pat, rep) == base + rep
    decreases |base|
  {
    var s := base + pat;
    if base == [] {
      assert s == pat;
      assert s[..|pat|] == pat;
      assert s[|pat|..] == [];
    } else {
      if s[..|pat|] == pat {
        StraddlingMatchIsBorder(base, pat);
        assert false;
      }
      assert Replace(s, pat, rep) == [s[0]] + Replace(s[1..], pat, rep);
      assert s[1..] == base[1..] + pat;
      ReplaceTrailingShort(base[1..], pat, rep);
      HeadTail(base);
    }
  }

  /** For a border-free pattern, replacing in `base + pat` treats the final
      `pat` on its own: no occurrence can reach into it from `base`. */
  lemma {:induction false} ReplaceTrailing(base: string, pat: string, rep: string)
    requires pat != [] && BorderFree(pat)
    ensures Replace(base + pat, pat, rep) == Replace(base, pat, rep) + rep
    decreases |base|, 1
  {
    if |base| < |pat| {
      ReplaceTrailingShort(base, pat, rep);
      assert Replace(base, pat, rep) == base;
    } else if base[..|pat|] == pat {
      ReplaceTrailingAfterMatch(base, pat, rep);
    } else {
      ReplaceTrailingAfterMiss(base, pat, rep);
    }
  }

  /** The step of `ReplaceTrailing` where `base` starts with `pat`. */
  lemma {:induction false} ReplaceTrailingAfterMatch(base: string, pat: string, rep: string)
    requires pat != [] && BorderFree(pat)
    requires |pat| <= |base| && base[..|pat|] == pat
    ensures Replace(base + pat, pat, rep) == Replace(base, pat, rep) + rep
    decreases |base|, 0
  {
    var s := base + pat;
    assert s[..|pat|] == pat;
    assert Replace(s, pat, rep) == rep + Replace(s[|pat|..], pat, rep);
    assert Replace(base, pat, rep) == rep + Replace(base[|pat|..], pat, rep);
    assert s[|pat|..] == base[|pat|..] + pat;
    ReplaceTrailing(base[|pat|..], pat, rep);
  }

  /** The step of `ReplaceTrailing` where `base` does not start with `pat`. */
  lemma {:induction false} ReplaceTrailingAfterMiss(base: string, pat: string, rep: string)
    requires pat != [] && BorderFree(pat)
    requires |pat| <= |base| && base[..|pat|] != pat
    ensures Replace(base + pat, pat, rep) == Replace(base, pat, rep) + rep
    decreases |base|, 0
  {
    var s := base + pat;
    assert s[..|pat|] == base[..|pat|];
    assert Replace(s, pat, rep) == [s[0]] + Replace(s[1..], pat, rep);
    assert Replace(base, pat, rep) == [base[0]] + Replace(base[1..], pat, rep);
    assert s[1..] == base[1..] + pat;
    ReplaceTrailing(base[1..], pat, rep);
  }
}
