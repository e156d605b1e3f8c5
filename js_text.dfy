/** The JavaScript string operations the ciphers rely on, restricted to ASCII:
    `toUpperCase`/`toLowerCase`, `replace(/[^A-Z]/g, '')`-style cleaning, and the
    hexadecimal digit conversions of `parseInt(_, 16)` and `toString(16)`. */
module JsText {

  predicate IsUpper(c: char) { 'A' <= c <= 'Z' }
  predicate IsLower(c: char) { 'a' <= c <= 'z' }
  predicate IsDigit(c: char) { '0' <= c <= '9' }
  predicate IsLetter(c: char) { IsUpper(c) || IsLower(c) }
  predicate IsUpperAlnum(c: char) { IsUpper(c) || IsDigit(c) }

  /** `/^[a-zA-Z]*$/` */
  predicate AllLetters(s: string) { forall i :: 0 <= i < |s| ==> IsLetter(s[i]) }
  predicate AllUpper(s: string) { forall i :: 0 <= i < |s| ==> IsUpper(s[i]) }
  predicate AllLower(s: string) { forall i :: 0 <= i < |s| ==> IsLower(s[i]) }

  function UpperChar(c: char): (r: char)
    ensures IsLower(c) ==> IsUpper(r) && r as int == c as int - 32
    ensures !IsLower(c) ==> r == c
  {
    if IsLower(c) then (c as int - 32) as char else c
  }

  function LowerChar(c: char): (r: char)
    ensures IsUpper(c) ==> IsLower(r) && r as int == c as int + 32
    ensures !IsUpper(c) ==> r == c
  {
    if IsUpper(c) then (c as int + 32) as char else c
  }

  function ToUpper(s: string): (r: string)
    ensures |r| == |s| && forall i :: 0 <= i < |s| ==> r[i] == UpperChar(s[i])
  {
    seq(|s|, i requires 0 <= i < |s| => UpperChar(s[i]))
  }

  lemma ToUpperCons(s: string)
    requires s != []
    ensures ToUpper(s) == [UpperChar(s[0])] + ToUpper(s[1..])
  {
    assert ToUpper(s)[1..] == ToUpper(s[1..]);
  }

  function ToLower(s: string): (r: string)
    ensures |r| == |s| && forall i :: 0 <= i < |s| ==> r[i] == LowerChar(s[i])
  {
    seq(|s|, i requires 0 <= i < |s| => LowerChar(s[i]))
  }

  /** `replace(/[^...]/g, '')`: keeps, in order, the characters that satisfy `keep`. */
  function Filter(keep: char -> bool, s: string): (r: string)
    ensures |r| <= |s|
    ensures forall i :: 0 <= i < |r| ==> keep(r[i])
    ensures forall c :: c in r <==> c in s && keep(c)
  {
    if s == [] then [] else if keep(s[0]) then [s[0]] + Filter(keep, s[1..]) else Filter(keep, s[1..])
  }

  lemma {:induction false} FilterKeepsAll(keep: char -> bool, s: string)
    requires forall i :: 0 <= i < |s| ==> keep(s[i])
    ensures Filter(keep, s) == s
  {
    if s != [] {
      FilterKeepsAll(keep, s[1..]);
    }
  }

  lemma {:induction false} FilterAppend(keep: char -> bool, s: string, t: string)
    ensures Filter(keep, s + t) == Filter(keep, s) + Filter(keep, t)
  {
    if s == [] {
      assert s + t == t;
    } else {
      assert (s + t)[1..] == s[1..] + t;
      FilterAppend(keep, s[1..], t);
    }
  }

  /** `text.toUpperCase().replace(/[^A-Z]/g, '')` */
  function UpperLetters(s: string): (r: string)
    ensures AllUpper(r)
    ensures |r| <= |s|
  {
    Filter(IsUpper, ToUpper(s))
  }

  /** `text.toLowerCase().replace(/[^a-z]/g, '')` */
  function LowerLetters(s: string): (r: string)
    ensures AllLower(r)
    ensures |r| <= |s|
  {
    Filter(IsLower, ToLower(s))
  }

  /** `text.toUpperCase().replace(/[^A-Z0-9]/g, '')` */
  function UpperAlnum(s: string): (r: string)
    ensures forall i :: 0 <= i < |r| ==> IsUpperAlnum(r[i])
    ensures |r| <= |s|
  {
    Filter(IsUpperAlnum, ToUpper(s))
  }

  /** Cleaning text that is already upper-case letters changes nothing. */
  lemma UpperLettersOfUpper(s: string)
    requires AllUpper(s)
    ensures UpperLetters(s) == s
  {
    assert ToUpper(s) == s;
    FilterKeepsAll(IsUpper, s);
  }

  /** Cleaning the lower-case form of a text gives the cleaned upper-case form back. */
  lemma UpperLettersOfLower(s: string)
    requires AllLower(s)
    ensures UpperLetters(s) == ToUpper(s)
  {
    FilterKeepsAll(IsUpper, ToUpper(s));
  }

  /** `String.fromCharCode(i + 65)` for a letter index. */
  function Letter(i: int): (c: char)
    requires 0 <= i < 26
    ensures IsUpper(c) && LetterIndex(c) == i
  {
    (i + 65) as char
  }

  /** `c.charCodeAt(0) - 65` */
  function LetterIndex(c: char): int { c as int - 65 }

  lemma LetterOfIndex(c: char)
    requires IsUpper(c)
    ensures 0 <= LetterIndex(c) < 26 && Letter(LetterIndex(c)) == c
  {
  }

  // ---- substring and charAt ----

  function Clamp(x: int, len: int): (r: int)
    requires 0 <= len
    ensures 0 <= r <= len && (0 <= x <= len ==> r == x)
  {
    if x < 0 then 0 else if x > len then len else x
  }

  /** `String.prototype.substring`: both ends clamped to the string, swapped when reversed. */
  function Substring(s: string, start: int, end: int): (r: string)
    ensures 0 <= start <= end <= |s| ==> r == s[start..end]
  {
    var a, b := Clamp(start, |s|), Clamp(end, |s|);
    if a <= b then s[a..b] else s[b..a]
  }

  /** `charAt(i)`: the character at i, or "" outside the string. */
  function CharAt(s: string, i: int): (r: string)
    ensures |r| <= 1 && (0 <= i < |s| ==> r == [s[i]]) && (!(0 <= i < |s|) ==> r == "")
  {
    if 0 <= i < |s| then [s[i]] else ""
  }

  // ---- hexadecimal digits ----

  predicate IsHexDigit(c: char) { IsDigit(c) || 'a' <= c <= 'f' || 'A' <= c <= 'F' }
  predicate AllHex(s: string) { forall i :: 0 <= i < |s| ==> IsHexDigit(s[i]) }
  predicate IsUpperHexDigit(c: char) { IsDigit(c) || 'A' <= c <= 'F' }
  predicate AllUpperHex(s: string) { forall i :: 0 <= i < |s| ==> IsUpperHexDigit(s[i]) }

  /** `parseInt(c, 16)` on one hexadecimal digit of either case. */
  function HexValue(c: char): (v: int)
    requires IsHexDigit(c)
    ensures 0 <= v < 16
  {
    if IsDigit(c) then c as int - '0' as int
    else if 'a' <= c <= 'f' then c as int - 'a' as int + 10
    else c as int - 'A' as int + 10
  }

  /** `v.toString(16).toUpperCase()` for 0 <= v < 16. */
  function HexDigit(v: int): (c: char)
    requires 0 <= v < 16
    ensures IsUpperHexDigit(c) && HexValue(c) == v
  {
    if v < 10 then (v + '0' as int) as char else (v - 10 + 'A' as int) as char
  }

  lemma HexDigitOfValue(c: char)
    requires IsHexDigit(c)
    ensures HexDigit(HexValue(c)) == UpperChar(c)
  {
  }

  /** Upper-case hex text is hex text that upper-casing leaves alone. */
  lemma UpperHexIsHex(h: string)
    requires AllUpperHex(h)
    ensures AllHex(h) && ToUpper(h) == h
  {
  }

  // ---- sequences of distinct characters and `indexOf` ----

  predicate Distinct(s: string) { forall i, j :: 0 <= i < j < |s| ==> s[i] != s[j] }

  /** `.split('').filter((v, i, a) => a.indexOf(v) === i).join('')`: the first
      occurrence of every character, in order. */
  function FirstOccurrences(s: string): (r: string)
    ensures Distinct(r)
    ensures forall c :: c in r <==> c in s
    decreases |s|
  {
    if s == [] then []
    else
      var init := s[..|s| - 1];
      var prev := FirstOccurrences(init);
      if s[|s| - 1] in init then prev else prev + [s[|s| - 1]]
  }

  /** The characters that first occur in a prefix come first, in the same order. */
  lemma {:induction false} FirstOccurrencesPrefix(a: string, b: string)
    ensures |FirstOccurrences(a)| <= |FirstOccurrences(a + b)|
    ensures FirstOccurrences(a + b)[..|FirstOccurrences(a)|] == FirstOccurrences(a)
    decreases |b|
  {
    if b == [] {
      assert a + b == a;
    } else {
      var n := |b| - 1;
      assert (a + b)[..|a + b| - 1] == a + b[..n];
      FirstOccurrencesPrefix(a, b[..n]);
    }
  }

  /** A sequence of distinct characters has as many elements as its set. */
  lemma {:induction false} DistinctCard(s: string)
    requires Distinct(s)
    ensures |set c | c in s| == |s|
  {
    if s != [] {
      var n := |s| - 1;
      var init := s[..n];
      assert Distinct(init);
      DistinctCard(init);
      assert s == init + [s[n]];
      assert (set c | c in s) == (set c | c in init) + {s[n]};
      assert s[n] !in init;
    }
  }

  /** Two sequences of distinct characters with the same elements have the same length. */
  lemma SameElementsSameLength(s: string, t: string)
    requires Distinct(s) && Distinct(t)
    requires forall c :: c in s <==> c in t
    ensures |s| == |t|
  {
    DistinctCard(s);
    DistinctCard(t);
    assert (set c | c in s) == (set c | c in t);
  }

  /** A sequence of distinct characters is its own first occurrences. */
  lemma {:induction false} FirstOccurrencesOfDistinct(s: string)
    requires Distinct(s)
    ensures FirstOccurrences(s) == s
    decreases |s|
  {
    if s != [] {
      var n := |s| - 1;
      assert Distinct(s[..n]);
      FirstOccurrencesOfDistinct(s[..n]);
      assert s[n] !in s[..n];
      SplitLast(s);
    }
  }

  /** `indexOf`: the first index of c in s, or -1. */
  function IndexOf(s: string, c: char): (i: int)
    ensures -1 <= i < |s|
    ensures i == -1 <==> c !in s
    ensures i >= 0 ==> s[i] == c
  {
    if s == [] then -1
    else if s[0] == c then 0
    else
      var k := IndexOf(s[1..], c);
      if k == -1 then -1 else k + 1
  }

  /** `indexOf` finds the first occurrence. */
  lemma {:induction false} IndexOfFirst(s: string, c: char, j: int)
    requires 0 <= j < |s| && s[j] == c
    ensures 0 <= IndexOf(s, c) <= j
  {
    if s[0] != c {
      IndexOfFirst(s[1..], c, j - 1);
    }
  }


  /** Concatenation regroups. */
  lemma AppendAssoc<T>(a: seq<T>, b: seq<T>, c: seq<T>)
    ensures (a + b) + c == a + (b + c)
  {
  }

  /** A non-empty sequence is its prefix and its last element. */
  lemma SplitLast<T>(s: seq<T>)
    requires |s| > 0
    ensures s == s[..|s| - 1] + [s[|s| - 1]]
  {
  }

  /** The prefix and last element of a concatenation with a non-empty tail. */
  lemma AppendInit<T>(a: seq<T>, b: seq<T>)
    requires |b| > 0
    ensures (a + b)[..|a + b| - 1] == a + b[..|b| - 1]
    ensures (a + b)[|a + b| - 1] == b[|b| - 1]
  {
  }

  /** A sequence of at least two elements is those two and the rest. */
  lemma SplitFirstTwo<T>(s: seq<T>)
    requires |s| >= 2
    ensures s == [s[0], s[1]] + s[2..]
  {
  }

  /** A prefix no longer than the first operand is a prefix of that operand. */
  lemma AppendTake<T>(a: seq<T>, b: seq<T>, m: int)
    requires 0 <= m <= |a|
    ensures (a + b)[..m] == a[..m]
  {
  }

  /** An element of the first operand, read through the concatenation. */
  lemma AppendIndex<T>(a: seq<T>, b: seq<T>, i: int)
    requires 0 <= i < |a|
    ensures (a + b)[i] == a[i]
  {
  }

  lemma AppendIndexRight<T>(a: seq<T>, b: seq<T>, j: int)
    requires 0 <= j < |b|
    ensures (a + b)[|a| + j] == b[j]
  {
  }

  lemma TakeAll<T>(s: seq<T>)
    ensures s[..|s|] == s
  {
  }

  /** The values f(0), ..., f(n - 1). */
  function Tabulate<T>(f: nat --> T, n: nat): (s: seq<T>)
    requires forall k: nat :: k < n ==> f.requires(k)
    ensures |s| == n && forall k: nat {:trigger f(k)} :: k < n ==> s[k] == f(k)
  {
    seq(n, k requires 0 <= k < n => f(k))
  }

  /** One more value is one more element at the end. */
  lemma TabulateStep<T>(f: nat --> T, n: nat)
    requires forall k: nat :: k <= n ==> f.requires(k)
    ensures Tabulate(f, n + 1) == Tabulate(f, n) + [f(n)]
  {
  }

  /** The parts one after another. */
  function Flatten<T>(parts: seq<seq<T>>): seq<T>
  {
    if parts == [] then [] else Flatten(parts[..|parts| - 1]) + parts[|parts| - 1]
  }

  /** One more part is that part at the end. */
  lemma FlattenAppend<T>(parts: seq<seq<T>>, p: seq<T>)
    ensures Flatten(parts + [p]) == Flatten(parts) + p
  {
    assert (parts + [p])[..|parts|] == parts;
  }

  /** Parts of four elements each make a whole four times as long. */
  lemma {:induction false} FlattenLength<T>(parts: seq<seq<T>>)
    requires forall k :: 0 <= k < |parts| ==> |parts[k]| == 4
    ensures |Flatten(parts)| == 4 * |parts|
  {
    if parts != [] {
      FlattenLength(parts[..|parts| - 1]);
    }
  }

  /** Part j of four elements sits at 4 * j. */
  lemma {:induction false} FlattenChunk<T>(parts: seq<seq<T>>, j: nat)
    requires forall k :: 0 <= k < |parts| ==> |parts[k]| == 4
    requires j < |parts|
    ensures 4 * j + 4 <= |Flatten(parts)|
    ensures Flatten(parts)[4 * j .. 4 * j + 4] == parts[j]
  {
    var init := parts[..|parts| - 1];
    FlattenLength(init);
    if j < |init| {
      FlattenChunk(init, j);
    }
  }

  /** Every element of every part satisfies p, so every element of the whole does. */
  lemma {:induction false} FlattenAll<T>(parts: seq<seq<T>>, p: T -> bool)
    requires forall k, l :: 0 <= k < |parts| && 0 <= l < |parts[k]| ==> p(parts[k][l])
    ensures forall i :: 0 <= i < |Flatten(parts)| ==> p(Flatten(parts)[i])
  {
    if parts != [] {
      FlattenAll(parts[..|parts| - 1], p);
    }
  }
}
