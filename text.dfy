/**
 * The few Python string operations the two tools rely on: `str.isspace`,
 * `str.strip()`, `str.lstrip(c)`, `str.split()`, the substring test `in`
 * and `list.index`. Strings are sequences of code points.
 */
module Text {

  /** Python's `str.isspace` for one code point (the separator set of `split()` and `strip()`). */
  predicate IsSpace(c: char) {
    || c == ' '
    || ('\t' <= c <= '\r')
    || ('\U{1C}' <= c <= '\U{1F}')
    || c == '\U{85}'
    || c == '\U{A0}'
    || c == '\U{1680}'
    || ('\U{2000}' <= c <= '\U{200A}')
    || c == '\U{2028}'
    || c == '\U{2029}'
    || c == '\U{202F}'
    || c == '\U{205F}'
    || c == '\U{3000}'
  }

  predicate NoSpace(s: string) {
    forall i :: 0 <= i < |s| ==> !IsSpace(s[i])
  }

  predicate AllSpace(s: string) {
    forall i :: 0 <= i < |s| ==> IsSpace(s[i])
  }

  /** The length of the leading whitespace run of `s`. */
  function LeadingSpaces(s: string): (k: nat)
    ensures k <= |s|
    ensures forall i :: 0 <= i < k ==> IsSpace(s[i])
    ensures k < |s| ==> !IsSpace(s[k])
  {
    if s != [] && IsSpace(s[0]) then
      var k := LeadingSpaces(s[1..]);
      assert forall i :: 1 <= i < k + 1 ==> s[i] == s[1..][i - 1];
      k + 1
    else 0
  }

  /** `s.lstrip()`: drops the leading whitespace and nothing else. */
  function LStrip(s: string): (r: string)
    ensures |r| <= |s|
    ensures r != [] ==> !IsSpace(r[0])
  {
    s[LeadingSpaces(s)..]
  }

  /** `s.lstrip()` is `s` with a whitespace prefix removed, and nothing else. */
  lemma LStripRemovesOnlySpace(s: string)
    ensures LStrip(s) == s[|s| - |LStrip(s)|..]
    ensures AllSpace(s[..|s| - |LStrip(s)|])
  {
  }

  /** `s.rstrip()`: drops the trailing whitespace and nothing else. */
  function RStrip(s: string): (r: string)
    ensures |r| <= |s| && r == s[..|r|]
    ensures AllSpace(s[|r|..])
    ensures r != [] ==> !IsSpace(r[|r| - 1])
  {
    if s != [] && IsSpace(s[|s| - 1]) then
      var init := s[..|s| - 1];
      var r := RStrip(init);
      assert init[..|r|] == s[..|r|];
      assert s[|r|..] == init[|r|..] + [s[|s| - 1]];
      r
    else
      assert s[|s|..] == [];
      s
  }

  /** `s.strip()`: the infix left once whitespace is removed from both ends. */
  function Strip(s: string): (r: string)
    ensures r == [] || (!IsSpace(r[0]) && !IsSpace(r[|r| - 1]))
    ensures r == [] <==> AllSpace(s)
  {
    var l := LStrip(s);
    assert l == [] <==> AllSpace(s) by {
      if l != [] { assert s[|s| - |l|] == l[0]; }
      else { assert s[..|s|] == s; }
    }
    RStrip(l)
  }

  /** `s.strip()` is `s` with a whitespace prefix and a whitespace suffix removed, and nothing else. */
  lemma StripRemovesOnlySpace(s: string)
    ensures exists a :: (0 <= a <= |s| - |Strip(s)| && Strip(s) == s[a..a + |Strip(s)|] &&
                         AllSpace(s[..a]) && AllSpace(s[a + |Strip(s)|..]))
  {
    var l := LStrip(s);
    var r := RStrip(l);
    var a := |s| - |l|;
    LStripRemovesOnlySpace(s);
    assert s[a..a + |r|] == l[..|r|];
    assert s[a + |r|..] == l[|r|..];
  }

  lemma StripOfStripped(s: string)
    requires s == [] || (!IsSpace(s[0]) && !IsSpace(s[|s| - 1]))
    ensures LStrip(s) == s && RStrip(s) == s && Strip(s) == s
  {
  }

  /** Stripping twice is stripping once. */
  lemma StripIdempotent(s: string)
    ensures Strip(Strip(s)) == Strip(s)
  {
    StripOfStripped(Strip(s));
  }

  /** `s.lstrip(c)`: drops the leading run of the one character `c`. */
  function LStripChar(s: string, c: char): (r: string)
    ensures |r| <= |s| && r == s[|s| - |r|..]
    ensures forall i :: 0 <= i < |s| - |r| ==> s[i] == c
    ensures r != [] ==> r[0] != c
  {
    if s != [] && s[0] == c then LStripChar(s[1..], c) else s
  }

  /** The longest prefix of `s` free of whitespace. */
  function TakeWord(s: string): (w: string)
    ensures |w| <= |s| && w == s[..|w|] && NoSpace(w)
    ensures |w| < |s| ==> IsSpace(s[|w|])
  {
    if s == [] || IsSpace(s[0]) then [] else [s[0]] + TakeWord(s[1..])
  }

  lemma {:induction false} TakeWordOfConcat(w: string, rest: string)
    requires NoSpace(w)
    requires rest == [] || IsSpace(rest[0])
    ensures TakeWord(w + rest) == w
  {
    if w != [] {
      assert (w + rest)[1..] == w[1..] + rest;
      TakeWordOfConcat(w[1..], rest);
    } else {
      assert w + rest == rest;
    }
  }

  /** `s.split()`: the maximal runs of non-whitespace characters, in order. */
  function Split(s: string): (parts: seq<string>)
    ensures forall p :: p in parts ==> p != [] && NoSpace(p)
    ensures parts == [] <==> LStrip(s) == []
    decreases |s|
  {
    var t := LStrip(s);
    if t == [] then []
    else
      var w := TakeWord(t);
      assert w != [] by { assert !IsSpace(t[0]); }
      [w] + Split(t[|w|..])
  }

  /** A string of whitespace alone has no fields. */
  lemma SplitAllSpace(g: string)
    requires AllSpace(g)
    ensures Split(g) == []
  {
    assert g + [] == g;
    LStripAfterSpaces(g, []);
  }

  /**
   * The fields of a string are its whitespace-separated words in order:
   * after leading whitespace `g`, the word `w` up to the next whitespace is
   * the first field, and the fields of the remainder `r` follow.
   */
  lemma SplitOfJoined(g: string, w: string, r: string)
    requires AllSpace(g)
    requires w != [] && NoSpace(w)
    requires r == [] || IsSpace(r[0])
    ensures Split(g + w + r) == [w] + Split(r)
  {
    var s := g + w + r;
    assert s == g + (w + r);
    LStripAfterSpaces(g, w + r);
    TakeWordOfConcat(w, r);
    assert (w + r)[|w|..] == r;
  }

  /**
   * `s.split(None, 1)`: the first field, then the rest of `s` from the next
   * non-whitespace character on, when there is one.
   */
  function SplitOnce(s: string): seq<string> {
    var t := LStrip(s);
    if t == [] then []
    else
      var w := TakeWord(t);
      var rest := LStrip(t[|w|..]);
      if rest == [] then [w] else [w, rest]
  }

  /**
   * `split(None, 1)` agrees with `split()`: it has no fields exactly when
   * `split()` has none, its first field is the first field, it has two
   * exactly when `split()` has at least two, and the second then splits
   * into the remaining fields.
   */
  lemma SplitOnceFields(s: string)
    ensures |SplitOnce(s)| <= 2
    ensures SplitOnce(s) == [] <==> Split(s) == []
    ensures SplitOnce(s) != [] ==> SplitOnce(s)[0] == Split(s)[0]
    ensures |SplitOnce(s)| == 2 <==> |Split(s)| >= 2
    ensures |SplitOnce(s)| == 2 ==> Split(SplitOnce(s)[1]) == Split(s)[1..]
  {
    var t := LStrip(s);
    if t != [] {
      var w := TakeWord(t);
      var rest := LStrip(t[|w|..]);
      SplitOfLStrip(t[|w|..]);
      StripOfLStripped(rest);
      assert Split(s) == [w] + Split(rest);
    }
  }

  /** Splitting `w + gap + rest` once, for a field `w` and whitespace `gap`, gives back `w` and `rest`. */
  lemma SplitOnceOfJoined(w: string, gap: string, rest: string)
    requires w != [] && NoSpace(w)
    requires gap != [] && AllSpace(gap)
    requires rest != [] && !IsSpace(rest[0])
    ensures SplitOnce(w + gap + rest) == [w, rest]
  {
    var s := w + gap + rest;
    assert s == w + (gap + rest);
    StripOfLStripped(s);
    TakeWordOfConcat(w, gap + rest);
    assert s[|w|..] == gap + rest;
    LStripAfterSpaces(gap, rest);
  }

  /** Whitespace in front of a string that starts with a non-space is exactly what `lstrip()` removes. */
  lemma {:induction false} LStripAfterSpaces(g: string, x: string)
    requires AllSpace(g)
    requires x == [] || !IsSpace(x[0])
    ensures LStrip(g + x) == x
  {
    if g == [] {
      assert g + x == x;
      StripOfLStripped(x);
    } else {
      assert (g + x)[1..] == g[1..] + x;
      LStripAfterSpaces(g[1..], x);
    }
  }

  /** The fields of `s` are the fields of `s` with its leading whitespace removed. */
  lemma SplitOfLStrip(s: string)
    ensures Split(LStrip(s)) == Split(s)
  {
    var t := LStrip(s);
    StripOfLStripped(t);
  }

  lemma StripOfLStripped(t: string)
    requires t == [] || !IsSpace(t[0])
    ensures LStrip(t) == t
  {
  }

  /** `p` is a prefix of `t`. */
  predicate IsPrefix(p: string, t: string) {
    |p| <= |t| && t[..|p|] == p
  }

  /** The substring test `p in s`. */
  function Contains(s: string, p: string): bool
    decreases |s|
  {
    if IsPrefix(p, s) then true
    else if s == [] then false
    else Contains(s[1..], p)
  }

  /** `p in s` holds exactly when `p` starts at some position of `s`. */
  lemma {:induction false} ContainsIffOccurs(s: string, p: string)
    ensures Contains(s, p) <==> exists i :: 0 <= i <= |s| && IsPrefix(p, s[i..])
    decreases |s|
  {
    assert s[0..] == s;
    if !IsPrefix(p, s) && s != [] {
      ContainsIffOccurs(s[1..], p);
      assert forall i :: 1 <= i <= |s| ==> s[i..] == s[1..][i - 1..];
      if Contains(s, p) {
        var i :| 0 <= i <= |s| - 1 && IsPrefix(p, s[1..][i..]);
        assert s[i + 1..] == s[1..][i..];
      }
    }
  }

  /** `xs.index(x)`: the position of the first occurrence of `x`. */
  function IndexOf<T(==)>(xs: seq<T>, x: T): (i: nat)
    requires x in xs
    ensures i < |xs| && xs[i] == x && x !in xs[..i]
  {
    if xs[0] == x then 0
    else
      var j := IndexOf(xs[1..], x);
      assert xs[..j + 1] == [xs[0]] + xs[1..][..j];
      j + 1
  }
}
