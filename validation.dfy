/**
 * The form validators of the audit-log take-home: both look at the value with
 * its leading and trailing whitespace removed, as `String.prototype.trim` does.
 */
module Validation {
  /**
   * The characters `trim` removes: the ECMAScript WhiteSpace code points
   * (tab, vertical tab, form feed, space, no-break space, the byte order mark
   * and the Unicode space separators) and the four LineTerminator code points.
   */
  predicate IsWhitespace(c: char)
  {
    c in Blanks || '\U{2000}' <= c <= '\U{200A}'
  }

  /** The whitespace and line-terminator code points outside the range U+2000..U+200A. */
  const Blanks: set<char> := {
    '\t', '\n', '\U{000B}', '\U{000C}', '\r', ' ', '\U{00A0}', '\U{1680}',
    '\U{2028}', '\U{2029}', '\U{202F}', '\U{205F}', '\U{3000}', '\U{FEFF}'
  }

  /** Every character of `s` in `lo..hi-1` is whitespace. */
  ghost predicate BlankBetween(s: string, lo: int, hi: int)
  {
    forall i :: lo <= i < hi && 0 <= i < |s| ==> IsWhitespace(s[i])
  }

  ghost predicate AllWhitespace(s: string)
  {
    BlankBetween(s, 0, |s|)
  }

  /** The first index from `i` on that is not whitespace, or `|s|`: where `trim` starts. */
  function Start(s: string, i: nat): (k: nat)
    requires i <= |s|
    ensures i <= k <= |s| && BlankBetween(s, i, k)
    ensures k < |s| ==> !IsWhitespace(s[k])
    decreases |s| - i
  {
    if i < |s| && IsWhitespace(s[i]) then Start(s, i + 1) else i
  }

  /** The index just past the last non-whitespace character below `j`, or 0: where `trim` stops. */
  function End(s: string, j: nat): (k: nat)
    requires j <= |s|
    ensures k <= j && BlankBetween(s, k, j)
    ensures k > 0 ==> !IsWhitespace(s[k - 1])
  {
    if j > 0 && IsWhitespace(s[j - 1]) then End(s, j - 1) else j
  }

  /** Only one index answers the description of `Start`. */
  lemma StartUnique(s: string, i: nat, k: nat)
    requires i <= k <= |s| && BlankBetween(s, i, k)
    requires k < |s| ==> !IsWhitespace(s[k])
    ensures Start(s, i) == k
  {
  }

  /** Only one index answers the description of `End`. */
  lemma EndUnique(s: string, j: nat, k: nat)
    requires k <= j <= |s| && BlankBetween(s, k, j)
    requires k > 0 ==> !IsWhitespace(s[k - 1])
    ensures End(s, j) == k
  {
  }

  /**
   * `trim`: the value from its first to its last character that is not
   * whitespace; nothing when there is none.
   */
  function Trim(s: string): (r: string)
    ensures r != [] ==> !IsWhitespace(r[0]) && !IsWhitespace(r[|r| - 1])
  {
    var a := Start(s, 0);
    if a == |s| then []
    else
      var b := End(s, |s|);
      s[a..b]
  }

  /** `trim` leaves nothing exactly when the value is all whitespace; otherwise it cuts a whitespace prefix and suffix. */
  lemma TrimShape(s: string)
    ensures Trim(s) == [] <==> AllWhitespace(s)
    ensures Trim(s) != [] ==> BlankBetween(s, 0, Start(s, 0)) && BlankBetween(s, End(s, |s|), |s|)
                              && Trim(s) == s[Start(s, 0)..End(s, |s|)]
  {
  }

  lemma TrimCut(s: string)
    requires !AllWhitespace(s)
    ensures Start(s, 0) < End(s, |s|) && Trim(s) == s[Start(s, 0)..End(s, |s|)]
  {
  }

  /** `v` sits in `w` at offset `off`, with only whitespace around it. */
  ghost predicate Embedded(w: string, v: string, off: nat)
  {
    && off + |v| <= |w|
    && (forall i :: 0 <= i < |v| ==> w[off + i] == v[i])
    && BlankBetween(w, 0, off) && BlankBetween(w, off + |v|, |w|)
  }

  lemma PaddedEmbeds(p: string, v: string, q: string)
    requires AllWhitespace(p) && AllWhitespace(q)
    ensures Embedded(p + v + q, v, |p|)
  {
    var w := p + v + q;
    forall i | 0 <= i < |p| ensures w[i] == p[i] { }
    forall i | |p| + |v| <= i < |w| ensures w[i] == q[i - |p| - |v|] { }
  }

  /** Where `trim` starts in a value with whitespace around it. */
  lemma EmbeddedStart(w: string, v: string, off: nat)
    requires Embedded(w, v, off) && !AllWhitespace(v)
    ensures Start(w, 0) == off + Start(v, 0)
  {
    var a := Start(v, 0);
    forall i | off <= i < off + a ensures IsWhitespace(w[i]) {
      assert w[off + (i - off)] == v[i - off];
    }
    assert w[off + a] == v[a];
    StartUnique(w, 0, off + a);
  }

  /** Where `trim` stops in a value with whitespace around it. */
  lemma EmbeddedEnd(w: string, v: string, off: nat)
    requires Embedded(w, v, off) && !AllWhitespace(v)
    ensures End(w, |w|) == off + End(v, |v|)
  {
    var b := End(v, |v|);
    forall i | off + b <= i < off + |v| ensures IsWhitespace(w[i]) {
      assert w[off + (i - off)] == v[i - off];
    }
    assert w[off + (b - 1)] == v[b - 1];
    EndUnique(w, |w|, off + b);
  }

  /** A blank value with only whitespace around it is blank. */
  lemma EmbeddedBlank(w: string, v: string, off: nat)
    requires Embedded(w, v, off) && AllWhitespace(v)
    ensures AllWhitespace(w)
  {
    forall i | off <= i < off + |v| ensures IsWhitespace(w[i]) {
      assert w[off + (i - off)] == v[i - off];
    }
  }

  /** A slice of an embedded value is the same slice of the whole, shifted. */
  lemma SameSlice(w: string, v: string, off: nat, a: nat, b: nat)
    requires Embedded(w, v, off) && a <= b <= |v|
    ensures w[off + a..off + b] == v[a..b]
  {
    forall i | 0 <= i < b - a ensures w[off + a..off + b][i] == v[a..b][i] {
      assert w[off + (a + i)] == v[a + i];
    }
  }

  lemma EmbeddedSolid(w: string, v: string, off: nat)
    requires Embedded(w, v, off) && !AllWhitespace(v)
    ensures Trim(w) == Trim(v)
  {
    EmbeddedStart(w, v, off);
    EmbeddedEnd(w, v, off);
    var a, b := Start(v, 0), End(v, |v|);
    TrimCut(v);
    assert !AllWhitespace(w) by {
      assert w[off + a] == v[a];
    }
    TrimCut(w);
    SameSlice(w, v, off, a, b);
  }

  /** `trim` cuts away the whitespace around an embedded value. */
  lemma EmbeddedTrim(w: string, v: string, off: nat)
    requires Embedded(w, v, off)
    ensures Trim(w) == Trim(v)
  {
    if AllWhitespace(v) {
      EmbeddedBlank(w, v, off);
      TrimShape(v);
      TrimShape(w);
    } else {
      EmbeddedSolid(w, v, off);
    }
  }

  /** Whitespace around a value is cut off by `trim`. */
  lemma TrimPadded(p: string, v: string, q: string)
    requires AllWhitespace(p) && AllWhitespace(q)
    ensures Trim(p + v + q) == Trim(v)
  {
    PaddedEmbeds(p, v, q);
    EmbeddedTrim(p + v + q, v, |p|);
  }

  /**
   * `isNotEmpty`: the trimmed value has at least one character, which is to
   * say the value holds some character other than whitespace.
   */
  function IsNotEmpty(value: string): (r: bool)
    ensures r <==> exists i :: 0 <= i < |value| && !IsWhitespace(value[i])
  {
    TrimShape(value);
    |Trim(value)| > 0
  }

  /** `isWithinLength`: `min <= |trimmed value| <= max`, both bounds inclusive. */
  function IsWithinLength(value: string, min: int, max: int): (r: bool)
    ensures r ==> min <= max
    ensures r ==> min <= |value|
  {
    TrimShape(value);
    var length := |Trim(value)|;
    length >= min && length <= max
  }

  /** Whitespace around the value counts toward neither check. */
  lemma PaddingIgnored(p: string, value: string, q: string, min: int, max: int)
    requires AllWhitespace(p) && AllWhitespace(q)
    ensures IsWithinLength(p + value + q, min, max) == IsWithinLength(value, min, max)
    ensures IsNotEmpty(p + value + q) == IsNotEmpty(value)
  {
    TrimPadded(p, value, q);
  }

  /** `isNotEmpty` is `isWithinLength` with bounds 1 and the value's own length. */
  lemma NotEmptyIsLengthAtLeastOne(value: string)
    ensures IsNotEmpty(value) <==> IsWithinLength(value, 1, |value|)
  {
    if IsNotEmpty(value) {
      assert |Trim(value)| <= |value|;
    }
  }

  lemma BlankSamples()
    ensures !IsNotEmpty("") && !IsNotEmpty("  \t\n")
  {
    assert AllWhitespace("  \t\n");
  }

  lemma PaddedSample()
    ensures IsNotEmpty("  a ")
  {
    assert ("  a ")[2] == 'a';
  }

  lemma LengthSample()
    ensures IsWithinLength("  abc  ", 3, 3)
  {
    StartUnique("  abc  ", 0, 2);
    EndUnique("  abc  ", 7, 5);
  }

  lemma TooLongSample()
    ensures !IsWithinLength("abcd", 1, 3)
  {
    StartUnique("abcd", 0, 0);
    EndUnique("abcd", 4, 4);
  }
}
