/** The JavaScript string primitives the pipeline relies on: `toLowerCase`
    (on ASCII letters), `includes`, `trim`, `split` on one character, and
    `split(/\r?\n/)`. A `string` is a sequence of Unicode scalar values; where
    JavaScript counts UTF-16 code units instead, `Utf16Length` gives that count. */
module Text {

  /** `toLowerCase` on one character; only `A`..`Z` are mapped. */
  function LowerChar(c: char): char
  {
    if 'A' <= c <= 'Z' then (c as int + 32) as char else c
  }

  /** `s.toLowerCase()`: no upper-case ASCII letter is left, and every other
      character is kept. */
  function Lower(s: string): (r: string)
    ensures |r| == |s|
    ensures forall i :: 0 <= i < |s| ==> r[i] == LowerChar(s[i])
    ensures forall i :: 0 <= i < |r| ==> !('A' <= r[i] <= 'Z')
    ensures forall i :: 0 <= i < |s| ==> r[i] == s[i] || ('A' <= s[i] <= 'Z' && r[i] as int == s[i] as int + 32)
  {
    seq(|s|, i requires 0 <= i < |s| => LowerChar(s[i]))
  }

  /** Lowering a lowered string changes nothing. */
  lemma {:induction false} LowerIdempotent(s: string)
    ensures Lower(Lower(s)) == Lower(s)
  {
  }

  /** `s.length`: JavaScript counts UTF-16 code units, so a character outside the
      Basic Multilingual Plane counts twice. */
  function Utf16Length(s: string): (n: nat)
    ensures |s| <= n <= 2 * |s|
    ensures n == |s| <==> forall i :: 0 <= i < |s| ==> s[i] < '\U{10000}'
    decreases |s|
  {
    if |s| == 0 then 0
    else
      var rest := Utf16Length(s[1..]);
      assert forall i :: 1 <= i < |s| ==> s[1..][i - 1] == s[i];
      (if s[0] < '\U{10000}' then 1 else 2) + rest
  }

  /** The UTF-16 length of a concatenation is the sum of the lengths. */
  lemma {:induction false} Utf16LengthAppend(a: string, b: string)
    ensures Utf16Length(a + b) == Utf16Length(a) + Utf16Length(b)
    decreases |a|
  {
    if |a| > 0 {
      assert (a + b)[1..] == a[1..] + b;
      Utf16LengthAppend(a[1..], b);
    } else {
      assert a + b == b;
    }
  }

  /** Every character of `s` lies outside the Basic Multilingual Plane, so each
      counts twice. */
  lemma {:induction false} Utf16LengthAstral(s: string)
    requires forall i :: 0 <= i < |s| ==> s[i] >= '\U{10000}'
    ensures Utf16Length(s) == 2 * |s|
    decreases |s|
  {
    if |s| > 0 {
      Utf16LengthAstral(s[1..]);
    }
  }

  /** Lower-casing commutes with taking a slice. */
  lemma {:induction false} LowerSlice(s: string, i: nat, j: nat)
    requires i <= j <= |s|
    ensures Lower(s[i..j]) == Lower(s)[i..j]
  {
  }

  /** The characters matched by `\s` and removed by `trim`: the ECMAScript
      WhiteSpace and LineTerminator characters. */
  predicate IsJsSpace(c: char)
  {
    || c == '\t' || c == '\n' || c == '\U{0B}' || c == '\U{0C}' || c == '\r' || c == ' '
    || c == '\U{A0}' || c == '\U{1680}' || ('\U{2000}' <= c <= '\U{200A}')
    || c == '\U{2028}' || c == '\U{2029}' || c == '\U{202F}' || c == '\U{205F}'
    || c == '\U{3000}' || c == '\U{FEFF}'
  }

  predicate AllSpace(s: string)
  {
    forall i :: 0 <= i < |s| ==> IsJsSpace(s[i])
  }

  /** `needle` occurs in `hay` starting at position `i`. */
  predicate OccursAt(hay: string, needle: string, i: int)
  {
    0 <= i && i + |needle| <= |hay| && hay[i..i + |needle|] == needle
  }

  /** `hay.includes(needle)`. */
  function Contains(hay: string, needle: string): (r: bool)
    ensures r <==> exists i :: OccursAt(hay, needle, i)
    decreases |hay|
  {
    if needle <= hay then
      assert OccursAt(hay, needle, 0);
      true
    else if |hay| == 0 then
      false
    else
      var r := Contains(hay[1..], needle);
      assert forall i :: OccursAt(hay[1..], needle, i) <==> OccursAt(hay, needle, i + 1);
      assert !OccursAt(hay, needle, 0);
      assert r ==> exists i :: OccursAt(hay, needle, i);
      assert (exists i :: OccursAt(hay, needle, i)) ==> r by {
        if exists i :: OccursAt(hay, needle, i) {
          var i :| OccursAt(hay, needle, i);
          assert OccursAt(hay[1..], needle, i - 1);
        }
      }
      r
  }

  /** A needle holding a character the haystack lacks does not occur in it. */
  lemma {:induction false} MissingCharNotContained(hay: string, needle: string, c: char)
    requires c in needle && c !in hay
    ensures !Contains(hay, needle)
  {
    var k :| 0 <= k < |needle| && needle[k] == c;
    forall i | 0 <= i && i + |needle| <= |hay|
      ensures !OccursAt(hay, needle, i)
    {
      assert hay[i..i + |needle|][k] == hay[i + k];
      assert hay[i + k] in hay;
    }
  }

  /** Index of the first non-space character at or after `i`. */
  function SkipSpace(s: string, i: nat): (k: nat)
    requires i <= |s|
    ensures i <= k <= |s|
    ensures forall m :: i <= m < k ==> IsJsSpace(s[m])
    ensures k < |s| ==> !IsJsSpace(s[k])
    decreases |s| - i
  {
    if i == |s| || !IsJsSpace(s[i]) then i else SkipSpace(s, i + 1)
  }

  /** Index just after the last non-space character before `j`, not below `lo`. */
  function SkipSpaceBack(s: string, lo: nat, j: nat): (k: nat)
    requires lo <= j <= |s|
    ensures lo <= k <= j
    ensures forall m :: k <= m < j ==> IsJsSpace(s[m])
    ensures k > lo ==> !IsJsSpace(s[k - 1])
    decreases j
  {
    if j == lo || !IsJsSpace(s[j - 1]) then j else SkipSpaceBack(s, lo, j - 1)
  }

  /** `s.trim()`: the slice of `s` left after removing leading and trailing white space. */
  function Trim(s: string): (r: string)
    ensures |r| <= |s|
    ensures |r| > 0 ==> !IsJsSpace(r[0]) && !IsJsSpace(r[|r| - 1])
    ensures r == [] <==> AllSpace(s)
  {
    var i := SkipSpace(s, 0);
    var j := SkipSpaceBack(s, i, |s|);
    s[i..j]
  }

  /** What `trim` removes is white space: the result is a stretch of `s` with only
      white space before and after it. */
  lemma {:induction false} TrimIsSlice(s: string) returns (i: nat)
    ensures i + |Trim(s)| <= |s| && s[i..i + |Trim(s)|] == Trim(s)
    ensures AllSpace(s[..i]) && AllSpace(s[i + |Trim(s)|..])
  {
    i := SkipSpace(s, 0);
    var j := SkipSpaceBack(s, i, |s|);
    assert Trim(s) == s[i..j];
    assert AllSpace(s[..i]) && AllSpace(s[j..]);
  }

  /** A text that neither starts nor ends with white space is its own trim. */
  lemma {:induction false} TrimUntouched(s: string)
    requires |s| > 0 && !IsJsSpace(s[0]) && !IsJsSpace(s[|s| - 1])
    ensures Trim(s) == s
  {
    assert SkipSpace(s, 0) == 0;
    assert SkipSpaceBack(s, 0, |s|) == |s|;
  }

  /** Trimming keeps a first character that is not white space. */
  lemma {:induction false} TrimKeepsStart(s: string)
    requires |s| > 0 && !IsJsSpace(s[0])
    ensures |Trim(s)| > 0 && Trim(s)[0] == s[0]
  {
    assert SkipSpace(s, 0) == 0;
  }

  /** Trimming twice trims nothing more. */
  lemma {:induction false} TrimIdempotent(s: string)
    ensures Trim(Trim(s)) == Trim(s)
  {
    var t := Trim(s);
    if |t| > 0 {
      assert SkipSpace(t, 0) == 0;
      assert SkipSpaceBack(t, 0, |t|) == |t|;
    }
  }

  /** A trailing carriage return never survives `trim`. */
  lemma {:induction false} TrimDropsTrailingCR(s: string)
    ensures Trim(s + "\r") == Trim(s)
  {
    if SkipSpace(s, 0) == |s| {
      BlankWithCR(s);
    } else {
      TextWithCR(s);
    }
  }

  lemma {:induction false} BlankWithCR(s: string)
    requires SkipSpace(s, 0) == |s|
    ensures Trim(s + "\r") == [] && Trim(s) == []
  {
    var t := s + "\r";
    assert AllSpace(s);
    assert forall m :: 0 <= m < |t| ==> IsJsSpace(t[m]) by {
      assert forall m :: 0 <= m < |s| ==> t[m] == s[m];
    }
  }

  lemma {:induction false} TextWithCR(s: string)
    requires SkipSpace(s, 0) < |s|
    ensures Trim(s + "\r") == Trim(s)
  {
    var t := s + "\r";
    var i := SkipSpace(s, 0);
    SkipSpaceExtend(s, "\r", 0);
    assert SkipSpace(t, 0) == i;
    assert IsJsSpace(t[|t| - 1]);
    assert SkipSpaceBack(t, i, |t|) == SkipSpaceBack(t, i, |s|);
    assert t[..|s|] == s;
    SkipSpaceBackPrefix(s, t, i, |s|);
    assert t[i..SkipSpaceBack(s, i, |s|)] == s[i..SkipSpaceBack(s, i, |s|)];
  }

  lemma {:induction false} SkipSpaceExtend(s: string, u: string, i: nat)
    requires i <= |s|
    ensures SkipSpace(s, i) < |s| ==> SkipSpace(s + u, i) == SkipSpace(s, i)
    decreases |s| - i
  {
    if i < |s| && IsJsSpace(s[i]) {
      SkipSpaceExtend(s, u, i + 1);
    }
  }

  lemma {:induction false} SkipSpaceBackPrefix(s: string, t: string, lo: nat, j: nat)
    requires lo <= j <= |s| <= |t| && t[..|s|] == s
    ensures SkipSpaceBack(t, lo, j) == SkipSpaceBack(s, lo, j)
    decreases j
  {
    if j > lo {
      assert t[j - 1] == s[j - 1];
      SkipSpaceBackPrefix(s, t, lo, j - 1);
    }
  }

  /** Position of the first `c` at or after `i`, or `|s|` when there is none. */
  function FindChar(s: string, c: char, i: nat): (k: nat)
    requires i <= |s|
    ensures i <= k <= |s|
    ensures forall m :: i <= m < k ==> s[m] != c
    ensures k < |s| ==> s[k] == c
    decreases |s| - i
  {
    if i == |s| || s[i] == c then i else FindChar(s, c, i + 1)
  }

  /** The pieces joined back with the separator between them. */
  function Join(pieces: seq<string>, sep: char): string
  {
    if |pieces| == 0 then ""
    else if |pieces| == 1 then pieces[0]
    else pieces[0] + [sep] + Join(pieces[1..], sep)
  }

  /** `s.split(sep)` for a one-character separator. */
  function Split(s: string, sep: char): (r: seq<string>)
    ensures |r| >= 1
    ensures forall i :: 0 <= i < |r| ==> sep !in r[i]
    ensures Join(r, sep) == s
    decreases |s|
  {
    var k := FindChar(s, sep, 0);
    if k == |s| then
      [s]
    else
      var rest := Split(s[k + 1..], sep);
      assert s == s[..k] + [sep] + s[k + 1..];
      var r := [s[..k]] + rest;
      assert r[1..] == rest;
      r
  }

  /** Splitting undoes joining: pieces free of the separator are recovered exactly. */
  lemma {:induction false} SplitJoin(pieces: seq<string>, sep: char)
    requires |pieces| >= 1
    requires forall i :: 0 <= i < |pieces| ==> sep !in pieces[i]
    ensures Split(Join(pieces, sep), sep) == pieces
    decreases |pieces|
  {
    var s := Join(pieces, sep);
    var p0 := pieces[0];
    if |pieces| == 1 {
      FindCharAbsent(p0, sep, 0);
    } else {
      var tail := Join(pieces[1..], sep);
      assert s == p0 + [sep] + tail;
      assert FindChar(s, sep, 0) == |p0| by {
        FindCharFirst(s, sep, |p0|);
      }
      assert s[|p0| + 1..] == tail;
      assert s[..|p0|] == p0;
      SplitJoin(pieces[1..], sep);
      assert [p0] + pieces[1..] == pieces;
    }
  }

  lemma {:induction false} FindCharAbsent(s: string, c: char, i: nat)
    requires i <= |s|
    requires c !in s
    ensures FindChar(s, c, i) == |s|
    decreases |s| - i
  {
    if i < |s| {
      assert s[i] != c;
      FindCharAbsent(s, c, i + 1);
    }
  }

  lemma {:induction false} FindCharFirst(s: string, c: char, k: nat)
    requires k < |s| && s[k] == c
    requires forall m :: 0 <= m < k ==> s[m] != c
    ensures FindChar(s, c, 0) == k
  {
  }

  /** Removes one carriage return at the end, if any. */
  function DropCR(s: string): (r: string)
  {
    if |s| > 0 && s[|s| - 1] == '\r' then s[..|s| - 1] else s
  }

  /** `s.split(/\r?\n/)`: split at every line feed, and a carriage return right
      before a line feed belongs to the separator. */
  function SplitLines(s: string): (r: seq<string>)
    ensures |r| == |Split(s, '\n')|
    ensures forall i :: 0 <= i < |r| ==> '\n' !in r[i]
    ensures forall i :: 0 <= i < |r| ==>
              var piece := Split(s, '\n')[i];
              if i < |r| - 1 && |piece| > 0 && piece[|piece| - 1] == '\r' then r[i] + "\r" == piece
              else r[i] == piece
  {
    var pieces := Split(s, '\n');
    seq(|pieces|, i requires 0 <= i < |pieces| =>
      if i < |pieces| - 1 then DropCR(pieces[i]) else pieces[i])
  }
}
