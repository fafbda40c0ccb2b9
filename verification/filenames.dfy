/** The file-name extension test of lib/resume/parser.ts:
    `name.toLowerCase().split(".").pop()`. */
module FileNames {
  import opened Text

  /** Position just after the last dot before `j`, or 0 when there is none. */
  function AfterLastDot(s: string, j: nat): (k: nat)
    requires j <= |s|
    ensures k <= j
    ensures forall i :: k <= i < j ==> s[i] != '.'
    ensures k == 0 || s[k - 1] == '.'
    decreases j
  {
    if j == 0 || s[j - 1] == '.' then j else AfterLastDot(s, j - 1)
  }

  /** `s[cut..]` holds no dot, and it is all of `s` or follows a dot. */
  predicate DotFreeTail(s: string, cut: nat)
  {
    && cut <= |s|
    && (forall i :: cut <= i < |s| ==> s[i] != '.')
    && (cut == 0 || s[cut - 1] == '.')
  }

  /** Only one tail of a text is free of dots and starts right after a dot. */
  lemma {:induction false} DotFreeTailUnique(s: string, a: nat, b: nat)
    requires DotFreeTail(s, a) && DotFreeTail(s, b)
    ensures a == b
  {
  }

  /** Lower-casing moves no dot. */
  lemma {:induction false} DotFreeTailUnlower(s: string, cut: nat)
    requires DotFreeTail(Lower(s), cut)
    ensures DotFreeTail(s, cut)
  {
  }

  /** `name.toLowerCase().split(".").pop()`: the lower-cased text after the last
      dot, or the whole lower-cased name when it has no dot. */
  function Extension(fileName: string): (r: string)
    ensures |r| <= |fileName|
    ensures DotFreeTail(fileName, |fileName| - |r|)
    ensures r == Lower(fileName[|fileName| - |r|..])
  {
    var k := AfterLastDot(fileName, |fileName|);
    LowerSlice(fileName, k, |fileName|);
    Lower(fileName)[k..]
  }

  /** The extension is the last piece of the lower-cased name split at dots. */
  lemma {:induction false} ExtensionIsLastPiece(fileName: string)
    ensures var pieces := Split(Lower(fileName), '.');
            Extension(fileName) == pieces[|pieces| - 1]
  {
    var cut := LastPieceTail(Lower(fileName));
    DotFreeTailUnlower(fileName, cut);
    ExtensionAfterDot(fileName, cut);
    LowerSlice(fileName, cut, |fileName|);
  }

  /** The last piece of a split at dots is the dot-free tail of the text. */
  lemma {:induction false} LastPieceTail(s: string) returns (cut: nat)
    ensures var pieces := Split(s, '.');
            DotFreeTail(s, cut) && s[cut..] == pieces[|pieces| - 1]
  {
    var pieces := Split(s, '.');
    var last := pieces[|pieces| - 1];
    JoinLastPiece(pieces, '.');
    cut := |s| - |last|;
    assert '.' !in last;
    forall i | cut <= i < |s|
      ensures s[i] != '.'
    {
      assert s[i] == last[i - cut];
    }
  }

  /** The last piece ends the joined text, right after a separator unless it is
      the only piece. */
  lemma {:induction false} JoinLastPiece(pieces: seq<string>, sep: char)
    requires |pieces| >= 1
    ensures var j := Join(pieces, sep);
            var last := pieces[|pieces| - 1];
            && |last| <= |j|
            && j[|j| - |last|..] == last
            && (|pieces| == 1 || (|last| < |j| && j[|j| - |last| - 1] == sep))
    decreases |pieces|
  {
    if |pieces| > 1 {
      JoinLastPiece(pieces[1..], sep);
      var tail := Join(pieces[1..], sep);
      assert Join(pieces, sep) == pieces[0] + [sep] + tail;
    }
  }

  /** The extension is what follows the last dot, whatever its letter case. */
  lemma {:induction false} ExtensionOf(base: string, ext: string)
    requires '.' !in ext
    ensures Extension(base + "." + ext) == Lower(ext)
  {
    var name := base + "." + ext;
    var cut := |base| + 1;
    assert name[cut..] == ext;
    assert name[cut - 1] == '.';
    assert forall i :: cut <= i < |name| ==> name[i] == ext[i - cut];
    ExtensionAfterDot(name, cut);
  }

  /** A dot-free tail that follows a dot is the extension. */
  lemma {:induction false} ExtensionAfterDot(name: string, cut: nat)
    requires DotFreeTail(name, cut)
    ensures Extension(name) == Lower(name[cut..])
  {
    var r := Extension(name);
    DotFreeTailUnique(name, |name| - |r|, cut);
  }
}
