/** The regular expressions of lib/resume/extractor.ts, each written out as the
    match a backtracking ECMAScript engine finds when it tries the pattern at
    one start position. Under the `i` flag and without the `u` flag, ASCII
    patterns match exactly the ASCII case variants, so folding is `Lower`.

      Email         /[a-zA-Z0-9._%+-]+@[a-z0-9.-]+\.[a-z]{2,}/gi
      IndianMobile  /(\+91[\s-]?)?[6789]\d{9}/
      DigitRun      /(\+?\d[\d\s-]{8,15})/
      Degree        /(Bachelor|Master|PhD|MSc|BSc|BE|B\.Tech|M\.Tech)[^\n]{0,80}/gi
      Cgpa          /CGPA[:\s]?[0-9.]{1,4}/i
*/
module Patterns {
  import opened Wrappers
  import opened Text

  datatype Pattern = Email | IndianMobile | DigitRun | Degree | Cgpa

  predicate IsDigit(c: char) { '0' <= c <= '9' }

  predicate IsLetter(c: char) { 'a' <= c <= 'z' || 'A' <= c <= 'Z' }

  /** `[a-zA-Z0-9._%+-]` */
  predicate IsLocalChar(c: char)
  {
    IsLetter(c) || IsDigit(c) || c == '.' || c == '_' || c == '%' || c == '+' || c == '-'
  }

  /** `[a-z0-9.-]` under the `i` flag */
  predicate IsDomainChar(c: char)
  {
    IsLetter(c) || IsDigit(c) || c == '.' || c == '-'
  }

  /** `[\d\s-]` */
  predicate IsPhoneFiller(c: char)
  {
    IsDigit(c) || IsJsSpace(c) || c == '-'
  }

  /** `[0-9.]` */
  predicate IsDigitOrDot(c: char)
  {
    IsDigit(c) || c == '.'
  }

  /** `[^\n]` */
  predicate IsNotNewline(c: char)
  {
    c != '\n'
  }

  function Min(a: int, b: int): int
  {
    if a <= b then a else b
  }

  /** `e` is where a greedy `cls{0,max}` tried at `s` stops: every character in
      between is in the class, and the next one is not, or the text or the bound
      has run out. */
  predicate GreedyEnd(t: string, s: nat, e: nat, cls: char -> bool, max: nat)
  {
    && s <= e <= |t| && e <= s + max
    && (forall i :: s <= i < e ==> cls(t[i]))
    && (e == |t| || !cls(t[e]) || e == s + max)
  }

  /** A greedy bounded quantifier stops at the end of the run, or at the bound. */
  lemma {:induction false} GreedyRunEnd(t: string, s: nat, cls: char -> bool, max: nat)
    requires s <= |t|
    ensures GreedyEnd(t, s, s + Min(max, Run(t, s, cls)), cls, max)
  {
  }

  /** A greedy bounded quantifier has one place to stop. */
  lemma {:induction false} GreedyEndUnique(t: string, s: nat, e1: nat, e2: nat, cls: char -> bool, max: nat)
    requires GreedyEnd(t, s, e1, cls, max) && GreedyEnd(t, s, e2, cls, max)
    ensures e1 == e2
  {
  }

  /** Length of the longest run of `cls` characters starting at `p`: what a greedy
      unbounded quantifier consumes. */
  function Run(t: string, p: nat, cls: char -> bool): (n: nat)
    ensures p + n <= |t| || n == 0
    ensures forall i :: p <= i < p + n ==> cls(t[i])
    ensures p + n < |t| ==> !cls(t[p + n])
    decreases |t| - p
  {
    if p < |t| && cls(t[p]) then 1 + Run(t, p + 1, cls) else 0
  }

  /** A run is exactly as long as the class-members before the first non-member. */
  lemma {:induction false} RunExact(t: string, p: nat, cls: char -> bool, n: nat)
    requires p + n <= |t|
    requires forall i :: p <= i < p + n ==> cls(t[i])
    requires p + n == |t| || !cls(t[p + n])
    ensures Run(t, p, cls) == n
    decreases n
  {
    if n > 0 {
      RunExact(t, p + 1, cls, n - 1);
    }
  }

  /** A run covers every stretch of class-members that starts where it starts. */
  lemma {:induction false} RunAtLeast(t: string, p: nat, cls: char -> bool, n: nat)
    requires p + n <= |t|
    requires forall i :: p <= i < p + n ==> cls(t[i])
    ensures Run(t, p, cls) >= n
    decreases n
  {
    if n > 0 {
      RunAtLeast(t, p + 1, cls, n - 1);
    }
  }

  /** The literal `lit` occurs at `p`. */
  predicate LiteralAt(t: string, p: nat, lit: string)
  {
    p + |lit| <= |t| && t[p..p + |lit|] == lit
  }

  /** The literal `lit` occurs at `p` up to ASCII case (the `i` flag). */
  predicate FoldedAt(t: string, p: nat, lit: string)
  {
    p + |lit| <= |t| && Lower(t[p..p + |lit|]) == Lower(lit)
  }

  // ---------------------------------------------------------------- Email

  /** `\.[a-z]{2,}` can start at `k`. */
  predicate TopLevelAt(t: string, k: nat)
  {
    k < |t| && t[k] == '.' && Run(t, k + 1, IsLetter) >= 2
  }

  /** Backtracking of the greedy `[a-z0-9.-]+` whose run ends at `e`: the largest
      dot position in `lo..e` that is followed by two letters. */
  function LastTopLevel(t: string, lo: nat, e: nat): (r: Option<nat>)
    ensures r.Some? ==> lo <= r.value <= e && TopLevelAt(t, r.value)
    ensures r.Some? ==> forall k :: r.value < k <= e ==> !TopLevelAt(t, k)
    ensures r.None? ==> forall k :: lo <= k <= e ==> !TopLevelAt(t, k)
    decreases e
  {
    if e < lo then None
    else if TopLevelAt(t, e) then Some(e)
    else if e == 0 then None
    else LastTopLevel(t, lo, e - 1)
  }

  /** The email match starting at `p`, as its end position. The local part cannot
      contain `@`, so it is the whole run of local characters. */
  function EmailAt(t: string, p: nat): (r: Option<nat>)
    ensures r.Some? ==> p + 6 <= r.value <= |t|
    ensures r.Some? ==> r.value == |t| || !IsLetter(t[r.value])
    ensures r.Some? ==> IsLetter(t[r.value - 1]) && IsLetter(t[r.value - 2])
  {
    var q := p + Run(t, p, IsLocalChar);
    if q == p || q >= |t| || t[q] != '@' then None
    else DomainAt(t, q)
  }

  /** What follows the `@` at `q`: the domain run, backtracked to its last dot
      that two letters follow, and then all the letters after that dot. */
  function DomainAt(t: string, q: nat): (r: Option<nat>)
    ensures r.Some? ==> q + 5 <= r.value <= |t|
    ensures r.Some? ==> r.value == |t| || !IsLetter(t[r.value])
    ensures r.Some? ==> IsLetter(t[r.value - 1]) && IsLetter(t[r.value - 2])
  {
    var d := q + 1 + Run(t, q + 1, IsDomainChar);
    match LastTopLevel(t, q + 2, d)
    case None => None
    case Some(k) => Some(k + 1 + Run(t, k + 1, IsLetter))
  }

  /** The shape the email expression describes: local part, `@`, domain, dot, two
      or more letters. */
  ghost predicate IsEmail(s: string)
  {
    exists a, d :: EmailSplit(s, a, d)
  }

  ghost predicate EmailSplit(s: string, a: int, d: int)
  {
    && 0 < a && a + 1 < d && d + 3 <= |s| && s[a] == '@' && s[d] == '.'
    && (forall i :: 0 <= i < a ==> IsLocalChar(s[i]))
    && (forall i :: a < i < d ==> IsDomainChar(s[i]))
    && (forall i :: d < i < |s| ==> IsLetter(s[i]))
  }

  /** Every email match is email-shaped. */
  lemma {:induction false} EmailAtIsEmail(t: string, p: nat)
    requires EmailAt(t, p).Some?
    ensures IsEmail(t[p..EmailAt(t, p).value])
  {
    var e := EmailAt(t, p).value;
    var q := p + Run(t, p, IsLocalChar);
    var d := q + 1 + Run(t, q + 1, IsDomainChar);
    var k := LastTopLevel(t, q + 2, d).value;
    var s := t[p..e];
    assert EmailSplit(s, q - p, k - p);
  }

  /** An email match starts at `p` whenever some email-shaped text starts there. */
  lemma {:induction false} EmailAtComplete(t: string, p: nat, e: nat)
    requires p <= e <= |t|
    requires IsEmail(t[p..e])
    ensures EmailAt(t, p).Some?
  {
    var a, d :| EmailSplit(t[p..e], a, d);
    EmailSplitInText(t, p, e, a, d);
    RunExact(t, p, IsLocalChar, a);
    DomainReachesDot(t, p + a, p + d, e);
    EmailAtSome(t, p, p + a);
  }

  /** The parts of an email-shaped slice, read off the text it was cut from. */
  lemma {:induction false} EmailSplitInText(t: string, p: nat, e: nat, a: int, d: int)
    requires p <= e <= |t| && EmailSplit(t[p..e], a, d)
    ensures 0 < a && a + 1 < d && p + d + 3 <= e
    ensures t[p + a] == '@' && t[p + d] == '.'
    ensures forall i :: p <= i < p + a ==> IsLocalChar(t[i])
    ensures forall i :: p + a < i < p + d ==> IsDomainChar(t[i])
    ensures forall i :: p + d < i < e ==> IsLetter(t[i])
  {
    var s := t[p..e];
    assert forall i :: p <= i < e ==> t[i] == s[i - p];
  }

  /** After `@` at `q`, a domain whose dot at `k` is followed by two or more letters
      up to `e` gives the backtracking a dot to stop at. */
  lemma {:induction false} DomainReachesDot(t: string, q: nat, k: nat, e: nat)
    requires q + 2 <= k && k + 3 <= e <= |t| && t[k] == '.'
    requires forall i :: q < i < k ==> IsDomainChar(t[i])
    requires forall i :: k < i < e ==> IsLetter(t[i])
    ensures LastTopLevel(t, q + 2, q + 1 + Run(t, q + 1, IsDomainChar)).Some?
  {
    forall i | q < i < e
      ensures IsDomainChar(t[i])
    {
    }
    RunAtLeast(t, q + 1, IsDomainChar, e - q - 1);
    RunAtLeast(t, k + 1, IsLetter, e - k - 1);
    assert TopLevelAt(t, k);
  }

  /** The three steps of an email match all succeed from `p`. */
  lemma {:induction false} EmailAtSome(t: string, p: nat, q: nat)
    requires p < q < |t| && t[q] == '@'
    requires Run(t, p, IsLocalChar) == q - p
    requires LastTopLevel(t, q + 2, q + 1 + Run(t, q + 1, IsDomainChar)).Some?
    ensures EmailAt(t, p).Some?
  {
  }

  /** The match at `p` is the longest email-shaped text that starts there. */
  lemma {:induction false} EmailAtLongest(t: string, p: nat)
    requires EmailAt(t, p).Some?
    ensures forall e :: EmailAt(t, p).value < e <= |t| ==> !IsEmail(t[p..e])
  {
    forall e | EmailAt(t, p).value < e <= |t|
      ensures !IsEmail(t[p..e])
    {
      EmailAtReaches(t, p, e);
    }
  }

  /** Any email-shaped text at `p` ends no later than the match. */
  lemma {:induction false} EmailAtReaches(t: string, p: nat, e: nat)
    requires p <= e <= |t|
    ensures IsEmail(t[p..e]) ==> EmailAt(t, p).Some? && e <= EmailAt(t, p).value
  {
    if IsEmail(t[p..e]) {
      var a, d :| EmailSplit(t[p..e], a, d);
      EmailSplitInText(t, p, e, a, d);
      AddressReaches(t, p, p + a, p + d, e);
    }
  }

  /** An address with its `@` at `q` and a dot at `k0` followed by letters up to
      `e`: the local run stops at the `@`, the domain run covers the address,
      and the dot the backtracking picks is `k0` or one further right, past `e`. */
  lemma {:induction false} AddressReaches(t: string, p: nat, q: nat, k0: nat, e: nat)
    requires p < q && q + 2 <= k0 && k0 + 3 <= e <= |t|
    requires forall i :: p <= i < q ==> IsLocalChar(t[i])
    requires t[q] == '@' && t[k0] == '.'
    requires forall i :: q < i < k0 ==> IsDomainChar(t[i])
    requires forall i :: k0 < i < e ==> IsLetter(t[i])
    ensures EmailAt(t, p).Some? && e <= EmailAt(t, p).value
  {
    RunExact(t, p, IsLocalChar, q - p);
    forall i | q < i < e
      ensures IsDomainChar(t[i])
    {
    }
    RunAtLeast(t, q + 1, IsDomainChar, e - q - 1);
    RunAtLeast(t, k0 + 1, IsLetter, e - k0 - 1);
    assert TopLevelAt(t, k0);
    var d := q + 1 + Run(t, q + 1, IsDomainChar);
    var k := LastTopLevel(t, q + 2, d).value;
    EmailAtOfTopLevel(t, p, q, d, k);
    LettersPastTopLevel(t, k0, k, e);
  }

  /** The match at `p` ends after the letters that follow the dot `k` the
      backtracking picks in the domain run that ends at `d`. */
  lemma {:induction false} EmailAtOfTopLevel(t: string, p: nat, q: nat, d: nat, k: nat)
    requires p < q < |t| && t[q] == '@'
    requires Run(t, p, IsLocalChar) == q - p
    requires d == q + 1 + Run(t, q + 1, IsDomainChar)
    requires LastTopLevel(t, q + 2, d) == Some(k)
    ensures EmailAt(t, p) == Some(k + 1 + Run(t, k + 1, IsLetter))
  {
    EmailAtIsDomainAt(t, p, q);
    DomainAtOfTopLevel(t, q, d, k);
  }

  /** Past a local part that runs up to an `@`, the match is the domain's. */
  lemma {:induction false} EmailAtIsDomainAt(t: string, p: nat, q: nat)
    requires p < q < |t| && t[q] == '@'
    requires Run(t, p, IsLocalChar) == q - p
    ensures EmailAt(t, p) == DomainAt(t, q)
  {
  }

  lemma {:induction false} DomainAtOfTopLevel(t: string, q: nat, d: nat, k: nat)
    requires d == q + 1 + Run(t, q + 1, IsDomainChar)
    requires LastTopLevel(t, q + 2, d) == Some(k)
    ensures DomainAt(t, q) == Some(k + 1 + Run(t, k + 1, IsLetter))
  {
  }

  /** A top-level dot at or right of `k0` ends its letter run no earlier than the
      letters after `k0` do. */
  lemma {:induction false} LettersPastTopLevel(t: string, k0: nat, k: nat, e: nat)
    requires k0 <= k && k0 < e <= |t| && TopLevelAt(t, k)
    requires forall i :: k0 < i < e ==> IsLetter(t[i])
    requires Run(t, k0 + 1, IsLetter) >= e - k0 - 1
    ensures e <= k + 1 + Run(t, k + 1, IsLetter)
  {
  }

  /** A word that is not followed by `@` starts no address. */
  lemma {:induction false} NoAtAfterWord(t: string, i: nat, q: nat)
    requires i <= q < |t|
    requires forall k :: i <= k < q ==> IsLocalChar(t[k])
    requires !IsLocalChar(t[q]) && t[q] != '@'
    ensures EmailAt(t, i) == None
  {
    RunExact(t, i, IsLocalChar, q - i);
  }

  /** An address whose parts end where the text says they do: a local part up
      to `@` at `q`, a domain up to `e` whose last dot is at `k`, and letters
      after it. */
  lemma {:induction false} EmailAtExact(t: string, p: nat, q: nat, k: nat, e: nat)
    requires p < q && q + 2 <= k && k + 3 <= e <= |t|
    requires forall i :: p <= i < q ==> IsLocalChar(t[i])
    requires t[q] == '@' && t[k] == '.'
    requires forall i :: q < i < k ==> IsDomainChar(t[i])
    requires forall i :: k < i < e ==> IsLetter(t[i])
    requires e == |t| || !IsDomainChar(t[e])
    ensures EmailAt(t, p) == Some(e)
  {
    AddressRuns(t, p, q, k, e);
    AddressTopLevel(t, q, k, e);
    EmailAtOfRuns(t, p, q, k, e);
  }

  /** The three greedy runs of an address stop where its parts end. */
  lemma {:induction false} AddressRuns(t: string, p: nat, q: nat, k: nat, e: nat)
    requires p < q && q + 2 <= k && k + 3 <= e <= |t|
    requires forall i :: p <= i < q ==> IsLocalChar(t[i])
    requires t[q] == '@' && t[k] == '.'
    requires forall i :: q < i < k ==> IsDomainChar(t[i])
    requires forall i :: k < i < e ==> IsLetter(t[i])
    requires e == |t| || !IsDomainChar(t[e])
    ensures Run(t, p, IsLocalChar) == q - p
    ensures Run(t, q + 1, IsDomainChar) == e - q - 1
    ensures Run(t, k + 1, IsLetter) == e - k - 1
  {
    RunExact(t, p, IsLocalChar, q - p);
    forall i | q < i < e
      ensures IsDomainChar(t[i])
    {
    }
    RunExact(t, q + 1, IsDomainChar, e - q - 1);
    RunExact(t, k + 1, IsLetter, e - k - 1);
  }

  /** Backtracking of the domain stops at the dot before the last letters. */
  lemma {:induction false} AddressTopLevel(t: string, q: nat, k: nat, e: nat)
    requires q + 2 <= k && k + 3 <= e <= |t| && t[k] == '.'
    requires forall i :: k < i < e ==> IsLetter(t[i])
    requires e == |t| || !IsDomainChar(t[e])
    ensures LastTopLevel(t, q + 2, e) == Some(k)
  {
    RunExact(t, k + 1, IsLetter, e - k - 1);
    forall j | k < j <= e
      ensures !TopLevelAt(t, j)
    {
    }
    LastTopLevelExact(t, q + 2, k, e);
  }

  lemma {:induction false} EmailAtOfRuns(t: string, p: nat, q: nat, k: nat, e: nat)
    requires p < q && q + 2 <= k && k + 3 <= e <= |t|
    requires t[q] == '@'
    requires Run(t, p, IsLocalChar) == q - p
    requires Run(t, q + 1, IsDomainChar) == e - q - 1
    requires Run(t, k + 1, IsLetter) == e - k - 1
    requires LastTopLevel(t, q + 2, e) == Some(k)
    ensures EmailAt(t, p) == Some(e)
  {
    EmailAtIsDomainAt(t, p, q);
    DomainAtOfTopLevel(t, q, e, k);
  }

  /** The last dot followed by two letters, found from the right. */
  lemma {:induction false} LastTopLevelExact(t: string, lo: nat, k: nat, e: nat)
    requires lo <= k <= e && TopLevelAt(t, k)
    requires forall j :: k < j <= e ==> !TopLevelAt(t, j)
    ensures LastTopLevel(t, lo, e) == Some(k)
  {
  }

  // ---------------------------------------------------------------- Phone

  /** `[6789]\d{9}` at `p`. */
  predicate MobileDigitsAt(t: string, p: nat)
  {
    && p + 10 <= |t|
    && (t[p] == '6' || t[p] == '7' || t[p] == '8' || t[p] == '9')
    && forall i :: p < i < p + 10 ==> IsDigit(t[i])
  }

  /** The greedy optional group `(\+91[\s-]?)?` is tried with the separator, then
      without it, then not at all. */
  function IndianMobileAt(t: string, p: nat): (r: Option<nat>)
    ensures r.Some? ==> p < r.value <= |t|
    ensures r.Some? ==> r.value - p == 10 || r.value - p == 13 || r.value - p == 14
    ensures MobileDigitsAt(t, p) ==> r.Some?
    ensures LiteralAt(t, p, "+91") && MobileDigitsAt(t, p + 3) ==> r == Some(p + 13)
    ensures (&& LiteralAt(t, p, "+91") && p + 3 < |t| && (IsJsSpace(t[p + 3]) || t[p + 3] == '-')
             && MobileDigitsAt(t, p + 4)) ==> r == Some(p + 14)
  {
    if LiteralAt(t, p, "+91") && p + 3 < |t| && (IsJsSpace(t[p + 3]) || t[p + 3] == '-')
       && MobileDigitsAt(t, p + 4) then Some(p + 14)
    else if LiteralAt(t, p, "+91") && MobileDigitsAt(t, p + 3) then Some(p + 13)
    else if MobileDigitsAt(t, p) then Some(p + 10)
    else None
  }

  /** The shape of an Indian mobile number: ten digits led by 6-9, optionally
      prefixed by `+91` and one space or dash. */
  predicate IsIndianMobile(s: string)
  {
    || (|s| == 10 && MobileDigitsAt(s, 0))
    || (|s| == 13 && LiteralAt(s, 0, "+91") && MobileDigitsAt(s, 3))
    || (|s| == 14 && LiteralAt(s, 0, "+91") && (IsJsSpace(s[3]) || s[3] == '-') && MobileDigitsAt(s, 4))
  }

  lemma {:induction false} IndianMobileAtShape(t: string, p: nat)
    requires IndianMobileAt(t, p).Some?
    ensures IsIndianMobile(t[p..IndianMobileAt(t, p).value])
  {
    var e := IndianMobileAt(t, p).value;
    var s := t[p..e];
    if LiteralAt(t, p, "+91") {
      assert s[..3] == t[p..p + 3];
    }
  }

  /** `\+?\d[\d\s-]{8,15}`: the optional plus is taken when present, and the filler
      run is cut at fifteen. */
  function DigitRunAt(t: string, p: nat): (r: Option<nat>)
    ensures r.Some? ==> p < r.value <= |t|
    ensures r.Some? ==> 9 <= r.value - p <= 17
    ensures p < |t| && IsDigit(t[p]) && Run(t, p + 1, IsPhoneFiller) >= 8 ==> r.Some?
    ensures p + 1 < |t| && t[p] == '+' && IsDigit(t[p + 1]) && Run(t, p + 2, IsPhoneFiller) >= 8 ==> r.Some?
    ensures r.Some? ==> var lead := if t[p] == '+' then 2 else 1;
              && p + lead <= r.value
              && (forall i :: p + lead <= i < r.value ==> IsPhoneFiller(t[i]))
              && (r.value == |t| || !IsPhoneFiller(t[r.value]) || r.value - p - lead == 15)
  {
    if p + 1 < |t| && t[p] == '+' && IsDigit(t[p + 1]) && Run(t, p + 2, IsPhoneFiller) >= 8 then
      Some(p + 2 + Min(15, Run(t, p + 2, IsPhoneFiller)))
    else if p < |t| && IsDigit(t[p]) && Run(t, p + 1, IsPhoneFiller) >= 8 then
      Some(p + 1 + Min(15, Run(t, p + 1, IsPhoneFiller)))
    else None
  }

  /** A digit-run match starts with an optional `+` and a digit, and then holds 8 to
      15 digits, white-space characters or dashes. */
  lemma {:induction false} DigitRunAtShape(t: string, p: nat)
    requires DigitRunAt(t, p).Some?
    ensures var s := t[p..DigitRunAt(t, p).value];
            var h := if s[0] == '+' then 1 else 0;
            && |s| > h && IsDigit(s[h])
            && 8 <= |s| - h - 1 <= 15
            && forall i :: h < i < |s| ==> IsPhoneFiller(s[i])
  {
  }

  // ---------------------------------------------------------------- Education

  const DegreeKeywords: seq<string> := ["Bachelor", "Master", "PhD", "MSc", "BSc", "BE", "B.Tech", "M.Tech"]

  /** Index of the first alternative of `kws`, from `i` on, that matches at `p`. */
  function FirstKeywordAt(t: string, p: nat, kws: seq<string>, i: nat): (r: Option<nat>)
    requires i <= |kws|
    ensures r.Some? ==> i <= r.value < |kws| && FoldedAt(t, p, kws[r.value])
    ensures r.Some? ==> forall j :: i <= j < r.value ==> !FoldedAt(t, p, kws[j])
    ensures r.None? ==> forall j :: i <= j < |kws| ==> !FoldedAt(t, p, kws[j])
    decreases |kws| - i
  {
    if i == |kws| then None
    else if FoldedAt(t, p, kws[i]) then Some(i)
    else FirstKeywordAt(t, p, kws, i + 1)
  }

  /** The first keyword alternative that matches, followed by the rest of its
      line up to 80 characters. */
  function DegreeAt(t: string, p: nat): (r: Option<nat>)
    ensures r.Some? ==> p < r.value <= |t|
    ensures r.Some? <==> exists k :: 0 <= k < |DegreeKeywords| && FoldedAt(t, p, DegreeKeywords[k])
    ensures r.Some? ==> && FirstKeywordAt(t, p, DegreeKeywords, 0).Some?
                        && var k := FirstKeywordAt(t, p, DegreeKeywords, 0).value;
                           GreedyEnd(t, p + |DegreeKeywords[k]|, r.value, IsNotNewline, 80)
  {
    match FirstKeywordAt(t, p, DegreeKeywords, 0)
    case None => None
    case Some(k) =>
      var n := |DegreeKeywords[k]|;
      GreedyRunEnd(t, p + n, IsNotNewline, 80);
      Some(p + n + Min(80, Run(t, p + n, IsNotNewline)))
  }

  /** A degree match is a keyword (up to case) followed by at most 80 further
      characters, and it never crosses a line feed. */
  lemma {:induction false} DegreeAtShape(t: string, p: nat)
    requires DegreeAt(t, p).Some?
    ensures var e := DegreeAt(t, p).value;
            exists k :: 0 <= k < |DegreeKeywords| && FoldedAt(t, p, DegreeKeywords[k])
                        && p + |DegreeKeywords[k]| <= e <= p + |DegreeKeywords[k]| + 80
    ensures forall i :: p <= i < DegreeAt(t, p).value ==> t[i] != '\n'
  {
    var k := FirstKeywordAt(t, p, DegreeKeywords, 0).value;
    var kw := DegreeKeywords[k];
    var n := |kw|;
    var e := DegreeAt(t, p).value;
    assert e == p + n + Min(80, Run(t, p + n, IsNotNewline));
    assert FoldedAt(t, p, kw) && p + n <= e <= p + n + 80;
    KeywordsHaveNoNewline(k);
    forall i | p <= i < p + n
      ensures t[i] != '\n'
    {
      assert Lower(t[p..p + n])[i - p] == LowerChar(t[i]);
      assert Lower(kw)[i - p] != '\n';
    }
  }

  lemma {:induction false} KeywordsHaveNoNewline(k: nat)
    requires k < |DegreeKeywords|
    ensures forall j :: 0 <= j < |DegreeKeywords[k]| ==> Lower(DegreeKeywords[k])[j] != '\n'
  {
  }

  /** `CGPA[:\s]?[0-9.]{1,4}`: the separator is taken when a digit or dot follows it. */
  function CgpaAt(t: string, p: nat): (r: Option<nat>)
    ensures r.Some? ==> p < r.value <= |t|
    ensures r.Some? <==> && FoldedAt(t, p, "CGPA")
                         && (|| (p + 4 < |t| && IsDigitOrDot(t[p + 4]))
                             || (p + 5 < |t| && (t[p + 4] == ':' || IsJsSpace(t[p + 4])) && IsDigitOrDot(t[p + 5])))
    ensures r.Some? ==> p + 4 < |t| && var s := if IsDigitOrDot(t[p + 4]) then p + 4 else p + 5;
              s < r.value && GreedyEnd(t, s, r.value, IsDigitOrDot, 4)
  {
    if !FoldedAt(t, p, "CGPA") then None
    else if p + 4 < |t| && (t[p + 4] == ':' || IsJsSpace(t[p + 4])) && Run(t, p + 5, IsDigitOrDot) >= 1 then
      Some(p + 5 + Min(4, Run(t, p + 5, IsDigitOrDot)))
    else if Run(t, p + 4, IsDigitOrDot) >= 1 then
      Some(p + 4 + Min(4, Run(t, p + 4, IsDigitOrDot)))
    else None
  }

  /** A CGPA match is "CGPA" in any letter case, then either digits and dots
      directly, or one colon or white-space character followed by them; one to
      four digits and dots in all, and no fewer than the text offers. */
  lemma {:induction false} CgpaAtShape(t: string, p: nat)
    requires CgpaAt(t, p).Some?
    ensures var s := t[p..CgpaAt(t, p).value];
            && FoldedAt(s, 0, "CGPA")
            && 5 <= |s| <= 9
            && (forall i :: 5 <= i < |s| ==> IsDigitOrDot(s[i]))
            && ((IsDigitOrDot(s[4]) && |s| <= 8) || ((s[4] == ':' || IsJsSpace(s[4])) && |s| >= 6))
    ensures var e := CgpaAt(t, p).value;
            || e == |t| || !IsDigitOrDot(t[e])
            || e - p == 9 || (e - p == 8 && IsDigitOrDot(t[p + 4]))
  {
    var s := t[p..CgpaAt(t, p).value];
    assert s[0..4] == t[p..p + 4];
  }

  /** A degree match starts with `b`, `m` or `p` in either case. */
  lemma {:induction false} DegreeAtInitial(t: string, p: nat)
    requires DegreeAt(t, p).Some?
    ensures p < |t| && (LowerChar(t[p]) == 'b' || LowerChar(t[p]) == 'm' || LowerChar(t[p]) == 'p')
  {
    var k := FirstKeywordAt(t, p, DegreeKeywords, 0).value;
    var n := |DegreeKeywords[k]|;
    KeywordInitials(k);
    assert Lower(t[p..p + n]) == Lower(DegreeKeywords[k]);
    assert Lower(t[p..p + n])[0] == LowerChar(t[p]);
  }

  /** Every degree keyword starts with `b`, `m` or `p` once lower-cased. */
  lemma {:induction false} KeywordInitials(k: nat)
    requires k < |DegreeKeywords|
    ensures |DegreeKeywords[k]| > 0
    ensures var c := Lower(DegreeKeywords[k])[0]; c == 'b' || c == 'm' || c == 'p'
  {
  }

  /** The match of `pat` that starts at `p`, given by its end position. */
  function MatchAt(pat: Pattern, t: string, p: nat): (r: Option<nat>)
    ensures r.Some? ==> p < r.value <= |t|
  {
    match pat
    case Email => EmailAt(t, p)
    case IndianMobile => IndianMobileAt(t, p)
    case DigitRun => DigitRunAt(t, p)
    case Degree => DegreeAt(t, p)
    case Cgpa => CgpaAt(t, p)
  }
}
