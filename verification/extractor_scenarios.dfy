/** Worked inputs for the résumé extractor: the name line, the e-mail
    addresses of a contact line, and what the CGPA pattern does with a space
    after the colon. */
module ExtractorScenarios {
  import opened Wrappers
  import opened Seqs
  import opened Text
  import opened Patterns
  import opened Scan
  import opened Extractor

  /** The name is the first name line, whatever follows it. */
  lemma {:induction false} FirstNameLine(ls: seq<string>, k: nat)
    requires k < |ls| && IsNameLine(ls[k])
    requires forall j :: 0 <= j < k ==> !IsNameLine(ls[j])
    ensures ExtractName(ls) == ls[k]
  {
    var r := ExtractName(ls);
    var i :| 0 <= i < |ls| && ls[i] == r && forall j :: 0 <= j < i ==> !IsNameLine(ls[j]);
    assert IsNameLine(ls[i]);
    assert i == k;
  }

  lemma {:induction false} JaneSmithWords()
    ensures Join(["Jane", "Smith"], ' ') == "Jane Smith"
  {
  }

  lemma {:induction false} JaneSmithNameLine()
    ensures IsNameLine("Jane Smith")
  {
    JaneSmithWords();
    NameLineOfWords(["Jane", "Smith"]);
  }

  /** A line whose trim is a name line, with no such line above it, names the
      résumé, whatever the other lines hold: blank lines, indentation and
      carriage returns included. */
  lemma {:induction false} NameAmongLines(before: seq<string>, name: string, after: seq<string>)
    requires forall i :: 0 <= i < |before| ==> '\n' !in before[i] && !IsNameLine(Trim(before[i]))
    requires '\n' !in name && IsNameLine(Trim(name))
    requires forall i :: 0 <= i < |after| ==> '\n' !in after[i]
    ensures ExtractName(Lines(Join(before + [name] + after, '\n'))) == Trim(name)
  {
    var n := Trim(name);
    var lines := LinesAround(before, name, after);
    NoNameLineAbove(before);
    var above := Filter(TrimAll(before), NonBlank);
    assert forall j :: 0 <= j < |above| ==> lines[j] == above[j];
    FirstNameLine(lines, |above|);
  }

  /** The lines of the joined text are the kept lines above, the trimmed line,
      and the kept lines below. */
  lemma {:induction false} LinesAround(before: seq<string>, name: string, after: seq<string>) returns (lines: seq<string>)
    requires forall i :: 0 <= i < |before| ==> '\n' !in before[i]
    requires '\n' !in name && IsNameLine(Trim(name))
    requires forall i :: 0 <= i < |after| ==> '\n' !in after[i]
    ensures lines == Lines(Join(before + [name] + after, '\n'))
    ensures lines == Filter(TrimAll(before), NonBlank) + [Trim(name)] + Filter(TrimAll(after), NonBlank)
  {
    var ls := before + [name] + after;
    PiecesAround(before, name, after);
    LinesOfPieces(ls);
    TrimAllAround(before, name, after);
    NameLineIsClean(Trim(name));
    FilterAround(TrimAll(before), Trim(name), TrimAll(after));
    lines := Lines(Join(ls, '\n'));
  }

  /** Pieces free of line feeds stay free of them side by side. */
  lemma {:induction false} PiecesAround(before: seq<string>, name: string, after: seq<string>)
    requires forall i :: 0 <= i < |before| ==> '\n' !in before[i]
    requires '\n' !in name
    requires forall i :: 0 <= i < |after| ==> '\n' !in after[i]
    ensures forall i :: 0 <= i < |before + [name] + after| ==> '\n' !in (before + [name] + after)[i]
  {
    var ls := before + [name] + after;
    forall i | 0 <= i < |ls|
      ensures '\n' !in ls[i]
    {
      if i < |before| {
        assert ls[i] == before[i];
      } else if i > |before| {
        assert ls[i] == after[i - |before| - 1];
      }
    }
  }

  /** Trimming every line commutes with placing a line between two others. */
  lemma {:induction false} TrimAllAround(before: seq<string>, name: string, after: seq<string>)
    ensures TrimAll(before + [name] + after) == TrimAll(before) + [Trim(name)] + TrimAll(after)
  {
  }

  /** Filtering around a kept element keeps it between the filtered sides. */
  lemma {:induction false} FilterAround(b: seq<string>, n: string, a: seq<string>)
    requires NonBlank(n)
    ensures Filter(b + [n] + a, NonBlank) == Filter(b, NonBlank) + [n] + Filter(a, NonBlank)
  {
    FilterAppend(b + [n], a, NonBlank);
    FilterAppend(b, [n], NonBlank);
    assert Filter([n], NonBlank) == [n];
  }

  /** Lines whose trims are not name lines leave no name line among the kept lines. */
  lemma {:induction false} NoNameLineAbove(before: seq<string>)
    requires forall i :: 0 <= i < |before| ==> !IsNameLine(Trim(before[i]))
    ensures var above := Filter(TrimAll(before), NonBlank);
            forall j :: 0 <= j < |above| ==> !IsNameLine(above[j])
  {
    var b := TrimAll(before);
    var above := Filter(b, NonBlank);
    forall j | 0 <= j < |above|
      ensures !IsNameLine(above[j])
    {
      FilterMembership(b, NonBlank, above[j]);
      var k :| 0 <= k < |b| && b[k] == above[j];
    }
  }

  /** A résumé with a line reading "Jane Smith", once trimmed, and no name line
      above it, belongs to Jane Smith. */
  lemma {:induction false} JaneSmithNamed(lexicon: seq<string>, before: seq<string>, line: string, after: seq<string>)
    requires forall i :: 0 <= i < |before| ==> '\n' !in before[i] && !IsNameLine(Trim(before[i]))
    requires '\n' !in line && Trim(line) == "Jane Smith"
    requires forall i :: 0 <= i < |after| ==> '\n' !in after[i]
    ensures ExtractStructuredData(lexicon, Join(before + [line] + after, '\n')).name == "Jane Smith"
  {
    JaneSmithNameLine();
    NameAmongLines(before, line, after);
  }

  /** With CRLF line ends, a blank line and an indented address, the name is still
      "Jane Smith". */
  lemma {:induction false} CrlfResumeNamed(lexicon: seq<string>)
    ensures ExtractStructuredData(lexicon, "Jane Smith\r\n\r\n  jane@x.com").name == "Jane Smith"
  {
    var after := ["\r", "  jane@x.com"];
    CrlfPieces();
    JaneSmithTrimmed();
    JaneSmithNamed(lexicon, [], "Jane Smith\r", after);
  }

  /** The CRLF résumé as its pieces between line feeds. */
  lemma {:induction false} CrlfPieces()
    ensures Join([] + ["Jane Smith\r"] + ["\r", "  jane@x.com"], '\n') == "Jane Smith\r\n\r\n  jane@x.com"
    ensures forall i :: 0 <= i < 2 ==> '\n' !in ["\r", "  jane@x.com"][i]
  {
    var after := ["\r", "  jane@x.com"];
    assert [] + ["Jane Smith\r"] + after == ["Jane Smith\r", "\r", "  jane@x.com"];
    assert Join(after, '\n') == "\r\n  jane@x.com";
    assert forall k :: 0 <= k < |after[1]| ==> after[1][k] != '\n';
  }

  lemma {:induction false} JaneSmithTrimmed()
    ensures Trim("Jane Smith\r") == "Jane Smith" && '\n' !in "Jane Smith\r"
  {
    var name := "Jane Smith";
    assert !IsJsSpace(name[0]) && !IsJsSpace(name[|name| - 1]);
    TrimUntouched(name);
    TrimDropsTrailingCR(name);
    assert name + "\r" == "Jane Smith\r";
    assert forall k :: 0 <= k < |name + "\r"| ==> (name + "\r")[k] != '\n';
  }

  /** A contact line with two addresses; the first starts at 9 and ends at 19,
      the second runs from 23 to the end at 39. */
  const Contact: string := "Contact: " + "jane@x.com" + " or " + "jane.smith@y.org"

  lemma {:induction false} ContactFirstAddress()
    ensures EmailAt(Contact, 9) == Some(19)
  {
    EmailAtExact(Contact, 9, 13, 15, 19);
  }

  lemma {:induction false} ContactSecondAddress()
    ensures EmailAt(Contact, 23) == Some(39)
  {
    EmailAtExact(Contact, 23, 33, 35, 39);
  }

  /** No address starts before the first one, or between the two, or at the end. */
  lemma {:induction false} ContactGaps()
    ensures forall i :: 0 <= i < 9 ==> EmailAt(Contact, i) == None
    ensures forall i :: 19 <= i < 23 ==> EmailAt(Contact, i) == None
    ensures EmailAt(Contact, 39) == None
  {
    var t := Contact;
    forall i | 0 <= i < 9 ensures EmailAt(t, i) == None {
      if i < 7 { NoAtAfterWord(t, i, 7); } else { NoAtAfterWord(t, i, i); }
    }
    forall i | 19 <= i < 23 ensures EmailAt(t, i) == None {
      if i == 19 || i == 22 { NoAtAfterWord(t, i, i); } else { NoAtAfterWord(t, i, 22); }
    }
  }

  lemma {:induction false} ContactLeftmost()
    ensures Leftmost(MatcherOf(Email), Contact, 0, Span(9, 19))
    ensures Leftmost(MatcherOf(Email), Contact, 19, Span(23, 39))
    ensures NoMatchFrom(MatcherOf(Email), Contact, 39)
  {
    ContactFirstAddress();
    ContactSecondAddress();
    ContactGaps();
    assert forall i :: MatcherOf(Email)(Contact, i) == EmailAt(Contact, i);
  }

  lemma {:induction false} ContactSpans()
    ensures AllFrom(MatcherOf(Email), Contact, 0) == [Span(9, 19), Span(23, 39)]
  {
    ContactLeftmost();
    TwoMatches(MatcherOf(Email), Contact, Span(9, 19), Span(23, 39));
  }

  lemma {:induction false} ContactSlices()
    ensures Contact[9..19] == "jane@x.com" && Contact[23..39] == "jane.smith@y.org"
  {
  }

  /** Both addresses are found, in the order they are written. */
  lemma {:induction false} ContactEmails()
    ensures ExtractEmails(Contact) == ["jane@x.com", "jane.smith@y.org"]
  {
    ContactSpans();
    ContactSlices();
    EmailsAreSlices(Contact);
    TwoSlices(Contact, Span(9, 19), Span(23, 39), "jane@x.com", "jane.smith@y.org");
  }

  /** The text of two spans. */
  lemma {:induction false} TwoSlices(t: string, a: Span, b: Span, x: string, y: string)
    requires a.start <= a.end <= |t| && b.start <= b.end <= |t|
    requires t[a.start..a.end] == x && t[b.start..b.end] == y
    ensures Slices(t, [a, b]) == [x, y]
  {
  }

  /** The addresses are the text of the global search's spans. */
  lemma {:induction false} EmailsAreSlices(text: string)
    ensures ExtractEmails(text) == Slices(text, AllFrom(MatcherOf(Email), text, 0))
  {
  }

  /** The CGPA pattern finds nothing in "CGPA: 3.8": a colon and a space are two
      separators, and it takes one. */
  lemma {:induction false} CgpaColonSpace()
    ensures FirstMatch(Cgpa, "CGPA: 3.8") == None
  {
    var t := "CGPA: 3.8";
    forall p | 0 <= p <= |t|
      ensures CgpaAt(t, p).None?
    {
      if p == 0 {
        assert !IsDigitOrDot(t[4]) && !IsDigitOrDot(t[5]);
      } else if p + 4 <= |t| {
        assert Lower(t[p..p + 4])[3] != 'a';
      }
    }
    assert NoMatchFrom(MatcherOf(Cgpa), t, 0);
  }

  /** Without the space, the whole of "CGPA:3.8" is the match. */
  lemma {:induction false} CgpaColonDigits()
    ensures FirstMatch(Cgpa, "CGPA:3.8") == Some("CGPA:3.8")
  {
    var t := "CGPA:3.8";
    assert Lower(t[0..4]) == Lower("CGPA");
    assert FoldedAt(t, 0, "CGPA");
    assert IsDigitOrDot(t[5]) && IsDigitOrDot(t[6]) && IsDigitOrDot(t[7]);
    RunExact(t, 5, IsDigitOrDot, 3);
    assert CgpaAt(t, 0) == Some(8);
    assert MatcherOf(Cgpa)(t, 0) == Some(8);
    assert t[0..8] == t;
  }
}
