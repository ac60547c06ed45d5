/**
  The writer of XML CDATA sections, and a reader of what it writes.
 */
module CDataWriter {
  import opened Common

  const OPEN := "<![CDATA["
  const CLOSE := "]]>"
  const BREAK := "]]&gt;<![CDATA["

  /** `strstr(s, "]]>")`. */
  function FindClose(s: string): (at: Option<nat>)
    ensures at.Some? ==> at.value + 3 <= |s| && s[at.value..at.value + 3] == CLOSE
  {
    if |s| < 3 then None
    else if s[..3] == CLOSE then Some(0)
    else
      var at := FindClose(s[1..]);
      if at.Some? then Some(at.value + 1) else None
  }

  /** What follows the opening of the first section. */
  function Sections(data: string): string {
    var at := FindClose(data);
    if at.None? then data + CLOSE
    else data[..at.value] + CLOSE + (BREAK + Sections(data[at.value + 3..]))
  }

  lemma SectionsOf(data: string)
    ensures Sections(data) == var at := FindClose(data);
      if at.None? then data + CLOSE
      else data[..at.value] + CLOSE + (BREAK + Sections(data[at.value + 3..]))
  {
    hide FindClose;
  }

  lemma SplitRegrouped(stream: string, head: string, rest: string)
    ensures stream + (head + CLOSE + (BREAK + rest)) == stream + head + (CLOSE + BREAK) + rest
  {
    Regroup(stream, head, CLOSE, BREAK, rest);
  }

  method OutputXmlCDataSection(data: string) returns (stream: string)
    ensures stream == OPEN + Sections(data)
  {
    var segment := data;
    stream := OPEN;
    while true
      invariant stream + Sections(segment) == OPEN + Sections(data)
      decreases |segment|
    {
      hide FindClose, Sections;
      SectionsOf(segment);
      var next := FindClose(segment);
      if next.Some? {
        SplitRegrouped(stream, segment[..next.value], Sections(segment[next.value + 3..]));
        stream := stream + segment[..next.value] + (CLOSE + BREAK);
        segment := segment[next.value + 3..];
      } else {
        Associates(stream, segment, CLOSE);
        stream := stream + segment;
        break;
      }
    }
    stream := stream + CLOSE;
  }

  // ----- Reading element content: sections 2.4 and 2.7 of XML 1.0 -----

  /** Character data, `&gt;` and CDATA sections; nothing else is accepted. */
  function ReadContent(s: string): Option<string>
    decreases |s|
  {
    if s == "" then Some("")
    else if OPEN <= s then ReadSection(s[9..])
    else if "&gt;" <= s then
      var rest := ReadContent(s[4..]);
      if rest.Some? then Some(">" + rest.value) else None
    else if s[0] in {'<', '&'} || CLOSE <= s then None
    else
      var rest := ReadContent(s[1..]);
      if rest.Some? then Some([s[0]] + rest.value) else None
  }

  /** A section ends at the first `]]>`. */
  function ReadSection(s: string): Option<string>
    decreases |s|
  {
    var at := FindClose(s);
    if at.None? then None
    else
      var rest := ReadContent(s[at.value + 3..]);
      if rest.Some? then Some(s[..at.value] + rest.value) else None
  }

  /** A closing mark right after a segment without one is the first, even if the segment ends in `]`. */
  lemma {:induction false} FirstClose(segment: string, t: string)
    requires FindClose(segment).None?
    ensures FindClose(segment + CLOSE + t) == Some(|segment|)
  {
    var s := segment + CLOSE + t;
    if segment == "" {
      assert s[..3] == CLOSE;
    } else {
      assert s[1..] == segment[1..] + CLOSE + t;
      FirstClose(segment[1..], t);
      assert s[..3] != CLOSE by {
        if |segment| < 3 {
          assert s[2] == ']';
        } else {
          assert s[..3] == segment[..3];
        }
      }
    }
  }

  lemma {:induction false} BeforeFirstClose(s: string)
    requires FindClose(s).Some?
    ensures FindClose(s[..FindClose(s).value]).None?
  {
    var n := FindClose(s).value;
    if n > 0 {
      BeforeFirstClose(s[1..]);
      assert s[..n][1..] == s[1..][..n - 1];
      assert n >= 3 ==> s[..n][..3] == s[..3];
    }
  }

  lemma AtFirstClose(s: string)
    requires FindClose(s).Some?
    ensures var n := FindClose(s).value; s == s[..n] + (CLOSE + s[n + 3..])
  {
    var n := FindClose(s).value;
    assert s[n..n + 3] == CLOSE;
    hide FindClose;
    CutTwice(s, n, n + 3);
  }

  function Prepend(head: string, tail: Option<string>): Option<string> {
    if tail.Some? then Some(head + tail.value) else None
  }

  lemma ReadPlain(c: char, t: string)
    requires c != '<' && c != '&' && !(|t| >= 2 && t[1] == '>')
    ensures ReadContent([c] + t) == Prepend([c], ReadContent(t))
  {
    hide ReadSection, ReadContent;
    var s := [c] + t;
    assert s[1..] == t && s[0] == c;
    assert !(OPEN <= s) by {
      assert OPEN[0] == '<';
    }
    assert !("&gt;" <= s) by {
      assert "&gt;"[0] == '&';
    }
    assert !(CLOSE <= s) by {
      assert CLOSE[2] == '>';
      assert |s| >= 3 ==> s[2] == t[1];
    }
    ReadOther(s);
  }

  lemma ReadOther(s: string)
    requires s != "" && !(OPEN <= s) && !("&gt;" <= s) && !(CLOSE <= s) && s[0] !in {'<', '&'}
    ensures ReadContent(s) == Prepend([s[0]], ReadContent(s[1..]))
  {
  }

  lemma ReadEntity(t: string)
    ensures ReadContent("&gt;" + t) == Prepend(">", ReadContent(t))
  {
    var s := "&gt;" + t;
    assert s[4..] == t && OPEN[0] == '<' && s[0] == '&';
  }

  lemma ReadOpen(t: string)
    ensures ReadContent(OPEN + t) == ReadSection(t)
  {
    assert (OPEN + t)[9..] == t;
  }

  /** One `]]>` of the data, split over two sections. */
  lemma ReadBreak(rest: string)
    ensures ReadContent(BREAK + rest) == Prepend(CLOSE, ReadSection(rest))
  {
    hide ReadContent, ReadSection;
    var t := "&gt;" + (OPEN + rest);
    ReadOpen(rest);
    ReadEntity(OPEN + rest);
    ReadPlain(']', t);
    ReadPlain(']', [']'] + t);
    BreakText(rest);
    if ReadSection(rest).Some? {
      CloseText(ReadSection(rest).value);
    }
  }

  lemma BreakText(rest: string)
    ensures BREAK + rest == [']'] + ([']'] + ("&gt;" + (OPEN + rest)))
  {
  }

  lemma CloseText(v: string)
    ensures [']'] + ([']'] + (">" + v)) == CLOSE + v
  {
  }

  lemma {:induction false} ReadSections(data: string)
    ensures ReadSection(Sections(data)) == Some(data)
    decreases |data|
  {
    hide ReadContent, ReadSection;
    var at := FindClose(data);
    if at.None? {
      ReadLast(data);
    } else {
      var n := at.value;
      var tail := data[n + 3..];
      ReadSections(tail);
      ReadBreak(Sections(tail));
      BeforeFirstClose(data);
      ReadSplit(data[..n], BREAK + Sections(tail), CLOSE + tail);
      AtFirstClose(data);
    }
  }

  lemma ReadLast(data: string)
    requires FindClose(data).None?
    ensures ReadSection(data + CLOSE) == Some(data)
  {
    FirstClose(data, "");
    var s := data + CLOSE;
    assert s + "" == s && s[..|data|] == data && s[|data| + 3..] == "" && data + "" == data;
  }

  lemma ReadSplit(head: string, more: string, v: string)
    requires FindClose(head).None? && ReadContent(more) == Some(v)
    ensures ReadSection(head + CLOSE + more) == Some(head + v)
  {
    FirstClose(head, more);
    var s := head + CLOSE + more;
    assert s[..|head|] == head && s[|head| + 3..] == more;
  }

  /** Reading what the writer wrote gives back the data, whatever the data. */
  lemma ReadInvertsWrite(data: string)
    ensures ReadContent(OPEN + Sections(data)) == Some(data)
  {
    ReadSections(data);
    assert (OPEN + Sections(data))[9..] == Sections(data);
  }

  // ----- The text itself -----

  predicate HoldsNoMark(s: string) {
    forall i :: 0 <= i && i + 3 <= |s| ==> !(s[i] == ']' && s[i + 1] == ']' && s[i + 2] == '>')
  }

  lemma {:induction false} NoMarkFound(s: string)
    ensures FindClose(s).None? <==> HoldsNoMark(s)
    decreases |s|
  {
    if |s| >= 3 {
      var t := s[1..];
      NoMarkFound(t);
      assert s[..3] == CLOSE <==> s[0] == ']' && s[1] == ']' && s[2] == '>';
      assert forall i :: 0 <= i < |t| ==> t[i] == s[i + 1];
      if HoldsNoMark(t) && s[..3] != CLOSE {
        forall i | 0 <= i && i + 3 <= |s|
          ensures !(s[i] == ']' && s[i + 1] == ']' && s[i + 2] == '>')
        {
          assert i > 0 ==> t[i - 1] == s[i];
        }
      }
    }
  }

  /**
    What is written: data without a mark is one section, and a mark is split where it stands.
    Together these say what is written for any data.
   */
  lemma WrittenText(head: string, rest: string)
    requires HoldsNoMark(head)
    ensures OPEN + Sections(head) == "<![CDATA[" + head + "]]>"
    ensures OPEN + Sections(head + "]]>" + rest) == "<![CDATA[" + head + "]]>" + "]]&gt;" + (OPEN + Sections(rest))
  {
    NoMarkFound(head);
    FirstClose(head, rest);
    SectionsOf(head);
    var data := head + CLOSE + rest;
    SectionsOf(data);
    BreakIsEntityAndOpen();
    hide FindClose, Sections;
    AppendSplits(head + CLOSE, rest);
    MiddleOf(head, CLOSE, rest);
    assert data[..|head|] == head by {
      AppendSplits(head, CLOSE + rest);
      Associates(head, CLOSE, rest);
    }
    Associates(OPEN, head, CLOSE);
    Associates(OPEN, head + CLOSE, BREAK + Sections(rest));
    Associates(OPEN + head + CLOSE, "]]&gt;" + OPEN, Sections(rest));
    Associates(OPEN + head + CLOSE, "]]&gt;", OPEN);
    Associates(OPEN + head + CLOSE + "]]&gt;", OPEN, Sections(rest));
  }

  lemma BreakIsEntityAndOpen()
    ensures BREAK == "]]&gt;" + OPEN
  {
  }
}
