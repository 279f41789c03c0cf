/**
 * What one line of the query file spells: an opening marker, an end marker, or code followed by
 * a comment (scripts/dune-assemble.ts).
 */
module SectionLines {
  import opened Prelude
  import opened Text
  import opened Sections

  predicate AllSpace(s: string) {
    forall i | 0 <= i < |s| :: IsSpace(s[i])
  }

  predicate StartsTight(s: string) {
    s == "" || !IsSpace(s[0])
  }

  predicate EndsTight(s: string) {
    s == "" || !IsSpace(s[|s| - 1])
  }

  // ---- trimming ----

  lemma {:induction false} TrimStartCuts(lead: string, rest: string)
    requires AllSpace(lead) && StartsTight(rest)
    ensures TrimStart(lead + rest) == rest
  {
    if lead == "" {
      assert lead + rest == rest;
    } else {
      TrimStartCuts(lead[1..], rest);
      assert (lead + rest)[1..] == lead[1..] + rest;
    }
  }

  lemma {:induction false} TrimEndCuts(rest: string, tail: string)
    requires EndsTight(rest) && AllSpace(tail)
    ensures TrimEnd(rest + tail) == rest
  {
    if tail == "" {
      assert rest + tail == rest;
    } else {
      var shorter := tail[..|tail| - 1];
      TrimEndCuts(rest, shorter);
      assert (rest + tail)[..|rest + tail| - 1] == rest + shorter;
    }
  }

  lemma {:induction false} TrimStartSplits(s: string) returns (lead: string)
    ensures s == lead + TrimStart(s) && AllSpace(lead) && StartsTight(TrimStart(s))
  {
    if s == "" || !IsSpace(s[0]) {
      lead := "";
    } else {
      var rest := TrimStartSplits(s[1..]);
      lead := [s[0]] + rest;
      assert s == [s[0]] + s[1..];
    }
  }

  lemma {:induction false} TrimEndSplits(s: string) returns (tail: string)
    ensures s == TrimEnd(s) + tail && AllSpace(tail) && EndsTight(TrimEnd(s))
  {
    if s == "" || !IsSpace(s[|s| - 1]) {
      tail := "";
    } else {
      var rest := TrimEndSplits(s[..|s| - 1]);
      tail := rest + [s[|s| - 1]];
      assert s == s[..|s| - 1] + [s[|s| - 1]];
    }
  }

  lemma TrimCuts(lead: string, core: string, tail: string)
    requires AllSpace(lead) && AllSpace(tail) && core != "" && StartsTight(core) && EndsTight(core)
    ensures Trim(lead + core + tail) == core
  {
    assert lead + core + tail == lead + (core + tail);
    TrimStartCuts(lead, core + tail);
    TrimEndCuts(core, tail);
  }

  lemma TrimSplits(s: string) returns (lead: string, tail: string)
    ensures s == lead + Trim(s) + tail && AllSpace(lead) && AllSpace(tail)
  {
    lead := TrimStartSplits(s);
    tail := TrimEndSplits(TrimStart(s));
    assert lead + (Trim(s) + tail) == lead + Trim(s) + tail;
  }

  // ---- markers ----

  /** White space, `needs=` and the list, or nothing. */
  function ListPart(gap: string, list: string): string {
    if gap == "" then "" else gap + (NEEDS + list)
  }

  predicate LegalList(gap: string, list: string) {
    AllSpace(gap) && (gap == "" <==> list == "") && forall i | 0 <= i < |list| :: IsNeedsChar(list[i])
  }

  /** `--#`, a legal name, and optionally white space, `needs=` and a list of name characters and commas. */
  ghost predicate Opening(core: string, name: string, gap: string, list: string) {
    LegalName(name) && LegalList(gap, list) && core == MARK + (name + ListPart(gap, list))
  }

  /** The names in a needs list, empty ones dropped. */
  function NeedsOf(list: string): seq<string> {
    NonEmpty(Split(list, COMMA))
  }

  lemma NameEndsAtSpace(name: string, tail: string)
    requires LegalName(name) && (tail == "" || IsSpace(tail[0]))
    ensures !("END" <= name + tail) && NameRun(name + tail) == |name|
  {
    RunOfName(name, tail);
    if |name| >= 3 {
      assert (name + tail)[..3] == name[..3];
    } else if tail != "" {
      assert (name + tail)[|name|] == tail[0];
    }
  }

  /** The optional part of an opening, as `ParseOpen` reads it. */
  lemma ListReads(gap: string, list: string)
    requires LegalList(gap, list) && gap != ""
    ensures var tail := ListPart(gap, list);
            var value := TrimStart(tail);
            && |value| < |tail| && NEEDS <= value && |value| > |NEEDS| && value[|NEEDS|..] == list
            && (forall i :: |NEEDS| <= i < |value| ==> IsNeedsChar(value[i]))
            && tail[0] == gap[0] && EndsTight(tail)
  {
    var value := NEEDS + list;
    assert value[0] == 'n';
    TrimStartCuts(gap, value);
    assert value[|NEEDS|..] == list;
    forall i | |NEEDS| <= i < |value| ensures IsNeedsChar(value[i]) {
      assert value[i] == list[i - |NEEDS|];
    }
    assert (gap + value)[|gap + value| - 1] == list[|list| - 1];
    NameCharIsNotSpace(list[|list| - 1]);
  }

  /** What `ParseOpen` makes of a name and what follows it. */
  function ParseTail(name: string, tail: string): Marker {
    var value := TrimStart(tail);
    if tail == "" then Open(name, [])
    else if |value| == |tail| || !(NEEDS <= value) || |value| == |NEEDS| then Plain
    else if exists i | |NEEDS| <= i < |value| :: !IsNeedsChar(value[i]) then Plain
    else Open(name, NonEmpty(Split(value[|NEEDS|..], COMMA)))
  }

  lemma ParsesTail(name: string, tail: string)
    requires LegalName(name) && (tail == "" || IsSpace(tail[0]))
    ensures ParseOpen(MARK + (name + tail)) == ParseTail(name, tail)
  {
    var rest := name + tail;
    NameEndsAtSpace(name, tail);
    assert (MARK + rest)[|MARK|..] == rest;
    assert rest[..|name|] == name && rest[|name|..] == tail;
  }

  lemma OpeningParses(core: string, name: string, gap: string, list: string)
    requires Opening(core, name, gap, list)
    ensures ParseOpen(core) == Open(name, NeedsOf(list))
  {
    if gap == "" {
      assert Split("", COMMA) == [""] && NonEmpty([""]) == [];
    } else {
      ListReads(gap, list);
    }
    ParsesTail(name, ListPart(gap, list));
  }

  lemma OpeningIsTight(core: string, name: string, gap: string, list: string)
    requires Opening(core, name, gap, list)
    ensures core != "" && StartsTight(core) && EndsTight(core)
  {
    var tail := ListPart(gap, list);
    assert core[0] == '-';
    if gap == "" {
      assert core[|core| - 1] == name[|name| - 1];
      NameCharIsNotSpace(name[|name| - 1]);
    } else {
      ListReads(gap, list);
      assert core[|core| - 1] == tail[|tail| - 1];
    }
  }

  lemma TailIsList(name: string, tail: string) returns (gap: string, list: string)
    requires ParseTail(name, tail).Open?
    ensures LegalList(gap, list) && tail == ListPart(gap, list)
  {
    if tail == "" {
      gap, list := "", "";
    } else {
      var value := TrimStart(tail);
      gap := TrimStartSplits(tail);
      list := value[|NEEDS|..];
      assert value == NEEDS + list;
      forall i | 0 <= i < |list| ensures IsNeedsChar(list[i]) {
        assert list[i] == value[i + |NEEDS|];
      }
    }
  }

  lemma ParsedHasName(core: string) returns (name: string, tail: string)
    requires ParseOpen(core).Open?
    ensures LegalName(name) && core == MARK + (name + tail)
    ensures ParseOpen(core) == ParseTail(name, tail)
  {
    var rest := core[|MARK|..];
    var n := NameRun(rest);
    name, tail := rest[..n], rest[n..];
    assert core == MARK + rest && rest == name + tail;
    assert "END" <= name ==> "END" <= rest;
  }

  lemma ParsedIsOpening(core: string) returns (name: string, gap: string, list: string)
    requires ParseOpen(core).Open?
    ensures Opening(core, name, gap, list) && ParseOpen(core) == Open(name, NeedsOf(list))
  {
    var tail;
    name, tail := ParsedHasName(core);
    gap, list := TailIsList(name, tail);
    OpeningParses(core, name, gap, list);
  }

  /** The line is an opening of `name` with these needs, between white space. */
  ghost predicate SpellsOpen(line: string, name: string, needs: seq<string>, lead: string, core: string, tail: string) {
    && line == lead + core + tail && AllSpace(lead) && AllSpace(tail)
    && exists gap, list :: Opening(core, name, gap, list) && needs == NeedsOf(list)
  }

  /** A line opens a section exactly when it spells an opening, with the name and the needs spelled. */
  lemma OpensExactlyWhen(line: string, name: string, needs: seq<string>)
    ensures MarkerOf(line) == Open(name, needs) <==>
      exists lead, core, tail :: SpellsOpen(line, name, needs, lead, core, tail)
  {
    if MarkerOf(line) == Open(name, needs) {
      var lead, tail := TrimSplits(line);
      var _, gap, list := ParsedIsOpening(Trim(line));
      assert SpellsOpen(line, name, needs, lead, Trim(line), tail);
    }
    forall lead, core, tail | SpellsOpen(line, name, needs, lead, core, tail)
      ensures MarkerOf(line) == Open(name, needs)
    {
      var gap, list :| Opening(core, name, gap, list) && needs == NeedsOf(list);
      OpeningParses(core, name, gap, list);
      OpeningIsTight(core, name, gap, list);
      TrimCuts(lead, core, tail);
    }
  }

  ghost predicate SpellsEnd(line: string, lead: string, tail: string) {
    line == lead + "--#END" + tail && AllSpace(lead) && AllSpace(tail)
  }

  /** A line ends a section exactly when it is the end marker between white space. */
  lemma EndsExactlyWhen(line: string)
    ensures MarkerOf(line).End? <==> exists lead, tail :: SpellsEnd(line, lead, tail)
  {
    if MarkerOf(line).End? {
      var lead, tail := TrimSplits(line);
      assert SpellsEnd(line, lead, tail);
    }
    forall lead, tail | SpellsEnd(line, lead, tail) ensures MarkerOf(line).End? {
      TrimCuts(lead, END_MARK, tail);
      assert END_MARK[|MARK|..] == "END";
    }
  }

  const SPACES := [0x9, 0xA, 0xB, 0xC, 0xD, 0x20, 0xA0, 0x1680, 0x2000, 0x2001, 0x2002, 0x2003, 0x2004, 0x2005, 0x2006,
                   0x2007, 0x2008, 0x2009, 0x200A, 0x2028, 0x2029, 0x202F, 0x205F, 0x3000, 0xFEFF]

  const LETTERS := "ABCDEFGHIJKLMNOPQRSTUVWXYZ"

  const DIGITS := "0123456789"

  /** The character classes, spelled out. */
  lemma SpacesAre(c: char)
    ensures IsSpace(c) <==> c as int in SPACES
  {
  }

  lemma NameCharsAre(c: char)
    ensures IsNameChar(c) <==> c in LETTERS || c in DIGITS || c == '-'
  {
    if 'A' <= c <= 'Z' {
      assert LETTERS[c as int - 'A' as int] == c;
    }
    if '0' <= c <= '9' {
      assert DIGITS[c as int - '0' as int] == c;
    }
  }

  // ---- code and comments ----

  /** Nothing in the text stops a comment from running to the end of the line. */
  predicate OneLine(text: string) {
    forall i | 0 <= i < |text| ::
      text[i] != '\n' && text[i] != '\r' && text[i] as int != 0x2028 && text[i] as int != 0x2029
  }

  /** Two hyphens at `i`. */
  predicate DashesAt(line: string, i: nat) {
    i + 2 <= |line| && line[i] == '-' && line[i + 1] == '-'
  }

  lemma {:induction false} FirstCommentStart(line: string, i: nat, k: nat)
    requires i <= k <= |line| && (k < |line| ==> IsCommentStart(line, k))
    requires forall j :: i <= j < k ==> !IsCommentStart(line, j)
    ensures CommentStart(line, i) == k
    decreases k - i
  {
    if i == k {
    } else {
      FirstCommentStart(line, i + 1, k);
    }
  }

  /** Of code, white space and a comment only the code is left: nothing, when there is only a comment. */
  lemma CommentIsCut(code: string, gap: string, text: string)
    requires EndsTight(code) && AllSpace(gap) && OneLine(text)
    requires forall i :: 0 <= i < |code + gap| ==> !DashesAt(code + gap + "--" + text, i)
    ensures Code(code + gap + "--" + text) == code
  {
    var before := code + gap;
    var line := before + "--" + text;
    var k := |before|;
    assert line[k] == '-' && line[k + 1] == '-' && line[k + 2..] == text;
    assert forall j :: k + 2 <= j < |line| ==> line[j] == text[j - k - 2];
    assert IsCommentStart(line, k);
    forall j | 0 <= j < k ensures !IsCommentStart(line, j) {
      assert !DashesAt(line, j);
    }
    FirstCommentStart(line, 0, k);
    assert line[..k] == before;
    TrimEndCuts(code, gap);
  }

  /** The semicolon removed is the line's last one, wherever it is, and nothing else goes. */
  lemma LastSemicolonGoes(line: string) returns (before: string, after: string)
    requires EndsWithSemicolon(Code(line))
    ensures line == before + ";" + after && ';' !in after
    ensures Without(line, TerminatorIndex(line)) == before + after
  {
    var at := TerminatorIndex(line);
    before, after := line[..at], line[at + 1..];
    assert forall i :: 0 <= i < |after| ==> after[i] == line[at + 1 + i];
  }

  /** Without a pair of hyphens, or with a line terminator after every pair, only the trailing white space goes. */
  lemma WithoutCommentOnlySpaceGoes(code: string, gap: string)
    requires EndsTight(code) && AllSpace(gap)
    requires forall i :: 0 <= i < |code + gap| && DashesAt(code + gap, i) ==> !OneLine((code + gap)[i..])
    ensures Code(code + gap) == code
  {
    var line := code + gap;
    forall j | 0 <= j < |line| ensures !IsCommentStart(line, j) {
      if DashesAt(line, j) {
        var i :| 0 <= i < |line[j..]|
          && (line[j..][i] == '\n' || line[j..][i] == '\r' || line[j..][i] as int == 0x2028
              || line[j..][i] as int == 0x2029);
        assert line[j + i] == line[j..][i];
      }
    }
    FirstCommentStart(line, 0, |line|);
    assert line[..|line|] == line;
    TrimEndCuts(code, gap);
  }
}
