/**
 * The marker-delimited sections of the query file, and the trailing terminator that is
 * stripped from a composed query (scripts/dune-assemble.ts).
 */
module Sections {
  import opened Prelude
  import opened Text

  const NEWLINE: char := '\n'
  const COMMA: char := ','
  const MARK := "--#"
  const END_MARK := "--#END"
  const NEEDS := "needs="

  // ---- reading one line ----

  /** The white space that `trim` and `\s` recognise. */
  predicate IsSpace(c: char) {
    var u := c as int;
    || 0x9 <= u <= 0xD || u == 0x20 || u == 0xA0 || u == 0x1680 || 0x2000 <= u <= 0x200A
    || u == 0x2028 || u == 0x2029 || u == 0x202F || u == 0x205F || u == 0x3000 || u == 0xFEFF
  }

  predicate IsNameChar(c: char) {
    'A' <= c <= 'Z' || '0' <= c <= '9' || c == '-'
  }

  predicate IsNeedsChar(c: char) {
    IsNameChar(c) || c == COMMA
  }

  function TrimStart(s: string): string {
    if s != "" && IsSpace(s[0]) then TrimStart(s[1..]) else s
  }

  function TrimEnd(s: string): (t: string)
    ensures t <= s
  {
    if s != "" && IsSpace(s[|s| - 1]) then TrimEnd(s[..|s| - 1]) else s
  }

  function Trim(s: string): string {
    TrimEnd(TrimStart(s))
  }

  /** How many name characters `s` starts with. */
  function NameRun(s: string): (n: nat)
    ensures n <= |s| && (forall i :: 0 <= i < n ==> IsNameChar(s[i])) && (n < |s| ==> !IsNameChar(s[n]))
  {
    if s != "" && IsNameChar(s[0]) then 1 + NameRun(s[1..]) else 0
  }

  datatype Marker = Plain | Open(name: string, needs: seq<string>) | End

  /** The opening marker on a trimmed line: `--#NAME`, not starting with END, then optional needs. */
  function ParseOpen(t: string): Marker {
    if !(MARK <= t) then Plain
    else
      var rest := t[|MARK|..];
      var n := NameRun(rest);
      if n == 0 || "END" <= rest then Plain
      else
        var tail := rest[n..];
        var value := TrimStart(tail);
        if tail == "" then Open(rest[..n], [])
        else if |value| == |tail| || !(NEEDS <= value) || |value| == |NEEDS| then Plain
        else if exists i | |NEEDS| <= i < |value| :: !IsNeedsChar(value[i]) then Plain
        else Open(rest[..n], NonEmpty(Split(value[|NEEDS|..], COMMA)))
  }

  function MarkerOf(line: string): Marker {
    var t := Trim(line);
    var open := ParseOpen(t);
    if open.Open? then open
    else if t == END_MARK then End
    else Plain
  }

  // ---- reading the file ----

  datatype Section = Section(name: string, needs: seq<string>, body: string)

  datatype Current = Current(name: string, needs: seq<string>, lines: seq<string>)

  datatype Error = OpenedInside(inner: string, outer: string) | StrayEnd | NeverClosed(name: string)

  datatype Result = Ok(sections: map<string, Section>) | Failed(error: Error)

  datatype Progress = Going(current: Option<Current>, out: map<string, Section>) | Stopped(error: Error)

  /** What one line, already classified, does to the reader. */
  function Take(m: Marker, line: string, current: Option<Current>, out: map<string, Section>): Progress {
    match m
    case Open(name, needs) =>
      if current.Some? then Stopped(OpenedInside(name, current.value.name))
      else Going(Some(Current(name, needs, [])), out)
    case End =>
      if current.None? then Stopped(StrayEnd)
      else
        var c := current.value;
        Going(None, out[c.name := Section(c.name, c.needs, Join(c.lines, NEWLINE))])
    case Plain =>
      Going(if current.None? then None else Some(current.value.(lines := current.value.lines + [line])), out)
  }

  /** What reading the remaining lines leads to. */
  function Scan(lines: seq<string>, current: Option<Current>, out: map<string, Section>): Result
    decreases |lines|
  {
    if lines == [] then
      if current.Some? then Failed(NeverClosed(current.value.name)) else Ok(out)
    else
      match Take(MarkerOf(lines[0]), lines[0], current, out)
      case Stopped(error) => Failed(error)
      case Going(current', out') => Scan(lines[1..], current', out')
  }

  method ReadSections(sql: string) returns (r: Result)
    ensures r == Scan(Split(sql, NEWLINE), None, map[])
  {
    var out: map<string, Section> := map[];
    var current: Option<Current> := None;
    var lines := Split(sql, NEWLINE);
    for k := 0 to |lines|
      invariant Scan(lines[k..], current, out) == Scan(lines, None, map[])
    {
      assert lines[k..][0] == lines[k] && lines[k..][1..] == lines[k + 1..];
      match MarkerOf(lines[k])
      case Open(name, needs) =>
        if current.Some? {
          return Failed(OpenedInside(name, current.value.name));
        }
        current := Some(Current(name, needs, []));
      case End =>
        if current.None? {
          return Failed(StrayEnd);
        }
        var c := current.value;
        out := out[c.name := Section(c.name, c.needs, Join(c.lines, NEWLINE))];
        current := None;
      case Plain =>
        if current.Some? {
          current := Some(current.value.(lines := current.value.lines + [lines[k]]));
        }
    }
    r := if current.Some? then Failed(NeverClosed(current.value.name)) else Ok(out);
  }

  // ---- what is rejected ----

  function Markers(lines: seq<string>): seq<Marker> {
    if lines == [] then []
    else (if MarkerOf(lines[0]).Plain? then [] else [MarkerOf(lines[0])]) + Markers(lines[1..])
  }

  /** Opening markers at even positions, end markers at odd ones. */
  predicate Fits(ms: seq<Marker>, i: nat)
    requires i < |ms|
  {
    if i % 2 == 0 then ms[i].Open? else ms[i].End?
  }

  /** The first position from `i` on that breaks the alternation, or the length if none does. */
  function FirstMisfit(ms: seq<Marker>, i: nat): (k: nat)
    requires i <= |ms|
    ensures i <= k <= |ms| && (k < |ms| ==> !Fits(ms, k))
    ensures forall j :: i <= j < k ==> Fits(ms, j)
    decreases |ms| - i
  {
    if i < |ms| && Fits(ms, i) then FirstMisfit(ms, i + 1) else i
  }

  /** The error the alternation of markers calls for, if any. */
  function Verdict(ms: seq<Marker>): Option<Error> {
    var k := FirstMisfit(ms, 0);
    if k < |ms| then
      Some(if k > 0 && ms[k].Open? && ms[k - 1].Open? then OpenedInside(ms[k].name, ms[k - 1].name) else StrayEnd)
    else if |ms| % 2 == 1 then
      assert Fits(ms, |ms| - 1);
      Some(NeverClosed(ms[|ms| - 1].name))
    else None
  }

  /** The open section counts as the marker that opened it. */
  function Pending(current: Option<Current>): seq<Marker> {
    if current.Some? then [Open(current.value.name, current.value.needs)] else []
  }

  ghost predicate Obeys(r: Result, verdict: Option<Error>) {
    if verdict.Some? then r == Failed(verdict.value) else r.Ok?
  }

  lemma {:induction false} MisfitAfterPair(a: Marker, rest: seq<Marker>, i: nat)
    requires a.Open? && i <= |rest|
    ensures FirstMisfit([a, End] + rest, i + 2) == FirstMisfit(rest, i) + 2
    decreases |rest| - i
  {
    var ms := [a, End] + rest;
    if i == |rest| {
    } else {
      assert ms[i + 2] == rest[i];
      assert Fits(ms, i + 2) == Fits(rest, i);
      if Fits(rest, i) {
        MisfitAfterPair(a, rest, i + 1);
      }
    }
  }

  /** A closed section in front changes no verdict. */
  lemma VerdictAfterPair(a: Marker, rest: seq<Marker>)
    requires a.Open?
    ensures Verdict([a, End] + rest) == Verdict(rest)
  {
    var ms := [a, End] + rest;
    MisfitAfterPair(a, rest, 0);
    assert Fits(ms, 0) && Fits(ms, 1);
    assert FirstMisfit(ms, 0) == FirstMisfit(ms, 1) == FirstMisfit(ms, 2);
    var k := FirstMisfit(rest, 0);
    assert k < |rest| ==> ms[k + 2] == rest[k];
    if k == 0 {
      assert k < |rest| ==> !rest[k].Open?;
    } else {
      assert ms[k + 1] == rest[k - 1];
    }
  }

  lemma VerdictOnNested(a: Marker, b: Marker, rest: seq<Marker>)
    requires a.Open? && b.Open?
    ensures Verdict([a, b] + rest) == Some(OpenedInside(b.name, a.name))
  {
    var ms := [a, b] + rest;
    assert ms[0] == a && ms[1] == b && Fits(ms, 0) && FirstMisfit(ms, 0) == FirstMisfit(ms, 1) == 1;
  }

  lemma VerdictOnStray(rest: seq<Marker>)
    ensures Verdict([End] + rest) == Some(StrayEnd)
  {
    assert FirstMisfit([End] + rest, 0) == 0;
  }

  /** One line moves the markers it has consumed into the pending section, or is the error. */
  lemma TakeObeys(m: Marker, line: string, current: Option<Current>, out: map<string, Section>, rest: seq<Marker>)
    ensures var verdict := Verdict(Pending(current) + (if m.Plain? then [] else [m]) + rest);
            match Take(m, line, current, out)
            case Stopped(error) => verdict == Some(error)
            case Going(current', _) => verdict == Verdict(Pending(current') + rest)
  {
    var pending := Pending(current);
    match m
    case Plain =>
      assert pending + [] + rest == pending + rest;
    case Open(_, _) =>
      if current.Some? {
        assert pending + [m] + rest == [pending[0], m] + rest;
        VerdictOnNested(pending[0], m, rest);
      } else {
        assert pending + [m] + rest == [m] + rest;
      }
    case End =>
      assert Pending(None) + rest == rest;
      if current.Some? {
        assert pending + [m] + rest == [pending[0], End] + rest;
        VerdictAfterPair(pending[0], rest);
      } else {
        assert pending + [m] + rest == [End] + rest;
        VerdictOnStray(rest);
      }
  }

  lemma MarkersSplit(pending: seq<Marker>, lines: seq<string>)
    requires lines != []
    ensures pending + Markers(lines)
         == pending + (if MarkerOf(lines[0]).Plain? then [] else [MarkerOf(lines[0])]) + Markers(lines[1..])
  {
    var m, rest := MarkerOf(lines[0]), Markers(lines[1..]);
    var here := if m.Plain? then [] else [m];
    assert Markers(lines) == here + rest;
  }

  lemma {:induction false} ScanObeys(lines: seq<string>, current: Option<Current>, out: map<string, Section>)
    ensures Obeys(Scan(lines, current, out), Verdict(Pending(current) + Markers(lines)))
    decreases |lines|
  {
    if lines == [] {
      assert Pending(current) + Markers(lines) == Pending(current);
      assert current.Some? ==> Fits(Pending(current), 0);
    } else {
      var m := MarkerOf(lines[0]);
      MarkersSplit(Pending(current), lines);
      TakeObeys(m, lines[0], current, out, Markers(lines[1..]));
      match Take(m, lines[0], current, out)
      case Stopped(_) =>
      case Going(current', out') => ScanObeys(lines[1..], current', out');
    }
  }

  /**
   * A file is rejected exactly when its markers do not alternate between opening and
   * end; the error names the first marker out of place, or the section left open.
   */
  lemma RejectedExactlyWhen(sql: string)
    ensures var ms := Markers(Split(sql, NEWLINE));
            var r := Scan(Split(sql, NEWLINE), None, map[]);
            && Obeys(r, Verdict(ms))
            && (r.Ok? <==> |ms| % 2 == 0 && forall i :: 0 <= i < |ms| ==> Fits(ms, i))
  {
    ScanObeys(Split(sql, NEWLINE), None, map[]);
    assert Pending(None) + Markers(Split(sql, NEWLINE)) == Markers(Split(sql, NEWLINE));
  }

  // ---- printing ----

  predicate IsName(s: string) {
    s != "" && forall i | 0 <= i < |s| :: IsNameChar(s[i])
  }

  /** The names a header can carry: the marker pattern turns away anything starting with END. */
  predicate LegalName(s: string) {
    IsName(s) && !("END" <= s)
  }

  predicate LegalNeeds(needs: seq<string>) {
    forall i | 0 <= i < |needs| :: IsName(needs[i])
  }

  function NeedsPart(needs: seq<string>): string {
    if needs == [] then "" else " " + NEEDS + Join(needs, COMMA)
  }

  function Header(name: string, needs: seq<string>): string {
    MARK + name + NeedsPart(needs)
  }

  lemma NameCharIsNotSpace(c: char)
    requires IsNeedsChar(c)
    ensures !IsSpace(c)
  {
  }

  lemma {:induction false} RunOfName(name: string, tail: string)
    requires forall i :: 0 <= i < |name| ==> IsNameChar(name[i])
    requires tail != "" ==> !IsNameChar(tail[0])
    ensures NameRun(name + tail) == |name|
  {
    if name != "" {
      assert (name + tail)[1..] == name[1..] + tail;
      RunOfName(name[1..], tail);
    } else {
      assert name + tail == tail;
    }
  }

  lemma {:induction false} JoinedNeeds(needs: seq<string>)
    requires needs != [] && LegalNeeds(needs)
    ensures var v := Join(needs, COMMA);
            && v != "" && (forall i :: 0 <= i < |v| ==> IsNeedsChar(v[i]))
            && NonEmpty(Split(v, COMMA)) == needs
  {
    NeedsChars(needs);
    forall p | p in needs ensures COMMA !in p {
      var i :| 0 <= i < |needs| && needs[i] == p;
      assert forall j :: 0 <= j < |p| ==> IsNameChar(p[j]);
    }
    SplitJoin(needs, COMMA);
    KeepNonEmpty(needs);
  }

  lemma {:induction false} NeedsChars(needs: seq<string>)
    requires needs != [] && LegalNeeds(needs)
    ensures var v := Join(needs, COMMA); v != "" && forall i :: 0 <= i < |v| ==> IsNeedsChar(v[i])
  {
    assert IsName(needs[0]);
    if |needs| <= 1 {
    } else {
      NeedsChars(needs[1..]);
    }
  }

  lemma {:induction false} KeepNonEmpty(parts: seq<string>)
    requires forall i :: 0 <= i < |parts| ==> parts[i] != ""
    ensures NonEmpty(parts) == parts
  {
    if parts == [] {
    } else {
      KeepNonEmpty(parts[1..]);
    }
  }

  lemma HeaderIsTrimmed(name: string, needs: seq<string>)
    requires LegalNeeds(needs) && (name == "" || !IsSpace(name[|name| - 1]))
    ensures Trim(Header(name, needs)) == Header(name, needs)
  {
    var h := Header(name, needs);
    assert h[0] == '-';
    if needs != [] {
      JoinedNeeds(needs);
      var v := Join(needs, COMMA);
      assert h[|h| - 1] == v[|v| - 1];
      NameCharIsNotSpace(v[|v| - 1]);
    } else if name != "" {
      assert h[|h| - 1] == name[|name| - 1];
    } else {
      assert h[|h| - 1] == '#';
    }
  }

  lemma NoEndPrefix(name: string, tail: string)
    requires LegalName(name) && (tail == "" || tail[0] == ' ')
    ensures !("END" <= name + tail)
  {
    if |name| >= 3 {
      assert (name + tail)[..3] == name[..3];
    } else if tail != "" {
      assert (name + tail)[|name|] == ' ';
    }
  }

  lemma NeedsPartShape(needs: seq<string>)
    requires needs != []
    ensures NeedsPart(needs) == " " + (NEEDS + Join(needs, COMMA))
    ensures TrimStart(NeedsPart(needs)) == NEEDS + Join(needs, COMMA)
  {
    var tail, value := NeedsPart(needs), NEEDS + Join(needs, COMMA);
    assert tail == " " + value && tail[1..] == value;
    assert value[0] == 'n' && TrimStart(value) == value;
  }

  lemma NeedsPartReads(needs: seq<string>)
    requires needs != [] && LegalNeeds(needs)
    ensures var tail := NeedsPart(needs);
            var value := TrimStart(tail);
            && tail[0] == ' ' && |value| == |tail| - 1 && NEEDS <= value && |value| > |NEEDS|
            && (forall i :: |NEEDS| <= i < |value| ==> IsNeedsChar(value[i]))
            && NonEmpty(Split(value[|NEEDS|..], COMMA)) == needs
  {
    JoinedNeeds(needs);
    NeedsPartShape(needs);
    var v := Join(needs, COMMA);
    var value := NEEDS + v;
    assert value[|NEEDS|..] == v;
    forall i | |NEEDS| <= i < |value| ensures IsNeedsChar(value[i]) {
      assert value[i] == v[i - |NEEDS|];
    }
  }

  lemma LegalHeaderParses(name: string, needs: seq<string>)
    requires LegalName(name) && LegalNeeds(needs)
    ensures ParseOpen(Header(name, needs)) == Open(name, needs)
  {
    var tail := NeedsPart(needs);
    var rest := name + tail;
    assert MARK + name + tail == MARK + rest && (MARK + rest)[|MARK|..] == rest;
    if needs != [] {
      NeedsPartReads(needs);
    }
    NoEndPrefix(name, tail);
    RunOfName(name, tail);
    assert rest[..|name|] == name && rest[|name|..] == tail;
  }

  lemma LegalHeaderOpens(name: string, needs: seq<string>)
    requires LegalName(name) && LegalNeeds(needs)
    ensures MarkerOf(Header(name, needs)) == Open(name, needs)
  {
    NameCharIsNotSpace(name[|name| - 1]);
    HeaderIsTrimmed(name, needs);
    LegalHeaderParses(name, needs);
  }

  /** Every section the reader opens has a legal name. */
  lemma OpenedIsLegal(line: string)
    requires MarkerOf(line).Open?
    ensures LegalName(MarkerOf(line).name)
  {
    var rest := Trim(line)[|MARK|..];
    var n := NameRun(rest);
    assert "END" <= rest[..n] ==> "END" <= rest;
  }

  /** A header is read back as its own name and needs exactly when the name is legal. */
  lemma HeaderRecognised(name: string, needs: seq<string>)
    requires LegalNeeds(needs)
    ensures MarkerOf(Header(name, needs)) == Open(name, needs) <==> LegalName(name)
  {
    if LegalName(name) {
      LegalHeaderOpens(name, needs);
    } else if MarkerOf(Header(name, needs)) == Open(name, needs) {
      OpenedIsLegal(Header(name, needs));
    }
  }

  /** A section preceded by lines the reader ignores. */
  datatype Item = Item(gap: seq<string>, section: Section)

  function ItemLines(item: Item): seq<string> {
    item.gap + [Header(item.section.name, item.section.needs)]
      + Split(item.section.body, NEWLINE) + [END_MARK]
  }

  function DocumentLines(items: seq<Item>, trailer: seq<string>): seq<string> {
    if items == [] then trailer else ItemLines(items[0]) + DocumentLines(items[1..], trailer)
  }

  /** The text of a document: sections with arbitrary unmarked lines before, between and after. */
  function Print(items: seq<Item>, trailer: seq<string>): string {
    Join(DocumentLines(items, trailer), NEWLINE)
  }

  ghost predicate Unmarked(lines: seq<string>) {
    forall i :: 0 <= i < |lines| ==> MarkerOf(lines[i]).Plain? && NEWLINE !in lines[i]
  }

  ghost predicate Printable(items: seq<Item>, trailer: seq<string>) {
    && (forall i :: 0 <= i < |items| ==>
          && Unmarked(items[i].gap) && Unmarked(Split(items[i].section.body, NEWLINE))
          && LegalName(items[i].section.name) && LegalNeeds(items[i].section.needs))
    && Unmarked(trailer)
  }

  /** The sections by name; a later section of the same name replaces an earlier one. */
  function Stored(items: seq<Item>, out: map<string, Section>): map<string, Section> {
    if items == [] then out else Stored(items[1..], out[items[0].section.name := items[0].section])
  }

  lemma {:induction false} ScanOutside(lines: seq<string>, rest: seq<string>, out: map<string, Section>)
    requires Unmarked(lines)
    ensures Scan(lines + rest, None, out) == Scan(rest, None, out)
  {
    if lines == [] {
      assert lines + rest == rest;
    } else {
      assert (lines + rest)[1..] == lines[1..] + rest;
      ScanOutside(lines[1..], rest, out);
    }
  }

  lemma {:induction false} ScanInside(lines: seq<string>, rest: seq<string>, c: Current, out: map<string, Section>)
    requires Unmarked(lines)
    ensures Scan(lines + rest, Some(c), out) == Scan(rest, Some(c.(lines := c.lines + lines)), out)
    decreases |lines|
  {
    if lines == [] {
      assert lines + rest == rest && c.lines + lines == c.lines;
    } else {
      assert (lines + rest)[1..] == lines[1..] + rest;
      assert c.lines + [lines[0]] + lines[1..] == c.lines + lines;
      ScanInside(lines[1..], rest, c.(lines := c.lines + [lines[0]]), out);
    }
  }

  lemma EndMarkEnds()
    ensures MarkerOf(END_MARK) == End
  {
    assert END_MARK[0] == '-' && END_MARK[|END_MARK| - 1] == 'D';
    assert TrimStart(END_MARK) == END_MARK && TrimEnd(END_MARK) == END_MARK;
    assert END_MARK[|MARK|..] == "END";
  }

  lemma ScanHeader(header: string, name: string, needs: seq<string>, rest: seq<string>, out: map<string, Section>)
    requires MarkerOf(header) == Open(name, needs)
    ensures Scan([header] + rest, None, out) == Scan(rest, Some(Current(name, needs, [])), out)
  {
    assert ([header] + rest)[1..] == rest;
  }

  lemma ScanEnd(line: string, rest: seq<string>, c: Current, out: map<string, Section>)
    requires MarkerOf(line) == End
    ensures Scan([line] + rest, Some(c), out)
         == Scan(rest, None, out[c.name := Section(c.name, c.needs, Join(c.lines, NEWLINE))])
  {
    assert ([line] + rest)[1..] == rest;
  }

  lemma ScanItem(item: Item, rest: seq<string>, out: map<string, Section>)
    requires Unmarked(item.gap) && Unmarked(Split(item.section.body, NEWLINE))
    requires LegalName(item.section.name) && LegalNeeds(item.section.needs)
    ensures Scan(ItemLines(item) + rest, None, out) == Scan(rest, None, out[item.section.name := item.section])
  {
    var s := item.section;
    var header, body, end := Header(s.name, s.needs), Split(s.body, NEWLINE), END_MARK;
    assert ItemLines(item) + rest == item.gap + ([header] + (body + ([end] + rest)));
    ScanOutside(item.gap, [header] + (body + ([end] + rest)), out);
    LegalHeaderOpens(s.name, s.needs);
    ScanHeader(header, s.name, s.needs, body + ([end] + rest), out);
    ScanInside(body, [end] + rest, Current(s.name, s.needs, []), out);
    assert [] + body == body;
    EndMarkEnds();
    ScanEnd(end, rest, Current(s.name, s.needs, body), out);
    JoinSplit(s.body, NEWLINE);
  }

  lemma {:induction false} ScanDocument(items: seq<Item>, trailer: seq<string>, out: map<string, Section>)
    requires Printable(items, trailer)
    ensures Scan(DocumentLines(items, trailer), None, out) == Ok(Stored(items, out))
    decreases |items|
  {
    if items == [] {
      ScanOutside(trailer, [], out);
      assert trailer + [] == trailer;
    } else {
      ScanItem(items[0], DocumentLines(items[1..], trailer), out);
      ScanDocument(items[1..], trailer, out[items[0].section.name := items[0].section]);
    }
  }

  lemma NoNewlineInHeader(name: string, needs: seq<string>)
    requires LegalName(name) && LegalNeeds(needs)
    ensures NEWLINE !in Header(name, needs)
  {
    if needs != [] {
      JoinedNeeds(needs);
    }
  }

  ghost predicate SingleLines(lines: seq<string>) {
    forall l :: l in lines ==> NEWLINE !in l
  }

  lemma ItemIsSingleLines(item: Item)
    requires Unmarked(item.gap) && LegalName(item.section.name) && LegalNeeds(item.section.needs)
    ensures SingleLines(ItemLines(item))
  {
    NoNewlineInHeader(item.section.name, item.section.needs);
    var header, body := Header(item.section.name, item.section.needs), Split(item.section.body, NEWLINE);
    forall l | l in ItemLines(item) ensures NEWLINE !in l {
      assert l in item.gap || l == header || l in body || l == END_MARK;
    }
  }

  lemma {:induction false} DocumentIsSingleLines(items: seq<Item>, trailer: seq<string>)
    requires Printable(items, trailer)
    ensures SingleLines(DocumentLines(items, trailer))
  {
    if items == [] {
    } else {
      ItemIsSingleLines(items[0]);
      DocumentIsSingleLines(items[1..], trailer);
      forall l | l in DocumentLines(items, trailer) ensures NEWLINE !in l {
        assert l in ItemLines(items[0]) || l in DocumentLines(items[1..], trailer);
      }
    }
  }

  /** Reading what was printed gives every section back: name, needs and body, the last one of each name. */
  lemma ReadsBackWhatWasPrinted(items: seq<Item>, trailer: seq<string>)
    requires Printable(items, trailer)
    ensures Scan(Split(Print(items, trailer), NEWLINE), None, map[]) == Ok(Stored(items, map[]))
  {
    var lines := DocumentLines(items, trailer);
    ScanDocument(items, trailer, map[]);
    if lines == [] {
      assert items == [];
      assert Split("", NEWLINE) == [""] && MarkerOf("") == Plain;
    } else {
      DocumentIsSingleLines(items, trailer);
      SplitJoin(lines, NEWLINE);
    }
  }

  /** With distinct names nothing is replaced: exactly the printed sections are stored. */
  lemma {:induction false} DistinctNamesAllStored(items: seq<Item>, out: map<string, Section>)
    requires forall i, j :: 0 <= i < j < |items| ==> items[i].section.name != items[j].section.name
    requires forall i :: 0 <= i < |items| ==> items[i].section.name !in out
    ensures forall i :: 0 <= i < |items| ==>
      items[i].section.name in Stored(items, out) && Stored(items, out)[items[i].section.name] == items[i].section
    ensures forall n :: n in out ==> n in Stored(items, out) && Stored(items, out)[n] == out[n]
    ensures |Stored(items, out)| == |out| + |items|
    decreases |items|
  {
    if items == [] {
    } else {
      var s, rest := items[0].section, items[1..];
      DistinctNamesAllStored(rest, out[s.name := s]);
      assert forall i :: 0 < i < |items| ==> items[i] == rest[i - 1];
    }
  }

  // ---- stripping the terminator ----

  /** Where `--` starts a comment that runs to the end of the line without another line terminator. */
  predicate IsCommentStart(line: string, i: nat) {
    && i + 2 <= |line| && line[i] == '-' && line[i + 1] == '-'
    && forall j | i <= j < |line| ::
         line[j] != NEWLINE && line[j] != '\r' && line[j] as int != 0x2028 && line[j] as int != 0x2029
  }

  function CommentStart(line: string, i: nat): (k: nat)
    requires i <= |line|
    ensures i <= k <= |line|
    decreases |line| - i
  {
    if i == |line| || IsCommentStart(line, i) then i else CommentStart(line, i + 1)
  }

  /** The line without its comment and the white space before it. */
  function Code(line: string): (code: string)
    ensures code <= line
  {
    TrimEnd(line[..CommentStart(line, 0)])
  }

  predicate EndsWithSemicolon(s: string) {
    s != "" && s[|s| - 1] == ';'
  }

  function LastIndexOf(s: string, c: char): (k: int)
    ensures -1 <= k < |s| && (k >= 0 ==> s[k] == c) && (forall i :: k < i < |s| ==> s[i] != c)
  {
    if s == "" then -1 else if s[|s| - 1] == c then |s| - 1 else LastIndexOf(s[..|s| - 1], c)
  }

  function Without(s: string, k: nat): string
    requires k < |s|
  {
    s[..k] + s[k + 1..]
  }

  /** The index the code removes: the last semicolon of the whole line, comment included. */
  function TerminatorIndex(line: string): (at: nat)
    requires EndsWithSemicolon(Code(line))
    ensures |Code(line)| - 1 <= at < |line| && line[at] == ';'
  {
    assert line[|Code(line)| - 1] == ';';
    LastIndexOf(line, ';')
  }

  /** The lines after stripping: only the last line with code can change. */
  function Stripped(lines: seq<string>): seq<string> {
    if lines == [] then []
    else
      var last, above := lines[|lines| - 1], lines[..|lines| - 1];
      if Code(last) == "" then Stripped(above) + [last]
      else if EndsWithSemicolon(Code(last)) then above + [Without(last, TerminatorIndex(last))]
      else lines
  }

  lemma {:induction false} BlankTailStays(lines: seq<string>, i: nat)
    requires i < |lines| && forall j :: i < j < |lines| ==> Code(lines[j]) == ""
    requires Code(lines[i]) != ""
    ensures !EndsWithSemicolon(Code(lines[i])) ==> Stripped(lines) == lines
    ensures EndsWithSemicolon(Code(lines[i])) ==>
      Stripped(lines) == lines[i := Without(lines[i], TerminatorIndex(lines[i]))]
    decreases |lines|
  {
    var n := |lines| - 1;
    var above, last := lines[..n], lines[n];
    assert lines == above + [last];
    if i == n {
    } else {
      assert above[i] == lines[i];
      BlankTailStays(above, i);
      if EndsWithSemicolon(Code(lines[i])) {
        var x := Without(lines[i], TerminatorIndex(lines[i]));
        assert lines[i := x] == above[i := x] + [last];
      }
    }
  }

  lemma {:induction false} AllBlankStays(lines: seq<string>)
    requires forall j :: 0 <= j < |lines| ==> Code(lines[j]) == ""
    ensures Stripped(lines) == lines
  {
    if lines == [] {
    } else {
      AllBlankStays(lines[..|lines| - 1]);
    }
  }

  method StripTerminator(lines: array<string>)
    modifies lines
    ensures lines[..] == Stripped(old(lines[..]))
  {
    var i := lines.Length - 1;
    while i >= 0
      invariant -1 <= i < lines.Length
      invariant lines[..] == old(lines[..])
      invariant forall j :: i < j < lines.Length ==> Code(lines[j]) == ""
    {
      var code := Code(lines[i]);
      if code != "" {
        BlankTailStays(lines[..], i);
        if EndsWithSemicolon(code) {
          var at := TerminatorIndex(lines[i]);
          lines[i] := lines[i][..at] + lines[i][at + 1..];
        }
        return;
      }
      i := i - 1;
    }
    AllBlankStays(lines[..]);
  }

  /** Line `i` is the last one with any code on it. */
  ghost predicate IsLastCode(lines: seq<string>, i: nat) {
    i < |lines| && Code(lines[i]) != "" && forall j :: i < j < |lines| ==> Code(lines[j]) == ""
  }

  /** A line changes exactly when it is the last with code and that code ends in a semicolon. */
  lemma {:induction false} OnlyLastCodeChanges(lines: seq<string>, i: nat)
    requires i < |lines|
    ensures |Stripped(lines)| == |lines|
    ensures Stripped(lines)[i] != lines[i] <==> IsLastCode(lines, i) && EndsWithSemicolon(Code(lines[i]))
    ensures Stripped(lines)[i] != lines[i] ==> Stripped(lines)[i] == Without(lines[i], TerminatorIndex(lines[i]))
    decreases |lines|
  {
    var n := |lines| - 1;
    var above := lines[..n];
    if Code(lines[n]) == "" {
      if i < n {
        OnlyLastCodeChanges(above, i);
        assert IsLastCode(above, i) <==> IsLastCode(lines, i) by {
          assert forall j :: 0 <= j < n ==> above[j] == lines[j];
        }
      } else if above != [] {
        OnlyLastCodeChanges(above, 0);
      }
    } else if EndsWithSemicolon(Code(lines[n])) {
      assert |Without(lines[n], TerminatorIndex(lines[n]))| == |lines[n]| - 1;
    }
  }

  /** The terminator itself is what goes exactly when no semicolon follows the code on its line. */
  lemma TerminatorRemovedExactlyWhen(line: string)
    requires EndsWithSemicolon(Code(line))
    ensures TerminatorIndex(line) == |Code(line)| - 1 <==> ';' !in line[|Code(line)|..]
    ensures TerminatorIndex(line) == |Code(line)| - 1 ==>
      Without(line, TerminatorIndex(line)) == Code(line)[..|Code(line)| - 1] + line[|Code(line)|..]
  {
    var n, at := |Code(line)|, TerminatorIndex(line);
    if at >= n {
      assert line[n..][at - n] == ';';
    } else {
      assert forall i :: 0 <= i < |line[n..]| ==> line[n..][i] == line[n + i];
    }
  }
}
