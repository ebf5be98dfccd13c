/** `sectionType` and `parseDotDesktop` in jakobmenu.c: a three-state scan of
    a `.desktop` file's logical lines that collects the fields of its
    `[Desktop Entry]` section and decides whether the file yields a menu
    entry. */
module DesktopEntry {
  import opened Wrappers
  import opened Text
  import opened LineReader
  import opened KeyValue
  import opened ExecBlanking
  import opened Seqs

  /** What `sectionType` reports for a line: no section header (0), the
      `[Desktop Entry]` header (1), or some other header (2). */
  datatype HeaderKind = NotHeader | EntryHeader | OtherHeader

  const EntryHeaderText := "[Desktop Entry]"

  /** After leading whitespace, a line starting with `[` is a header; it is
      the entry header when it starts with `[Desktop Entry]`, whatever
      follows. */
  function SectionType(line: string): (r: HeaderKind)
    ensures r == NotHeader <==> !StartsWith(TrimLeft(line), "[")
    ensures r == EntryHeader <==> StartsWith(TrimLeft(line), EntryHeaderText)
  {
    HeaderKindOf(TrimLeft(line))
  }

  /** The classification of a line whose leading whitespace is gone. */
  function HeaderKindOf(t: string): (r: HeaderKind)
    ensures r == NotHeader <==> !StartsWith(t, "[")
    ensures r == EntryHeader <==> StartsWith(t, EntryHeaderText)
  {
    StartsWithFirst(t, "[");
    StartsWithFirst(t, EntryHeaderText);
    if t == [] || t[0] != '[' then NotHeader
    else if StartsWith(t, EntryHeaderText) then EntryHeader
    else OtherHeader
  }

  /** A string starts with a nonempty prefix only if it starts with the
      prefix's first character. */
  lemma StartsWithFirst(t: string, prefix: string)
    requires prefix != []
    ensures StartsWith(t, prefix) ==> t != [] && t[0] == prefix[0]
    ensures StartsWith(t, [prefix[0]]) <==> t != [] && t[0] == prefix[0]
  {
    if StartsWith(t, prefix) {
      assert t[0] == t[..|prefix|][0];
    }
    if t != [] && t[0] == prefix[0] {
      assert t[..1] == [prefix[0]];
    }
  }

  /** `foundDesktopEntry`: before the entry section (0), inside it (1), and
      past it (2). */
  datatype Section = Seeking | InEntry | Done

  /** The `switch(sectionType(line))` of the read loop. */
  function NextSection(s: Section, kind: HeaderKind): (r: Section)
    ensures kind == NotHeader ==> r == s
    ensures kind == EntryHeader ==> r == InEntry
    ensures kind == OtherHeader ==> r == (if s == Seeking then Seeking else Done)
  {
    match kind
    case NotHeader => s
    case EntryHeader => InEntry
    case OtherHeader => if s == Seeking then s else Done
  }

  function Rank(s: Section): nat {
    match s
    case Seeking => 0
    case InEntry => 1
    case Done => 2
  }

  /** The section state never goes back. */
  lemma SectionMonotone(s: Section, kind: HeaderKind)
    requires s != Done
    ensures Rank(s) <= Rank(NextSection(s, kind))
  {
  }

  /** The values `parseDotDesktop` collects: the acceptance flag `isOk` and
      the captured strings (`None` for a NULL pointer). */
  datatype Fields = Fields(
    ok: bool,
    name: Option<string>,
    exec: Option<string>,
    icon: Option<string>,
    categories: Option<string>,
    path: Option<string>,
    terminal: bool)

  const NoFields := Fields(true, None, None, None, None, None, false)

  /** A key/value pair that turns the entry down. */
  predicate Rejects(p: Pair) {
    || (p.key == "Type" && p.value != "Application")
    || (p.key == "Hidden" && p.value == "true")
    || (p.key == "NoDisplay" && p.value == "true")
  }

  /** The key chain of the read loop: one pair applied to the fields. */
  function ApplyField(f: Fields, p: Pair): (r: Fields)
    ensures r.ok == (f.ok && !Rejects(p))
    ensures r.name == (if p.key == "Name" then Some(p.value) else f.name)
    ensures r.exec == (if p.key == "Exec" then Some(BlankPlaceholders(p.value)) else f.exec)
    ensures r.icon == (if p.key == "Icon" then Some(p.value) else f.icon)
    ensures r.categories == (if p.key == "Categories" then Some(p.value) else f.categories)
    ensures r.path == (if p.key == "Path" then Some(p.value) else f.path)
    ensures r.terminal == (if p.key == "Terminal" then p.value == "true" else f.terminal)
  {
    match p.key
    case "Type" => f.(ok := f.ok && p.value == "Application")
    case "Hidden" => f.(ok := f.ok && p.value != "true")
    case "NoDisplay" => f.(ok := f.ok && p.value != "true")
    case "Name" => f.(name := Some(p.value))
    case "Icon" => f.(icon := Some(p.value))
    case "Exec" => f.(exec := Some(BlankPlaceholders(p.value)))
    case "Categories" => f.(categories := Some(p.value))
    case "Path" => f.(path := Some(p.value))
    case "Terminal" => f.(terminal := p.value == "true")
    case _ => f
  }


  /** What the read loop extracts from one logical line: its header kind
      and its key/value pair, both taken from the text before any NUL. */
  datatype Parsed = Parsed(kind: HeaderKind, pair: Option<Pair>)

  function ParseLine(line: string): Parsed {
    var l := CStr(line);
    Parsed(SectionType(l), SplitByEquals(l))
  }

  function ParseLines(lines: seq<string>): (r: seq<Parsed>)
    ensures |r| == |lines|
    ensures forall i :: 0 <= i < |lines| ==> r[i] == ParseLine(lines[i])
  {
    Map(ParseLine, lines)
  }

  /** A line's pair applied to the fields, when it has one. */
  function ApplyLine(f: Fields, p: Parsed): Fields {
    match p.pair
    case None => f
    case Some(kv) => ApplyField(f, kv)
  }

  datatype ScanState = ScanState(section: Section, fields: Fields)

  const Start := ScanState(Seeking, NoFields)

  /** One iteration of `while(!feof(f) && foundDesktopEntry < 2)` after the
      line has been read: the section state moves first, and the line's
      pair counts only if the state is then "inside". */
  function Step(st: ScanState, p: Parsed): (r: ScanState)
    ensures r.section == NextSection(st.section, p.kind)
    ensures r.section != InEntry ==> r.fields == st.fields
    ensures r.section == InEntry && p.pair.Some? ==> r.fields == ApplyField(st.fields, p.pair.value)
    ensures p.pair.None? ==> r.fields == st.fields
  {
    var section := NextSection(st.section, p.kind);
    ScanState(section, if section == InEntry then ApplyLine(st.fields, p) else st.fields)
  }

  /** The read loop over a file's logical lines; it stops once past the
      entry section, and a scan that has found the section never loses it. */
  function Scan(st: ScanState, ps: seq<Parsed>): (r: ScanState)
    ensures st.section != Seeking ==> r.section != Seeking
    decreases |ps|
  {
    if ps == [] || st.section == Done then st
    else Scan(Step(st, ps[0]), ps[1..])
  }

  /** What an accepted file provides: the fields `new_item` receives. */
  datatype Entry = Entry(
    name: string,
    exec: string,
    icon: Option<string>,
    categories: Option<string>,
    path: Option<string>,
    terminal: bool)

  /** `isOk && Name && Exec`: presence is all that is checked, so an empty
      `Name=` or `Exec=` is accepted. */
  function Accept(f: Fields): (r: Option<Entry>)
    ensures r.Some? <==> f.ok && f.name.Some? && f.exec.Some?
    ensures r.Some? ==> r.value == Entry(f.name.value, f.exec.value, f.icon, f.categories, f.path, f.terminal)
  {
    if f.ok && f.name.Some? && f.exec.Some? then
      Some(Entry(f.name.value, f.exec.value, f.icon, f.categories, f.path, f.terminal))
    else None
  }

  /** `parseDotDesktop` up to the point where the item is built; `None`
      contents is a file that cannot be opened. */
  function ParseDesktop(contents: Option<string>): Option<Entry> {
    match contents
    case None => None
    case Some(text) => Accept(Scan(Start, ParseLines(Lines(text, false))).fields)
  }

  // An independent description of the entry section, by position.

  /** The index of the first line of the given kind. */
  function FirstOfKind(ps: seq<Parsed>, kind: HeaderKind): (r: Option<nat>)
    ensures r.None? <==> forall i :: 0 <= i < |ps| ==> ps[i].kind != kind
    ensures r.Some? ==> r.value < |ps| && ps[r.value].kind == kind
    ensures r.Some? ==> forall i :: 0 <= i < r.value ==> ps[i].kind != kind
  {
    FirstIndex(ps, (p: Parsed) => p.kind == kind)
  }

  /** The lines read inside the entry section: from the first
      `[Desktop Entry]` header up to, not including, the next other header;
      nothing when there is no such header. */
  function EntrySection(ps: seq<Parsed>): (r: seq<Parsed>)
    ensures r != [] ==> r[0].kind == EntryHeader
    ensures forall i :: 0 <= i < |r| ==> r[i].kind != OtherHeader
    ensures r == [] <==> forall i :: 0 <= i < |ps| ==> ps[i].kind != EntryHeader
  {
    match FirstOfKind(ps, EntryHeader)
    case None => []
    case Some(k) =>
      var after := ps[k + 1..];
      var end := match FirstOfKind(after, OtherHeader) case None => |after| case Some(e) => e;
      [ps[k]] + after[..end]
  }

  /** Every line of a run applied in order. */
  function ApplyAll(f: Fields, ps: seq<Parsed>): Fields
    decreases |ps|
  {
    if ps == [] then f else ApplyAll(ApplyLine(f, ps[0]), ps[1..])
  }

  lemma {:induction false} ScanSeeking(f: Fields, ps: seq<Parsed>)
    ensures Scan(ScanState(Seeking, f), ps).fields
            == match FirstOfKind(ps, EntryHeader)
               case None => f
               case Some(k) => Scan(Step(ScanState(Seeking, f), ps[k]), ps[k + 1..]).fields
    decreases |ps|
  {
    if ps != [] && ps[0].kind != EntryHeader {
      ScanSeeking(f, ps[1..]);
      match FirstOfKind(ps[1..], EntryHeader)
      case None =>
      case Some(k) =>
        assert ps[1..][k] == ps[k + 1];
        assert ps[1..][k + 1..] == ps[k + 2..];
    }
  }

  lemma {:induction false} ScanInEntry(f: Fields, ps: seq<Parsed>)
    ensures Scan(ScanState(InEntry, f), ps).fields
            == ApplyAll(f, match FirstOfKind(ps, OtherHeader) case None => ps case Some(e) => ps[..e])
    decreases |ps|
  {
    if ps != [] && ps[0].kind != OtherHeader {
      ScanInEntry(ApplyLine(f, ps[0]), ps[1..]);
      match FirstOfKind(ps[1..], OtherHeader)
      case None =>
      case Some(e) =>
        assert ps[..e + 1][1..] == ps[1..][..e];
    }
  }

  /** The state machine reads exactly the entry section: the fields it
      collects are those of the lines from the first `[Desktop Entry]`
      header to the next other header, and lines outside it have no
      effect. */
  lemma ScanReadsEntrySection(ps: seq<Parsed>)
    ensures Scan(Start, ps).fields == ApplyAll(NoFields, EntrySection(ps))
  {
    ScanSeeking(NoFields, ps);
    match FirstOfKind(ps, EntryHeader)
    case None =>
    case Some(k) =>
      var first := Step(Start, ps[k]);
      assert first == ScanState(InEntry, ApplyLine(NoFields, ps[k]));
      var after := ps[k + 1..];
      var rest := match FirstOfKind(after, OtherHeader) case None => after case Some(e) => after[..e];
      ScanInEntry(first.fields, after);
      var sec := EntrySection(ps);
      assert sec == [ps[k]] + rest;
      assert sec[1..] == rest;
  }

  /** A line whose pair turns the entry down. */
  predicate RejectsLine(p: Parsed) {
    p.pair.Some? && Rejects(p.pair.value)
  }

  /** A line whose pair sets the given key. */
  predicate SetsKey(p: Parsed, key: string) {
    p.pair.Some? && p.pair.value.key == key
  }

  /** `isOk` after a run of lines: no line turned the entry down. */
  lemma {:induction false} ApplyAllOk(f: Fields, ps: seq<Parsed>)
    ensures ApplyAll(f, ps).ok <==> f.ok && forall i :: 0 <= i < |ps| ==> !RejectsLine(ps[i])
    decreases |ps|
  {
    if ps != [] {
      ApplyAllOk(ApplyLine(f, ps[0]), ps[1..]);
      assert forall i :: 1 <= i < |ps| ==> ps[i] == ps[1..][i - 1];
    }
  }

  /** `Name` and `Exec` are set after a run of lines iff they were set
      before or some line of the run names the key. */
  lemma {:induction false} ApplyAllPresence(f: Fields, ps: seq<Parsed>)
    ensures ApplyAll(f, ps).name.Some? <==> f.name.Some? || exists i :: 0 <= i < |ps| && SetsKey(ps[i], "Name")
    ensures ApplyAll(f, ps).exec.Some? <==> f.exec.Some? || exists i :: 0 <= i < |ps| && SetsKey(ps[i], "Exec")
    decreases |ps|
  {
    if ps != [] {
      ApplyAllPresence(ApplyLine(f, ps[0]), ps[1..]);
      assert forall i :: 1 <= i < |ps| ==> ps[i] == ps[1..][i - 1];
      if exists i :: 0 <= i < |ps| && SetsKey(ps[i], "Name") {
        var i :| 0 <= i < |ps| && SetsKey(ps[i], "Name");
        if i > 0 { assert SetsKey(ps[1..][i - 1], "Name"); }
      }
      if exists i :: 0 <= i < |ps| && SetsKey(ps[i], "Exec") {
        var i :| 0 <= i < |ps| && SetsKey(ps[i], "Exec");
        if i > 0 { assert SetsKey(ps[1..][i - 1], "Exec"); }
      }
    }
  }

  /** A file yields an entry iff its entry section turns nothing down and
      sets both `Name` and `Exec`. */
  lemma ParseDesktopAccepts(text: string)
    ensures var sec := EntrySection(ParseLines(Lines(text, false)));
            ParseDesktop(Some(text)).Some?
            <==> && (forall i :: 0 <= i < |sec| ==> !RejectsLine(sec[i]))
                 && (exists i :: 0 <= i < |sec| && SetsKey(sec[i], "Name"))
                 && (exists i :: 0 <= i < |sec| && SetsKey(sec[i], "Exec"))
  {
    var ps := ParseLines(Lines(text, false));
    var sec := EntrySection(ps);
    ScanReadsEntrySection(ps);
    ApplyAllOk(NoFields, sec);
    ApplyAllPresence(NoFields, sec);
  }

  /** Line `i` is the last line of `ps` that sets `key`. */
  predicate LastSetter(ps: seq<Parsed>, key: string, i: int) {
    0 <= i < |ps| && SetsKey(ps[i], key) && forall j :: i < j < |ps| ==> !SetsKey(ps[j], key)
  }

  /** The value given by the last line of `ps` that sets `key`, if any. */
  function LastValue(ps: seq<Parsed>, key: string): (r: Option<string>)
    ensures r.None? <==> forall i :: 0 <= i < |ps| ==> !SetsKey(ps[i], key)
    ensures r.Some? ==> exists i :: LastSetter(ps, key, i) && ps[i].pair.value.value == r.value
    decreases |ps|
  {
    if ps == [] then None
    else if SetsKey(ps[|ps| - 1], key) then
      assert LastSetter(ps, key, |ps| - 1);
      Some(ps[|ps| - 1].pair.value.value)
    else
      LastSetterInit(ps, ps[..|ps| - 1], key);
      LastValue(ps[..|ps| - 1], key)
  }

  /** When the final line does not set `key`, the last setter of `ps` is
      that of the lines before it. */
  lemma LastSetterInit(ps: seq<Parsed>, init: seq<Parsed>, key: string)
    requires ps != [] && init == ps[..|ps| - 1] && !SetsKey(ps[|ps| - 1], key)
    ensures forall i :: LastSetter(init, key, i) ==> LastSetter(ps, key, i)
    ensures (forall i :: 0 <= i < |init| ==> !SetsKey(init[i], key))
            ==> forall i :: 0 <= i < |ps| ==> !SetsKey(ps[i], key)
  {
    assert forall i :: 0 <= i < |init| ==> init[i] == ps[i];
  }

  /** A field after a run of lines: the last value the run gives, or the
      value from before the run when it gives none. */
  function Latest(before: Option<string>, last: Option<string>): Option<string> {
    if last.Some? then last else before
  }

  /** An optional `Exec` value with its field codes blanked. */
  function Blanked(v: Option<string>): Option<string> {
    match v
    case None => None
    case Some(s) => Some(BlankPlaceholders(s))
  }

  /** The flag a `Terminal` value leaves, or `before` when there is none. */
  function TerminalAfter(before: bool, last: Option<string>): bool {
    match last
    case None => before
    case Some(v) => v == "true"
  }

  /** Every field of `r` holds the last value `ps` gives for its key
      (`Exec` blanked, `Terminal` compared with `true`), and the value of
      `f` where `ps` gives none. */
  predicate LastWins(f: Fields, ps: seq<Parsed>, r: Fields) {
    && r.name == Latest(f.name, LastValue(ps, "Name"))
    && r.exec == Latest(f.exec, Blanked(LastValue(ps, "Exec")))
    && r.icon == Latest(f.icon, LastValue(ps, "Icon"))
    && r.categories == Latest(f.categories, LastValue(ps, "Categories"))
    && r.path == Latest(f.path, LastValue(ps, "Path"))
    && r.terminal == TerminalAfter(f.terminal, LastValue(ps, "Terminal"))
  }

  /** Each key the read loop knows is overwritten by every line that sets
      it, so the last such line wins. */
  lemma {:induction false} ApplyAllLastWins(f: Fields, ps: seq<Parsed>)
    ensures LastWins(f, ps, ApplyAll(f, ps))
    decreases |ps|
  {
    if ps != [] {
      var init := ps[..|ps| - 1];
      var p := ps[|ps| - 1];
      assert ps == init + [p];
      ApplyAllLastWins(f, init);
      ApplyAllSnoc(f, init, p);
      LastWinsSnoc(f, init, p, ApplyAll(f, init));
    }
  }

  lemma {:induction false} ApplyAllSnoc(f: Fields, ps: seq<Parsed>, p: Parsed)
    ensures ApplyAll(f, ps + [p]) == ApplyLine(ApplyAll(f, ps), p)
    decreases |ps|
  {
    if ps == [] {
      assert ([] + [p])[1..] == [];
    } else {
      assert (ps + [p])[1..] == ps[1..] + [p];
      ApplyAllSnoc(ApplyLine(f, ps[0]), ps[1..], p);
    }
  }

  /** The inductive step of `ApplyAllLastWins`. */
  lemma LastWinsSnoc(f: Fields, init: seq<Parsed>, p: Parsed, g: Fields)
    requires LastWins(f, init, g)
    ensures LastWins(f, init + [p], ApplyLine(g, p))
  {
    ApplyLineSets(g, p);
    LastValueSnoc(init, p, "Name");
    LastValueSnoc(init, p, "Exec");
    LastValueSnoc(init, p, "Icon");
    LastValueSnoc(init, p, "Categories");
    LastValueSnoc(init, p, "Path");
    LastValueSnoc(init, p, "Terminal");
  }

  /** One line, stated through `SetsKey`. */
  lemma ApplyLineSets(g: Fields, p: Parsed)
    ensures ApplyLine(g, p).name == if SetsKey(p, "Name") then Some(p.pair.value.value) else g.name
    ensures ApplyLine(g, p).exec == if SetsKey(p, "Exec") then Some(BlankPlaceholders(p.pair.value.value)) else g.exec
    ensures ApplyLine(g, p).icon == if SetsKey(p, "Icon") then Some(p.pair.value.value) else g.icon
    ensures ApplyLine(g, p).categories == if SetsKey(p, "Categories") then Some(p.pair.value.value) else g.categories
    ensures ApplyLine(g, p).path == if SetsKey(p, "Path") then Some(p.pair.value.value) else g.path
    ensures ApplyLine(g, p).terminal == if SetsKey(p, "Terminal") then p.pair.value.value == "true" else g.terminal
  {
  }

  lemma LastValueSnoc(init: seq<Parsed>, p: Parsed, key: string)
    ensures LastValue(init + [p], key) == if SetsKey(p, key) then Some(p.pair.value.value) else LastValue(init, key)
  {
    assert (init + [p])[..|init|] == init;
  }

  /** The fields of `e` are the last values `sec` gives for their keys. */
  predicate HoldsLastValues(sec: seq<Parsed>, e: Entry) {
    && LastValue(sec, "Name") == Some(e.name)
    && Blanked(LastValue(sec, "Exec")) == Some(e.exec)
    && e.icon == LastValue(sec, "Icon")
    && e.categories == LastValue(sec, "Categories")
    && e.path == LastValue(sec, "Path")
    && e.terminal == (LastValue(sec, "Terminal") == Some("true"))
  }

  lemma AcceptHoldsLastValues(sec: seq<Parsed>)
    ensures Accept(ApplyAll(NoFields, sec)).Some?
            ==> HoldsLastValues(sec, Accept(ApplyAll(NoFields, sec)).value)
  {
    ApplyAllLastWins(NoFields, sec);
  }

  /** What an accepted entry holds: for each field, the value of the last
      line of the entry section that sets its key. */
  lemma ParseDesktopValues(text: string)
    ensures var sec := EntrySection(ParseLines(Lines(text, false)));
            var r := ParseDesktop(Some(text));
            r.Some? ==> && LastValue(sec, "Name") == Some(r.value.name)
                        && Blanked(LastValue(sec, "Exec")) == Some(r.value.exec)
                        && r.value.icon == LastValue(sec, "Icon")
                        && r.value.categories == LastValue(sec, "Categories")
                        && r.value.path == LastValue(sec, "Path")
                        && r.value.terminal == (LastValue(sec, "Terminal") == Some("true"))
  {
    var ps := ParseLines(Lines(text, false));
    var sec := EntrySection(ps);
    ScanReadsEntrySection(ps);
    assert ParseDesktop(Some(text)) == Accept(ApplyAll(NoFields, sec));
    AcceptHoldsLastValues(sec);
  }

  /** Once turned down, an entry stays turned down. */
  lemma RejectionSticky(f: Fields, ps: seq<Parsed>)
    requires !f.ok
    ensures !ApplyAll(f, ps).ok
  {
    ApplyAllOk(f, ps);
  }

  /** A file without a `[Desktop Entry]` header yields nothing. */
  lemma NoHeaderNoEntry(text: string)
    requires forall i :: 0 <= i < |ParseLines(Lines(text, false))| ==> ParseLines(Lines(text, false))[i].kind != EntryHeader
    ensures ParseDesktop(Some(text)) == None
  {
    ScanReadsEntrySection(ParseLines(Lines(text, false)));
  }

  /** The header test is a prefix match after leading whitespace: anything
      may follow `[Desktop Entry]` on the header line. */
  lemma HeaderIsPrefixMatch(w: string, tail: string)
    requires AllSpace(w)
    ensures SectionType(w + EntryHeaderText + tail) == EntryHeader
  {
    assert w + EntryHeaderText + tail == w + (EntryHeaderText + tail);
    TrimLeftPadded(w, EntryHeaderText + tail);
    assert (EntryHeaderText + tail)[..|EntryHeaderText|] == EntryHeaderText;
  }

  /** A line whose first non-blank character is `[` is a header. */
  lemma BracketIsHeader(w: string, rest: string)
    requires AllSpace(w) && '\0' !in w + "[" + rest
    ensures ParseLine(w + "[" + rest).kind != NotHeader
  {
    var l := w + "[" + rest;
    NoNulCStr(l);
    assert l == w + ("[" + rest);
    TrimLeftPadded(w, "[" + rest);
  }

  /** No pair, or one whose key starts with `[`: no field of the entry
      has such a key. */
  predicate BracketKeyOrNone(p: Option<Pair>) {
    p.None? || (p.value.key != [] && p.value.key[0] == '[')
  }

  /** A header line never sets a field: if it holds an `=` at all, the key
      before it starts with `[`. */
  lemma HeaderSetsNothing(line: string, lead: nat)
    requires lead < |line| && AllSpace(line[..lead]) && line[lead] == '['
    requires '\0' !in line
    ensures BracketKeyOrNone(ParseLine(line).pair)
  {
    NoNulCStr(line);
    var p := SplitByEquals(line);
    if p.Some? {
      var i :| SplitsAt(line, i, p.value);
      HeaderKeyAt(line, lead, i);
    }
  }

  lemma HeaderKeyAt(l: string, lead: nat, i: nat)
    requires lead < |l| && l[lead] == '[' && AllSpace(l[..lead])
    requires i < |l| && l[i] == '='
    ensures Trim(l[..i]) != [] && Trim(l[..i])[0] == '['
  {
    var x := l[lead..i];
    assert l[..i] == l[..lead] + x;
    TrimLeftPadded(l[..lead], x);
    var r := TrimRight(x);
    assert r[0] == x[0];
  }

  /** Only presence is checked: a file whose entry section sets an empty
      `Name` (and an `Exec`) yields an entry named "". */
  lemma EmptyNameAccepted(exec: string)
    requires Plain(exec, false) && Trimmed(exec) && '\0' !in exec
    ensures ParseDesktop(Some(EntryHeaderText + "\n" + "Name=" + "\n" + ("Exec=" + exec)))
            == Some(Entry("", BlankPlaceholders(exec), None, None, None, false))
  {
    EmptyNameParsed(exec);
    ScanEmptyName(exec);
  }

  lemma EmptyNameParsed(exec: string)
    requires Plain(exec, false) && Trimmed(exec) && '\0' !in exec
    ensures ParseLines(Lines(EntryHeaderText + "\n" + "Name=" + "\n" + ("Exec=" + exec), false))
            == [Parsed(EntryHeader, None), Parsed(NotHeader, Some(Pair("Name", ""))),
                Parsed(NotHeader, Some(Pair("Exec", exec)))]
  {
    EmptyNameLines(exec);
    LiteralKeys(exec);
    EntryHeaderPlain();
    ParseHeaderAndPairs(EntryHeaderText, "Name", "", "Exec", exec);
  }

  lemma EntryHeaderPlain()
    ensures StartsWith(EntryHeaderText, EntryHeaderText)
    ensures '=' !in EntryHeaderText && '\0' !in EntryHeaderText
  {
  }

  lemma LiteralKeys(exec: string)
    ensures KeyText("Name") && KeyText("Exec") && Trimmed("")
    ensures "Name" + "=" + "" == "Name="
    ensures "Exec" + "=" + exec == "Exec=" + exec
  {
  }

  lemma EmptyNameLines(exec: string)
    requires Plain(exec, false)
    ensures Lines(EntryHeaderText + "\n" + "Name=" + "\n" + ("Exec=" + exec), false)
            == [EntryHeaderText, "Name=", "Exec=" + exec]
  {
    ThreeLines(EntryHeaderText, "Name=", "Exec=" + exec);
  }

  lemma ThreeLines(x: string, y: string, z: string)
    requires Plain(x, false) && Plain(y, false) && Plain(z, false)
    ensures Lines(x + "\n" + y + "\n" + z, false) == [x, y, z]
  {
    assert Join([z], '\n') == z;
    assert Join([y, z], '\n') == y + "\n" + z;
    assert Join([x, y, z], '\n') == x + "\n" + (y + "\n" + z);
    assert x + "\n" + y + "\n" + z == x + "\n" + (y + "\n" + z);
    LinesOfJoin([x, y, z], false);
  }

  lemma ParseHeaderAndPairs(h: string, k1: string, v1: string, k2: string, v2: string)
    requires StartsWith(h, EntryHeaderText) && '=' !in h && '\0' !in h
    requires KeyText(k1) && Trimmed(v1) && '\0' !in v1
    requires KeyText(k2) && Trimmed(v2) && '\0' !in v2
    ensures ParseLines([h, k1 + "=" + v1, k2 + "=" + v2])
            == [Parsed(EntryHeader, None), Parsed(NotHeader, Some(Pair(k1, v1))),
                Parsed(NotHeader, Some(Pair(k2, v2)))]
  {
    MapThree(ParseLine, h, k1 + "=" + v1, k2 + "=" + v2);
    HeaderLine(h);
    KeyLine(k1, v1);
    KeyLine(k2, v2);
  }

  lemma ScanEmptyName(exec: string)
    ensures Scan(Start, [Parsed(EntryHeader, None), Parsed(NotHeader, Some(Pair("Name", ""))),
                         Parsed(NotHeader, Some(Pair("Exec", exec)))]).fields
            == NoFields.(name := Some(""), exec := Some(BlankPlaceholders(exec)))
  {
    var ps := [Parsed(EntryHeader, None), Parsed(NotHeader, Some(Pair("Name", ""))),
               Parsed(NotHeader, Some(Pair("Exec", exec)))];
    var s1 := Step(Start, ps[0]);
    var s2 := Step(s1, ps[1]);
    var s3 := Step(s2, ps[2]);
    assert ps[1..][1..][1..] == [];
    assert Scan(Start, ps) == Scan(s1, ps[1..]) == Scan(s2, ps[1..][1..]) == s3;
    assert s3.fields == NoFields.(name := Some(""), exec := Some(BlankPlaceholders(exec)));
  }

  lemma HeaderLine(h: string)
    requires StartsWith(h, EntryHeaderText) && '=' !in h && '\0' !in h
    ensures ParseLine(h) == Parsed(EntryHeader, None)
  {
    NoNulCStr(h);
    var tail := h[|EntryHeaderText|..];
    assert [] + EntryHeaderText + tail == h;
    HeaderIsPrefixMatch([], tail);
  }

  /** A key a line can start with: no header, no blank, no `=`, no NUL. */
  predicate KeyText(key: string) {
    key != [] && key[0] != '[' && Trimmed(key) && '=' !in key && '\0' !in key
  }

  /** `key=value` with a trimmed key that is no header, and a trimmed value. */
  lemma KeyLine(key: string, value: string)
    requires KeyText(key)
    requires Trimmed(value) && '\0' !in value
    ensures ParseLine(key + "=" + value) == Parsed(NotHeader, Some(Pair(key, value)))
  {
    var l := key + "=" + value;
    assert '\0' !in l;
    NoNulCStr(l);
    assert l == [] + key + [] + ['='] + [] + value + [];
    SplitOfPadded([], key, [], [], value, []);
    assert TrimLeft(l) == l;
  }
}
