/** The parse loop of the plugin's `run` command: it walks the mapped file
    line by line, keeps track of the open section, hands each line of an
    open section to that dialect's parser and writes every symbol found into
    the database as a name or a comment, counting what it does. The database
    is the host's; here it is an explicit value. */
module Loader {
  import opened Text
  import opened MapTypes
  import opened Sections
  import opened Segments
  import opened Parsers
  import opened Scanner

  /** `g_minLineLen`: the shortest line looked at, as in "xxxx:xxxxxxxx ". */
  const MIN_LINE_LEN: nat := 14

  /** The host's SREG_NUM, the segment number the record holds before each
      parse. */
  const SREG_NUM: U32 := 16

  /** The database as the loop finds it: which addresses hold a meaningful
      name (one neither dummy nor automatic) or a comment, and whether the
      host accepts a name (`true`) or comment (`false`) at an address. */
  datatype Host = Host(hasMeaningfulName: U32 -> bool, hasComment: U32 -> bool,
                       accepts: (U32, string, bool) -> bool)

  /** The options (`NAME_APPLY`, `REPLACE_EXISTING`), the segment table and
      the database. */
  datatype Config = Config(nameApply: bool, replace: bool, segs: SegmentTable, host: Host)

  /** The loop's variables between two lines: the open section, the number
      of section headers seen, the symbols applied and refused, and the names
      and comments written so far. */
  datatype Session = Session(section: SectionType, sections: nat, valid: nat, invalid: nat,
                             names: map<U32, string>, comments: map<U32, string>)

  const Init: Session := Session(NoSection, 0, 0, 0, map[], map[])

  /** The record as the loop resets it before each parse. */
  const Fresh: MapSymbol := MapSymbol(SREG_NUM, BADADDR, "")

  /** The DeDe prefixes, tested in this order: "<-" marks a function and
      forces a name, "*" a VCL control and "->" a VCL method, which force a
      comment. The prefix is dropped; any other name is kept, with the
      configured choice. */
  function DedePolicy(name: string, nameApply: bool): (r: (string, bool))
    ensures |r.0| <= |name| && name[..|name| - |r.0|] + r.0 == name
  {
    if |name| >= 2 && name[0] == '<' && name[1] == '-' then (name[2..], true)
    else if |name| >= 1 && name[0] == '*' then (name[1..], false)
    else if |name| >= 2 && name[0] == '-' && name[1] == '>' then (name[2..], false)
    else (name, nameApply)
  }

  /** `la`: the symbol's offset plus its segment's start, in 32 bits. */
  function LinearAddress(sym: MapSymbol, segs: SegmentTable): U32
    requires sym.seg < |segs|
  {
    (sym.addr + segs[sym.seg].startEa) % 0x1_0000_0000
  }

  /** The address has a meaningful name, counting the names written so far
      (an empty one removes the name). */
  predicate NameTaken(host: Host, names: map<U32, string>, la: U32) {
    if la in names then names[la] != [] else host.hasMeaningfulName(la)
  }

  predicate CommentTaken(host: Host, comments: map<U32, string>, la: U32) {
    if la in comments then comments[la] != [] else host.hasComment(la)
  }

  /** Writing one symbol: as a name unless it is taken and replacing is off,
      or as a comment on the same terms; a write the host accepts counts as
      applied, one it refuses as invalid. */
  function ApplySymbol(cfg: Config, st: Session, sym: MapSymbol): (r: Session)
    requires sym.seg < |cfg.segs|
    ensures r.section == st.section && r.sections == st.sections
    ensures var la := LinearAddress(sym, cfg.segs); var (pname, asName) := DedePolicy(sym.name, cfg.nameApply);
      || r == st
      || (r.invalid == st.invalid + 1 && r == st.(invalid := r.invalid))
      || (asName && r == st.(valid := st.valid + 1, names := st.names[la := pname]))
      || (!asName && r == st.(valid := st.valid + 1, comments := st.comments[la := pname]))
  {
    var la := LinearAddress(sym, cfg.segs);
    var (pname, asName) := DedePolicy(sym.name, cfg.nameApply);
    if asName then
      if cfg.replace || !NameTaken(cfg.host, st.names, la) then
        if cfg.host.accepts(la, pname, true) then st.(valid := st.valid + 1, names := st.names[la := pname])
        else st.(invalid := st.invalid + 1)
      else st
    else if cfg.replace || !CommentTaken(cfg.host, st.comments, la) then
      if cfg.host.accepts(la, pname, false) then st.(valid := st.valid + 1, comments := st.comments[la := pname])
      else st.(invalid := st.invalid + 1)
    else st
  }

  /** The `switch` on the section: the MSVC and both Borland tables go to
      the MSVC parser, Watcom and GNU-ld to their own, and with no section
      open the line is skipped. */
  function Dispatch(section: SectionType, line: string, segs: SegmentTable): (r: Parsed)
    requires NulFree(line)
    ensures section == NoSection ==> r == Parsed(SkipLine, Fresh)
    ensures r.result == CommentLine ==> r.sym.addr == BADADDR
    ensures r.result == SymbolLine ==> r.sym.seg < |segs| && NameFits(r.sym)
  {
    match section
    case NoSection => Parsed(SkipLine, Fresh)
    case MsvcMap => ParseMsSymbolLine(Fresh, line, MIN_LINE_LEN, |segs|)
    case BcclNamMap => ParseMsSymbolLine(Fresh, line, MIN_LINE_LEN, |segs|)
    case BcclValMap => ParseMsSymbolLine(Fresh, line, MIN_LINE_LEN, |segs|)
    case WatcomMap => ParseWatcomSymbolLine(Fresh, line, MIN_LINE_LEN, |segs|)
    case GccMap => ParseGccSymbolLine(Fresh, line, MIN_LINE_LEN, |segs|, segs)
  }

  /** What the loop does with a parsed line: a skipped line and a comment
      change nothing, the end of a table closes the section, an invalid line
      is counted and a symbol is written. A comment's address is still
      BADADDR (Dispatch's contract), so the loop's `continue` for such
      comments always applies. */
  function Outcome(cfg: Config, st: Session, p: Parsed): (r: Session)
    requires p.result == SymbolLine ==> p.sym.seg < |cfg.segs|
    ensures r.sections == st.sections && st.valid <= r.valid && st.invalid <= r.invalid
    ensures (r.valid - st.valid) + (r.invalid - st.invalid) <= 1
  {
    match p.result
    case SkipLine => st
    case FinishingLine => st.(section := NoSection)
    case InvalidLine => st.(invalid := st.invalid + 1)
    case CommentLine => st
    case SymbolLine => ApplySymbol(cfg, st, p.sym)
  }

  /** One pass of the loop body over one line: short lines are passed over;
      with no section open a header opens one and is counted, with one open
      an end marker closes it; any other line goes to the open section's
      parser. */
  function ProcessLine(cfg: Config, st: Session, line: string): (r: Session)
    requires NulFree(line)
    ensures st.sections <= r.sections && st.valid <= r.valid && st.invalid <= r.invalid
    ensures (r.sections - st.sections) + (r.valid - st.valid) + (r.invalid - st.invalid) <= 1
  {
    if |line| < MIN_LINE_LEN then st
    else
      var sec := if st.section == NoSection then RecognizeSectionStart(line)
                 else RecognizeSectionEnd(st.section, line);
      if st.section == NoSection && sec != NoSection then st.(section := sec, sections := st.sections + 1)
      else if st.section != NoSection && sec == NoSection then st.(section := NoSection)
      else Outcome(cfg, st.(section := sec), Dispatch(sec, line, cfg.segs))
  }

  function RunLines(cfg: Config, st: Session, lines: seq<string>): Session
    requires forall n :: 0 <= n < |lines| ==> NulFree(lines[n])
    decreases |lines|
  {
    if lines == [] then st else RunLines(cfg, ProcessLine(cfg, st, lines[0]), lines[1..])
  }

  /** The lines of at least MIN_LINE_LEN characters, in their order. */
  function LongLines(lines: seq<string>): (r: seq<string>)
    requires forall n :: 0 <= n < |lines| ==> NulFree(lines[n])
    ensures |r| <= |lines|
    ensures forall n :: 0 <= n < |r| ==> NulFree(r[n]) && |r[n]| >= MIN_LINE_LEN
    ensures (forall n :: 0 <= n < |lines| ==> |lines[n]| >= MIN_LINE_LEN) ==> r == lines
    decreases |lines|
  {
    if lines == [] then []
    else if |lines[0]| < MIN_LINE_LEN then LongLines(lines[1..])
    else [lines[0]] + LongLines(lines[1..])
  }

  /** The session after the whole buffer. */
  function Parse(cfg: Config, buf: string): Session
    requires NulFree(buf)
  {
    LinesNulFree(buf, 0);
    RunLines(cfg, Init, Lines(buf))
  }

  /** How `run` ends: no segment in the database, the file dialog cancelled,
      the file not opened, no section header found, or the file loaded. */
  datatype RunOutcome =
    | NoSegments
    | Cancelled
    | OpenFailed(error: MapResult)
    | NotAMapFile(session: Session)
    | Loaded(session: Session)

  /** `run`, given whether a file was picked, the result of opening it and
      its contents. */
  function Run(cfg: Config, picked: bool, openResult: MapResult, buf: string): (r: RunOutcome)
    requires openResult == OpenNoError ==> NulFree(buf)
    ensures r.OpenFailed? ==> r.error != OpenNoError
  {
    if |cfg.segs| == 0 then NoSegments
    else if !picked then Cancelled
    else if openResult != OpenNoError then OpenFailed(openResult)
    else
      var st := Parse(cfg, buf);
      if st.sections == 0 then NotAMapFile(st) else Loaded(st)
  }

  /** The value `run` returns: false when it gave up before parsing. */
  predicate RunReturns(r: RunOutcome) {
    r.NotAMapFile? || r.Loaded?
  }

  /** The DeDe step: strip a known prefix and choose name or comment. */
  method DedeStep(name: string, nameApply: bool) returns (pname: string, bNameApply: bool)
    ensures (pname, bNameApply) == DedePolicy(name, nameApply)
  {
    bNameApply := nameApply;
    var skip := 0;
    if |name| >= 2 && name[0] == '<' && name[1] == '-' {
      skip := 2;
      bNameApply := true;
    } else if |name| >= 1 && name[0] == '*' {
      skip := 1;
      bNameApply := false;
    } else if |name| >= 2 && name[0] == '-' && name[1] == '>' {
      skip := 2;
      bNameApply := false;
    }
    pname := name[skip..];
  }

  /** The DeDe step and the write of one symbol. */
  method WriteSymbol(cfg: Config, st: Session, sym: MapSymbol) returns (r: Session)
    requires sym.seg < |cfg.segs|
    ensures r == ApplySymbol(cfg, st, sym)
  {
    r := st;
    var la := LinearAddress(sym, cfg.segs);
    var pname, bNameApply := DedeStep(sym.name, cfg.nameApply);
    if bNameApply {
      if cfg.replace || !NameTaken(cfg.host, r.names, la) {
        if cfg.host.accepts(la, pname, true) {
          r := r.(names := r.names[la := pname], valid := r.valid + 1);
        } else {
          r := r.(invalid := r.invalid + 1);
        }
      }
    } else if cfg.replace || !CommentTaken(cfg.host, r.comments, la) {
      if cfg.host.accepts(la, pname, false) {
        r := r.(comments := r.comments[la := pname], valid := r.valid + 1);
      } else {
        r := r.(invalid := r.invalid + 1);
      }
    }
  }

  /** The loop body for one line of at least MIN_LINE_LEN characters: the
      section state machine, the parser and the outcome. */
  method HandleLine(cfg: Config, st: Session, line: string) returns (r: Session)
    requires NulFree(line) && |line| >= MIN_LINE_LEN
    ensures r == ProcessLine(cfg, st, line)
  {
    r := st;
    if r.section == NoSection {
      r := r.(section := RecognizeSectionStart(line));
      if r.section != NoSection {
        r := r.(sections := r.sections + 1);
        return;
      }
    } else {
      r := r.(section := RecognizeSectionEnd(r.section, line));
      if r.section == NoSection {
        return;
      }
    }
    var parsed := Dispatch(r.section, line, cfg.segs);
    r := HandleOutcome(cfg, r, parsed);
  }

  /** The `if` chain on the parse result. */
  method HandleOutcome(cfg: Config, st: Session, parsed: Parsed) returns (r: Session)
    requires parsed.result == SymbolLine ==> parsed.sym.seg < |cfg.segs|
    ensures r == Outcome(cfg, st, parsed)
  {
    r := st;
    if parsed.result == FinishingLine {
      r := r.(section := NoSection);
    } else if parsed.result == InvalidLine {
      r := r.(invalid := r.invalid + 1);
    } else if parsed.result == SymbolLine {
      r := WriteSymbol(cfg, r, parsed.sym);
    }
  }

  /** The loop of `run`, from the cursor setup to the end of the buffer. */
  method ParseMap(buf: string, cfg: Config) returns (st: Session)
    requires NulFree(buf)
    ensures st == Parse(cfg, buf)
  {
    st := Init;
    var pLine := 0;
    var pEol := 0;
    LinesNulFree(buf, 0);
    while pLine < |buf|
      invariant pLine <= pEol <= |buf|
      invariant pLine == |buf| ==> pEol == |buf|
      invariant forall n :: 0 <= n < |LinesFrom(buf, pEol)| ==> NulFree(LinesFrom(buf, pEol)[n])
      invariant RunLines(cfg, st, LinesFrom(buf, pEol)) == Parse(cfg, buf)
      decreases |buf| - pEol, |buf| - pLine
    {
      ghost var before := st;
      ghost var from := pEol;
      pLine := SkipSpaces(buf, pEol, |buf|);
      pEol := FindEol(buf, pLine, |buf|);
      SkipWhiteUnique(buf, from, pLine);
      LineEndUnique(buf, pLine, pEol);
      LinesNulFree(buf, pEol);
      var line := buf[pLine..pEol];
      if pEol - pLine >= MIN_LINE_LEN {
        st := HandleLine(cfg, st, line);
      }
      assert st == ProcessLine(cfg, before, line);
      if pLine < |buf| {
        assert LinesFrom(buf, from) == [line] + LinesFrom(buf, pEol);
        assert ([line] + LinesFrom(buf, pEol))[1..] == LinesFrom(buf, pEol);
      }
    }
  }
}
