/** The parse loop of the older plugin's `run`: the same walk over the
    lines, the same state machine and the same symbol writes as the newer
    loop, with the older reader's recognisers and parsers, no GNU-ld
    dialect, and an end-of-table line that leaves the section open: the
    statement meant to close it compares instead of assigning. */
module TrunkLoader {
  import opened Text
  import opened MapTypes
  import opened Sections
  import opened Segments
  import opened ScanFormat
  import opened Parsers
  import opened Scanner
  import opened TrunkReader
  import opened Loader

  /** The `switch` on the section: MSVC and both Borland tables go to the
      older MSVC parser, Watcom to the Watcom parser, and with no section
      open the line is skipped. */
  function TrunkDispatch(section: SectionType, line: string, segs: SegmentTable): (r: Parsed)
    requires NulFree(line) && !section.GccMap?
    ensures section == NoSection ==> r == Parsed(SkipLine, Fresh)
    ensures r.result == CommentLine ==> r.sym.addr == BADADDR
    ensures r.result == SymbolLine ==> r.sym.seg < |segs| && NameFits(r.sym)
  {
    match section
    case NoSection => Parsed(SkipLine, Fresh)
    case MsvcMap => TrunkParseMsSymbolLine(Fresh, line, MIN_LINE_LEN, |segs|)
    case BcclNamMap => TrunkParseMsSymbolLine(Fresh, line, MIN_LINE_LEN, |segs|)
    case BcclValMap => TrunkParseMsSymbolLine(Fresh, line, MIN_LINE_LEN, |segs|)
    case WatcomMap => ParseWatcomSymbolLine(Fresh, line, MIN_LINE_LEN, |segs|)
  }

  /** What the older loop does with a parsed line: as the newer one, except
      that the end of a table changes nothing. */
  function TrunkOutcome(cfg: Config, st: Session, p: Parsed): (r: Session)
    requires p.result == SymbolLine ==> p.sym.seg < |cfg.segs|
    ensures r.section == st.section && r.sections == st.sections
    ensures st.valid <= r.valid && st.invalid <= r.invalid
    ensures (r.valid - st.valid) + (r.invalid - st.invalid) <= 1
  {
    match p.result
    case SkipLine => st
    case FinishingLine => st
    case InvalidLine => st.(invalid := st.invalid + 1)
    case CommentLine => st
    case SymbolLine => ApplySymbol(cfg, st, p.sym)
  }

  /** One pass of the older loop body over one line. */
  function TrunkProcessLine(cfg: Config, st: Session, line: string): (r: Session)
    requires NulFree(line) && !st.section.GccMap?
    ensures !r.section.GccMap?
    ensures st.sections <= r.sections && st.valid <= r.valid && st.invalid <= r.invalid
    ensures (r.sections - st.sections) + (r.valid - st.valid) + (r.invalid - st.invalid) <= 1
  {
    if |line| < MIN_LINE_LEN then st
    else
      var sec := if st.section == NoSection then TrunkRecognizeSectionStart(line)
                 else TrunkRecognizeSectionEnd(st.section, line);
      if st.section == NoSection && sec != NoSection then st.(section := sec, sections := st.sections + 1)
      else if st.section != NoSection && sec == NoSection then st.(section := NoSection)
      else TrunkOutcome(cfg, st.(section := sec), TrunkDispatch(sec, line, cfg.segs))
  }

  function TrunkRunLines(cfg: Config, st: Session, lines: seq<string>): (r: Session)
    requires forall n :: 0 <= n < |lines| ==> NulFree(lines[n])
    requires !st.section.GccMap?
    ensures !r.section.GccMap?
    decreases |lines|
  {
    if lines == [] then st else TrunkRunLines(cfg, TrunkProcessLine(cfg, st, lines[0]), lines[1..])
  }

  /** The session after the whole buffer. */
  function TrunkParse(cfg: Config, buf: string): Session
    requires NulFree(buf)
  {
    LinesNulFree(buf, 0);
    TrunkRunLines(cfg, Init, Lines(buf))
  }

  /** The older loop body for one line of at least MIN_LINE_LEN characters. */
  method TrunkHandleLine(cfg: Config, st: Session, line: string) returns (r: Session)
    requires NulFree(line) && |line| >= MIN_LINE_LEN && !st.section.GccMap?
    ensures r == TrunkProcessLine(cfg, st, line)
  {
    r := st;
    if r.section == NoSection {
      r := r.(section := TrunkRecognizeSectionStart(line));
      if r.section != NoSection {
        r := r.(sections := r.sections + 1);
        return;
      }
    } else {
      r := r.(section := TrunkRecognizeSectionEnd(r.section, line));
      if r.section == NoSection {
        return;
      }
    }
    var parsed := TrunkDispatch(r.section, line, cfg.segs);
    r := TrunkHandleOutcome(cfg, r, parsed);
  }

  /** The `if` chain on the parse result; on FINISHING_LINE the statement
      `sectnHdr == NO_SECTION` has no effect. */
  method TrunkHandleOutcome(cfg: Config, st: Session, parsed: Parsed) returns (r: Session)
    requires parsed.result == SymbolLine ==> parsed.sym.seg < |cfg.segs|
    ensures r == TrunkOutcome(cfg, st, parsed)
  {
    r := st;
    if parsed.result == InvalidLine {
      r := r.(invalid := r.invalid + 1);
    } else if parsed.result == SymbolLine {
      r := WriteSymbol(cfg, r, parsed.sym);
    }
  }

  /** The older loop of `run`, from the cursor setup to the end of the
      buffer. */
  method TrunkParseMap(buf: string, cfg: Config) returns (st: Session)
    requires NulFree(buf)
    ensures st == TrunkParse(cfg, buf)
  {
    st := Init;
    var pLine := 0;
    var pEol := 0;
    LinesNulFree(buf, 0);
    while pLine < |buf|
      invariant pLine <= pEol <= |buf|
      invariant pLine == |buf| ==> pEol == |buf|
      invariant forall n :: 0 <= n < |LinesFrom(buf, pEol)| ==> NulFree(LinesFrom(buf, pEol)[n])
      invariant !st.section.GccMap?
      invariant TrunkRunLines(cfg, st, LinesFrom(buf, pEol)) == TrunkParse(cfg, buf)
      decreases |buf| - pEol, |buf| - pLine
    {
      ghost var before := st;
      ghost var from := pEol;
      pLine := SkipSpaces(buf, pEol, |buf|);
      pEol := FindEol(buf, pLine, |buf|);
      SkipWhiteUnique(buf, from, pLine);
      LineEndUnique(buf, pLine, pEol);
      LinesNulFree(buf, pEol);
      var line := buf[pLine..pEol];
      if pEol - pLine >= MIN_LINE_LEN {
        st := TrunkHandleLine(cfg, st, line);
      }
      assert st == TrunkProcessLine(cfg, before, line);
      if pLine < |buf| {
        assert LinesFrom(buf, from) == [line] + LinesFrom(buf, pEol);
        assert ([line] + LinesFrom(buf, pEol))[1..] == LinesFrom(buf, pEol);
      }
    }
  }

  // ---------------------------------------------------------------------
  // Properties

  /** In the older loop an open section is closed by one of the four end
      markers and by nothing else. */
  lemma TrunkSectionSticky(cfg: Config, st: Session, line: string)
    requires NulFree(line) && st.section != NoSection && !st.section.GccMap?
    ensures var r := TrunkProcessLine(cfg, st, line);
      r.section == NoSection || r.section == st.section
    ensures var r := TrunkProcessLine(cfg, st, line);
      r.section == NoSection <==>
        |line| >= MIN_LINE_LEN && exists k :: 0 <= k < |TrunkEndMarkers| && StartsWith(line, TrunkEndMarkers[k])
  {
    TrunkEndIsMarkerMatch(st.section, line);
  }

  /** In the older loop too, a line shorter than MIN_LINE_LEN is skipped
      whatever the state. */
  lemma TrunkShortLineSkipped(cfg: Config, st: Session, line: string)
    requires NulFree(line) && |line| < MIN_LINE_LEN && !st.section.GccMap?
    ensures TrunkProcessLine(cfg, st, line) == st
  {
  }

  /** Over a whole run of the older loop the short lines might as well not
      be there. */
  lemma {:induction false} TrunkShortLinesIgnored(cfg: Config, st: Session, lines: seq<string>)
    requires forall n :: 0 <= n < |lines| ==> NulFree(lines[n])
    requires !st.section.GccMap?
    ensures TrunkRunLines(cfg, st, lines) == TrunkRunLines(cfg, st, LongLines(lines))
    decreases |lines|
  {
    if lines != [] {
      var rest := lines[1..];
      TrunkShortLinesIgnored(cfg, TrunkProcessLine(cfg, st, lines[0]), rest);
      if |lines[0]| < MIN_LINE_LEN {
        TrunkShortLineSkipped(cfg, st, lines[0]);
        TrunkShortLinesIgnored(cfg, st, rest);
      } else {
        var long := [lines[0]] + LongLines(rest);
        assert long[0] == lines[0] && long[1..] == LongLines(rest);
      }
    }
  }

  /** The older loop counts at most one thing per line. */
  lemma {:induction false} TrunkRunCounters(cfg: Config, st: Session, lines: seq<string>)
    requires forall n :: 0 <= n < |lines| ==> NulFree(lines[n])
    requires !st.section.GccMap?
    ensures var r := TrunkRunLines(cfg, st, lines);
      && st.sections <= r.sections && st.valid <= r.valid && st.invalid <= r.invalid
      && r.sections + r.valid + r.invalid <= st.sections + st.valid + st.invalid + |lines|
    decreases |lines|
  {
    if lines != [] {
      TrunkRunCounters(cfg, TrunkProcessLine(cfg, st, lines[0]), lines[1..]);
    }
  }

  /** With no section open and no header found, the older loop changes
      nothing either. */
  lemma {:induction false} TrunkRunWithoutHeader(cfg: Config, st: Session, lines: seq<string>)
    requires forall n :: 0 <= n < |lines| ==> NulFree(lines[n])
    requires st.section == NoSection
    requires TrunkRunLines(cfg, st, lines).sections == st.sections
    ensures TrunkRunLines(cfg, st, lines) == st
    decreases |lines|
  {
    if lines != [] {
      var next := TrunkProcessLine(cfg, st, lines[0]);
      TrunkRunCounters(cfg, next, lines[1..]);
      TrunkRunWithoutHeader(cfg, next, lines[1..]);
    }
  }

  /** Its three counters together stay below the size of the buffer. */
  lemma TrunkParseCountersBounded(cfg: Config, buf: string)
    requires NulFree(buf)
    ensures var r := TrunkParse(cfg, buf); r.sections + r.valid + r.invalid <= |buf|
  {
    LinesNulFree(buf, 0);
    TrunkRunCounters(cfg, Init, Lines(buf));
    LinesCount(buf, 0);
  }

  /** A file in which the older reader finds no header is left without
      effect. */
  lemma TrunkParseWithoutHeader(cfg: Config, buf: string)
    requires NulFree(buf)
    requires TrunkParse(cfg, buf).sections == 0
    ensures TrunkParse(cfg, buf) == Init
  {
    LinesNulFree(buf, 0);
    TrunkRunWithoutHeader(cfg, Init, Lines(buf));
  }

  /** A line that starts with neither whitespace nor a hex digit is no line
      of the MSVC grammar. */
  lemma NotAnMsvcLine(d: string)
    requires d != [] && !IsSpace(d[0]) && !IsHexDigit(d[0])
    ensures ScanMs(d).None?
  {
    assert DropSpaces(d) == d;
    assert HexPrefixLen(d, 4) == 0;
  }

  /** "Static symbols", the heading MSVC writes after its publics table,
      ends the table in the newer loop; in the older loop the table stays
      open, so the static symbols that follow are parsed and written as if
      they were publics. */
  lemma TrunkFinishingKeepsTableOpen(cfg: Config, st: Session)
    requires st.section == MsvcMap
    ensures ProcessLine(cfg, st, "Static symbols") == st.(section := NoSection)
    ensures TrunkProcessLine(cfg, st, "Static symbols") == st
  {
    var line := "Static symbols";
    assert |line| == MIN_LINE_LEN && line[0] == 'S';
    var d := WorkingCopy(line, MIN_LINE_LEN);
    assert d == line;
    NotAnMsvcLine(d);
    FirstCharExcludes(line, MSVC_LINE_NUMBER);
    FirstCharExcludes(line, MSVC_FIXUP);
    FirstCharExcludes(line, MSVC_EXPORTS);
    FirstCharExcludes(line, WATCOM_END_TABLE_HDR);
    FirstCharExcludes(d, ";");
  }
}
