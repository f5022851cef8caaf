/** What the parse loop promises over one line and over a whole file: the
    section state machine, the hand-over to the parsers, the DeDe prefixes,
    the preservation of meaningful names and comments when replacing is off,
    the bounds on the counters and the absence of any effect from a file
    with no section header. */
module LoaderProps {
  import opened Text
  import opened MapTypes
  import opened Sections
  import opened Segments
  import opened ScanFormat
  import opened Parsers
  import opened Scanner
  import opened Loader

  // ---------------------------------------------------------------------
  // One line

  /** With no section open, a header line opens its dialect and is counted;
      every other line changes nothing. */
  lemma NoSectionLine(cfg: Config, st: Session, line: string)
    requires NulFree(line) && st.section == NoSection
    ensures var r := ProcessLine(cfg, st, line); var h := RecognizeSectionStart(line);
      if |line| >= MIN_LINE_LEN && h != NoSection then r == st.(section := h, sections := st.sections + 1)
      else r == st
  {
  }

  /** A line shorter than MIN_LINE_LEN is skipped whatever the state: it
      opens, closes and counts nothing. */
  lemma ShortLineSkipped(cfg: Config, st: Session, line: string)
    requires NulFree(line) && |line| < MIN_LINE_LEN
    ensures ProcessLine(cfg, st, line) == st
  {
  }

  /** Over a whole run the short lines might as well not be there. */
  lemma {:induction false} ShortLinesIgnored(cfg: Config, st: Session, lines: seq<string>)
    requires forall n :: 0 <= n < |lines| ==> NulFree(lines[n])
    ensures RunLines(cfg, st, lines) == RunLines(cfg, st, LongLines(lines))
    decreases |lines|
  {
    if lines != [] {
      var rest := lines[1..];
      ShortLinesIgnored(cfg, ProcessLine(cfg, st, lines[0]), rest);
      if |lines[0]| < MIN_LINE_LEN {
        ShortLineSkipped(cfg, st, lines[0]);
        ShortLinesIgnored(cfg, st, rest);
      } else {
        var long := [lines[0]] + LongLines(rest);
        assert long[0] == lines[0] && long[1..] == LongLines(rest);
      }
    }
  }

  /** With a section open, a line starting with one of that dialect's end
      markers closes it and changes nothing else; any other line of at least
      MIN_LINE_LEN characters goes to the dialect's parser and the section
      stays open unless the parser ends the table. */
  lemma OpenSectionLine(cfg: Config, st: Session, line: string)
    requires NulFree(line) && st.section != NoSection && |line| >= MIN_LINE_LEN
    ensures var r := ProcessLine(cfg, st, line); var m := EndMarkers(st.section);
      var p := Dispatch(st.section, line, cfg.segs);
      && ((exists k :: 0 <= k < |m| && StartsWith(line, m[k])) ==> r == st.(section := NoSection))
      && (!(exists k :: 0 <= k < |m| && StartsWith(line, m[k])) ==> r == Outcome(cfg, st, p))
      && (r.section == NoSection || r.section == st.section)
  {
    EndIsMarkerMatch(st.section, line);
  }

  /** A skipped line and a comment leave the session as it was. */
  lemma OutcomeQuiet(cfg: Config, st: Session, p: Parsed)
    requires p.result == SkipLine || p.result == CommentLine
    ensures Outcome(cfg, st, p) == st
  {
  }

  /** In an MSVC or Borland table, a line that is neither an end marker, nor
      a comment, nor a line of the MSVC grammar ends the table; nothing is
      counted. */
  lemma MsvcTableEnds(cfg: Config, st: Session, line: string)
    requires NulFree(line) && |line| >= MIN_LINE_LEN
    requires st.section == MsvcMap || st.section == BcclNamMap || st.section == BcclValMap
    requires RecognizeSectionEnd(st.section, line) == st.section
    requires !StartsWith(line, ";")
    requires !exists t :: MsWellFormed(t) && MsText(t) == WorkingCopy(line, MIN_LINE_LEN)
    ensures ProcessLine(cfg, st, line) == st.(section := NoSection)
  {
    MsFinishing(Fresh, line, MIN_LINE_LEN, |cfg.segs|);
  }

  /** In an MSVC or Borland table, a line of the MSVC grammar whose 1-based
      segment exists and whose address is not all ones is written with the
      segment made 0-based; any other line of the grammar is counted as
      invalid. */
  lemma MsvcSymbolWritten(cfg: Config, st: Session, line: string, t: MsShape)
    requires NulFree(line) && |line| >= MIN_LINE_LEN
    requires st.section == MsvcMap || st.section == BcclNamMap || st.section == BcclValMap
    requires RecognizeSectionEnd(st.section, line) == st.section
    requires !StartsWith(line, ";")
    requires MsWellFormed(t) && MsText(t) == WorkingCopy(line, MIN_LINE_LEN)
    ensures var seg := HexValue(t.seg); var addr := HexValue(t.addr);
      var p := Dispatch(st.section, line, cfg.segs); var r := ProcessLine(cfg, st, line);
      && (p.result == SymbolLine <==> 1 <= seg <= |cfg.segs| && addr != ALL_ONES)
      && (p.result == SymbolLine ==>
            && p.sym.seg == seg - 1 && p.sym.addr == addr && p.sym.name == Take(t.name, MAXNAMELEN)
            && r == ApplySymbol(cfg, st, p.sym))
      && (p.result != SymbolLine ==> r == st.(invalid := st.invalid + 1))
  {
    OpenSectionLine(cfg, st, line);
    EndIsMarkerMatch(st.section, line);
    MsDecoded(Fresh, line, MIN_LINE_LEN, |cfg.segs|, t);
  }

  /** In a GNU-ld table, a symbol's linear address, rebuilt from its segment
      and offset, is the address written in the line. */
  lemma GccLinearRoundTrip(cfg: Config, line: string, t: GccShape)
    requires NulFree(line) && !StartsWith(line, ";")
    requires !GccSkipped(line) && !StartsWithNoCase(line, GCC_MEMMAP_LOAD)
    requires GccWellFormed(t) && GccText(t) == WorkingCopy(line, MIN_LINE_LEN)
    ensures var p := Dispatch(GccMap, line, cfg.segs);
      p.result == SymbolLine ==> LinearAddress(p.sym, cfg.segs) == HexValue(t.addr)
  {
    var p := Dispatch(GccMap, line, cfg.segs);
    assert p == ParseGccSymbolLine(Fresh, line, MIN_LINE_LEN, |cfg.segs|, cfg.segs);
    if p.result == SymbolLine {
      LinearAddressInSegment(p.sym, cfg.segs);
      GccDecoded(Fresh, line, MIN_LINE_LEN, |cfg.segs|, cfg.segs, t);
    }
  }

  /** An offset that stays within its segment rebuilds the linear address
      without wrapping. */
  lemma LinearAddressInSegment(sym: MapSymbol, segs: SegmentTable)
    requires sym.seg < |segs| && Contains(segs[sym.seg], segs[sym.seg].startEa + sym.addr)
    ensures LinearAddress(sym, segs) == segs[sym.seg].startEa + sym.addr
  {
  }

  /** The markers that begin with a blank, the MSVC " Exports" and the
      GNU-ld " ." and " *", never match a line the loop visits: every such
      line starts with a character that is not whitespace. */
  lemma BlankMarkersUnreachable(buf: string, n: nat)
    requires n < |Lines(buf)|
    ensures var line := Lines(buf)[n];
      && !StartsWith(line, MSVC_EXPORTS)
      && !StartsWithNoCase(line, GCC_MEMMAP_SKIP2) && !StartsWithNoCase(line, GCC_MEMMAP_SKIP4)
  {
    LinesWellFormed(buf, 0);
    var line := Lines(buf)[n];
    assert line[0] != ' ';
    FirstCharExcludes(line, MSVC_EXPORTS);
    FirstCharExcludes(line, GCC_MEMMAP_SKIP2);
    FirstCharExcludes(line, GCC_MEMMAP_SKIP4);
  }

  // ---------------------------------------------------------------------
  // DeDe names

  /** Each DeDe prefix is dropped and decides between name and comment. */
  lemma DedeRoundTrip(name: string, nameApply: bool)
    ensures DedePolicy("<-" + name, nameApply) == (name, true)
    ensures DedePolicy("*" + name, nameApply) == (name, false)
    ensures DedePolicy("->" + name, nameApply) == (name, false)
  {
    assert ("<-" + name)[2..] == name;
    assert ("*" + name)[1..] == name;
    assert ("->" + name)[2..] == name;
  }

  /** Every other name is kept whole, with the configured choice. */
  lemma DedeOther(name: string, nameApply: bool)
    requires !StartsWith(name, "<-") && !StartsWith(name, "*") && !StartsWith(name, "->")
    ensures DedePolicy(name, nameApply) == (name, nameApply)
  {
    if |name| >= 2 {
      assert name[..2] == [name[0], name[1]];
    }
    if |name| >= 1 {
      assert name[..1] == [name[0]];
    }
  }

  /** Conversely, the result is one of the four cases. */
  lemma DedeCases(name: string, nameApply: bool)
    ensures var (pname, asName) := DedePolicy(name, nameApply);
      || (name == "<-" + pname && asName)
      || (name == "*" + pname && !asName)
      || (name == "->" + pname && !asName)
      || (name == pname && asName == nameApply)
  {
    var (pname, asName) := DedePolicy(name, nameApply);
    if |name| >= 2 && name[0] == '<' && name[1] == '-' {
      assert name == "<-" + pname;
    } else if |name| >= 1 && name[0] == '*' {
      assert name == "*" + pname;
    } else if |name| >= 2 && name[0] == '-' && name[1] == '>' {
      assert name == "->" + pname;
    }
  }

  /** A DeDe function entry becomes a name even when names are off. */
  lemma DedeFunctionExample()
    ensures DedePolicy("<-TForm1.Button1Click", false) == ("TForm1.Button1Click", true)
  {
    assert "<-TForm1.Button1Click"[2..] == "TForm1.Button1Click";
  }

  // ---------------------------------------------------------------------
  // Names and comments already there

  /** Two maps agree at `la`. */
  predicate SameEntry(a: map<U32, string>, b: map<U32, string>, la: U32) {
    (la in a <==> la in b) && (la in a ==> a[la] == b[la])
  }

  /** With replacing off, writing a symbol never touches an address that
      already has a meaningful name, or one that already has a comment. */
  lemma ApplyKeeps(cfg: Config, st: Session, sym: MapSymbol, la: U32)
    requires sym.seg < |cfg.segs| && !cfg.replace
    ensures var r := ApplySymbol(cfg, st, sym);
      && (NameTaken(cfg.host, st.names, la) ==> SameEntry(st.names, r.names, la))
      && (CommentTaken(cfg.host, st.comments, la) ==> SameEntry(st.comments, r.comments, la))
  {
  }

  lemma {:induction false} ProcessKeeps(cfg: Config, st: Session, line: string, la: U32)
    requires NulFree(line) && !cfg.replace
    ensures var r := ProcessLine(cfg, st, line);
      && (NameTaken(cfg.host, st.names, la) ==> SameEntry(st.names, r.names, la))
      && (CommentTaken(cfg.host, st.comments, la) ==> SameEntry(st.comments, r.comments, la))
  {
    if |line| >= MIN_LINE_LEN {
      var sec := if st.section == NoSection then RecognizeSectionStart(line)
                 else RecognizeSectionEnd(st.section, line);
      var p := Dispatch(sec, line, cfg.segs);
      if p.result == SymbolLine {
        ApplyKeeps(cfg, st.(section := sec), p.sym, la);
      }
    }
  }

  /** Over any run of lines, with replacing off, a meaningful name and a
      comment present at the start are still there, unchanged, at the end;
      an address the host names and the loop never wrote stays unwritten. */
  lemma {:induction false} RunKeeps(cfg: Config, st: Session, lines: seq<string>, la: U32)
    requires forall n :: 0 <= n < |lines| ==> NulFree(lines[n])
    requires !cfg.replace
    ensures var r := RunLines(cfg, st, lines);
      && (NameTaken(cfg.host, st.names, la) ==> SameEntry(st.names, r.names, la))
      && (CommentTaken(cfg.host, st.comments, la) ==> SameEntry(st.comments, r.comments, la))
    decreases |lines|
  {
    if lines != [] {
      var next := ProcessLine(cfg, st, lines[0]);
      ProcessKeeps(cfg, st, lines[0], la);
      RunKeeps(cfg, next, lines[1..], la);
    }
  }

  /** For the whole file: with replacing off, no name the database holds as
      meaningful and no existing comment is ever written over. */
  lemma ParseKeepsExisting(cfg: Config, buf: string, la: U32)
    requires NulFree(buf) && !cfg.replace
    ensures var r := Parse(cfg, buf);
      && (cfg.host.hasMeaningfulName(la) ==> la !in r.names)
      && (cfg.host.hasComment(la) ==> la !in r.comments)
  {
    LinesNulFree(buf, 0);
    RunKeeps(cfg, Init, Lines(buf), la);
  }

  // ---------------------------------------------------------------------
  // Counters

  function Total(st: Session): nat {
    st.sections + st.valid + st.invalid
  }

  /** The counters never decrease, and each line adds at most one to their
      total. */
  lemma {:induction false} RunCounters(cfg: Config, st: Session, lines: seq<string>)
    requires forall n :: 0 <= n < |lines| ==> NulFree(lines[n])
    ensures var r := RunLines(cfg, st, lines);
      && st.sections <= r.sections && st.valid <= r.valid && st.invalid <= r.invalid
      && Total(r) <= Total(st) + |lines|
    decreases |lines|
  {
    if lines != [] {
      RunCounters(cfg, ProcessLine(cfg, st, lines[0]), lines[1..]);
    }
  }

  /** The three `unsigned long` counters cannot wrap: together they stay
      below the size of the buffer. */
  lemma ParseCountersBounded(cfg: Config, buf: string)
    requires NulFree(buf)
    ensures Total(Parse(cfg, buf)) <= |buf|
  {
    LinesNulFree(buf, 0);
    RunCounters(cfg, Init, Lines(buf));
    LinesCount(buf, 0);
  }

  /** With no section open and no header found, a run of lines changes
      nothing at all. */
  lemma {:induction false} RunWithoutHeader(cfg: Config, st: Session, lines: seq<string>)
    requires forall n :: 0 <= n < |lines| ==> NulFree(lines[n])
    requires st.section == NoSection
    requires RunLines(cfg, st, lines).sections == st.sections
    ensures RunLines(cfg, st, lines) == st
    decreases |lines|
  {
    if lines != [] {
      var next := ProcessLine(cfg, st, lines[0]);
      NoSectionLine(cfg, st, lines[0]);
      RunCounters(cfg, next, lines[1..]);
      RunWithoutHeader(cfg, next, lines[1..]);
    }
  }

  /** A file in which no section header is found writes no name and no
      comment and counts nothing. */
  lemma ParseWithoutHeader(cfg: Config, buf: string)
    requires NulFree(buf)
    requires Parse(cfg, buf).sections == 0
    ensures Parse(cfg, buf) == Init
  {
    LinesNulFree(buf, 0);
    RunWithoutHeader(cfg, Init, Lines(buf));
  }

  /** `run` reports a file it loaded only when a header was found, and a
      file it rejects as no MAP file has left the database as it was. */
  lemma RunReportsHonestly(cfg: Config, picked: bool, openResult: MapResult, buf: string)
    requires openResult == OpenNoError ==> NulFree(buf)
    ensures var r := Run(cfg, picked, openResult, buf);
      && (r.Loaded? ==> r.session.sections >= 1 && r.session == Parse(cfg, buf))
      && (r.NotAMapFile? ==> r.session == Init)
      && (RunReturns(r) <==> |cfg.segs| > 0 && picked && openResult == OpenNoError)
  {
    if |cfg.segs| > 0 && picked && openResult == OpenNoError && Parse(cfg, buf).sections == 0 {
      ParseWithoutHeader(cfg, buf);
    }
  }
}
