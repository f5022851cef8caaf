/** The three line parsers of the MAP reader. Each takes the symbol record it
    is to fill (`sym`, passed by reference in the reader) and one line, and
    gives the kind of line together with the record as the parser leaves it.
    The parsers work on a copy of the line cut to MAXNAMELEN + minLineLen
    characters. */
module Parsers {
  import opened Text
  import opened Wrappers
  import opened MapTypes
  import opened Sections
  import opened ScanFormat
  import opened Segments

  datatype Parsed = Parsed(result: ParseResult, sym: MapSymbol)

  /** `dupLine`: the working copy of the line. */
  function WorkingCopy(line: string, minLineLen: nat): string {
    Take(line, MAXNAMELEN + minLineLen)
  }

  /** A prefix no longer than the working copy's bound is seen in the copy
      exactly when it is in the line. */
  lemma CutKeepsPrefix(line: string, minLineLen: nat, p: string)
    requires |p| <= MAXNAMELEN + minLineLen
    ensures StartsWithNoCase(WorkingCopy(line, minLineLen), p) == StartsWithNoCase(line, p)
    ensures StartsWith(WorkingCopy(line, minLineLen), p) == StartsWith(line, p)
  {
    var d := WorkingCopy(line, minLineLen);
    if |p| <= |line| {
      assert d[..|p|] == line[..|p|];
    }
  }

  /** Text taken from position `k` of the working copy, at most `m`
      characters of it, is the same text taken from the line. */
  lemma CutKeepsText(line: string, minLineLen: nat, k: nat, m: nat)
    requires k <= |line| && k <= MAXNAMELEN + minLineLen
    ensures k <= |WorkingCopy(line, minLineLen)|
    ensures k + m <= MAXNAMELEN + minLineLen ==>
      Take(WorkingCopy(line, minLineLen)[k..], m) == Take(line[k..], m)
  {
    var d := WorkingCopy(line, minLineLen);
    if k + m <= MAXNAMELEN + minLineLen {
      if |line| <= MAXNAMELEN + minLineLen {
        assert d == line;
      } else {
        assert d == line[..MAXNAMELEN + minLineLen];
        assert |d[k..]| >= m && |line[k..]| >= m;
        assert d[k..][..m] == line[k..][..m];
      }
    }
  }

  /** `strncasecmp(dupLine, ";", 1) == 0`: only ';' itself lower-cases to ';'. */
  lemma SemicolonNoCase(s: string)
    ensures StartsWithNoCase(s, ";") == StartsWith(s, ";")
  {
  }

  lemma TakeNulFree(s: string, n: nat)
    requires NulFree(s)
    ensures NulFree(Take(s, n))
  {
  }

  /** The checks shared by the MSVC and Watcom parsers once the scan has
      assigned all three fields: `seg` is 1-based in the text, 0 is refused,
      and the decremented value must be below `numOfSegs`. */
  function CheckFields(f: Fields, numOfSegs: U32): (r: Parsed)
    requires f.seg < 0x1_0000 && f.addr < 0x1_0000_0000 && f.name != [] && NulFree(f.name)
    ensures r.result == SymbolLine || r.result == InvalidLine
    ensures r.result == SymbolLine <==> 1 <= f.seg <= numOfSegs && f.addr != ALL_ONES
    ensures r.result == SymbolLine ==>
      r.sym == MapSymbol(f.seg - 1, f.addr, Take(f.name, MAXNAMELEN)) && NameFits(r.sym)
  {
    var name := Take(f.name, MAXNAMELEN);
    TakeNulFree(f.name, MAXNAMELEN);
    if f.seg == 0 then
      // `0 == sym.seg` short-circuits before the decrement
      Parsed(InvalidLine, MapSymbol(0, f.addr, name))
    else if f.seg - 1 >= numOfSegs || f.addr == ALL_ONES || |name| == 0 then
      Parsed(InvalidLine, MapSymbol(f.seg - 1, f.addr, name))
    else
      Parsed(SymbolLine, MapSymbol(f.seg - 1, f.addr, name))
  }

  /** What a parser makes of its scan: no match ends the table and leaves the
      record as it was; a match is checked by CheckFields. */
  function Scanned(sym: MapSymbol, scan: Option<Fields>, numOfSegs: U32): (r: Parsed)
    requires scan.Some? ==> var f := scan.value;
      f.seg < 0x1_0000 && f.addr < 0x1_0000_0000 && f.name != [] && NulFree(f.name)
    ensures r.result == FinishingLine <==> scan.None?
    ensures r.result == FinishingLine ==> r.sym == sym
    ensures r.result == FinishingLine || r.result == SymbolLine || r.result == InvalidLine
    ensures r.result == SymbolLine ==> r.sym.seg < numOfSegs && r.sym.addr != ALL_ONES && r.sym.name != []
    ensures r.result == SymbolLine ==> NameFits(r.sym)
  {
    match scan
    case None => Parsed(FinishingLine, sym)
    case Some(f) => CheckFields(f, numOfSegs)
  }

  /** `parseMsSymbolLine`, for the MSVC and both Borland sections. */
  function ParseMsSymbolLine(sym: MapSymbol, line: string, minLineLen: nat, numOfSegs: U32): (r: Parsed)
    requires NulFree(line)
    ensures r.result != SkipLine
    ensures r.result == CommentLine ==> r.sym.seg == sym.seg && r.sym.addr == sym.addr
    ensures r.result == SymbolLine ==> r.sym.seg < numOfSegs && r.sym.addr != ALL_ONES && r.sym.name != []
    ensures r.result == SymbolLine || r.result == CommentLine ==> NameFits(r.sym)
  {
    var d := WorkingCopy(line, minLineLen);
    TakeNulFree(line, MAXNAMELEN + minLineLen);
    if StartsWithNoCase(d, ";") then
      Parsed(CommentLine, sym.(name := Take(d[1..], MAXNAMELEN - 1)))
    else
      // `sym.addr = -1` before the scan
      Scanned(sym.(addr := ALL_ONES), ScanMs(d), numOfSegs)
  }

  /** A line is a comment exactly when it starts with ';'; the comment's text
      after the ';' becomes the name and nothing else changes. */
  lemma MsComment(sym: MapSymbol, line: string, minLineLen: nat, numOfSegs: U32)
    requires NulFree(line)
    ensures var r := ParseMsSymbolLine(sym, line, minLineLen, numOfSegs);
      (r.result == CommentLine <==> StartsWith(line, ";")) &&
      (r.result == CommentLine ==> r.sym == sym.(name := Take(line[1..], MAXNAMELEN - 1)))
  {
    SemicolonNoCase(WorkingCopy(line, minLineLen));
    CutKeepsPrefix(line, minLineLen, ";");
    if StartsWith(line, ";") {
      CutKeepsText(line, minLineLen, 1, MAXNAMELEN - 1);
    }
  }

  /** The name a comment leaves in the record in the C code:
      `strncpy(sym.name, text, MAXNAMELEN - 1)` followed by
      `sym.name[MAXNAMELEN] = '\0'`. A text of MAXNAMELEN - 1 characters or
      more is copied without a terminator, so byte MAXNAMELEN - 1 keeps
      `stale`, what the record held there before; unless that is NUL it
      becomes the name's last character. */
  function CommentNameAsWritten(text: string, stale: char): (r: string)
    requires NulFree(text)
    ensures NulFree(r) && |r| <= MAXNAMELEN
    ensures Take(text, MAXNAMELEN - 1) <= r
  {
    if |text| < MAXNAMELEN - 1 || stale == '\0' then Take(text, MAXNAMELEN - 1)
    else text[..MAXNAMELEN - 1] + [stale]
  }

  /** A comment of MAXNAMELEN characters or more after the ';' leaves in C
      a name one character longer than the text's first MAXNAMELEN - 1
      characters, which the model takes as the intended name. */
  lemma MsCommentUnterminated(sym: MapSymbol, line: string, minLineLen: nat, numOfSegs: U32, stale: char)
    requires NulFree(line) && StartsWith(line, ";") && |line| >= MAXNAMELEN && stale != '\0'
    ensures var r := ParseMsSymbolLine(sym, line, minLineLen, numOfSegs);
      && r.result == CommentLine && |r.sym.name| == MAXNAMELEN - 1
      && CommentNameAsWritten(line[1..], stale) == r.sym.name + [stale]
  {
    MsComment(sym, line, minLineLen, numOfSegs);
  }

  /** A line that is no comment ends the table exactly when it is no line of
      the MSVC grammar. */
  lemma MsFinishing(sym: MapSymbol, line: string, minLineLen: nat, numOfSegs: U32)
    requires NulFree(line) && !StartsWith(line, ";")
    ensures ParseMsSymbolLine(sym, line, minLineLen, numOfSegs).result == FinishingLine <==>
      !exists t :: MsWellFormed(t) && MsText(t) == WorkingCopy(line, minLineLen)
  {
    var d := WorkingCopy(line, minLineLen);
    SemicolonNoCase(d);
    CutKeepsPrefix(line, minLineLen, ";");
    if ScanMs(d).Some? {
      var t := MsSound(d);
      MsComplete(t);
    } else if exists t :: MsWellFormed(t) && MsText(t) == d {
      var t :| MsWellFormed(t) && MsText(t) == d;
      MsComplete(t);
    }
  }

  /** A line of the MSVC grammar is a symbol exactly when its 1-based
      segment is at most `numOfSegs` and its address is not all ones; the
      symbol then holds the segment made 0-based, the address and the name. */
  lemma MsDecoded(sym: MapSymbol, line: string, minLineLen: nat, numOfSegs: U32, t: MsShape)
    requires NulFree(line) && !StartsWith(line, ";")
    requires MsWellFormed(t) && MsText(t) == WorkingCopy(line, minLineLen)
    ensures var r := ParseMsSymbolLine(sym, line, minLineLen, numOfSegs);
      var seg := HexValue(t.seg); var addr := HexValue(t.addr);
      (r.result == SymbolLine <==> 1 <= seg <= numOfSegs && addr != ALL_ONES) &&
      (r.result != SymbolLine ==> r.result == InvalidLine) &&
      (r.result == SymbolLine ==>
        r.sym.seg == seg - 1 && r.sym.addr == addr && r.sym.name == Take(t.name, MAXNAMELEN))
  {
    var d := WorkingCopy(line, minLineLen);
    SemicolonNoCase(d);
    CutKeepsPrefix(line, minLineLen, ";");
    MsComplete(t);
  }

  /** `parseWatcomSymbolLine`. */
  function ParseWatcomSymbolLine(sym: MapSymbol, line: string, minLineLen: nat, numOfSegs: U32): (r: Parsed)
    requires NulFree(line)
    ensures r.result == SkipLine ==> r.sym == sym
    ensures r.result == CommentLine ==> r.sym.seg == sym.seg && r.sym.addr == sym.addr
    ensures r.result == SymbolLine ==> r.sym.seg < numOfSegs && r.sym.addr != ALL_ONES && r.sym.name != []
    ensures r.result == SymbolLine || r.result == CommentLine ==> NameFits(r.sym)
  {
    var d := WorkingCopy(line, minLineLen);
    TakeNulFree(line, MAXNAMELEN + minLineLen);
    if StartsWithNoCase(d, ";") then
      Parsed(CommentLine, sym.(name := Take(d[1..], MAXNAMELEN - 1)))
    else if StartsWithNoCase(d, WATCOM_MEMMAP_SKIP) then
      Parsed(SkipLine, sym)
    else if StartsWithNoCase(d, WATCOM_MEMMAP_COMMENT) then
      Parsed(CommentLine, sym.(name := Take(d[|WATCOM_MEMMAP_COMMENT|..], MAXNAMELEN - 1)))
    else
      Scanned(sym, ScanWatcom(d), numOfSegs)
  }

  /** The working copy and the line agree on every prefix the Watcom parser
      tests, and a line starting with ';' has neither of the other two. */
  lemma WatcomPrefixesKept(line: string, minLineLen: nat)
    ensures var d := WorkingCopy(line, minLineLen);
      && StartsWithNoCase(d, ";") == StartsWith(line, ";")
      && StartsWithNoCase(d, WATCOM_MEMMAP_SKIP) == StartsWithNoCase(line, WATCOM_MEMMAP_SKIP)
      && StartsWithNoCase(d, WATCOM_MEMMAP_COMMENT) == StartsWithNoCase(line, WATCOM_MEMMAP_COMMENT)
    ensures StartsWith(line, ";") ==>
      !StartsWithNoCase(line, WATCOM_MEMMAP_SKIP) && !StartsWithNoCase(line, WATCOM_MEMMAP_COMMENT)
    ensures StartsWithNoCase(line, WATCOM_MEMMAP_COMMENT) ==> !StartsWithNoCase(line, WATCOM_MEMMAP_SKIP)
  {
    SemicolonNoCase(WorkingCopy(line, minLineLen));
    CutKeepsPrefix(line, minLineLen, ";");
    CutKeepsPrefix(line, minLineLen, WATCOM_MEMMAP_SKIP);
    CutKeepsPrefix(line, minLineLen, WATCOM_MEMMAP_COMMENT);
    if StartsWith(line, ";") {
      FirstCharExcludes(line, WATCOM_MEMMAP_SKIP);
      FirstCharExcludes(line, WATCOM_MEMMAP_COMMENT);
    }
    if StartsWithNoCase(line, WATCOM_MEMMAP_COMMENT) {
      assert Lower(line[0]) == Lower(WATCOM_MEMMAP_COMMENT[0]) by {
        assert line[..|WATCOM_MEMMAP_COMMENT|][0] == line[0];
      }
      FirstCharExcludes(line, WATCOM_MEMMAP_SKIP);
    }
  }

  /** The banner line under the Watcom header is skipped, whatever its case. */
  lemma WatcomSkip(sym: MapSymbol, line: string, minLineLen: nat, numOfSegs: U32)
    requires NulFree(line)
    ensures ParseWatcomSymbolLine(sym, line, minLineLen, numOfSegs).result == SkipLine <==>
      StartsWithNoCase(line, WATCOM_MEMMAP_SKIP)
  {
    WatcomPrefixesKept(line, minLineLen);
  }

  /** Comments are the lines starting with ';' and those starting with
      "Module: " in any case; the text after the marker becomes the name. The
      whole text survives the working copy when minLineLen is at least 7. */
  lemma WatcomComment(sym: MapSymbol, line: string, minLineLen: nat, numOfSegs: U32)
    requires NulFree(line)
    ensures var r := ParseWatcomSymbolLine(sym, line, minLineLen, numOfSegs);
      && (r.result == CommentLine <==>
          StartsWith(line, ";") || StartsWithNoCase(line, WATCOM_MEMMAP_COMMENT))
      && (StartsWith(line, ";") ==> r.sym == sym.(name := Take(line[1..], MAXNAMELEN - 1)))
      && (StartsWithNoCase(line, WATCOM_MEMMAP_COMMENT) && minLineLen >= 7 ==>
          r.sym == sym.(name := Take(line[|WATCOM_MEMMAP_COMMENT|..], MAXNAMELEN - 1)))
  {
    WatcomPrefixesKept(line, minLineLen);
    if StartsWith(line, ";") {
      CutKeepsText(line, minLineLen, 1, MAXNAMELEN - 1);
    } else if StartsWithNoCase(line, WATCOM_MEMMAP_COMMENT) && minLineLen >= 7 {
      CutKeepsText(line, minLineLen, |WATCOM_MEMMAP_COMMENT|, MAXNAMELEN - 1);
    }
  }

  lemma WatcomFinishing(sym: MapSymbol, line: string, minLineLen: nat, numOfSegs: U32)
    requires NulFree(line) && !StartsWith(line, ";")
    requires !StartsWithNoCase(line, WATCOM_MEMMAP_SKIP) && !StartsWithNoCase(line, WATCOM_MEMMAP_COMMENT)
    ensures ParseWatcomSymbolLine(sym, line, minLineLen, numOfSegs).result == FinishingLine <==>
      !exists t :: WatcomWellFormed(t) && WatcomText(t) == WorkingCopy(line, minLineLen)
  {
    var d := WorkingCopy(line, minLineLen);
    WatcomPrefixesKept(line, minLineLen);
    if ScanWatcom(d).Some? {
      var t := WatcomSound(d);
      WatcomComplete(t);
    } else if exists t :: WatcomWellFormed(t) && WatcomText(t) == d {
      var t :| WatcomWellFormed(t) && WatcomText(t) == d;
      WatcomComplete(t);
    }
  }

  lemma WatcomDecoded(sym: MapSymbol, line: string, minLineLen: nat, numOfSegs: U32, t: WatcomShape)
    requires NulFree(line) && !StartsWith(line, ";")
    requires !StartsWithNoCase(line, WATCOM_MEMMAP_SKIP) && !StartsWithNoCase(line, WATCOM_MEMMAP_COMMENT)
    requires WatcomWellFormed(t) && WatcomText(t) == WorkingCopy(line, minLineLen)
    ensures var r := ParseWatcomSymbolLine(sym, line, minLineLen, numOfSegs);
      var seg := HexValue(t.seg); var addr := HexValue(t.addr);
      (r.result == SymbolLine <==> 1 <= seg <= numOfSegs && addr != ALL_ONES) &&
      (r.result != SymbolLine ==> r.result == InvalidLine) &&
      (r.result == SymbolLine ==>
        r.sym.seg == seg - 1 && r.sym.addr == addr && r.sym.name == Take(t.name, MAXNAMELEN))
  {
    var d := WorkingCopy(line, minLineLen);
    WatcomPrefixesKept(line, minLineLen);
    WatcomComplete(t);
  }

  /** The four prefixes that mark a GNU-ld line to skip. */
  predicate GccSkipped(line: string) {
    || StartsWithNoCase(line, GCC_MEMMAP_SKIP1) || StartsWithNoCase(line, GCC_MEMMAP_SKIP2)
    || StartsWithNoCase(line, GCC_MEMMAP_SKIP3) || StartsWithNoCase(line, GCC_MEMMAP_SKIP4)
  }

  /** `parseGccSymbolLine`: the linear address is placed in a segment of
      `segs`; there is no 1-based adjustment. */
  function ParseGccSymbolLine(sym: MapSymbol, line: string, minLineLen: nat, numOfSegs: U32,
                              segs: SegmentTable): (r: Parsed)
    requires NulFree(line)
    ensures r.result == SkipLine ==> r.sym == sym
    ensures r.result == CommentLine ==> r.sym.seg == sym.seg && r.sym.addr == sym.addr
    ensures r.result == SymbolLine ==>
      && r.sym.seg < numOfSegs && r.sym.seg < |segs| && r.sym.addr != ALL_ONES && r.sym.name != []
      && Contains(segs[r.sym.seg], segs[r.sym.seg].startEa + r.sym.addr)
    ensures r.result == SymbolLine || r.result == CommentLine ==> NameFits(r.sym)
  {
    var d := WorkingCopy(line, minLineLen);
    TakeNulFree(line, MAXNAMELEN + minLineLen);
    if StartsWithNoCase(d, ";") then
      Parsed(CommentLine, sym.(name := Take(d[1..], MAXNAMELEN - 1)))
    else if StartsWithNoCase(d, GCC_MEMMAP_SKIP1) || StartsWithNoCase(d, GCC_MEMMAP_SKIP2) then
      Parsed(SkipLine, sym)
    else if StartsWithNoCase(d, GCC_MEMMAP_SKIP3) || StartsWithNoCase(d, GCC_MEMMAP_SKIP4) then
      Parsed(SkipLine, sym)
    else if StartsWithNoCase(d, GCC_MEMMAP_LOAD) then
      Parsed(CommentLine, sym.(name := Take(d, MAXNAMELEN - 1)))
    else
      Placed(sym, ScanGcc(d), numOfSegs, segs)
  }

  /** What the GNU-ld parser makes of its scan: no match ends the table and
      leaves the record as it was; a match is placed in a segment and kept
      when the segment number is below `numOfSegs`, the offset is not all
      ones and the name is not empty. */
  function Placed(sym: MapSymbol, scan: Option<GccFields>, numOfSegs: U32, segs: SegmentTable): (r: Parsed)
    requires scan.Some? ==> scan.value.linear < 0x1_0000_0000 && NulFree(scan.value.name)
    ensures r.result == FinishingLine <==> scan.None?
    ensures r.result == FinishingLine ==> r.sym == sym
    ensures r.result == FinishingLine || r.result == SymbolLine || r.result == InvalidLine
    ensures r.result == SymbolLine ==>
      && r.sym.seg < numOfSegs && r.sym.seg < |segs| && r.sym.addr != ALL_ONES && r.sym.name != []
      && Contains(segs[r.sym.seg], segs[r.sym.seg].startEa + r.sym.addr)
    ensures r.result == SymbolLine ==> NameFits(r.sym)
  {
    match scan
    case None => Parsed(FinishingLine, sym)
    case Some(g) =>
      TakeNulFree(g.name, MAXNAMELEN);
      var s := LinearAddressToSymbolAddr(sym.(name := Take(g.name, MAXNAMELEN)), g.linear, segs);
      if s.seg >= numOfSegs || s.addr == ALL_ONES || |s.name| == 0 then Parsed(InvalidLine, s)
      else Parsed(SymbolLine, s)
  }

  /** The working copy and the line agree on every prefix the GNU-ld parser
      tests. */
  lemma GccPrefixesKept(line: string, minLineLen: nat)
    ensures var d := WorkingCopy(line, minLineLen);
      && StartsWithNoCase(d, ";") == StartsWith(line, ";")
      && GccSkipped(d) == GccSkipped(line)
      && StartsWithNoCase(d, GCC_MEMMAP_LOAD) == StartsWithNoCase(line, GCC_MEMMAP_LOAD)
  {
    SemicolonNoCase(WorkingCopy(line, minLineLen));
    CutKeepsPrefix(line, minLineLen, ";");
    CutKeepsPrefix(line, minLineLen, GCC_MEMMAP_SKIP1);
    CutKeepsPrefix(line, minLineLen, GCC_MEMMAP_SKIP2);
    CutKeepsPrefix(line, minLineLen, GCC_MEMMAP_SKIP3);
    CutKeepsPrefix(line, minLineLen, GCC_MEMMAP_SKIP4);
    CutKeepsPrefix(line, minLineLen, GCC_MEMMAP_LOAD);
  }

  /** A line starting with ';' is none of the other kinds. */
  lemma SemicolonExcludesGcc(line: string)
    requires StartsWith(line, ";")
    ensures !GccSkipped(line) && !StartsWithNoCase(line, GCC_MEMMAP_LOAD)
  {
    FirstCharExcludes(line, GCC_MEMMAP_SKIP1);
    FirstCharExcludes(line, GCC_MEMMAP_SKIP2);
    FirstCharExcludes(line, GCC_MEMMAP_SKIP3);
    FirstCharExcludes(line, GCC_MEMMAP_SKIP4);
    FirstCharExcludes(line, GCC_MEMMAP_LOAD);
  }

  /** The lines skipped are those with one of the four section-line prefixes. */
  lemma GccSkip(sym: MapSymbol, line: string, minLineLen: nat, numOfSegs: U32, segs: SegmentTable)
    requires NulFree(line)
    ensures ParseGccSymbolLine(sym, line, minLineLen, numOfSegs, segs).result == SkipLine <==>
      !StartsWith(line, ";") && GccSkipped(line)
  {
    GccPrefixesKept(line, minLineLen);
  }

  /** Comments are the lines starting with ';' and the "LOAD " lines; a LOAD
      line keeps its whole text, marker included, as the name. */
  lemma GccComment(sym: MapSymbol, line: string, minLineLen: nat, numOfSegs: U32, segs: SegmentTable)
    requires NulFree(line)
    ensures var r := ParseGccSymbolLine(sym, line, minLineLen, numOfSegs, segs);
      && (r.result == CommentLine <==>
          StartsWith(line, ";") || (!GccSkipped(line) && StartsWithNoCase(line, GCC_MEMMAP_LOAD)))
      && (StartsWith(line, ";") ==> r.sym == sym.(name := Take(line[1..], MAXNAMELEN - 1)))
      && (r.result == CommentLine && !StartsWith(line, ";") ==>
          r.sym == sym.(name := Take(line, MAXNAMELEN - 1)))
  {
    GccPrefixesKept(line, minLineLen);
    if StartsWith(line, ";") {
      SemicolonExcludesGcc(line);
      CutKeepsText(line, minLineLen, 1, MAXNAMELEN - 1);
    } else {
      CutKeepsText(line, minLineLen, 0, MAXNAMELEN - 1);
    }
  }

  lemma GccFinishing(sym: MapSymbol, line: string, minLineLen: nat, numOfSegs: U32, segs: SegmentTable)
    requires NulFree(line) && !StartsWith(line, ";")
    requires !GccSkipped(line) && !StartsWithNoCase(line, GCC_MEMMAP_LOAD)
    ensures ParseGccSymbolLine(sym, line, minLineLen, numOfSegs, segs).result == FinishingLine <==>
      !exists t :: GccWellFormed(t) && GccText(t) == WorkingCopy(line, minLineLen)
  {
    var d := WorkingCopy(line, minLineLen);
    GccPrefixesKept(line, minLineLen);
    if ScanGcc(d).Some? {
      var t := GccSound(d);
      GccComplete(t);
    } else if exists t :: GccWellFormed(t) && GccText(t) == d {
      var t :| GccWellFormed(t) && GccText(t) == d;
      GccComplete(t);
    }
  }

  /** A line of the GNU-ld grammar is a symbol exactly when some segment
      holds its linear address, the first such segment's number is below
      `numOfSegs` and the offset in it is not all ones; the symbol's segment
      start plus its address is then the linear address. */
  lemma GccDecoded(sym: MapSymbol, line: string, minLineLen: nat, numOfSegs: U32,
                   segs: SegmentTable, t: GccShape)
    requires NulFree(line) && !StartsWith(line, ";")
    requires !GccSkipped(line) && !StartsWithNoCase(line, GCC_MEMMAP_LOAD)
    requires GccWellFormed(t) && GccText(t) == WorkingCopy(line, minLineLen)
    ensures var r := ParseGccSymbolLine(sym, line, minLineLen, numOfSegs, segs);
      var linear := HexValue(t.addr); var n := SegmentNumber(segs, linear);
      (r.result == SymbolLine <==>
        0 <= n < numOfSegs && linear - segs[n].startEa != ALL_ONES) &&
      (r.result != SymbolLine ==> r.result == InvalidLine) &&
      (r.result == SymbolLine ==>
        r.sym.seg == n && segs[n].startEa + r.sym.addr == linear && r.sym.name == Take(t.name, MAXNAMELEN))
  {
    var d := WorkingCopy(line, minLineLen);
    GccPrefixesKept(line, minLineLen);
    GccComplete(t);
  }
}
