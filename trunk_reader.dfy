/** The older MAP reader: four section headers with a single MSVC spelling,
    end markers that close whatever section is open, and an MSVC parser that
    does not reset the address before its scan. Its whitespace and line-end
    scanners and its Watcom parser are the ones of the newer reader
    (Scanner.SkipSpaces, Scanner.FindEol, Parsers.ParseWatcomSymbolLine):
    their code is the same in the 32-bit build. */
module TrunkReader {
  import opened Text
  import opened Wrappers
  import opened MapTypes
  import opened Sections
  import opened ScanFormat
  import opened Parsers

  /** `recognizeSectionStart` of the older reader: MSVC (one spelling),
      Borland by name, Borland by value, Watcom. */
  function TrunkRecognizeSectionStart(line: string): (r: SectionType)
    ensures !r.GccMap? && r != BcclValMap
    ensures r != NoSection ==>
      PrefixOfNoCase(line, MSVC_HDR_START) || PrefixOfNoCase(line, BCCL_HDR_NAME_START) ||
      PrefixOfNoCase(line, WATCOM_MEMMAP_START)
  {
    NeverBorlandByValue(line);
    if PrefixOfNoCase(line, MSVC_HDR_START) then MsvcMap
    else if PrefixOfNoCase(line, BCCL_HDR_NAME_START) then BcclNamMap
    else if PrefixOfNoCase(line, BCCL_HDR_VALUE_START) then BcclValMap
    else if PrefixOfNoCase(line, WATCOM_MEMMAP_START) then WatcomMap
    else NoSection
  }

  /** A line that agrees with the second MSVC spelling but not with the
      first is longer than the part the two share. */
  lemma SecondSpellingOnly(line: string)
    requires PrefixOfNoCase(line, MSVC_HDR_START2) && !PrefixOfNoCase(line, MSVC_HDR_START)
    ensures |line| > |MSVC_HDR_COMMON|
  {
  }

  /** The older recogniser agrees with the newer one except on GNU-ld
      headers and on lines that only the second MSVC spelling accepts,
      which it does not recognise. */
  lemma {:induction false} TrunkStartVersusNewer(line: string)
    ensures var older := TrunkRecognizeSectionStart(line); var newer := RecognizeSectionStart(line);
      if newer == GccMap || (newer == MsvcMap && !PrefixOfNoCase(line, MSVC_HDR_START)) then older == NoSection
      else older == newer
  {
    NeverBorlandByValue(line);
    var newer := RecognizeSectionStart(line);
    if newer == MsvcMap && !PrefixOfNoCase(line, MSVC_HDR_START) {
      SecondSpellingOnly(line);
    }
  }

  /** The end markers of the older reader, for every dialect alike. */
  const TrunkEndMarkers: seq<string> := [MSVC_LINE_NUMBER, MSVC_FIXUP, MSVC_EXPORTS, WATCOM_END_TABLE_HDR]

  /** `recognizeSectionEnd` of the older reader: any of the four markers,
      compared with case, ends the section, whatever it is. */
  function TrunkRecognizeSectionEnd(secType: TrunkSectionType, line: string): (r: TrunkSectionType)
    ensures r == NoSection || r == secType
  {
    if StartsWith(line, MSVC_LINE_NUMBER) then NoSection
    else if StartsWith(line, MSVC_FIXUP) then NoSection
    else if StartsWith(line, MSVC_EXPORTS) then NoSection
    else if StartsWith(line, WATCOM_END_TABLE_HDR) then NoSection
    else secType
  }

  /** An open section closes exactly when the line starts with one of the
      four markers. */
  lemma TrunkEndIsMarkerMatch(secType: TrunkSectionType, line: string)
    requires secType != NoSection
    ensures TrunkRecognizeSectionEnd(secType, line) == NoSection <==>
      exists k :: 0 <= k < |TrunkEndMarkers| && StartsWith(line, TrunkEndMarkers[k])
  {
    var m := TrunkEndMarkers;
    if StartsWith(line, MSVC_LINE_NUMBER) { assert StartsWith(line, m[0]); }
    else if StartsWith(line, MSVC_FIXUP) { assert StartsWith(line, m[1]); }
    else if StartsWith(line, MSVC_EXPORTS) { assert StartsWith(line, m[2]); }
    else if StartsWith(line, WATCOM_END_TABLE_HDR) { assert StartsWith(line, m[3]); }
  }

  /** Every line that closes a section in the newer reader closes it in the
      older one too. */
  lemma TrunkEndCoversNewer(secType: TrunkSectionType, line: string)
    requires secType != NoSection
    requires RecognizeSectionEnd(secType, line) == NoSection
    ensures TrunkRecognizeSectionEnd(secType, line) == NoSection
  {
  }

  /** Unlike the newer reader, the older one lets an MSVC marker such as
      "FIXUPS: " close a Borland table and a Watcom one. */
  lemma TrunkMarkersCloseAny(line: string)
    requires StartsWith(line, MSVC_FIXUP)
    ensures TrunkRecognizeSectionEnd(BcclNamMap, line) == NoSection
    ensures RecognizeSectionEnd(BcclNamMap, line) == BcclNamMap
    ensures TrunkRecognizeSectionEnd(WatcomMap, line) == NoSection
    ensures RecognizeSectionEnd(WatcomMap, line) == WatcomMap
  {
    assert line[0] == 'F';
    FirstCharExcludes(line, MSVC_LINE_NUMBER);
    FirstCharExcludes(line, WATCOM_END_TABLE_HDR);
  }

  /** `parseMsSymbolLine` of the older reader: as the newer one, but the
      address is not reset to all ones before the scan. */
  function TrunkParseMsSymbolLine(sym: MapSymbol, line: string, minLineLen: nat, numOfSegs: U32): (r: Parsed)
    requires NulFree(line)
    ensures r.result != SkipLine
    ensures r.result == FinishingLine ==> r.sym == sym
    ensures r.result == CommentLine ==> r.sym.seg == sym.seg && r.sym.addr == sym.addr
    ensures r.result == SymbolLine ==> r.sym.seg < numOfSegs && r.sym.addr != ALL_ONES && r.sym.name != []
    ensures r.result == SymbolLine || r.result == CommentLine ==> NameFits(r.sym)
  {
    var d := WorkingCopy(line, minLineLen);
    TakeNulFree(line, MAXNAMELEN + minLineLen);
    if StartsWithNoCase(d, ";") then
      Parsed(CommentLine, sym.(name := Take(d[1..], MAXNAMELEN - 1)))
    else
      Scanned(sym, ScanMs(d), numOfSegs)
  }

  /** The two MSVC parsers classify every line alike and fill the record
      alike; they differ only in the address of the record left behind at
      the end of a table. */
  lemma TrunkMsVersusNewer(sym: MapSymbol, line: string, minLineLen: nat, numOfSegs: U32)
    requires NulFree(line)
    ensures var older := TrunkParseMsSymbolLine(sym, line, minLineLen, numOfSegs);
      var newer := ParseMsSymbolLine(sym, line, minLineLen, numOfSegs);
      && older.result == newer.result
      && (older.result != FinishingLine ==> older.sym == newer.sym)
      && (older.result == FinishingLine ==> older.sym == sym && newer.sym == sym.(addr := ALL_ONES))
  {
  }
}
