/** Recognising where a symbol table starts and ends (the newer reader).
    A start is a case-insensitive prefix match of the whole line against an
    ordered list of headers; an end is a case-sensitive match of a marker
    that belongs to the dialect of the open section. */
module Sections {
  import opened Text
  import opened MapTypes

  // Header, banner and marker strings of the MAP dialects.
  // Both MSVC headers are written as their common start (the Borland
  // by-value header and the "Rva+Base" column) followed by the rest of
  // their text: the strings are those of the source.
  const MSVC_HDR_COMMON: string := BCCL_HDR_VALUE_START + "              Rva+Base"
  const MSVC_HDR_START: string := MSVC_HDR_COMMON + "     Lib:Object"
  const MSVC_HDR_START2: string := MSVC_HDR_COMMON + "       Lib:Object"
  const BCCL_HDR_NAME_START: string := "Address         Publics by Name"
  const BCCL_HDR_VALUE_START: string := "Address         Publics by Value"
  const WATCOM_MEMMAP_START: string := "Address        Symbol"
  const WATCOM_MEMMAP_SKIP: string := "=======        ======"
  const WATCOM_MEMMAP_COMMENT: string := "Module: "
  const WATCOM_END_TABLE_HDR: string := "+----------------------+"
  const MSVC_LINE_NUMBER: string := "Line numbers for "
  const MSVC_FIXUP: string := "FIXUPS: "
  const MSVC_EXPORTS: string := " Exports"
  const GCC_MEMMAP_START: string := "Linker script and memory map"
  const GCC_MEMMAP_SKIP1: string := "."
  const GCC_MEMMAP_SKIP2: string := " ."
  const GCC_MEMMAP_SKIP3: string := "*"
  const GCC_MEMMAP_SKIP4: string := " *"
  const GCC_MEMMAP_END: string := "OUTPUT("
  const GCC_MEMMAP_LOAD: string := "LOAD "

  /** `recognizeSectionStart`: the first header, in this order, of which the
      whole line is a case-insensitive prefix decides the dialect. */
  function RecognizeSectionStart(line: string): SectionType {
    if PrefixOfNoCase(line, MSVC_HDR_START) || PrefixOfNoCase(line, MSVC_HDR_START2) then MsvcMap
    else if PrefixOfNoCase(line, BCCL_HDR_NAME_START) then BcclNamMap
    else if PrefixOfNoCase(line, BCCL_HDR_VALUE_START) then BcclValMap
    else if PrefixOfNoCase(line, WATCOM_MEMMAP_START) then WatcomMap
    else if PrefixOfNoCase(line, GCC_MEMMAP_START) then GccMap
    else NoSection
  }

  /** The headers as an ordered table, each with the dialect it opens. */
  const StartTable: seq<(string, SectionType)> := [
    (MSVC_HDR_START, MsvcMap), (MSVC_HDR_START2, MsvcMap),
    (BCCL_HDR_NAME_START, BcclNamMap), (BCCL_HDR_VALUE_START, BcclValMap),
    (WATCOM_MEMMAP_START, WatcomMap), (GCC_MEMMAP_START, GccMap)]

  /** The dialect of the first entry from index `k` on that the line is a
      prefix of, or NoSection. */
  function FirstHit(line: string, table: seq<(string, SectionType)>, k: nat): SectionType
    requires k <= |table|
    decreases |table| - k
  {
    if k == |table| then NoSection
    else if PrefixOfNoCase(line, table[k].0) then table[k].1
    else FirstHit(line, table, k + 1)
  }

  /** The recogniser is the first hit in the ordered header table. */
  lemma StartIsFirstHit(line: string)
    ensures RecognizeSectionStart(line) == FirstHit(line, StartTable, 0)
  {
    assert |StartTable| == 6;
    assert FirstHit(line, StartTable, 6) == NoSection;
    assert StartTable[5] == (GCC_MEMMAP_START, GccMap);
    assert StartTable[4] == (WATCOM_MEMMAP_START, WatcomMap);
    assert StartTable[3] == (BCCL_HDR_VALUE_START, BcclValMap);
    assert StartTable[2] == (BCCL_HDR_NAME_START, BcclNamMap);
    assert StartTable[1] == (MSVC_HDR_START2, MsvcMap);
    assert StartTable[0] == (MSVC_HDR_START, MsvcMap);
    assert FirstHit(line, StartTable, 5) == if PrefixOfNoCase(line, GCC_MEMMAP_START) then GccMap else NoSection;
    assert FirstHit(line, StartTable, 4) == if PrefixOfNoCase(line, WATCOM_MEMMAP_START) then WatcomMap else FirstHit(line, StartTable, 5);
    assert FirstHit(line, StartTable, 3) == if PrefixOfNoCase(line, BCCL_HDR_VALUE_START) then BcclValMap else FirstHit(line, StartTable, 4);
    assert FirstHit(line, StartTable, 2) == if PrefixOfNoCase(line, BCCL_HDR_NAME_START) then BcclNamMap else FirstHit(line, StartTable, 3);
    assert FirstHit(line, StartTable, 1) == if PrefixOfNoCase(line, MSVC_HDR_START2) then MsvcMap else FirstHit(line, StartTable, 2);
  }

  /** A hit means the line is no longer than the header and agrees with its
      first characters, ignoring case. */
  lemma StartHitIsPrefix(line: string)
    ensures RecognizeSectionStart(line) != NoSection <==>
      exists k :: 0 <= k < |StartTable| && PrefixOfNoCase(line, StartTable[k].0)
  {
    if RecognizeSectionStart(line) != NoSection {
      if PrefixOfNoCase(line, MSVC_HDR_START) {
        assert PrefixOfNoCase(line, StartTable[0].0);
      } else if PrefixOfNoCase(line, MSVC_HDR_START2) {
        assert PrefixOfNoCase(line, StartTable[1].0);
      } else if PrefixOfNoCase(line, BCCL_HDR_NAME_START) {
        assert PrefixOfNoCase(line, StartTable[2].0);
      } else if PrefixOfNoCase(line, WATCOM_MEMMAP_START) {
        assert PrefixOfNoCase(line, StartTable[4].0);
      } else {
        NeverBorlandByValue(line);
        assert PrefixOfNoCase(line, StartTable[5].0);
      }
    }
  }

  /** A line that is a prefix of `short`, where `short` is itself a prefix
      of `long`, is a prefix of `long`. */
  lemma PrefixOfPrefix(line: string, short: string, long: string)
    requires |short| <= |long| && short == long[..|short|]
    requires PrefixOfNoCase(line, short)
    ensures PrefixOfNoCase(line, long)
  {
    assert long[..|line|] == short[..|line|];
  }

  /** The Borland by-value header is a prefix of the first MSVC header,
      which is tested earlier, so the by-value dialect is never returned. */
  lemma {:induction false} NeverBorlandByValue(line: string)
    ensures RecognizeSectionStart(line) != BcclValMap
  {
    assert MSVC_HDR_START[..|BCCL_HDR_VALUE_START|] == BCCL_HDR_VALUE_START;
    if PrefixOfNoCase(line, BCCL_HDR_VALUE_START) {
      PrefixOfPrefix(line, BCCL_HDR_VALUE_START, MSVC_HDR_START);
    }
  }

  /** Case does not matter to the recogniser. */
  lemma {:induction false} StartIgnoresCase(a: string, b: string)
    requires EqualNoCase(a, b)
    ensures RecognizeSectionStart(a) == RecognizeSectionStart(b)
  {
    forall h: string ensures PrefixOfNoCase(a, h) <==> PrefixOfNoCase(b, h) {
      if |a| <= |h| {
        assert forall i :: 0 <= i < |a| ==> Lower(a[i]) == Lower(b[i]);
      }
    }
  }

  /** A line that differs from the header at some position within both,
      ignoring case, is not a prefix of it. */
  lemma MismatchNotPrefix(line: string, hdr: string, i: nat)
    requires i < |line| && i < |hdr| && Lower(line[i]) != Lower(hdr[i])
    ensures !PrefixOfNoCase(line, hdr)
  {
    if |line| <= |hdr| {
      assert hdr[..|line|][i] == hdr[i];
    }
  }

  lemma SelfPrefix(hdr: string)
    ensures PrefixOfNoCase(hdr, hdr)
  {
    assert hdr[..|hdr|] == hdr;
  }

  /** Each header line, exactly as a linker writes it, opens its own
      dialect, except the Borland by-value header, which opens MsvcMap. */
  lemma {:induction false} ExactMsvcHeadersRecognised()
    ensures RecognizeSectionStart(MSVC_HDR_START) == MsvcMap
    ensures RecognizeSectionStart(MSVC_HDR_START2) == MsvcMap
    ensures RecognizeSectionStart(BCCL_HDR_VALUE_START) == MsvcMap
  {
    SelfPrefix(MSVC_HDR_START);
    SelfPrefix(MSVC_HDR_START2);
    SelfPrefix(BCCL_HDR_VALUE_START);
    PrefixOfPrefix(BCCL_HDR_VALUE_START, BCCL_HDR_VALUE_START, MSVC_HDR_START);
  }

  lemma {:induction false} ExactBorlandNameHeaderRecognised()
    ensures RecognizeSectionStart(BCCL_HDR_NAME_START) == BcclNamMap
  {
    assert BCCL_HDR_NAME_START[27] == 'N' && BCCL_HDR_VALUE_START[27] == 'V';
    assert MSVC_HDR_START[27] == 'V' && MSVC_HDR_START2[27] == 'V';
    MismatchNotPrefix(BCCL_HDR_NAME_START, MSVC_HDR_START, 27);
    MismatchNotPrefix(BCCL_HDR_NAME_START, MSVC_HDR_START2, 27);
    SelfPrefix(BCCL_HDR_NAME_START);
  }

  lemma {:induction false} ExactWatcomHeaderRecognised()
    ensures RecognizeSectionStart(WATCOM_MEMMAP_START) == WatcomMap
  {
    assert WATCOM_MEMMAP_START[15] == 'S' && BCCL_HDR_VALUE_START[15] == ' ';
    assert BCCL_HDR_NAME_START[15] == ' ';
    assert MSVC_HDR_START[15] == ' ' && MSVC_HDR_START2[15] == ' ';
    MismatchNotPrefix(WATCOM_MEMMAP_START, MSVC_HDR_START, 15);
    MismatchNotPrefix(WATCOM_MEMMAP_START, MSVC_HDR_START2, 15);
    MismatchNotPrefix(WATCOM_MEMMAP_START, BCCL_HDR_NAME_START, 15);
    MismatchNotPrefix(WATCOM_MEMMAP_START, BCCL_HDR_VALUE_START, 15);
    SelfPrefix(WATCOM_MEMMAP_START);
  }

  lemma {:induction false} ExactGccHeaderRecognised()
    ensures RecognizeSectionStart(GCC_MEMMAP_START) == GccMap
  {
    assert GCC_MEMMAP_START[0] == 'L' && BCCL_HDR_VALUE_START[0] == 'A';
    assert BCCL_HDR_NAME_START[0] == 'A' && WATCOM_MEMMAP_START[0] == 'A';
    assert MSVC_HDR_START[0] == 'A' && MSVC_HDR_START2[0] == 'A';
    MismatchNotPrefix(GCC_MEMMAP_START, MSVC_HDR_START, 0);
    MismatchNotPrefix(GCC_MEMMAP_START, MSVC_HDR_START2, 0);
    MismatchNotPrefix(GCC_MEMMAP_START, BCCL_HDR_NAME_START, 0);
    MismatchNotPrefix(GCC_MEMMAP_START, BCCL_HDR_VALUE_START, 0);
    MismatchNotPrefix(GCC_MEMMAP_START, WATCOM_MEMMAP_START, 0);
    SelfPrefix(GCC_MEMMAP_START);
  }

  /** The end markers of each dialect; the Borland dialects have none. */
  function EndMarkers(s: SectionType): seq<string> {
    match s
    case MsvcMap => [MSVC_LINE_NUMBER, MSVC_FIXUP, MSVC_EXPORTS]
    case WatcomMap => [WATCOM_END_TABLE_HDR]
    case GccMap => [GCC_MEMMAP_END]
    case _ => []
  }

  /** `recognizeSectionEnd`: NoSection when the line starts with one of the
      open dialect's markers, compared with case, else `secType` unchanged. */
  function RecognizeSectionEnd(secType: SectionType, line: string): (r: SectionType)
    ensures r == NoSection || r == secType
  {
    match secType
    case MsvcMap =>
      if StartsWith(line, MSVC_LINE_NUMBER) then NoSection
      else if StartsWith(line, MSVC_FIXUP) then NoSection
      else if StartsWith(line, MSVC_EXPORTS) then NoSection
      else secType
    case BcclNamMap => secType
    case BcclValMap => secType
    case WatcomMap =>
      if StartsWith(line, WATCOM_END_TABLE_HDR) then NoSection else secType
    case GccMap =>
      if StartsWith(line, GCC_MEMMAP_END) then NoSection else secType
    case NoSection => secType
  }

  /** The section closes exactly when the line starts with one of the open
      dialect's own markers. */
  lemma EndIsMarkerMatch(secType: SectionType, line: string)
    ensures RecognizeSectionEnd(secType, line) != secType <==>
      exists k :: 0 <= k < |EndMarkers(secType)| && StartsWith(line, EndMarkers(secType)[k])
  {
    var m := EndMarkers(secType);
    if secType == MsvcMap {
      if StartsWith(line, MSVC_LINE_NUMBER) { assert StartsWith(line, m[0]); }
      else if StartsWith(line, MSVC_FIXUP) { assert StartsWith(line, m[1]); }
      else if StartsWith(line, MSVC_EXPORTS) { assert StartsWith(line, m[2]); }
    } else if secType == WatcomMap {
      if StartsWith(line, WATCOM_END_TABLE_HDR) { assert StartsWith(line, m[0]); }
    } else if secType == GccMap {
      if StartsWith(line, GCC_MEMMAP_END) { assert StartsWith(line, m[0]); }
    }
  }

  /** A Borland table is closed by no line at all. */
  lemma BorlandNeverEnds(secType: SectionType, line: string)
    requires secType == BcclNamMap || secType == BcclValMap
    ensures RecognizeSectionEnd(secType, line) == secType
  {
  }

  /** A line that starts with an end marker of one dialect closes that
      dialect's section and leaves the section of every other dialect open. */
  lemma {:induction false} MarkersAreOwnDialect(owner: SectionType, held: SectionType, k: nat, line: string)
    requires owner != held && k < |EndMarkers(owner)| && StartsWith(line, EndMarkers(owner)[k])
    ensures RecognizeSectionEnd(owner, line) == NoSection
    ensures RecognizeSectionEnd(held, line) == held
  {
    var m := EndMarkers(owner)[k];
    // The markers' first characters tell the dialects apart.
    assert MSVC_LINE_NUMBER[0] == 'L' && MSVC_FIXUP[0] == 'F' && MSVC_EXPORTS[0] == ' ';
    assert WATCOM_END_TABLE_HDR[0] == '+' && GCC_MEMMAP_END[0] == 'O';
    assert line[0] == m[0];
    forall j | 0 <= j < |EndMarkers(held)|
      ensures !StartsWith(line, EndMarkers(held)[j])
    {
      FirstCharExcludes(line, EndMarkers(held)[j]);
    }
    EndIsMarkerMatch(owner, line);
    EndIsMarkerMatch(held, line);
  }
}
