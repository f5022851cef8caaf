/** Lines of each MAP dialect and what the parsers make of them. The lines
    are written as a fixed beginning and a free rest. */
module ParserExamples {
  import opened Text
  import opened MapTypes
  import opened Sections
  import opened ScanFormat
  import opened Segments
  import opened Parsers

  /** The working copy of a line with a beginning that fits cuts only the
      rest. */
  lemma CopyOfAppend(p: string, q: string, minLineLen: nat)
    requires |p| <= MAXNAMELEN + minLineLen
    ensures WorkingCopy(p + q, minLineLen) == p + Take(q, MAXNAMELEN + minLineLen - |p|)
  {
    var n := MAXNAMELEN + minLineLen;
    if |p + q| > n {
      assert (p + q)[..n] == p + q[..n - |p|];
    }
  }

  lemma NulFreeAppend(p: string, q: string)
    requires NulFree(p) && NulFree(q)
    ensures NulFree(p + q)
  {
    assert forall i :: |p| <= i < |p + q| ==> (p + q)[i] == q[i - |p|];
  }

  /** The value of four hexadecimal digits. */
  lemma Hex4(a: char, b: char, c: char, d: char)
    requires IsHexDigit(a) && IsHexDigit(b) && IsHexDigit(c) && IsHexDigit(d)
    ensures HexValue([a, b, c, d]) ==
      ((HexDigitValue(a) * 16 + HexDigitValue(b)) * 16 + HexDigitValue(c)) * 16 + HexDigitValue(d)
  {
    assert [a, b, c, d][..3] == [a, b, c];
    assert [a, b, c][..2] == [a, b];
    assert [a, b][..1] == [a];
    assert [a][..0] == [];
    assert HexValue([a]) == HexDigitValue(a);
    assert HexValue([a, b]) == HexValue([a]) * 16 + HexDigitValue(b);
    assert HexValue([a, b, c]) == HexValue([a, b]) * 16 + HexDigitValue(c);
  }

  /** The value of eight digits from those of their two halves. */
  lemma Hex8(h: string, l: string)
    requires |h| == 4 && |l| == 4 && AllHex(h) && AllHex(l)
    ensures AllHex(h + l) && HexValue(h + l) == HexValue(h) * 0x1_0000 + HexValue(l)
  {
    var s := h + l;
    assert HexValue(s) == HexValue(h + l[..3]) * 16 + HexDigitValue(l[3]) by {
      assert s[..7] == h + l[..3];
    }
    assert HexValue(h + l[..3]) == HexValue(h + l[..2]) * 16 + HexDigitValue(l[2]) by {
      assert (h + l[..3])[..6] == h + l[..2];
    }
    assert HexValue(h + l[..2]) == HexValue(h + l[..1]) * 16 + HexDigitValue(l[1]) by {
      assert (h + l[..2])[..5] == h + l[..1];
    }
    assert HexValue(h + l[..1]) == HexValue(h) * 16 + HexDigitValue(l[0]) by {
      assert (h + l[..1])[..4] == h;
    }
    assert l == [l[0], l[1], l[2], l[3]];
    Hex4(l[0], l[1], l[2], l[3]);
  }

  lemma SegmentValues()
    ensures HexValue("0001") == 1 && HexValue("0005") == 5
  {
    Hex4('0', '0', '0', '1');
    Hex4('0', '0', '0', '5');
  }

  lemma OffsetValue()
    ensures HexValue("00001000") == 0x1000
  {
    Hex4('0', '0', '0', '0');
    Hex4('1', '0', '0', '0');
    Hex8("0000", "1000");
    assert "0000" + "1000" == "00001000";
  }

  lemma LinearValues()
    ensures HexValue("00401000") == 0x40_1000 && HexValue("00000000") == 0
  {
    Hex4('0', '0', '0', '0');
    Hex4('0', '0', '4', '0');
    Hex4('1', '0', '0', '0');
    Hex8("0040", "1000");
    Hex8("0000", "0000");
    assert "0040" + "1000" == "00401000";
    assert "0000" + "0000" == "00000000";
  }

  /** The MSVC grammar's pieces of `seg:00001000       _main` and a tail. */
  lemma MsvcPieces(seg: string, tail: string)
    ensures MsText(MsShape("", seg, "", "", "00001000", "       ", "_main", tail)) ==
      seg + MsvcAfterSeg + tail
  {
    assert MsvcAfterSeg == [':'] + ("00001000" + ("       " + "_main"));
  }

  lemma MsvcTokens(seg: string, tail: string)
    requires seg == "0001" || seg == "0005"
    requires tail != [] && tail[0] == ' '
    ensures MsWellFormed(MsShape("", seg, "", "", "00001000", "       ", "_main", tail))
  {
    assert NameToken("_main", MS_NAME_STOP);
  }

  /** What follows the segment digits in the two MSVC examples. */
  const MsvcAfterSeg: string := ":00001000       _main"
  const MsvcFirst: string := "0001" + MsvcAfterSeg
  const MsvcFifth: string := "0005" + MsvcAfterSeg

  /** Either MSVC beginning, then a space and anything, is in the MSVC
      grammar with the segment digits `seg`, address 0x1000 and name
      `_main`. */
  lemma MsvcShapeOf(seg: string, rest: string) returns (t: MsShape)
    requires seg == "0001" || seg == "0005"
    requires NulFree(rest)
    ensures NulFree(seg + MsvcAfterSeg + (" " + rest)) && !StartsWith(seg + MsvcAfterSeg + (" " + rest), ";")
    ensures MsWellFormed(t) && MsText(t) == WorkingCopy(seg + MsvcAfterSeg + (" " + rest), 14)
    ensures t.seg == seg && HexValue(t.addr) == 0x1000 && t.name == "_main"
  {
    var p := seg + MsvcAfterSeg;
    MsvcLineChars(seg, rest);
    var q := " " + rest;
    var tail := Take(q, MAXNAMELEN + 14 - |p|);
    t := MsShape("", seg, "", "", "00001000", "       ", "_main", tail);
    CopyOfAppend(p, q, 14);
    MsvcPieces(seg, tail);
    MsvcTokens(seg, tail);
    OffsetValue();
  }

  lemma MsvcLineChars(seg: string, rest: string)
    requires seg == "0001" || seg == "0005"
    requires NulFree(rest)
    ensures NulFree(seg + MsvcAfterSeg + (" " + rest)) && !StartsWith(seg + MsvcAfterSeg + (" " + rest), ";")
  {
    NulFreeAppend(" ", rest);
    NulFreeAppend(seg, MsvcAfterSeg);
    NulFreeAppend(seg + MsvcAfterSeg, " " + rest);
    assert (seg + MsvcAfterSeg + (" " + rest))[0] == '0';
  }

  /** An MSVC line `0001:00001000       _main` followed by a space and
      anything (the rest of such a line holds the linear address, the type
      and the object file): segment 1 of the map is segment 0 of the
      database, and the name stops at the space. */
  lemma MsvcLine(sym: MapSymbol, rest: string)
    requires NulFree(rest)
    ensures NulFree(MsvcFirst + (" " + rest))
    ensures ParseMsSymbolLine(sym, MsvcFirst + (" " + rest), 14, 4) ==
      Parsed(SymbolLine, MapSymbol(0, 0x1000, "_main"))
  {
    var t := MsvcShapeOf("0001", rest);
    SegmentValues();
    MsDecoded(sym, MsvcFirst + (" " + rest), 14, 4, t);
  }

  /** Segment 5 of the map would be segment 4 of a database that has only
      segments 0 to 3: the line is refused. */
  lemma MsvcSegmentOutOfRange(sym: MapSymbol, rest: string)
    requires NulFree(rest)
    ensures NulFree(MsvcFifth + (" " + rest))
    ensures ParseMsSymbolLine(sym, MsvcFifth + (" " + rest), 14, 4).result == InvalidLine
  {
    var t := MsvcShapeOf("0005", rest);
    SegmentValues();
    MsDecoded(sym, MsvcFifth + (" " + rest), 14, 4, t);
  }

  /** The banner under the Watcom header is skipped. */
  lemma WatcomBanner(sym: MapSymbol)
    ensures ParseWatcomSymbolLine(sym, "=======        ======", 14, 4) == Parsed(SkipLine, sym)
  {
    WatcomSkip(sym, "=======        ======", 14, 4);
  }

  /** A module line is a comment naming the module. */
  lemma WatcomModule(sym: MapSymbol)
    ensures ParseWatcomSymbolLine(sym, "Module: FOO.OBJ", 14, 4) ==
      Parsed(CommentLine, sym.(name := "FOO.OBJ"))
  {
    var line := "Module: FOO.OBJ";
    assert line[..|WATCOM_MEMMAP_COMMENT|] == WATCOM_MEMMAP_COMMENT;
    assert line[|WATCOM_MEMMAP_COMMENT|..] == "FOO.OBJ";
    WatcomComment(sym, line, 14, 4);
  }

  /** Two segments of a 32-bit database. */
  const TwoSegments: SegmentTable := [Segment(0x1000, 0x2000), Segment(0x40_0000, 0x50_0000)]

  predicate Blanks(gap: string) {
    forall i :: 0 <= i < |gap| ==> gap[i] == ' '
  }

  /** A line that starts with "0x" is neither a comment, a skipped line nor
      a LOAD line. */
  lemma GccNotSpecial(line: string)
    requires |line| >= 2 && line[0] == '0' && line[1] == 'x'
    ensures !StartsWith(line, ";") && !GccSkipped(line) && !StartsWithNoCase(line, GCC_MEMMAP_LOAD)
  {
    FirstCharExcludes(line, ";");
    FirstCharExcludes(line, GCC_MEMMAP_SKIP1);
    FirstCharExcludes(line, GCC_MEMMAP_SKIP2);
    FirstCharExcludes(line, GCC_MEMMAP_SKIP3);
    FirstCharExcludes(line, GCC_MEMMAP_SKIP4);
    FirstCharExcludes(line, GCC_MEMMAP_LOAD);
  }

  /** A GNU-ld line with a 32-bit address, blanks and a section name: the
      address is placed in the second segment, 0x1000 into it. */
  lemma GccLine(sym: MapSymbol, gap: string)
    requires 0 < |gap| <= 400 && Blanks(gap)
    ensures NulFree("0x00401000" + (gap + "main.o(.text)"))
    ensures ParseGccSymbolLine(sym, "0x00401000" + (gap + "main.o(.text)"), 14, 2, TwoSegments) ==
      Parsed(SymbolLine, MapSymbol(1, 0x1000, "main.o(.text)"))
  {
    var t := GccShapeOf(gap);
    assert SegmentNumber(TwoSegments, 0x40_1000) == 1;
    GccDecoded(sym, "0x00401000" + (gap + "main.o(.text)"), 14, 2, TwoSegments, t);
  }

  lemma GccShapeOf(gap: string) returns (t: GccShape)
    requires 0 < |gap| <= 400 && Blanks(gap)
    ensures var line := "0x00401000" + (gap + "main.o(.text)");
      && NulFree(line) && !StartsWith(line, ";") && !GccSkipped(line)
      && !StartsWithNoCase(line, GCC_MEMMAP_LOAD)
      && GccWellFormed(t) && GccText(t) == WorkingCopy(line, 14)
      && HexValue(t.addr) == 0x40_1000 && t.name == "main.o(.text)"
  {
    var name := "main.o(.text)";
    GccLineChars("0x00401000", gap, name);
    t := GccShape("", "", "00401000", gap[0], gap[1..], name, "");
    GccPieces(gap, name);
    LinearValues();
  }

  /** A line of a short "0x" beginning, blanks and a short name is NUL-free,
      none of the special GNU-ld lines, and its own working copy. */
  lemma GccLineChars(p: string, gap: string, name: string)
    requires 2 <= |p| <= 20 && p[0] == '0' && p[1] == 'x' && NulFree(p)
    requires |gap| <= 400 && Blanks(gap) && |name| <= 20 && NulFree(name)
    ensures var line := p + (gap + name);
      && NulFree(line) && !StartsWith(line, ";") && !GccSkipped(line)
      && !StartsWithNoCase(line, GCC_MEMMAP_LOAD) && WorkingCopy(line, 14) == line
  {
    NulFreeAppend(gap, name);
    NulFreeAppend(p, gap + name);
    GccNotSpecial(p + (gap + name));
  }

  lemma GccPieces(gap: string, name: string)
    requires |gap| > 0
    ensures GccText(GccShape("", "", "00401000", gap[0], gap[1..], name, "")) ==
      "0x00401000" + (gap + name)
  {
    assert gap == [gap[0]] + gap[1..];
    assert "0x00401000" == "" + (['0', 'x'] + ("" + "00401000"));
  }

  /** What follows the first nine digits of the wide address is one name. */
  lemma WideName(gap: string)
    requires Blanks(gap)
    ensures NameToken("0401000" + (gap + "main.o(.text)"), NAME_STOP)
  {
    var name := "0401000" + (gap + "main.o(.text)");
    forall i | 0 <= i < |name| ensures name[i] !in NAME_STOP {
      if i < 7 {
        assert name[i] == "0401000"[i];
      } else if i < 7 + |gap| {
        assert name[i] == gap[i - 7];
      } else {
        assert name[i] == "main.o(.text)"[i - 7 - |gap|];
      }
    }
  }

  /** A GNU-ld line with a 64-bit address: `%08lX` reads its first eight
      digits, all zeros, `%*c` drops the ninth, and the rest of the address
      becomes part of the name. Address 0 lies in no segment, so the line is
      refused. */
  lemma GccWideLine(sym: MapSymbol, gap: string)
    requires 0 < |gap| <= 400 && Blanks(gap)
    ensures NulFree("0x0000000000401000" + (gap + "main.o(.text)"))
    ensures ParseGccSymbolLine(sym, "0x0000000000401000" + (gap + "main.o(.text)"), 14, 2,
                               TwoSegments).result == InvalidLine
  {
    var t := GccWideShapeOf(gap);
    assert SegmentNumber(TwoSegments, 0) == -1;
    GccDecoded(sym, "0x0000000000401000" + (gap + "main.o(.text)"), 14, 2, TwoSegments, t);
  }

  lemma GccWideShapeOf(gap: string) returns (t: GccShape)
    requires 0 < |gap| <= 400 && Blanks(gap)
    ensures var line := "0x0000000000401000" + (gap + "main.o(.text)");
      && NulFree(line) && !StartsWith(line, ";") && !GccSkipped(line)
      && !StartsWithNoCase(line, GCC_MEMMAP_LOAD)
      && GccWellFormed(t) && GccText(t) == WorkingCopy(line, 14)
      && HexValue(t.addr) == 0
  {
    GccLineChars("0x0000000000401000", gap, "main.o(.text)");
    var name := "0401000" + (gap + "main.o(.text)");
    WideName(gap);
    t := GccShape("", "", "00000000", '0', "", name, "");
    WidePieces(gap + "main.o(.text)");
    LinearValues();
  }

  lemma WidePieces(z: string)
    ensures GccText(GccShape("", "", "00000000", '0', "", "0401000" + z, "")) ==
      "0x0000000000401000" + z
  {
    assert "0x0000000000401000" == "" + (['0', 'x'] + ("" + ("00000000" + (['0'] + "0401000"))));
  }
}
