/** The three `sscanf` formats of the MAP reader, as recognisers written by
    hand for exactly those formats (32-bit build):

      MSVC and Borland  " %04lX : %08lX %[^\t\n ;]"
      Watcom            " %04lX : %08lX%*c %[^\t\n;]"
      GNU-ld            " 0x%08lX%*c %[^\t\n;]"

    A space in the format skips any whitespace; `%<w>lX` skips whitespace
    and reads one to `w` hexadecimal digits, as many as there are; `%*c`
    reads and discards one character, whatever it is; `%[^...]` reads one or
    more characters outside the set. A call succeeds when every conversion
    is assigned. Each recogniser works on what remains of its input, and is
    paired with a description of the lines it accepts as a sequence of
    tokens; the lemmas prove that the two agree in both directions. */
module ScanFormat {
  import opened Text
  import opened Wrappers

  predicate AllSpace(s: string) {
    forall i :: 0 <= i < |s| ==> IsSpace(s[i])
  }

  predicate AllHex(s: string) {
    forall i :: 0 <= i < |s| ==> IsHexDigit(s[i])
  }

  /** What a whitespace directive leaves: `s` without its leading whitespace. */
  function DropSpaces(s: string): (r: string)
    ensures |r| <= |s|
    ensures NulFree(s) ==> NulFree(r)
    ensures r == [] || !IsSpace(r[0])
  {
    if s != [] && IsSpace(s[0]) then DropSpaces(s[1..]) else s
  }

  /** What DropSpaces drops is whitespace, and it keeps the rest as it was. */
  lemma {:induction false} SpacesSplit(s: string) returns (lead: string)
    ensures AllSpace(lead) && s == lead + DropSpaces(s)
  {
    if s != [] && IsSpace(s[0]) {
      var l := SpacesSplit(s[1..]);
      lead := [s[0]] + l;
      assert s == [s[0]] + s[1..];
    } else {
      lead := [];
    }
  }

  /** Whitespace followed by a string that does not start with whitespace
      leaves exactly that string. */
  lemma {:induction false} DropSpacesOver(lead: string, rest: string)
    requires AllSpace(lead)
    requires rest == [] || !IsSpace(rest[0])
    ensures DropSpaces(lead + rest) == rest
    decreases |lead|
  {
    if lead != [] {
      assert (lead + rest)[1..] == lead[1..] + rest;
      DropSpacesOver(lead[1..], rest);
    }
  }

  /** The number of hexadecimal digits `s` starts with, at most `w`. */
  function HexPrefixLen(s: string, w: nat): (n: nat)
    ensures n <= w && n <= |s| && AllHex(s[..n])
    ensures n == w || n == |s| || !IsHexDigit(s[n])
    decreases w
  {
    if w > 0 && s != [] && IsHexDigit(s[0]) then
      var n := 1 + HexPrefixLen(s[1..], w - 1);
      assert s[..n] == [s[0]] + s[1..][..n - 1];
      n
    else 0
  }

  lemma {:induction false} HexPrefixLenOver(digits: string, rest: string, w: nat)
    requires |digits| <= w && AllHex(digits)
    requires |digits| == w || rest == [] || !IsHexDigit(rest[0])
    ensures HexPrefixLen(digits + rest, w) == |digits|
    decreases |digits|
  {
    if digits != [] {
      assert (digits + rest)[1..] == digits[1..] + rest;
      HexPrefixLenOver(digits[1..], rest, w - 1);
    }
  }

  lemma {:induction false} Pow16Monotone(m: nat, n: nat)
    requires m <= n
    ensures Pow16(m) <= Pow16(n)
    decreases n
  {
    if m < n {
      Pow16Monotone(m, n - 1);
    }
  }

  lemma Pow16Values()
    ensures Pow16(4) == 0x1_0000
    ensures Pow16(8) == 0x1_0000_0000
  {
    assert Pow16(2) == 0x100;
    assert Pow16(4) == 0x1_0000;
    assert Pow16(6) == 0x100_0000;
  }

  /** `%<w>lX`: skip whitespace, read one to `w` hexadecimal digits; the
      value and what remains. */
  function ScanHex(s: string, w: nat): (r: Option<(nat, string)>)
    ensures r.Some? ==> r.value.0 < Pow16(w) && |r.value.1| < |s|
    ensures r.Some? && w == 4 ==> r.value.0 < 0x1_0000
    ensures r.Some? && w == 8 ==> r.value.0 < 0x1_0000_0000
    ensures r.Some? && NulFree(s) ==> NulFree(r.value.1)
  {
    Pow16Values();
    var t := DropSpaces(s);
    var n := HexPrefixLen(t, w);
    if n == 0 then None
    else
      HexValueBound(t[..n]);
      Pow16Monotone(n, w);
      Some((HexValue(t[..n]), t[n..]))
  }

  /** An accepted `%<w>lX` is whitespace, then digits, then the rest. */
  lemma HexSplit(s: string, w: nat) returns (lead: string, digits: string)
    requires ScanHex(s, w).Some?
    ensures AllSpace(lead) && 1 <= |digits| <= w && AllHex(digits)
    ensures s == lead + (digits + ScanHex(s, w).value.1)
    ensures ScanHex(s, w).value.0 == HexValue(digits)
    ensures var rest := ScanHex(s, w).value.1;
      |digits| == w || rest == [] || !IsHexDigit(rest[0])
  {
    lead := SpacesSplit(s);
    var t := DropSpaces(s);
    var n := HexPrefixLen(t, w);
    digits := t[..n];
    assert t == digits + t[n..];
  }

  /** Whitespace, digits, and a rest that does not go on with a digit (or
      `w` digits) are read as those digits. */
  lemma HexOver(lead: string, digits: string, rest: string, w: nat)
    requires AllSpace(lead) && 1 <= |digits| <= w && AllHex(digits)
    requires |digits| == w || rest == [] || !IsHexDigit(rest[0])
    ensures ScanHex(lead + (digits + rest), w) == Some((HexValue(digits), rest))
  {
    DropSpacesOver(lead, digits + rest);
    HexPrefixLenOver(digits, rest, w);
    assert (digits + rest)[..|digits|] == digits;
    assert (digits + rest)[|digits|..] == rest;
  }

  /** The number of characters `s` starts with that are not in `stop`. */
  function StopFreeLen(s: string, stop: string): (n: nat)
    ensures n <= |s|
    ensures forall i :: 0 <= i < n ==> s[i] !in stop
    ensures n == |s| || s[n] in stop
  {
    if s != [] && s[0] !in stop then 1 + StopFreeLen(s[1..], stop) else 0
  }

  lemma {:induction false} StopFreeLenOver(name: string, rest: string, stop: string)
    requires forall i :: 0 <= i < |name| ==> name[i] !in stop
    requires rest == [] || rest[0] in stop
    ensures StopFreeLen(name + rest, stop) == |name|
    decreases |name|
  {
    if name != [] {
      assert (name + rest)[1..] == name[1..] + rest;
      StopFreeLenOver(name[1..], rest, stop);
    }
  }

  /** `%[^stop]`: one or more characters outside `stop`, and what remains. */
  function ScanSet(s: string, stop: string): (r: Option<(string, string)>)
    ensures r.Some? ==> |r.value.0| > 0 && s == r.value.0 + r.value.1 && r.value.0[0] == s[0]
    ensures r.Some? ==> forall i :: 0 <= i < |r.value.0| ==> r.value.0[i] !in stop
    ensures r.Some? ==> EndsName(r.value.1, stop)
  {
    var n := StopFreeLen(s, stop);
    if n == 0 then None
    else
      assert s == s[..n] + s[n..];
      Some((s[..n], s[n..]))
  }

  /** The characters that end a name in each format. */
  const MS_NAME_STOP: string := "\t\n ;"
  const NAME_STOP: string := "\t\n;"

  /** What a successful call assigns. */
  datatype Fields = Fields(seg: nat, addr: nat, name: string)
  datatype GccFields = GccFields(linear: nat, name: string)

  /** A name token: it does not start with whitespace (the directive before
      it would have skipped that) and holds nothing from `stop`. */
  predicate NameToken(name: string, stop: string) {
    |name| > 0 && !IsSpace(name[0]) && forall i :: 0 <= i < |name| ==> name[i] !in stop
  }

  /** What follows a name token starts with a stop character, if anything. */
  predicate EndsName(tail: string, stop: string) {
    tail == [] || tail[0] in stop
  }

  /** The name directive: whitespace, then `%[^stop]`. */
  function ScanName(s: string, stop: string): (r: Option<string>)
    ensures r.Some? ==> NameToken(r.value, stop)
    ensures r.Some? && NulFree(s) ==> NulFree(r.value)
  {
    match ScanSet(DropSpaces(s), stop)
    case None => None
    case Some((name, _)) => Some(name)
  }

  lemma NameSplit(s: string, stop: string) returns (lead: string, tail: string)
    requires ScanName(s, stop).Some?
    ensures AllSpace(lead) && EndsName(tail, stop)
    ensures s == lead + (ScanName(s, stop).value + tail)
  {
    lead := SpacesSplit(s);
    tail := ScanSet(DropSpaces(s), stop).value.1;
  }

  lemma NameOver(lead: string, name: string, tail: string, stop: string)
    requires AllSpace(lead) && NameToken(name, stop) && EndsName(tail, stop)
    ensures ScanName(lead + (name + tail), stop) == Some(name)
  {
    DropSpacesOver(lead, name + tail);
    StopFreeLenOver(name, tail, stop);
    assert (name + tail)[..|name|] == name;
  }

  // ---------------------------------------------------------------------
  // " %04lX :", the part the MSVC and Watcom formats share. The spaces in
  // front of a conversion add nothing, since `%lX` skips whitespace itself.

  /** The segment number and what follows the ':'. */
  function ScanSegColon(s: string): (r: Option<(nat, string)>)
    ensures r.Some? ==> r.value.0 < 0x1_0000
    ensures r.Some? && NulFree(s) ==> NulFree(r.value.1)
  {
    match ScanHex(s, 4)
    case None => None
    case Some((seg, r1)) =>
      var r2 := DropSpaces(r1);
      if r2 == [] || r2[0] != ':' then None else Some((seg, r2[1..]))
  }

  /** Whitespace, one to four digits and whitespace before the ':'. */
  predicate SegColonWellFormed(lead: string, seg: string, gap: string) {
    AllSpace(lead) && 1 <= |seg| <= 4 && AllHex(seg) && AllSpace(gap)
  }

  lemma SegColonOver(lead: string, seg: string, gap: string, z: string)
    requires SegColonWellFormed(lead, seg, gap)
    ensures ScanSegColon(lead + (seg + (gap + ([':'] + z)))) == Some((HexValue(seg), z))
  {
    HexOver(lead, seg, gap + ([':'] + z), 4);
    DropSpacesOver(gap, [':'] + z);
    assert ([':'] + z)[1..] == z;
  }

  lemma SegColonSplit(s: string) returns (lead: string, seg: string, gap: string)
    requires ScanSegColon(s).Some?
    ensures SegColonWellFormed(lead, seg, gap)
    ensures s == lead + (seg + (gap + ([':'] + ScanSegColon(s).value.1)))
  {
    lead, seg := HexSplit(s, 4);
    gap := ColonSplit(ScanHex(s, 4).value.1);
  }

  lemma ColonSplit(r1: string) returns (gap: string)
    requires DropSpaces(r1) != [] && DropSpaces(r1)[0] == ':'
    ensures AllSpace(gap) && r1 == gap + ([':'] + DropSpaces(r1)[1..])
  {
    gap := SpacesSplit(r1);
    var r2 := DropSpaces(r1);
    assert r2 == [':'] + r2[1..];
  }

  // ---------------------------------------------------------------------
  // " %08lX %[^\t\n ;]", what follows the ':' in the MSVC format

  function ScanMsAddrName(z: string): (r: Option<(nat, string)>)
    ensures r.Some? ==> r.value.0 < 0x1_0000_0000 && NameToken(r.value.1, MS_NAME_STOP)
    ensures r.Some? && NulFree(z) ==> NulFree(r.value.1)
  {
    match ScanHex(z, 8)
    case None => None
    case Some((addr, r4)) =>
      match ScanName(r4, MS_NAME_STOP)
      case None => None
      case Some(name) => Some((addr, name))
  }

  /** Whitespace, one to eight digits, whitespace, the name and the rest;
      where no whitespace follows the digits, they stop on their own. */
  predicate MsAddrNameWellFormed(gap0: string, addr: string, gap: string, name: string, tail: string) {
    && AllSpace(gap0) && 1 <= |addr| <= 8 && AllHex(addr) && AllSpace(gap)
    && NameToken(name, MS_NAME_STOP)
    && (|gap| > 0 || |addr| == 8 || !IsHexDigit(name[0]))
    && EndsName(tail, MS_NAME_STOP)
  }

  lemma MsAddrNameOver(gap0: string, addr: string, gap: string, name: string, tail: string)
    requires MsAddrNameWellFormed(gap0, addr, gap, name, tail)
    ensures ScanMsAddrName(gap0 + (addr + (gap + (name + tail)))) == Some((HexValue(addr), name))
  {
    HexOver(gap0, addr, gap + (name + tail), 8);
    NameOver(gap, name, tail, MS_NAME_STOP);
  }

  lemma MsAddrNameSplit(z: string) returns (gap0: string, addr: string, gap: string,
                                            name: string, tail: string)
    requires ScanMsAddrName(z).Some?
    ensures MsAddrNameWellFormed(gap0, addr, gap, name, tail)
    ensures z == gap0 + (addr + (gap + (name + tail)))
  {
    gap0, addr := HexSplit(z, 8);
    var r4 := ScanHex(z, 8).value.1;
    gap, tail := NameSplit(r4, MS_NAME_STOP);
    name := ScanName(r4, MS_NAME_STOP).value;
    assert |gap| == 0 ==> r4[0] == name[0];
  }

  // ---------------------------------------------------------------------
  // "%08lX%*c %[^\t\n;]", what follows the ':' in the Watcom format and
  // the "0x" in the GNU-ld one

  function ScanAddrName(z: string): (r: Option<(nat, string)>)
    ensures r.Some? ==> r.value.0 < 0x1_0000_0000 && NameToken(r.value.1, NAME_STOP)
    ensures r.Some? && NulFree(z) ==> NulFree(r.value.1)
  {
    match ScanHex(z, 8)
    case None => None
    case Some((addr, r4)) =>
      // `%*c` needs a character to discard
      if r4 == [] then None
      else
        match ScanName(r4[1..], NAME_STOP)
        case None => None
        case Some(name) => Some((addr, name))
  }

  /** Whitespace, the address digits, the discarded character, whitespace,
      the name and the rest. */
  predicate AddrNameWellFormed(gap0: string, addr: string, skipped: char, gap: string,
                               name: string, tail: string) {
    && AllSpace(gap0) && 1 <= |addr| <= 8 && AllHex(addr)
    && (|addr| == 8 || !IsHexDigit(skipped))
    && AllSpace(gap) && NameToken(name, NAME_STOP) && EndsName(tail, NAME_STOP)
  }

  lemma AddrNameOver(gap0: string, addr: string, skipped: char, gap: string, name: string, tail: string)
    requires AddrNameWellFormed(gap0, addr, skipped, gap, name, tail)
    ensures ScanAddrName(gap0 + (addr + ([skipped] + (gap + (name + tail))))) == Some((HexValue(addr), name))
  {
    var g := gap + (name + tail);
    var r4 := [skipped] + g;
    HexOver(gap0, addr, r4, 8);
    assert r4[1..] == g;
    NameOver(gap, name, tail, NAME_STOP);
  }

  lemma AddrNameSplit(z: string) returns (gap0: string, addr: string, skipped: char,
                                          gap: string, name: string, tail: string)
    requires ScanAddrName(z).Some?
    ensures AddrNameWellFormed(gap0, addr, skipped, gap, name, tail)
    ensures z == gap0 + (addr + ([skipped] + (gap + (name + tail))))
  {
    gap0, addr := HexSplit(z, 8);
    var r4 := ScanHex(z, 8).value.1;
    skipped := r4[0];
    assert r4 == [skipped] + r4[1..];
    gap, tail := NameSplit(r4[1..], NAME_STOP);
    name := ScanName(r4[1..], NAME_STOP).value;
  }

  // ---------------------------------------------------------------------
  // MSVC and Borland: " %04lX : %08lX %[^\t\n ;]"

  function ScanMs(s: string): (r: Option<Fields>)
    ensures r.Some? ==> r.value.seg < 0x1_0000 && r.value.addr < 0x1_0000_0000
    ensures r.Some? ==> NameToken(r.value.name, MS_NAME_STOP)
    ensures r.Some? && NulFree(s) ==> NulFree(r.value.name)
  {
    match ScanSegColon(s)
    case None => None
    case Some((seg, z)) =>
      match ScanMsAddrName(z)
      case None => None
      case Some((addr, name)) => Some(Fields(seg, addr, name))
  }

  /** A line of this grammar, cut into its tokens: whitespace, one to four
      digits of segment, whitespace, ':', whitespace, one to eight digits of
      address, whitespace, the name, and whatever follows it. */
  datatype MsShape = MsShape(lead: string, seg: string, gap1: string, gap2: string,
                             addr: string, gap3: string, name: string, tail: string)

  function MsText(t: MsShape): string {
    t.lead + (t.seg + (t.gap1 + ([':'] + (t.gap2 + (t.addr + (t.gap3 + (t.name + t.tail)))))))
  }

  predicate MsWellFormed(t: MsShape) {
    && SegColonWellFormed(t.lead, t.seg, t.gap1)
    && MsAddrNameWellFormed(t.gap2, t.addr, t.gap3, t.name, t.tail)
  }

  /** Every line of the grammar is accepted, with the values its tokens
      spell. */
  lemma MsComplete(t: MsShape)
    requires MsWellFormed(t)
    ensures ScanMs(MsText(t)) == Some(Fields(HexValue(t.seg), HexValue(t.addr), t.name))
  {
    var z := t.gap2 + (t.addr + (t.gap3 + (t.name + t.tail)));
    SegColonOver(t.lead, t.seg, t.gap1, z);
    MsAddrNameOver(t.gap2, t.addr, t.gap3, t.name, t.tail);
  }

  /** Every accepted line is a line of the grammar. */
  lemma MsSound(s: string) returns (t: MsShape)
    requires ScanMs(s).Some?
    ensures MsWellFormed(t) && MsText(t) == s
  {
    var lead, seg, gap1 := SegColonSplit(s);
    var z := ScanSegColon(s).value.1;
    var gap2, addr, gap3, name, tail := MsAddrNameSplit(z);
    t := MsShape(lead, seg, gap1, gap2, addr, gap3, name, tail);
  }

  // ---------------------------------------------------------------------
  // Watcom: " %04lX : %08lX%*c %[^\t\n;]"

  function ScanWatcom(s: string): (r: Option<Fields>)
    ensures r.Some? ==> r.value.seg < 0x1_0000 && r.value.addr < 0x1_0000_0000
    ensures r.Some? ==> NameToken(r.value.name, NAME_STOP)
    ensures r.Some? && NulFree(s) ==> NulFree(r.value.name)
  {
    match ScanSegColon(s)
    case None => None
    case Some((seg, z)) =>
      match ScanAddrName(z)
      case None => None
      case Some((addr, name)) => Some(Fields(seg, addr, name))
  }

  /** As MsShape, with the one character `%*c` discards after the address. */
  datatype WatcomShape = WatcomShape(lead: string, seg: string, gap1: string, gap2: string,
                                     addr: string, skipped: char, gap3: string, name: string, tail: string)

  function WatcomText(t: WatcomShape): string {
    t.lead + (t.seg + (t.gap1 + ([':'] + (t.gap2 + (t.addr + ([t.skipped] + (t.gap3 + (t.name + t.tail))))))))
  }

  predicate WatcomWellFormed(t: WatcomShape) {
    && SegColonWellFormed(t.lead, t.seg, t.gap1)
    && AddrNameWellFormed(t.gap2, t.addr, t.skipped, t.gap3, t.name, t.tail)
  }

  lemma WatcomComplete(t: WatcomShape)
    requires WatcomWellFormed(t)
    ensures ScanWatcom(WatcomText(t)) == Some(Fields(HexValue(t.seg), HexValue(t.addr), t.name))
  {
    var z := t.gap2 + (t.addr + ([t.skipped] + (t.gap3 + (t.name + t.tail))));
    SegColonOver(t.lead, t.seg, t.gap1, z);
    AddrNameOver(t.gap2, t.addr, t.skipped, t.gap3, t.name, t.tail);
  }

  lemma WatcomSound(s: string) returns (t: WatcomShape)
    requires ScanWatcom(s).Some?
    ensures WatcomWellFormed(t) && WatcomText(t) == s
  {
    var lead, seg, gap1 := SegColonSplit(s);
    var z := ScanSegColon(s).value.1;
    var gap2, addr, skipped, gap3, name, tail := AddrNameSplit(z);
    t := WatcomShape(lead, seg, gap1, gap2, addr, skipped, gap3, name, tail);
  }

  // ---------------------------------------------------------------------
  // GNU-ld: " 0x%08lX%*c %[^\t\n;]"

  function ScanGcc(s: string): (r: Option<GccFields>)
    ensures r.Some? ==> r.value.linear < 0x1_0000_0000
    ensures r.Some? ==> NameToken(r.value.name, NAME_STOP)
    ensures r.Some? && NulFree(s) ==> NulFree(r.value.name)
  {
    var r0 := DropSpaces(s);
    if |r0| < 2 || r0[0] != '0' || r0[1] != 'x' then None
    else
      match ScanAddrName(r0[2..])
      case None => None
      case Some((linear, name)) => Some(GccFields(linear, name))
  }

  /** Whitespace, "0x", whitespace (which `%lX` skips), one to eight digits,
      the discarded character, whitespace, the name, and what follows. */
  datatype GccShape = GccShape(lead: string, gap0: string, addr: string, skipped: char,
                               gap: string, name: string, tail: string)

  function GccText(t: GccShape): string {
    t.lead + (['0', 'x'] + (t.gap0 + (t.addr + ([t.skipped] + (t.gap + (t.name + t.tail))))))
  }

  predicate GccWellFormed(t: GccShape) {
    AllSpace(t.lead) && AddrNameWellFormed(t.gap0, t.addr, t.skipped, t.gap, t.name, t.tail)
  }

  lemma GccComplete(t: GccShape)
    requires GccWellFormed(t)
    ensures ScanGcc(GccText(t)) == Some(GccFields(HexValue(t.addr), t.name))
  {
    var z := t.gap0 + (t.addr + ([t.skipped] + (t.gap + (t.name + t.tail))));
    var x1 := ['0', 'x'] + z;
    DropSpacesOver(t.lead, x1);
    assert x1[2..] == z;
    AddrNameOver(t.gap0, t.addr, t.skipped, t.gap, t.name, t.tail);
  }

  lemma GccSound(s: string) returns (t: GccShape)
    requires ScanGcc(s).Some?
    ensures GccWellFormed(t) && GccText(t) == s
  {
    var lead := PrefixSplit(s);
    var z := DropSpaces(s)[2..];
    var gap0, addr, skipped, gap, name, tail := AddrNameSplit(z);
    t := GccShape(lead, gap0, addr, skipped, gap, name, tail);
  }

  lemma PrefixSplit(s: string) returns (lead: string)
    requires |DropSpaces(s)| >= 2 && DropSpaces(s)[0] == '0' && DropSpaces(s)[1] == 'x'
    ensures AllSpace(lead) && s == lead + (['0', 'x'] + DropSpaces(s)[2..])
  {
    lead := SpacesSplit(s);
    var r0 := DropSpaces(s);
    assert r0 == ['0', 'x'] + r0[2..];
  }

}
