/** The types and constants that the MAP reader's header declares: the kinds
    of section, the outcome of parsing one line, the result of opening a
    file, the symbol record and the bound on a symbol's name. The build
    modelled is the 32-bit one, where `unsigned long` and IDA's addresses
    are 32 bits wide. */
module MapTypes {
  import opened Text

  /** Length of a name without its terminator; `MAPSymbol.name` holds one
      more byte so that index MAXNAMELEN is always a terminator slot. */
  const MAXNAMELEN: nat := 512

  /** Values of an `unsigned long` in the 32-bit build. */
  type U32 = x: int | 0 <= x < 0x1_0000_0000

  /** The all-ones value: `-1` stored in an `unsigned long`, and IDA's
      BADADDR in the 32-bit build. */
  const ALL_ONES: U32 := 0xFFFF_FFFF
  const BADADDR: U32 := ALL_ONES

  /** The kinds of section the reader recognises. The newer reader adds
      GccMap; the older header declares only the other five. */
  datatype SectionType = NoSection | MsvcMap | BcclNamMap | BcclValMap | WatcomMap | GccMap

  /** The section kinds of the older header, which has no GNU-ld value. */
  type TrunkSectionType = s: SectionType | !s.GccMap? witness NoSection

  /** The numeric value of each enumerator of the older header. */
  function SectionOrdinal(s: TrunkSectionType): (n: nat)
    ensures n < 5
    ensures n == 0 <==> s == NoSection
  {
    match s
    case NoSection => 0
    case MsvcMap => 1
    case BcclNamMap => 2
    case BcclValMap => 3
    case WatcomMap => 4
  }

  /** Result of opening a MAP file. Opening is not modelled; the parser is
      only ever given a buffer for which the result was OpenNoError. */
  datatype MapResult = OpenNoError | Win32Error | FileEmptyError | FileBinaryError

  /** What parsing one line yields. */
  datatype ParseResult = SkipLine | InvalidLine | FinishingLine | CommentLine | SymbolLine

  /** One symbol: segment number, address and name. */
  datatype MapSymbol = MapSymbol(seg: U32, addr: U32, name: string)

  /** The name fits `char name[MAXNAMELEN + 1]` with its terminator. */
  predicate NameFits(sym: MapSymbol) {
    |sym.name| <= MAXNAMELEN && NulFree(sym.name)
  }
}
