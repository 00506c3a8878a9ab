/** The property names of the rewrite pass: the chain of comparisons, and which name takes which
    branch, the names written as their bytes. */
module DtNames {
  import opened Endian
  import opened DtTokens
  import StrView

  /** Which branch of the name comparisons a property takes. */
  datatype Kind =
    | CompatibleProp | TextProp | WordProp | StatusProp | AddressCellsProp | SizeCellsProp
    | DmaProp(coherent: bool) | ControllerProp | RegProp | RangesProp | OtherProp

  function Ascii(s: string): bytes {
    seq(|s|, i requires 0 <= i < |s| => if s[i] < 256 as char then s[i] as int else 0)
  }

  /** `str_view::compare(literal, name) == 0`, which is equality. */
  predicate Is(name: bytes, literal: string): (b: bool)
    ensures b <==> name == Ascii(literal)
  {
    StrView.CompareIsOrder(Ascii(literal), name);
    StrView.Compare(Ascii(literal), name) == 0
  }

  /** The chain of comparisons, `model` and `device_type` being text and `phandle`,
      `virtual-reg`, `interrupt-parent` and `#interrupt-cells` one word each. */
  function KindOf(name: bytes): Kind {
    if Is(name, "compatible") then CompatibleProp
    else if Is(name, "model") then TextProp
    else if Is(name, "phandle") then WordProp
    else if Is(name, "status") then StatusProp
    else if Is(name, "#address-cells") then AddressCellsProp
    else if Is(name, "#size-cells") then SizeCellsProp
    else if Is(name, "dma-coherent") then DmaProp(true)
    else if Is(name, "dma-noncoherent") then DmaProp(false)
    else if Is(name, "device_type") then TextProp
    else if Is(name, "virtual-reg") then WordProp
    else if Is(name, "interrupt-parent") then WordProp
    else if Is(name, "#interrupt-cells") then WordProp
    else if Is(name, "interrupt-controller") then ControllerProp
    else if Is(name, "reg") then RegProp
    else if Is(name, "ranges") || Is(name, "bus-ranges") then RangesProp
    else OtherProp
  }

  // ---------------------------------------------------------------- the names in bytes

  const COMPATIBLE: bytes := [99, 111, 109, 112, 97, 116, 105, 98, 108, 101]
  const MODEL: bytes := [109, 111, 100, 101, 108]
  const PHANDLE: bytes := [112, 104, 97, 110, 100, 108, 101]
  const STATUS: bytes := [115, 116, 97, 116, 117, 115]
  const ADDRESS_CELLS: bytes := [35, 97, 100, 100, 114, 101, 115, 115, 45, 99, 101, 108, 108, 115]
  const SIZE_CELLS: bytes := [35, 115, 105, 122, 101, 45, 99, 101, 108, 108, 115]
  const DMA_COHERENT: bytes := [100, 109, 97, 45, 99, 111, 104, 101, 114, 101, 110, 116]
  const DMA_NONCOHERENT: bytes := [100, 109, 97, 45, 110, 111, 110, 99, 111, 104, 101, 114, 101, 110, 116]
  const DEVICE_TYPE: bytes := [100, 101, 118, 105, 99, 101, 95, 116, 121, 112, 101]
  const VIRTUAL_REG: bytes := [118, 105, 114, 116, 117, 97, 108, 45, 114, 101, 103]
  const INTERRUPT_PARENT: bytes := [105, 110, 116, 101, 114, 114, 117, 112, 116, 45, 112, 97, 114, 101, 110, 116]
  const INTERRUPT_CELLS: bytes := [35, 105, 110, 116, 101, 114, 114, 117, 112, 116, 45, 99, 101, 108, 108, 115]
  const INTERRUPT_CONTROLLER: bytes := [105, 110, 116, 101, 114, 114, 117, 112, 116, 45, 99, 111, 110, 116, 114, 111, 108, 108, 101, 114]
  const REG: bytes := [114, 101, 103]
  const RANGES: bytes := [114, 97, 110, 103, 101, 115]
  const BUS_RANGES: bytes := [98, 117, 115, 45, 114, 97, 110, 103, 101, 115]

  /** The literals of the chain are these bytes. */
  lemma Spelling()
    ensures Ascii("compatible") == COMPATIBLE
    ensures Ascii("model") == MODEL
    ensures Ascii("phandle") == PHANDLE
    ensures Ascii("status") == STATUS
    ensures Ascii("#address-cells") == ADDRESS_CELLS
    ensures Ascii("#size-cells") == SIZE_CELLS
    ensures Ascii("dma-coherent") == DMA_COHERENT
    ensures Ascii("dma-noncoherent") == DMA_NONCOHERENT
    ensures Ascii("device_type") == DEVICE_TYPE
    ensures Ascii("virtual-reg") == VIRTUAL_REG
    ensures Ascii("interrupt-parent") == INTERRUPT_PARENT
    ensures Ascii("#interrupt-cells") == INTERRUPT_CELLS
    ensures Ascii("interrupt-controller") == INTERRUPT_CONTROLLER
    ensures Ascii("reg") == REG
    ensures Ascii("ranges") == RANGES
    ensures Ascii("bus-ranges") == BUS_RANGES
  {
    SpellCompatible();
    SpellModel();
    SpellPhandle();
    SpellStatus();
    SpellAddressCells();
    SpellSizeCells();
    SpellDmaCoherent();
    SpellDmaNoncoherent();
    SpellDeviceType();
    SpellVirtualReg();
    SpellInterruptParent();
    SpellInterruptCells();
    SpellInterruptController();
    SpellReg();
    SpellRanges();
    SpellBusRanges();
  }

  lemma SpellCompatible()
    ensures Ascii("compatible") == COMPATIBLE
  {
    var s, t := "compatible", COMPATIBLE;
    assert |s| == |t| == 10;
    assert s[0] == 'c' && Ascii(s)[0] == 99;
    assert s[1] == 'o' && Ascii(s)[1] == 111;
    assert s[2] == 'm' && Ascii(s)[2] == 109;
    assert s[3] == 'p' && Ascii(s)[3] == 112;
    assert s[4] == 'a' && Ascii(s)[4] == 97;
    assert s[5] == 't' && Ascii(s)[5] == 116;
    assert s[6] == 'i' && Ascii(s)[6] == 105;
    assert s[7] == 'b' && Ascii(s)[7] == 98;
    assert s[8] == 'l' && Ascii(s)[8] == 108;
    assert s[9] == 'e' && Ascii(s)[9] == 101;
  }

  lemma SpellModel()
    ensures Ascii("model") == MODEL
  {
    var s, t := "model", MODEL;
    assert |s| == |t| == 5;
    assert s[0] == 'm' && Ascii(s)[0] == 109;
    assert s[1] == 'o' && Ascii(s)[1] == 111;
    assert s[2] == 'd' && Ascii(s)[2] == 100;
    assert s[3] == 'e' && Ascii(s)[3] == 101;
    assert s[4] == 'l' && Ascii(s)[4] == 108;
  }

  lemma SpellPhandle()
    ensures Ascii("phandle") == PHANDLE
  {
    var s, t := "phandle", PHANDLE;
    assert |s| == |t| == 7;
    assert s[0] == 'p' && Ascii(s)[0] == 112;
    assert s[1] == 'h' && Ascii(s)[1] == 104;
    assert s[2] == 'a' && Ascii(s)[2] == 97;
    assert s[3] == 'n' && Ascii(s)[3] == 110;
    assert s[4] == 'd' && Ascii(s)[4] == 100;
    assert s[5] == 'l' && Ascii(s)[5] == 108;
    assert s[6] == 'e' && Ascii(s)[6] == 101;
  }

  lemma SpellStatus()
    ensures Ascii("status") == STATUS
  {
    var s, t := "status", STATUS;
    assert |s| == |t| == 6;
    assert s[0] == 's' && Ascii(s)[0] == 115;
    assert s[1] == 't' && Ascii(s)[1] == 116;
    assert s[2] == 'a' && Ascii(s)[2] == 97;
    assert s[3] == 't' && Ascii(s)[3] == 116;
    assert s[4] == 'u' && Ascii(s)[4] == 117;
    assert s[5] == 's' && Ascii(s)[5] == 115;
  }

  lemma SpellAddressCells()
    ensures Ascii("#address-cells") == ADDRESS_CELLS
  {
    var s, t := "#address-cells", ADDRESS_CELLS;
    assert |s| == |t| == 14;
    assert s[0] == '#' && Ascii(s)[0] == 35;
    assert s[1] == 'a' && Ascii(s)[1] == 97;
    assert s[2] == 'd' && Ascii(s)[2] == 100;
    assert s[3] == 'd' && Ascii(s)[3] == 100;
    assert s[4] == 'r' && Ascii(s)[4] == 114;
    assert s[5] == 'e' && Ascii(s)[5] == 101;
    assert s[6] == 's' && Ascii(s)[6] == 115;
    assert s[7] == 's' && Ascii(s)[7] == 115;
    assert s[8] == '-' && Ascii(s)[8] == 45;
    assert s[9] == 'c' && Ascii(s)[9] == 99;
    assert s[10] == 'e' && Ascii(s)[10] == 101;
    assert s[11] == 'l' && Ascii(s)[11] == 108;
    assert s[12] == 'l' && Ascii(s)[12] == 108;
    assert s[13] == 's' && Ascii(s)[13] == 115;
  }

  lemma SpellSizeCells()
    ensures Ascii("#size-cells") == SIZE_CELLS
  {
    var s, t := "#size-cells", SIZE_CELLS;
    assert |s| == |t| == 11;
    assert s[0] == '#' && Ascii(s)[0] == 35;
    assert s[1] == 's' && Ascii(s)[1] == 115;
    assert s[2] == 'i' && Ascii(s)[2] == 105;
    assert s[3] == 'z' && Ascii(s)[3] == 122;
    assert s[4] == 'e' && Ascii(s)[4] == 101;
    assert s[5] == '-' && Ascii(s)[5] == 45;
    assert s[6] == 'c' && Ascii(s)[6] == 99;
    assert s[7] == 'e' && Ascii(s)[7] == 101;
    assert s[8] == 'l' && Ascii(s)[8] == 108;
    assert s[9] == 'l' && Ascii(s)[9] == 108;
    assert s[10] == 's' && Ascii(s)[10] == 115;
  }

  lemma SpellDmaCoherent()
    ensures Ascii("dma-coherent") == DMA_COHERENT
  {
    var s, t := "dma-coherent", DMA_COHERENT;
    assert |s| == |t| == 12;
    assert s[0] == 'd' && Ascii(s)[0] == 100;
    assert s[1] == 'm' && Ascii(s)[1] == 109;
    assert s[2] == 'a' && Ascii(s)[2] == 97;
    assert s[3] == '-' && Ascii(s)[3] == 45;
    assert s[4] == 'c' && Ascii(s)[4] == 99;
    assert s[5] == 'o' && Ascii(s)[5] == 111;
    assert s[6] == 'h' && Ascii(s)[6] == 104;
    assert s[7] == 'e' && Ascii(s)[7] == 101;
    assert s[8] == 'r' && Ascii(s)[8] == 114;
    assert s[9] == 'e' && Ascii(s)[9] == 101;
    assert s[10] == 'n' && Ascii(s)[10] == 110;
    assert s[11] == 't' && Ascii(s)[11] == 116;
  }

  lemma SpellDmaNoncoherent()
    ensures Ascii("dma-noncoherent") == DMA_NONCOHERENT
  {
    var s, t := "dma-noncoherent", DMA_NONCOHERENT;
    assert |s| == |t| == 15;
    assert s[0] == 'd' && Ascii(s)[0] == 100;
    assert s[1] == 'm' && Ascii(s)[1] == 109;
    assert s[2] == 'a' && Ascii(s)[2] == 97;
    assert s[3] == '-' && Ascii(s)[3] == 45;
    assert s[4] == 'n' && Ascii(s)[4] == 110;
    assert s[5] == 'o' && Ascii(s)[5] == 111;
    assert s[6] == 'n' && Ascii(s)[6] == 110;
    assert s[7] == 'c' && Ascii(s)[7] == 99;
    assert s[8] == 'o' && Ascii(s)[8] == 111;
    assert s[9] == 'h' && Ascii(s)[9] == 104;
    assert s[10] == 'e' && Ascii(s)[10] == 101;
    assert s[11] == 'r' && Ascii(s)[11] == 114;
    assert s[12] == 'e' && Ascii(s)[12] == 101;
    assert s[13] == 'n' && Ascii(s)[13] == 110;
    assert s[14] == 't' && Ascii(s)[14] == 116;
  }

  lemma SpellDeviceType()
    ensures Ascii("device_type") == DEVICE_TYPE
  {
    var s, t := "device_type", DEVICE_TYPE;
    assert |s| == |t| == 11;
    assert s[0] == 'd' && Ascii(s)[0] == 100;
    assert s[1] == 'e' && Ascii(s)[1] == 101;
    assert s[2] == 'v' && Ascii(s)[2] == 118;
    assert s[3] == 'i' && Ascii(s)[3] == 105;
    assert s[4] == 'c' && Ascii(s)[4] == 99;
    assert s[5] == 'e' && Ascii(s)[5] == 101;
    assert s[6] == '_' && Ascii(s)[6] == 95;
    assert s[7] == 't' && Ascii(s)[7] == 116;
    assert s[8] == 'y' && Ascii(s)[8] == 121;
    assert s[9] == 'p' && Ascii(s)[9] == 112;
    assert s[10] == 'e' && Ascii(s)[10] == 101;
  }

  lemma SpellVirtualReg()
    ensures Ascii("virtual-reg") == VIRTUAL_REG
  {
    var s, t := "virtual-reg", VIRTUAL_REG;
    assert |s| == |t| == 11;
    assert s[0] == 'v' && Ascii(s)[0] == 118;
    assert s[1] == 'i' && Ascii(s)[1] == 105;
    assert s[2] == 'r' && Ascii(s)[2] == 114;
    assert s[3] == 't' && Ascii(s)[3] == 116;
    assert s[4] == 'u' && Ascii(s)[4] == 117;
    assert s[5] == 'a' && Ascii(s)[5] == 97;
    assert s[6] == 'l' && Ascii(s)[6] == 108;
    assert s[7] == '-' && Ascii(s)[7] == 45;
    assert s[8] == 'r' && Ascii(s)[8] == 114;
    assert s[9] == 'e' && Ascii(s)[9] == 101;
    assert s[10] == 'g' && Ascii(s)[10] == 103;
  }

  lemma SpellInterruptParent()
    ensures Ascii("interrupt-parent") == INTERRUPT_PARENT
  {
    var s, t := "interrupt-parent", INTERRUPT_PARENT;
    assert |s| == |t| == 16;
    assert s[0] == 'i' && Ascii(s)[0] == 105;
    assert s[1] == 'n' && Ascii(s)[1] == 110;
    assert s[2] == 't' && Ascii(s)[2] == 116;
    assert s[3] == 'e' && Ascii(s)[3] == 101;
    assert s[4] == 'r' && Ascii(s)[4] == 114;
    assert s[5] == 'r' && Ascii(s)[5] == 114;
    assert s[6] == 'u' && Ascii(s)[6] == 117;
    assert s[7] == 'p' && Ascii(s)[7] == 112;
    assert s[8] == 't' && Ascii(s)[8] == 116;
    assert s[9] == '-' && Ascii(s)[9] == 45;
    assert s[10] == 'p' && Ascii(s)[10] == 112;
    assert s[11] == 'a' && Ascii(s)[11] == 97;
    assert s[12] == 'r' && Ascii(s)[12] == 114;
    assert s[13] == 'e' && Ascii(s)[13] == 101;
    assert s[14] == 'n' && Ascii(s)[14] == 110;
    assert s[15] == 't' && Ascii(s)[15] == 116;
  }

  lemma SpellInterruptCells()
    ensures Ascii("#interrupt-cells") == INTERRUPT_CELLS
  {
    var s, t := "#interrupt-cells", INTERRUPT_CELLS;
    assert |s| == |t| == 16;
    assert s[0] == '#' && Ascii(s)[0] == 35;
    assert s[1] == 'i' && Ascii(s)[1] == 105;
    assert s[2] == 'n' && Ascii(s)[2] == 110;
    assert s[3] == 't' && Ascii(s)[3] == 116;
    assert s[4] == 'e' && Ascii(s)[4] == 101;
    assert s[5] == 'r' && Ascii(s)[5] == 114;
    assert s[6] == 'r' && Ascii(s)[6] == 114;
    assert s[7] == 'u' && Ascii(s)[7] == 117;
    assert s[8] == 'p' && Ascii(s)[8] == 112;
    assert s[9] == 't' && Ascii(s)[9] == 116;
    assert s[10] == '-' && Ascii(s)[10] == 45;
    assert s[11] == 'c' && Ascii(s)[11] == 99;
    assert s[12] == 'e' && Ascii(s)[12] == 101;
    assert s[13] == 'l' && Ascii(s)[13] == 108;
    assert s[14] == 'l' && Ascii(s)[14] == 108;
    assert s[15] == 's' && Ascii(s)[15] == 115;
  }

  lemma SpellInterruptController()
    ensures Ascii("interrupt-controller") == INTERRUPT_CONTROLLER
  {
    var s, t := "interrupt-controller", INTERRUPT_CONTROLLER;
    assert |s| == |t| == 20;
    assert s[0] == 'i' && Ascii(s)[0] == 105;
    assert s[1] == 'n' && Ascii(s)[1] == 110;
    assert s[2] == 't' && Ascii(s)[2] == 116;
    assert s[3] == 'e' && Ascii(s)[3] == 101;
    assert s[4] == 'r' && Ascii(s)[4] == 114;
    assert s[5] == 'r' && Ascii(s)[5] == 114;
    assert s[6] == 'u' && Ascii(s)[6] == 117;
    assert s[7] == 'p' && Ascii(s)[7] == 112;
    assert s[8] == 't' && Ascii(s)[8] == 116;
    assert s[9] == '-' && Ascii(s)[9] == 45;
    assert s[10] == 'c' && Ascii(s)[10] == 99;
    assert s[11] == 'o' && Ascii(s)[11] == 111;
    assert s[12] == 'n' && Ascii(s)[12] == 110;
    assert s[13] == 't' && Ascii(s)[13] == 116;
    assert s[14] == 'r' && Ascii(s)[14] == 114;
    assert s[15] == 'o' && Ascii(s)[15] == 111;
    assert s[16] == 'l' && Ascii(s)[16] == 108;
    assert s[17] == 'l' && Ascii(s)[17] == 108;
    assert s[18] == 'e' && Ascii(s)[18] == 101;
    assert s[19] == 'r' && Ascii(s)[19] == 114;
  }

  lemma SpellReg()
    ensures Ascii("reg") == REG
  {
    var s, t := "reg", REG;
    assert |s| == |t| == 3;
    assert s[0] == 'r' && Ascii(s)[0] == 114;
    assert s[1] == 'e' && Ascii(s)[1] == 101;
    assert s[2] == 'g' && Ascii(s)[2] == 103;
  }

  lemma SpellRanges()
    ensures Ascii("ranges") == RANGES
  {
    var s, t := "ranges", RANGES;
    assert |s| == |t| == 6;
    assert s[0] == 'r' && Ascii(s)[0] == 114;
    assert s[1] == 'a' && Ascii(s)[1] == 97;
    assert s[2] == 'n' && Ascii(s)[2] == 110;
    assert s[3] == 'g' && Ascii(s)[3] == 103;
    assert s[4] == 'e' && Ascii(s)[4] == 101;
    assert s[5] == 's' && Ascii(s)[5] == 115;
  }

  lemma SpellBusRanges()
    ensures Ascii("bus-ranges") == BUS_RANGES
  {
    var s, t := "bus-ranges", BUS_RANGES;
    assert |s| == |t| == 10;
    assert s[0] == 'b' && Ascii(s)[0] == 98;
    assert s[1] == 'u' && Ascii(s)[1] == 117;
    assert s[2] == 's' && Ascii(s)[2] == 115;
    assert s[3] == '-' && Ascii(s)[3] == 45;
    assert s[4] == 'r' && Ascii(s)[4] == 114;
    assert s[5] == 'a' && Ascii(s)[5] == 97;
    assert s[6] == 'n' && Ascii(s)[6] == 110;
    assert s[7] == 'g' && Ascii(s)[7] == 103;
    assert s[8] == 'e' && Ascii(s)[8] == 101;
    assert s[9] == 's' && Ascii(s)[9] == 115;
  }

  /** Which names take which branch; every other name takes the last one. */
  lemma KindNames(n: bytes)
    ensures KindOf(n) == CompatibleProp <==> n == COMPATIBLE
    ensures KindOf(n) == TextProp <==> n == MODEL || n == DEVICE_TYPE
    ensures KindOf(n) == WordProp <==> n == PHANDLE || n == VIRTUAL_REG || n == INTERRUPT_PARENT || n == INTERRUPT_CELLS
    ensures KindOf(n) == StatusProp <==> n == STATUS
    ensures KindOf(n) == AddressCellsProp <==> n == ADDRESS_CELLS
    ensures KindOf(n) == SizeCellsProp <==> n == SIZE_CELLS
    ensures KindOf(n) == DmaProp(true) <==> n == DMA_COHERENT
    ensures KindOf(n) == DmaProp(false) <==> n == DMA_NONCOHERENT
    ensures KindOf(n) == ControllerProp <==> n == INTERRUPT_CONTROLLER
    ensures KindOf(n) == RegProp <==> n == REG
    ensures KindOf(n) == RangesProp <==> n == RANGES || n == BUS_RANGES
  {
    hide Ascii, Is;
    Spelling();
    Lengths();
    FirstBytes();
    ChainIs(n);
  }

  lemma Lengths()
    ensures |COMPATIBLE| == 10
    ensures |MODEL| == 5
    ensures |PHANDLE| == 7
    ensures |STATUS| == 6
    ensures |ADDRESS_CELLS| == 14
    ensures |SIZE_CELLS| == 11
    ensures |DMA_COHERENT| == 12
    ensures |DMA_NONCOHERENT| == 15
    ensures |DEVICE_TYPE| == 11
    ensures |VIRTUAL_REG| == 11
    ensures |INTERRUPT_PARENT| == 16
    ensures |INTERRUPT_CELLS| == 16
    ensures |INTERRUPT_CONTROLLER| == 20
    ensures |REG| == 3
    ensures |RANGES| == 6
    ensures |BUS_RANGES| == 10
  {
  }

  lemma FirstBytes()
    ensures |COMPATIBLE| > 0 && COMPATIBLE[0] == 99
    ensures |MODEL| > 0 && MODEL[0] == 109
    ensures |PHANDLE| > 0 && PHANDLE[0] == 112
    ensures |STATUS| > 0 && STATUS[0] == 115
    ensures |ADDRESS_CELLS| > 0 && ADDRESS_CELLS[0] == 35
    ensures |SIZE_CELLS| > 0 && SIZE_CELLS[0] == 35
    ensures |DMA_COHERENT| > 0 && DMA_COHERENT[0] == 100
    ensures |DMA_NONCOHERENT| > 0 && DMA_NONCOHERENT[0] == 100
    ensures |DEVICE_TYPE| > 0 && DEVICE_TYPE[0] == 100
    ensures |VIRTUAL_REG| > 0 && VIRTUAL_REG[0] == 118
    ensures |INTERRUPT_PARENT| > 0 && INTERRUPT_PARENT[0] == 105
    ensures |INTERRUPT_CELLS| > 0 && INTERRUPT_CELLS[0] == 35
    ensures |INTERRUPT_CONTROLLER| > 0 && INTERRUPT_CONTROLLER[0] == 105
    ensures |REG| > 0 && REG[0] == 114
    ensures |RANGES| > 0 && RANGES[0] == 114
    ensures |BUS_RANGES| > 0 && BUS_RANGES[0] == 98
  {
  }

  /** The chain, with the names in bytes. */
  lemma ChainIs(n: bytes)
    ensures KindOf(n) ==
              if n == COMPATIBLE then CompatibleProp
              else if n == MODEL then TextProp
              else if n == PHANDLE then WordProp
              else if n == STATUS then StatusProp
              else if n == ADDRESS_CELLS then AddressCellsProp
              else if n == SIZE_CELLS then SizeCellsProp
              else if n == DMA_COHERENT then DmaProp(true)
              else if n == DMA_NONCOHERENT then DmaProp(false)
              else if n == DEVICE_TYPE then TextProp
              else if n == VIRTUAL_REG then WordProp
              else if n == INTERRUPT_PARENT then WordProp
              else if n == INTERRUPT_CELLS then WordProp
              else if n == INTERRUPT_CONTROLLER then ControllerProp
              else if n == REG then RegProp
              else if n == RANGES || n == BUS_RANGES then RangesProp
              else OtherProp
  {
    hide Ascii, Is;
    hide COMPATIBLE, MODEL, PHANDLE, STATUS, ADDRESS_CELLS, SIZE_CELLS, DMA_COHERENT, DMA_NONCOHERENT, DEVICE_TYPE, VIRTUAL_REG, INTERRUPT_PARENT, INTERRUPT_CELLS, INTERRUPT_CONTROLLER, REG, RANGES, BUS_RANGES;
    Spelling();
  }
}
