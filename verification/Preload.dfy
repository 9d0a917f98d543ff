/** The text with which every dictionary starts. */
module Preload {
  import opened Bytes

  /** Its characters as bytes. */
  function Codes(s: string): (bs: seq<byte>)
    ensures |bs| == |s|
  {
    seq(|s|, i requires 0 <= i < |s| => s[i] as int % 0x100)
  }

  /** `rtf_prebuf`, in pieces. */
  function Prebuf(): (pre: seq<byte>)
    ensures |pre| == 207
  {
    Codes("{\\rtf1\\ansi\\mac")
    + Codes("\\deff0\\deftab720")
    + Codes("{\\fonttbl;}")
    + Codes("{\\f0\\fnil ")
    + Codes("\\froman \\fswiss ")
    + Codes("\\fmodern ")
    + Codes("\\fscript \\fdecor ")
    + Codes("MS Sans Serif")
    + Codes("SymbolArial")
    + Codes("Times New Roman")
    + Codes("Courier")
    + Codes("{\\colortbl\\red0")
    + Codes("\\green0\\blue0")
    + Codes("\r\n\\par \\pard")
    + Codes("\\plain\\f0\\fs20")
    + Codes("\\b\\i\\u\\tab\\tx")
  }

  const PIECE_0: seq<byte> := [0x7b, 0x5c, 0x72, 0x74, 0x66, 0x31, 0x5c, 0x61, 0x6e, 0x73, 0x69, 0x5c, 0x6d, 0x61, 0x63]
  const PIECE_1: seq<byte> := [0x5c, 0x64, 0x65, 0x66, 0x66, 0x30, 0x5c, 0x64, 0x65, 0x66, 0x74, 0x61, 0x62, 0x37, 0x32, 0x30]
  const PIECE_2: seq<byte> := [0x7b, 0x5c, 0x66, 0x6f, 0x6e, 0x74, 0x74, 0x62, 0x6c, 0x3b, 0x7d]
  const PIECE_3: seq<byte> := [0x7b, 0x5c, 0x66, 0x30, 0x5c, 0x66, 0x6e, 0x69, 0x6c, 0x20]
  const PIECE_4: seq<byte> := [0x5c, 0x66, 0x72, 0x6f, 0x6d, 0x61, 0x6e, 0x20, 0x5c, 0x66, 0x73, 0x77, 0x69, 0x73, 0x73, 0x20]
  const PIECE_5: seq<byte> := [0x5c, 0x66, 0x6d, 0x6f, 0x64, 0x65, 0x72, 0x6e, 0x20]
  const PIECE_6: seq<byte> := [0x5c, 0x66, 0x73, 0x63, 0x72, 0x69, 0x70, 0x74, 0x20, 0x5c, 0x66, 0x64, 0x65, 0x63, 0x6f, 0x72, 0x20]
  const PIECE_7: seq<byte> := [0x4d, 0x53, 0x20, 0x53, 0x61, 0x6e, 0x73, 0x20, 0x53, 0x65, 0x72, 0x69, 0x66]
  const PIECE_8: seq<byte> := [0x53, 0x79, 0x6d, 0x62, 0x6f, 0x6c, 0x41, 0x72, 0x69, 0x61, 0x6c]
  const PIECE_9: seq<byte> := [0x54, 0x69, 0x6d, 0x65, 0x73, 0x20, 0x4e, 0x65, 0x77, 0x20, 0x52, 0x6f, 0x6d, 0x61, 0x6e]
  const PIECE_10: seq<byte> := [0x43, 0x6f, 0x75, 0x72, 0x69, 0x65, 0x72]
  const PIECE_11: seq<byte> := [0x7b, 0x5c, 0x63, 0x6f, 0x6c, 0x6f, 0x72, 0x74, 0x62, 0x6c, 0x5c, 0x72, 0x65, 0x64, 0x30]
  const PIECE_12: seq<byte> := [0x5c, 0x67, 0x72, 0x65, 0x65, 0x6e, 0x30, 0x5c, 0x62, 0x6c, 0x75, 0x65, 0x30]
  const PIECE_13: seq<byte> := [0x0d, 0x0a, 0x5c, 0x70, 0x61, 0x72, 0x20, 0x5c, 0x70, 0x61, 0x72, 0x64]
  const PIECE_14: seq<byte> := [0x5c, 0x70, 0x6c, 0x61, 0x69, 0x6e, 0x5c, 0x66, 0x30, 0x5c, 0x66, 0x73, 0x32, 0x30]
  const PIECE_15: seq<byte> := [0x5c, 0x62, 0x5c, 0x69, 0x5c, 0x75, 0x5c, 0x74, 0x61, 0x62, 0x5c, 0x74, 0x78]

  lemma Piece0()
    ensures Codes("{\\rtf1\\ansi\\mac") == PIECE_0
  {
  }

  lemma Piece1()
    ensures Codes("\\deff0\\deftab720") == PIECE_1
  {
  }

  lemma Piece2()
    ensures Codes("{\\fonttbl;}") == PIECE_2
  {
  }

  lemma Piece3()
    ensures Codes("{\\f0\\fnil ") == PIECE_3
  {
  }

  lemma Piece4()
    ensures Codes("\\froman \\fswiss ") == PIECE_4
  {
  }

  lemma Piece5()
    ensures Codes("\\fmodern ") == PIECE_5
  {
  }

  lemma Piece6()
    ensures Codes("\\fscript \\fdecor ") == PIECE_6
  {
  }

  lemma Piece7()
    ensures Codes("MS Sans Serif") == PIECE_7
  {
  }

  lemma Piece8()
    ensures Codes("SymbolArial") == PIECE_8
  {
  }

  lemma Piece9()
    ensures Codes("Times New Roman") == PIECE_9
  {
  }

  lemma Piece10()
    ensures Codes("Courier") == PIECE_10
  {
  }

  lemma Piece11()
    ensures Codes("{\\colortbl\\red0") == PIECE_11
  {
  }

  lemma Piece12()
    ensures Codes("\\green0\\blue0") == PIECE_12
  {
  }

  lemma Piece13()
    ensures Codes("\r\n\\par \\pard") == PIECE_13
  {
  }

  lemma Piece14()
    ensures Codes("\\plain\\f0\\fs20") == PIECE_14
  {
  }

  lemma Piece15()
    ensures Codes("\\b\\i\\u\\tab\\tx") == PIECE_15
  {
  }

  /** The dictionary starts with exactly these bytes. */
  lemma PreloadBytes()
    ensures Prebuf() ==
      PIECE_0 + PIECE_1 + PIECE_2 + PIECE_3 + PIECE_4 + PIECE_5 + PIECE_6 + PIECE_7
      + PIECE_8 + PIECE_9 + PIECE_10 + PIECE_11 + PIECE_12 + PIECE_13 + PIECE_14 + PIECE_15
  {
    hide Codes;
    Piece0();
    Piece1();
    Piece2();
    Piece3();
    Piece4();
    Piece5();
    Piece6();
    Piece7();
    Piece8();
    Piece9();
    Piece10();
    Piece11();
    Piece12();
    Piece13();
    Piece14();
    Piece15();
  }
}
