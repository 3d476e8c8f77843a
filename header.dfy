/**
  The file header at the level of 32-bit words. `save` writes QSize's width
  and height, which are ints (one 32-bit word each); `load` reads them into
  size_t variables, which take two words each where size_t is 64 bits wide.
  The data stream is big-endian, so the first word read is the high one.
 */
module HeaderWidth {
  import opened Grids
  import Levels

  const WordBase: nat := 0x1_0000_0000

  type Word = x: nat | x < 0x1_0000_0000

  /** `stream << int`: one two's-complement 32-bit word. */
  function WriteInt32(v: int): Word
  {
    v % WordBase
  }

  /** `stream >> int`: one 32-bit word read back as a signed int. */
  function ReadInt32(w: Word): int
  {
    if w < 0x8000_0000 then w else w - WordBase
  }

  /** The header `save` writes. */
  function SaveHeader(size: Size): (ws: seq<Word>)
  {
    [WriteInt32(size.width), WriteInt32(size.height)]
  }

  /** `stream >> width` into a 64-bit size_t: two words, high word first (0 past the end). */
  function ReadUInt64(ws: seq<Word>): nat
  {
    if |ws| >= 2 then ws[0] * WordBase + ws[1] else 0
  }

  /** The width `load` reads, as written. */
  function LoadWidthAsWritten(ws: seq<Word>): nat
  {
    ReadUInt64(ws)
  }

  /**
    Whatever follows the header, a 64-bit read takes the width as the high
    word and the height as the low word; for any size but 0 by 0 the width
    read is not the width written. For the 20 by 15 of a new level it is
    20 * 2^32 + 15.
   */
  lemma WidthMisread(size: Size, rest: seq<Word>)
    requires size.width < 0x8000_0000 && size.height < 0x8000_0000
    ensures LoadWidthAsWritten(SaveHeader(size) + rest) == size.width * WordBase + size.height
    ensures size != Size(0, 0) ==> LoadWidthAsWritten(SaveHeader(size) + rest) != size.width
  {
    assert (SaveHeader(size) + rest)[0] == size.width;
    assert (SaveHeader(size) + rest)[1] == size.height;
    if size.width > 0 {
      assert size.width * WordBase >= WordBase > size.width by {
        assert size.width * WordBase == (size.width - 1) * WordBase + WordBase;
      }
    }
  }

  /** For a level of the default size, the width read is 20 * 2^32 + 15. */
  lemma DefaultSizeMisread()
    ensures LoadWidthAsWritten(SaveHeader(Levels.Level.DefaultSize)) == 85899345935
  {
    var size := Levels.Level.DefaultSize;
    WidthMisread(size, []);
    assert SaveHeader(size) + [] == SaveHeader(size);
  }

  datatype Header = Header(width: int, height: int)

  /** The header read with the width it is written with: two 32-bit ints. */
  function LoadHeader(ws: seq<Word>): (hd: Header)
    ensures |ws| < 2 ==> hd == Header(0, 0)
  {
    if |ws| >= 2 then Header(ReadInt32(ws[0]), ReadInt32(ws[1])) else Header(0, 0)
  }

  /** Read at the width it was written with, the header gives back the size saved. */
  lemma HeaderRoundTrip(size: Size, rest: seq<Word>)
    requires size.width < 0x8000_0000 && size.height < 0x8000_0000
    ensures LoadHeader(SaveHeader(size) + rest) == Header(size.width, size.height)
  {
    assert (SaveHeader(size) + rest)[0] == size.width;
    assert (SaveHeader(size) + rest)[1] == size.height;
  }
}
