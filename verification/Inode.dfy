/** The on-disk inode: 76 bytes, packed without regard to sector boundaries, so
    that some straddle two sectors. */
module Inodes {
  import opened Bytes

  const SECTOR_SIZE := 512
  const MAX_FILES_PER_PART := 4096
  const INODE_SIZE := 76
  const INODE_TABLE_SECTS := 608  // DIV_ROUND_UP(76 * 4096, 512)

  /** struct inode as the disk keeps it. The open count, write_deny and the list links
      live in memory only: inode_sync stores zeros for them and inode_open sets them anew. */
  datatype Inode = Inode(no: u32, size: u32, sectors: seq<u32>) {
    predicate Valid() {
      |sectors| == 13
    }

    function Words(): (w: seq<u32>)
      requires Valid()
      ensures |w| == 19
    {
      [no, size, 0, 0] + sectors + [0, 0]
    }
  }

  function WordsImage(words: seq<u32>): (s: seq<byte>)
    ensures |s| == 4 * |words|
  {
    seq(4 * |words|, j requires 0 <= j < 4 * |words| => Le32(words[j / 4])[j % 4])
  }

  function Encode(i: Inode): (s: seq<byte>)
    requires i.Valid()
    ensures |s| == INODE_SIZE
  {
    WordsImage(i.Words())
  }

  function WordAt(s: seq<byte>, w: nat): u32
    requires 4 * w + 4 <= |s|
  {
    Un32(s, 4 * w)
  }

  function Decode(s: seq<byte>): (i: Inode)
    requires |s| == INODE_SIZE
    ensures i.Valid()
  {
    Inode(WordAt(s, 0), WordAt(s, 1),
          seq(13, w requires 0 <= w < 13 => WordAt(s, w + 4)))
  }

  lemma WordOfImage(words: seq<u32>, w: nat)
    requires w < |words|
    ensures WordAt(WordsImage(words), w) == words[w]
  {
    var s := WordsImage(words);
    forall j | 0 <= j < 4
      ensures s[4 * w + j] == Le32(words[w])[j]
    {
      assert (4 * w + j) / 4 == w && (4 * w + j) % 4 == j;
    }
    assert s[4 * w] == s[4 * w + 0];
    Un32OfLe32(words[w]);
  }

  /** Decoding goes by the nineteen words alone. */
  lemma DecodeByWords(s: seq<byte>, i: Inode)
    requires i.Valid() && |s| == INODE_SIZE
    requires forall w: nat :: w < 19 ==> WordAt(s, w) == i.Words()[w]
    ensures Decode(s) == i
  {
    assert WordAt(s, 0) == i.no && WordAt(s, 1) == i.size;
    forall w: nat | w < 13
      ensures Decode(s).sectors[w] == i.sectors[w]
    {
      assert WordAt(s, w + 4) == i.Words()[w + 4];
    }
  }

  /** A stored inode reads back. */
  lemma DecodeOfEncode(i: Inode)
    requires i.Valid()
    ensures Decode(Encode(i)) == i
  {
    forall w: nat | w < 19
      ensures WordAt(Encode(i), w) == i.Words()[w]
    {
      WordOfImage(i.Words(), w);
    }
    DecodeByWords(Encode(i), i);
  }

  /** struct inode_position, with the table's first sector left out of the address. */
  datatype Position = Position(twoSec: bool, sec: nat, off: nat)

  function Locate(no: nat): (p: Position) {
    var byteCnt := no * INODE_SIZE;
    var off := byteCnt % SECTOR_SIZE;
    Position(off + INODE_SIZE > SECTOR_SIZE, byteCnt / SECTOR_SIZE, off)
  }

  /** The located sectors hold the whole inode and stay inside the table. */
  lemma LocateCovers(no: nat)
    requires no < MAX_FILES_PER_PART
    ensures var p := Locate(no);
            && SECTOR_SIZE * p.sec + p.off == INODE_SIZE * no
            && p.off + INODE_SIZE <= (if p.twoSec then 2 else 1) * SECTOR_SIZE
            && p.sec + (if p.twoSec then 2 else 1) <= INODE_TABLE_SECTS
  {
  }
}
