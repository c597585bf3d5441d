/** The floppy image builder: 12-bit table entries packed two to three bytes, one chain a
    file, the files' bytes where the chains say, and a reader that follows the chains from the
    entries of the root directory and gets the files back. */
module Fat12 {
  type octet = x: int | 0 <= x < 256

  const SECTOR_SIZE := 512
  const TOTAL_SECTORS := 2880
  const FAT1_START := 1
  const FAT2_START := 10
  const ROOT_DIR_START := 19
  const ROOT_DIR_SECTORS := 14
  const DATA_START := 33
  const FAT_SIZE := 4608
  const END := 0xFFF

  function Val(x: octet): (n: int)
    ensures 0 <= n < 256
  {
    x
  }

  // ---- entries ----

  function Offset(cluster: nat): nat { cluster * 3 / 2 }

  predicate Fits(fat: seq<octet>, cluster: nat) { Offset(cluster) + 1 < |fat| }

  /** The entry of a cluster, as the Microsoft FAT specification (fatgen103, 'FAT Type
      Determination') has it read: the word at the offset, its low or its high twelve bits. */
  function Entry(fat: seq<octet>, cluster: nat): (v: nat)
    requires Fits(fat, cluster)
    ensures v < 4096
  {
    var word := Val(fat[Offset(cluster)]) + 256 * Val(fat[Offset(cluster) + 1]);
    if cluster % 2 == 0 then word % 4096 else word / 16
  }

  /** fat12_set_entry. x & 0xF0 is x / 16 * 16, x & 0x0F is x % 16, and | joins what does
      not overlap. */
  function WithEntry(fat: seq<octet>, cluster: nat, value: nat): (r: seq<octet>)
    requires Fits(fat, cluster)
    ensures |r| == |fat|
  {
    var o := Offset(cluster);
    if cluster % 2 == 0 then fat[o := value % 256][o + 1 := fat[o + 1] / 16 * 16 + value / 256 % 16]
    else fat[o := fat[o] % 16 + value % 16 * 16][o + 1 := value / 16 % 256]
  }

  /** An entry that was set reads back, its value cut to twelve bits; no other entry changes. */
  lemma SetEntryReads(fat: seq<octet>, cluster: nat, value: nat, other: nat)
    requires Fits(fat, cluster) && Fits(fat, other)
    ensures Entry(WithEntry(fat, cluster, value), other) == if other == cluster then value % 4096 else Entry(fat, other)
  {
    Pairs(cluster);
    Pairs(other);
    var o := 3 * (cluster / 2);
    if cluster / 2 == other / 2 {
      if cluster % 2 == 0 {
        LowSet(Val(fat[o + 1]), if other == cluster then 0 else Val(fat[o + 2]), value);
      } else {
        HighSet(Val(fat[o]), Val(fat[o + 1]), value);
      }
    }
  }

  /** Two entries share the middle one of three bytes. */
  lemma Pairs(c: nat)
    ensures Offset(c) == 3 * (c / 2) + c % 2
  {
  }

  lemma LowSet(middle: int, last: int, value: nat)
    requires 0 <= middle < 256 && 0 <= last < 256
    ensures var m := middle / 16 * 16 + value / 256 % 16;
            (value % 256 + 256 * m) % 4096 == value % 4096 && (m + 256 * last) / 16 == (middle + 256 * last) / 16
  {
    var h, x := middle / 16, value / 256 % 16;
    assert value % 256 + 256 * (h * 16 + x) == value % 256 + 256 * x + 4096 * h;
    assert value % 4096 == value % 256 + 256 * x;
    assert middle == 16 * h + middle % 16;
    assert (h * 16 + x + 256 * last) / 16 == h + 16 * last;
  }

  lemma HighSet(first: int, middle: int, value: nat)
    requires 0 <= first < 256 && 0 <= middle < 256
    ensures var m := middle % 16 + value % 16 * 16;
            (m + 256 * (value / 16 % 256)) / 16 == value % 4096 && (first + 256 * m) % 4096 == (first + 256 * middle) % 4096
  {
    var l, x := middle % 16, value % 16;
    assert value % 4096 == x + 16 * (value / 16 % 256);
    assert (l + 16 * x + 256 * (value / 16 % 256)) / 16 == x + 16 * (value / 16 % 256);
    assert first + 256 * (l + 16 * x) == first + 256 * l + 4096 * x;
    assert middle == 16 * (middle / 16) + l;
    assert first + 256 * middle == first + 256 * l + 4096 * (middle / 16);
  }

  method SetEntry(fat: array<octet>, cluster: nat, value: nat)
    requires Fits(fat[..], cluster)
    modifies fat
    ensures fat[..] == WithEntry(old(fat[..]), cluster, value)
  {
    var offset := cluster * 3 / 2;
    if cluster % 2 == 0 {
      fat[offset] := value % 256;
      fat[offset + 1] := fat[offset + 1] / 16 * 16 + value / 256 % 16;
    } else {
      fat[offset] := fat[offset] % 16 + value % 16 * 16;
      fat[offset + 1] := value / 16 % 256;
    }
  }

  // ---- chains ----

  function Clusters(size: nat): nat { (size + 511) / 512 }

  /** The clusters from `start` on are each other's successors, the last one ends the chain. */
  ghost predicate ChainAt(fat: seq<octet>, start: nat, n: nat) {
    && |fat| == FAT_SIZE && start + n <= 3072
    && forall c: nat :: start <= c < start + n ==> Entry(fat, c) == if c < start + n - 1 then c + 1 else END
  }

  /** What a reader gets that follows the entries until one says the end, or `fuel` runs out. */
  function Follow(fat: seq<octet>, cluster: nat, fuel: nat): seq<nat>
    decreases fuel
  {
    if fuel == 0 || !Fits(fat, cluster) then []
    else if Entry(fat, cluster) >= 0xFF8 then [cluster]
    else [cluster] + Follow(fat, Entry(fat, cluster), fuel - 1)
  }

  lemma {:induction false} FollowChain(fat: seq<octet>, start: nat, n: nat, fuel: nat)
    requires ChainAt(fat, start, n) && 0 < n <= fuel && start + n <= 0xFF8
    ensures Follow(fat, start, fuel) == seq(n, i => start + i)
    decreases n
  {
    if n > 1 {
      FollowChain(fat, start + 1, n - 1, fuel - 1);
      assert seq(n, i => start + i) == [start] + seq(n - 1, i => start + 1 + i);
    }
  }

  method SetChain(fat: array<octet>, start: nat, n: nat)
    requires fat.Length == FAT_SIZE && start + n <= 3072
    modifies fat
    ensures ChainAt(fat[..], start, n)
    ensures forall c: nat :: c < 3072 && !(start <= c < start + n) ==> Entry(fat[..], c) == Entry(old(fat[..]), c)
  {
    hide Entry, WithEntry;
    var i := 0;
    ghost var was := fat[..];
    while i < n
      invariant 0 <= i <= n
      invariant forall c: nat :: start <= c < start + i ==> Entry(fat[..], c) == if c < start + n - 1 then c + 1 else END
      invariant forall c: nat :: c < 3072 && !(start <= c < start + i) ==> Entry(fat[..], c) == Entry(was, c)
    {
      var c := start + i;
      var next := if i < n - 1 then c + 1 else END;
      ghost var f := fat[..];
      SetEntry(fat, c, next);
      forall d: nat | d < 3072
        ensures Entry(fat[..], d) == if d == c then next % 4096 else Entry(f, d)
      {
        SetEntryReads(f, c, next, d);
      }
      i := i + 1;
    }
  }

  // ---- the layout ----

  /** The first cluster of each file: they follow one another from cluster 2. */
  function Start(files: seq<seq<octet>>, k: nat): nat
    requires k <= |files|
  {
    if k == 0 then 2 else Start(files, k - 1) + Clusters(|files[k - 1]|)
  }

  ghost predicate FilesFit(files: seq<seq<octet>>) {
    && 3 <= |files| <= 224
    && Start(files, |files|) - 2 <= TOTAL_SECTORS - DATA_START
  }

  lemma {:induction false} StartsIncrease(files: seq<seq<octet>>, j: nat, k: nat)
    requires j <= k <= |files|
    ensures Start(files, j) <= Start(files, k)
    ensures j < k ==> Start(files, j) + Clusters(|files[j]|) <= Start(files, k)
    decreases k - j
  {
    if j < k {
      StartsIncrease(files, j, k - 1);
    }
  }

  /** Different files have no cluster in common. */
  lemma ChainsDisjoint(files: seq<seq<octet>>, j: nat, k: nat, c: nat)
    requires j < |files| && k < |files| && j != k
    requires Start(files, j) <= c < Start(files, j) + Clusters(|files[j]|)
    ensures !(Start(files, k) <= c < Start(files, k) + Clusters(|files[k]|))
  {
    if j < k {
      StartsIncrease(files, j, k);
    } else {
      StartsIncrease(files, k, j);
    }
  }

  lemma FileInside(files: seq<seq<octet>>, k: nat)
    requires FilesFit(files) && k < |files|
    ensures 2 <= Start(files, k) && Start(files, k) + Clusters(|files[k]|) <= Start(files, |files|) <= 2849
    ensures (Clusters(|files[k]|) >= 1 <==> files[k] != []) && |files[k]| <= 512 * Clusters(|files[k]|)
    ensures files[k] != [] ==> 512 * (Clusters(|files[k]|) - 1) < |files[k]|
    ensures 512 * (DATA_START + Start(files, k) - 2) + |files[k]| <= 512 * TOTAL_SECTORS
  {
    StartsIncrease(files, 0, k);
    StartsIncrease(files, k, |files|);
  }

  // ---- the allocation table ----

  /** The two reserved entries, a chain for each of the first k files, and the rest free. */
  ghost predicate ChainsUpTo(fat: seq<octet>, files: seq<seq<octet>>, k: nat) {
    && |fat| == FAT_SIZE && k <= |files|
    && Entry(fat, 0) == 0xFF0 && Entry(fat, 1) == END
    && (forall j: nat :: j < k ==> ChainAt(fat, Start(files, j), Clusters(|files[j]|)))
    && FreeFrom(fat, Start(files, k))
  }

  ghost predicate FreeFrom(fat: seq<octet>, start: nat) {
    |fat| == FAT_SIZE && forall c: nat :: start <= c < 3072 ==> Entry(fat, c) == 0
  }

  method BuildFat(files: seq<seq<octet>>) returns (fat: array<octet>)
    requires FilesFit(files)
    ensures fresh(fat) && ChainsUpTo(fat[..], files, |files|)
  {
    hide Entry, ChainAt, FilesFit, Start;
    fat := new octet[4608](_ => 0);
    fat[0], fat[1], fat[2] := 0xF0, 0xFF, 0xFF;
    NewFat(fat[..]);
    var k := 0;
    var current := 2;
    FirstStart(files);
    while k < |files|
      invariant k <= |files| && current == Start(files, k)
      invariant ChainsUpTo(fat[..], files, k)
    {
      var clusters := Clusters(|files[k]|);
      FileInside(files, k);
      ghost var was := fat[..];
      SetChain(fat, current, clusters);
      OldChainsKept(was, fat[..], files, k);
      NextStart(files, k);
      current := current + clusters;
      k := k + 1;
    }
  }

  lemma NewFat(fat: seq<octet>)
    requires |fat| == FAT_SIZE && fat[0] == 0xF0 && fat[1] == 0xFF && fat[2] == 0xFF && forall i :: 3 <= i < FAT_SIZE ==> fat[i] == 0
    ensures Entry(fat, 0) == 0xFF0 && Entry(fat, 1) == END && FreeFrom(fat, 2)
  {
    forall c: nat | 2 <= c < 3072
      ensures Entry(fat, c) == 0
    {
      Pairs(c);
    }
  }

  lemma FirstStart(files: seq<seq<octet>>)
    ensures Start(files, 0) == 2
  {
  }

  lemma NextStart(files: seq<seq<octet>>, k: nat)
    requires k < |files|
    ensures Start(files, k + 1) == Start(files, k) + Clusters(|files[k]|)
  {
  }

  lemma OldChainsKept(was: seq<octet>, fat: seq<octet>, files: seq<seq<octet>>, k: nat)
    requires FilesFit(files) && k < |files| && ChainsUpTo(was, files, k) && |fat| == FAT_SIZE
    requires ChainAt(fat, Start(files, k), Clusters(|files[k]|))
    requires forall c: nat :: c < 3072 && !(Start(files, k) <= c < Start(files, k) + Clusters(|files[k]|)) ==> Entry(fat, c) == Entry(was, c)
    ensures ChainsUpTo(fat, files, k + 1)
  {
    hide Entry, Start, Clusters, FilesFit;
    FileInside(files, k);
    NextStart(files, k);
    forall j: nat | j < k
      ensures ChainAt(fat, Start(files, j), Clusters(|files[j]|))
    {
      FileInside(files, j);
      StartsIncrease(files, j, k);
      ChainKept(was, fat, Start(files, j), Clusters(|files[j]|), Start(files, k), Clusters(|files[k]|));
    }
  }

  lemma ChainKept(was: seq<octet>, fat: seq<octet>, start: nat, n: nat, other: nat, m: nat)
    requires ChainAt(was, start, n) && |fat| == FAT_SIZE && start + n <= other
    requires forall c: nat :: c < 3072 && !(other <= c < other + m) ==> Entry(fat, c) == Entry(was, c)
    ensures ChainAt(fat, start, n)
  {
    hide Entry;
  }

  // ---- the data area ----

  function FileOffset(files: seq<seq<octet>>, k: nat): nat
    requires k <= |files|
  {
    512 * (DATA_START + Start(files, k) - 2)
  }

  ghost predicate Holds(img: seq<octet>, at: nat, data: seq<octet>) {
    at + |data| <= |img| && img[at..at + |data|] == data
  }

  /** img[at:at + len(data)] = data */
  method Place(img: array<octet>, at: nat, data: seq<octet>)
    requires at + |data| <= img.Length
    modifies img
    ensures Holds(img[..], at, data)
    ensures img[..at] == old(img[..at]) && img[at + |data|..] == old(img[at + |data|..])
  {
    forall i | 0 <= i < |data| {
      img[at + i] := data[i];
    }
    assert img[at..at + |data|] == data;
  }

  lemma PlacedElsewhere(was: seq<octet>, img: seq<octet>, at: nat, len: nat, p: nat, data: seq<octet>)
    requires |was| == |img| && at + len <= |img| && Holds(was, p, data)
    requires img[..at] == was[..at] && img[at + len..] == was[at + len..]
    requires p + |data| <= at || at + len <= p
    ensures Holds(img, p, data)
  {
    if p + |data| <= at {
      assert img[p..p + |data|] == img[..at][p..p + |data|];
      assert was[p..p + |data|] == was[..at][p..p + |data|];
    } else {
      var q := p - at - len;
      assert img[p..p + |data|] == img[at + len..][q..q + |data|];
      assert was[p..p + |data|] == was[at + len..][q..q + |data|];
    }
  }

  ghost predicate PlacedUpTo(img: seq<octet>, files: seq<seq<octet>>, k: nat) {
    k <= |files| && forall j: nat :: j < k ==> Holds(img, FileOffset(files, j), files[j])
  }

  lemma StillPlaced(was: seq<octet>, img: seq<octet>, files: seq<seq<octet>>, k: nat)
    requires FilesFit(files) && k < |files| && PlacedUpTo(was, files, k) && |was| == |img| == 512 * TOTAL_SECTORS
    requires Holds(img, FileOffset(files, k), files[k])
    requires img[..FileOffset(files, k)] == was[..FileOffset(files, k)]
    requires img[FileOffset(files, k) + |files[k]|..] == was[FileOffset(files, k) + |files[k]|..]
    ensures PlacedUpTo(img, files, k + 1)
  {
    hide Holds, Start;
    forall j: nat | j < k
      ensures Holds(img, FileOffset(files, j), files[j])
    {
      StartsIncrease(files, j, k);
      FileInside(files, j);
      FileInside(files, k);
      PlacedElsewhere(was, img, FileOffset(files, k), |files[k]|, FileOffset(files, j), files[j]);
    }
  }

  // ---- the image ----

  function Word16(n: nat): seq<octet> { [n % 256, n / 256 % 256] }

  function Word32(n: nat): (w: seq<octet>)
    ensures |w| == 4
  {
    [n % 256, n / 256 % 256, n / 65536 % 256, n / 16777216 % 256]
  }

  /** make_dir_entry, for a name and an extension already padded to eight and three. */
  function DirEntry(name: seq<octet>, attr: octet, firstCluster: nat, fileSize: nat): (e: seq<octet>)
    requires |name| == 11
    ensures |e| == 32
  {
    name + [attr] + seq(10, _ => 0) + Word16(0) + Word16(0x5821) + Word16(firstCluster) + Word32(fileSize)
  }

  function RootDir(names: seq<seq<octet>>, files: seq<seq<octet>>, k: nat): (r: seq<octet>)
    requires k <= |files| == |names| && forall j :: 0 <= j < |names| ==> |names[j]| == 11
    ensures |r| == 32 * k
  {
    if k == 0 then [] else RootDir(names, files, k - 1) + DirEntry(names[k - 1], 0x20, Start(files, k - 1), |files[k - 1]|)
  }

  /** What a root entry says of its file: the cluster it begins at and its size. */
  function EntryCluster(e: seq<octet>): nat
    requires |e| == 32
  {
    Val(e[26]) + 256 * Val(e[27])
  }

  function EntrySize(e: seq<octet>): nat
    requires |e| == 32
  {
    Val(e[28]) + 256 * Val(e[29]) + 65536 * Val(e[30]) + 16777216 * Val(e[31])
  }

  lemma EntrySays(name: seq<octet>, attr: octet, firstCluster: nat, fileSize: nat)
    requires |name| == 11 && firstCluster < 65536 && fileSize < 0x1_0000_0000
    ensures var e := DirEntry(name, attr, firstCluster, fileSize);
            && EntryCluster(e) == firstCluster && EntrySize(e) == fileSize && e[..11] == name && e[11] == attr
            && e[22..24] == [0, 0] && Val(e[24]) + 256 * Val(e[25]) == 0x5821 && forall i :: 12 <= i < 22 ==> e[i] == 0
  {
    var n := fileSize;
    assert n == n % 256 + 256 * (n / 256 % 256) + 65536 * (n / 65536 % 256) + 16777216 * (n / 16777216 % 256) by {
      assert n / 65536 == n / 256 / 256 && n / 16777216 == n / 65536 / 256;
    }
  }

  lemma {:induction false} RootEntryAt(names: seq<seq<octet>>, files: seq<seq<octet>>, k: nat, j: nat)
    requires j < k <= |files| == |names| && forall i :: 0 <= i < |names| ==> |names[i]| == 11
    ensures RootDir(names, files, k)[32 * j..32 * j + 32] == DirEntry(names[j], 0x20, Start(files, j), |files[j]|)
    decreases k
  {
    hide DirEntry;
    var r := RootDir(names, files, k - 1);
    if j < k - 1 {
      RootEntryAt(names, files, k - 1, j);
      assert RootDir(names, files, k)[32 * j..32 * j + 32] == r[32 * j..32 * j + 32];
    }
  }

  /** The loader's first word is overwritten with the address it is to be loaded at. */
  function Patched(loader: seq<octet>): (r: seq<octet>)
    requires |loader| >= 4
    ensures |r| == |loader|
  {
    Word32(0x8000 + DATA_START * SECTOR_SIZE + (|loader| + 511) / 512 * 512) + loader[4..]
  }

  /** That address is the first whole sector after the loader, where memory holds the image's
      data area from 0x8000 and its offset on; the rest of the loader is as it was. */
  lemma PatchedSays(loader: seq<octet>)
    requires 4 <= |loader| <= 512 * (TOTAL_SECTORS - DATA_START)
    ensures var r := Patched(loader);
            var address := Val(r[0]) + 256 * Val(r[1]) + 65536 * Val(r[2]) + 16777216 * Val(r[3]);
            && r[4..] == loader[4..]
            && address % 512 == 0 && 0x8000 + 33 * 512 + |loader| <= address < 0x8000 + 34 * 512 + |loader|
  {
    var n := 0x8000 + DATA_START * SECTOR_SIZE + (|loader| + 511) / 512 * 512;
    WordSays(n);
  }

  lemma WordSays(n: nat)
    requires n < 0x1_0000_0000
    ensures var w := Word32(n); Val(w[0]) + 256 * Val(w[1]) + 65536 * Val(w[2]) + 16777216 * Val(w[3]) == n
  {
    assert n / 65536 == n / 256 / 256 && n / 16777216 == n / 65536 / 256;
  }

  /** The files as they end up in the image: the first one is the loader. */
  function Stored(files: seq<seq<octet>>): (r: seq<seq<octet>>)
    requires |files| >= 1 && |files[0]| >= 4
    ensures |r| == |files| && forall k :: 0 <= k < |files| ==> |r[k]| == |files[k]|
    ensures r[0][4..] == files[0][4..] && forall k :: 1 <= k < |files| ==> r[k] == files[k]
  {
    files[0 := Patched(files[0])]
  }

  lemma {:induction false} SameStarts(files: seq<seq<octet>>, r: seq<seq<octet>>, k: nat)
    requires |r| == |files| && k <= |files| && forall i :: 0 <= i < |files| ==> |r[i]| == |files[i]|
    ensures Start(r, k) == Start(files, k)
  {
    if k > 0 {
      SameStarts(files, r, k - 1);
    }
  }

  /** The image: boot sector, table twice, root directory, and every file at its clusters. */
  ghost predicate ImageOk(img: seq<octet>, boot: seq<octet>, names: seq<seq<octet>>, files: seq<seq<octet>>) {
    && |files| == |names| && (forall j :: 0 <= j < |names| ==> |names[j]| == 11)
    && |img| == 512 * TOTAL_SECTORS && img[..512] == boot
    && var fat := img[512 * FAT1_START..512 * FAT2_START];
    && img[512 * FAT2_START..512 * ROOT_DIR_START] == fat
    && ChainsUpTo(fat, files, |files|)
    && |RootDir(names, files, |files|)| <= 512 * ROOT_DIR_SECTORS
    && img[512 * ROOT_DIR_START..512 * DATA_START] == Padded(RootDir(names, files, |files|), 512 * ROOT_DIR_SECTORS)
    && PlacedUpTo(img, files, |files|)
  }

  /** As many bytes as are asked for: cut, or filled up with zeros. */
  function Padded(data: seq<octet>, n: nat): (r: seq<octet>)
    ensures |r| == n && forall i :: 0 <= i < n ==> r[i] == if i < |data| then data[i] else 0
  {
    if |data| < n then data + seq(n - |data|, _ => 0) else data[..n]
  }

  /** The boot sector, the tables and the root directory are in place. */
  ghost predicate TablesIn(img: seq<octet>, boot: seq<octet>, fat: seq<octet>, root: seq<octet>) {
    && |img| == 512 * TOTAL_SECTORS && |boot| == 512 && |fat| == FAT_SIZE && |root| == 512 * ROOT_DIR_SECTORS
    && Holds(img, 0, boot) && Holds(img, 512 * FAT1_START, fat) && Holds(img, 512 * FAT2_START, fat) && Holds(img, 512 * ROOT_DIR_START, root)
  }

  lemma TablesStay(was: seq<octet>, img: seq<octet>, boot: seq<octet>, fat: seq<octet>, root: seq<octet>, at: nat, len: nat)
    requires TablesIn(was, boot, fat, root) && |img| == |was| && 512 * DATA_START <= at && at + len <= |img|
    requires img[..at] == was[..at] && img[at + len..] == was[at + len..]
    ensures TablesIn(img, boot, fat, root)
  {
    hide Holds;
    PlacedElsewhere(was, img, at, len, 0, boot);
    PlacedElsewhere(was, img, at, len, 512 * FAT1_START, fat);
    PlacedElsewhere(was, img, at, len, 512 * FAT2_START, fat);
    PlacedElsewhere(was, img, at, len, 512 * ROOT_DIR_START, root);
  }

  method PlaceTables(img: array<octet>, boot: seq<octet>, fat: seq<octet>, root: seq<octet>)
    requires img.Length == 512 * TOTAL_SECTORS && |boot| == 512 && |fat| == FAT_SIZE && |root| == 512 * ROOT_DIR_SECTORS
    modifies img
    ensures TablesIn(img[..], boot, fat, root)
  {
    hide Holds;
    Place(img, 0, boot);
    ghost var i0 := img[..];
    Place(img, 512 * FAT1_START, fat);
    ghost var i1 := img[..];
    PlacedElsewhere(i0, i1, 512 * FAT1_START, FAT_SIZE, 0, boot);
    Place(img, 512 * FAT2_START, fat);
    ghost var i2 := img[..];
    PlacedElsewhere(i1, i2, 512 * FAT2_START, FAT_SIZE, 0, boot);
    PlacedElsewhere(i1, i2, 512 * FAT2_START, FAT_SIZE, 512 * FAT1_START, fat);
    Place(img, 512 * ROOT_DIR_START, root);
    ghost var i3 := img[..];
    PlacedElsewhere(i2, i3, 512 * ROOT_DIR_START, |root|, 0, boot);
    PlacedElsewhere(i2, i3, 512 * ROOT_DIR_START, |root|, 512 * FAT1_START, fat);
    PlacedElsewhere(i2, i3, 512 * ROOT_DIR_START, |root|, 512 * FAT2_START, fat);
  }

  method PlaceFiles(img: array<octet>, files: seq<seq<octet>>, ghost boot: seq<octet>, ghost fat: seq<octet>, ghost root: seq<octet>)
    requires FilesFit(files) && TablesIn(img[..], boot, fat, root)
    modifies img
    ensures TablesIn(img[..], boot, fat, root) && PlacedUpTo(img[..], files, |files|)
  {
    hide Start, Holds, TablesIn, FilesFit;
    assert img.Length == 512 * TOTAL_SECTORS by { TablesSize(img[..], boot, fat, root); }
    var k := 0;
    while k < |files|
      invariant k <= |files| && img.Length == 512 * TOTAL_SECTORS
      invariant TablesIn(img[..], boot, fat, root) && PlacedUpTo(img[..], files, k)
    {
      FileInside(files, k);
      var at := 512 * (DATA_START + Start(files, k) - 2);
      ghost var was := img[..];
      Place(img, at, files[k]);
      StillPlaced(was, img[..], files, k);
      TablesStay(was, img[..], boot, fat, root, at, |files[k]|);
      k := k + 1;
    }
  }

  lemma TablesSize(img: seq<octet>, boot: seq<octet>, fat: seq<octet>, root: seq<octet>)
    requires TablesIn(img, boot, fat, root)
    ensures |img| == 512 * TOTAL_SECTORS
  {
  }

  /** create_floppy. The loader, the kernel and the greeting are the first three files. */
  method CreateFloppy(boot: seq<octet>, names: seq<seq<octet>>, files: seq<seq<octet>>) returns (img: array<octet>)
    requires FilesFit(files) && |files[0]| >= 4 && |names| == |files| && forall j :: 0 <= j < |names| ==> |names[j]| == 11
    ensures fresh(img) && ImageOk(img[..], Padded(boot, 512), names, Stored(files))
  {
    hide Start, RootDir, ChainsUpTo, Holds, TablesIn, Patched, PlacedUpTo, FilesFit, ImageOk;
    img := new octet[1474560](_ => 0);
    var sector := if |boot| < 512 then boot + seq(512 - |boot|, _ => 0) else boot[..512];
    var fat := BuildFat(files);
    ChainsSize(fat[..], files, |files|);
    var root := RootDir(names, files, |files|);
    SameRoot(names, files);
    root := root + seq(512 * ROOT_DIR_SECTORS - |root|, _ => 0);
    AtLeastThree(files);
    StoredFits(files);
    PlaceTables(img, sector, fat[..], root);
    PlaceFiles(img, Stored(files), sector, fat[..], root);
    assert root == Padded(RootDir(names, Stored(files), |files|), 512 * ROOT_DIR_SECTORS);
    assert sector == Padded(boot, 512);
    Together(img[..], sector, names, Stored(files), fat[..], root);
  }

  lemma AtLeastThree(files: seq<seq<octet>>)
    requires FilesFit(files)
    ensures |files| >= 3
  {
  }

  lemma ChainsSize(fat: seq<octet>, files: seq<seq<octet>>, k: nat)
    requires ChainsUpTo(fat, files, k)
    ensures |fat| == FAT_SIZE
  {
  }

  lemma Together(img: seq<octet>, boot: seq<octet>, names: seq<seq<octet>>, files: seq<seq<octet>>, fat: seq<octet>, root: seq<octet>)
    requires |names| == |files| && (forall j :: 0 <= j < |names| ==> |names[j]| == 11)
    requires |RootDir(names, files, |files|)| <= 512 * ROOT_DIR_SECTORS && root == Padded(RootDir(names, files, |files|), 512 * ROOT_DIR_SECTORS)
    requires TablesIn(img, boot, fat, root) && ChainsUpTo(fat, files, |files|) && PlacedUpTo(img, files, |files|)
    ensures ImageOk(img, boot, names, files)
  {
    hide ChainsUpTo, PlacedUpTo;
    FatsSame(img, fat);
  }

  lemma FatsSame(img: seq<octet>, fat: seq<octet>)
    requires |img| == 512 * TOTAL_SECTORS && |fat| == FAT_SIZE && Holds(img, 512 * FAT1_START, fat) && Holds(img, 512 * FAT2_START, fat)
    ensures img[512 * FAT1_START..512 * FAT2_START] == fat == img[512 * FAT2_START..512 * ROOT_DIR_START]
  {
  }

  lemma StoredFits(files: seq<seq<octet>>)
    requires FilesFit(files) && |files[0]| >= 4
    ensures FilesFit(Stored(files))
    ensures forall fat: seq<octet> :: ChainsUpTo(fat, files, |files|) ==> ChainsUpTo(fat, Stored(files), |files|)
  {
    var r := Stored(files);
    forall k: nat | k <= |files|
      ensures Start(r, k) == Start(files, k)
    {
      SameStarts(files, r, k);
    }
  }

  lemma SameRoot(names: seq<seq<octet>>, files: seq<seq<octet>>)
    requires FilesFit(files) && |files[0]| >= 4 && |names| == |files| && forall j :: 0 <= j < |names| ==> |names[j]| == 11
    ensures RootDir(names, Stored(files), |files|) == RootDir(names, files, |files|) && |RootDir(names, files, |files|)| <= 512 * ROOT_DIR_SECTORS
  {
    SameRootUpTo(names, files, |files|);
  }

  lemma {:induction false} SameRootUpTo(names: seq<seq<octet>>, files: seq<seq<octet>>, k: nat)
    requires 1 <= |files| == |names| && |files[0]| >= 4 && k <= |files| && forall j :: 0 <= j < |names| ==> |names[j]| == 11
    ensures RootDir(names, Stored(files), k) == RootDir(names, files, k)
  {
    if k > 0 {
      SameRootUpTo(names, files, k - 1);
      SameStarts(files, Stored(files), k - 1);
    }
  }

  // ---- reading it back ----

  /** The bytes of the clusters of a chain, one after the other. */
  function ReadClusters(img: seq<octet>, chain: seq<nat>): (r: seq<octet>)
    requires |img| == 512 * TOTAL_SECTORS && forall i :: 0 <= i < |chain| ==> 2 <= chain[i] < 2849
  {
    if chain == [] then []
    else img[512 * (DATA_START + chain[0] - 2)..512 * (DATA_START + chain[0] - 2) + 512] + ReadClusters(img, chain[1..])
  }

  lemma {:induction false} RunOfClusters(img: seq<octet>, start: nat, n: nat)
    requires |img| == 512 * TOTAL_SECTORS && 2 <= start && start + n <= 2849
    ensures var at := 512 * (DATA_START + start - 2);
            ReadClusters(img, seq(n, i => start + i)) == img[at..at + 512 * n]
    decreases n
  {
    var chain := seq(n, i => start + i);
    var at := 512 * (DATA_START + start - 2);
    if n > 0 {
      RunOfClusters(img, start + 1, n - 1);
      assert chain[1..] == seq(n - 1, i => start + 1 + i);
      assert img[at..at + 512] + img[at + 512..at + 512 * n] == img[at..at + 512 * n];
    } else {
      assert chain == [] && img[at..at] == [];
    }
  }

  /** Whoever takes a file's root entry and follows the table from the cluster it names, to
      the end, reads that file, cut to the size it names. An empty file has no clusters; its entry
      names the first cluster of the file after it, and the size alone says that it is empty. */
  lemma FileReadsBack(img: seq<octet>, boot: seq<octet>, names: seq<seq<octet>>, files: seq<seq<octet>>, k: nat)
    requires ImageOk(img, boot, names, files) && FilesFit(files) && k < |files|
    ensures var root := img[512 * ROOT_DIR_START..512 * DATA_START];
            var e := root[32 * k..32 * k + 32];
            var chain := Follow(img[512 * FAT1_START..512 * FAT2_START], EntryCluster(e), 3072);
            && e[..11] == names[k] && EntrySize(e) == |files[k]|
            && (files[k] == [] && k + 1 < |files| ==> EntryCluster(e) == Start(files, k + 1))
            && (files[k] != [] ==>
                  && chain == seq(Clusters(|files[k]|), i => Start(files, k) + i)
                  && (forall i :: 0 <= i < |chain| ==> 2 <= chain[i] < 2849)
                  && EntrySize(e) <= |ReadClusters(img, chain)|
                  && ReadClusters(img, chain)[..EntrySize(e)] == files[k])
  {
    hide Start, Entry, RootDir, Follow, ReadClusters, DirEntry, EntryCluster, EntrySize;
    FileInside(files, k);
    var r := RootDir(names, files, |files|);
    RootEntryAt(names, files, |files|, k);
    EntryInRoot(r, k);
    EntrySays(names[k], 0x20, Start(files, k), |files[k]|);
    if files[k] == [] {
      if k + 1 < |files| {
        NextStart(files, k);
      }
      return;
    }
    var fat := img[512 * FAT1_START..512 * FAT2_START];
    var n := Clusters(|files[k]|);
    assert ChainAt(fat, Start(files, k), n);
    FollowChain(fat, Start(files, k), n, 3072);
    RunOfClusters(img, Start(files, k), n);
    var at := FileOffset(files, k);
    assert Holds(img, at, files[k]);
    assert img[at..at + 512 * n][..|files[k]|] == img[at..at + |files[k]|];
  }

  lemma EntryInRoot(r: seq<octet>, k: nat)
    requires 32 * k + 32 <= |r| <= 512 * ROOT_DIR_SECTORS
    ensures Padded(r, 512 * ROOT_DIR_SECTORS)[32 * k..32 * k + 32] == r[32 * k..32 * k + 32]
  {
  }
}
