/** A directory's block as bytes: 21 entries of 24 bytes, a name in a field of 16 filled
    up with zeros, the inode number and the kind. */
module DirSector {
  import opened Bytes
  import opened DirTree

  function KindNo(k: Kind): u32 {
    match k case Unknown => 0 case Regular => 1 case Directory => 2
  }

  predicate Storable(s: Slot) {
    |s.name| < MAX_FILE_NAME_LEN && 0 !in s.name && s.no < U32_SIZE
  }

  function EntryImage(s: Slot): (r: seq<byte>)
    requires Storable(s)
    ensures |r| == ENTRY_SIZE
  {
    s.name + Zeros(MAX_FILE_NAME_LEN - |s.name|) + Le32(s.no) + Le32(KindNo(s.kind))
  }

  /** The block holds these entries. */
  ghost predicate Holds(sec: seq<byte>, slots: seq<Slot>) {
    && |sec| == 512 && |slots| == ENTRIES
    && forall i: nat :: i < ENTRIES ==> Storable(slots[i]) && sec[24 * i..24 * i + 24] == EntryImage(slots[i])
  }

  /** The string in a name field. */
  function CString(field: seq<byte>): seq<byte> {
    if field == [] || field[0] == 0 then [] else [field[0]] + CString(field[1..])
  }

  lemma {:induction false} CStringOf(name: seq<byte>, u: seq<byte>)
    requires 0 !in name && u != [] && u[0] == 0
    ensures CString(name + u) == name
  {
    if name == [] {
      assert name + u == u;
    } else {
      assert (name + u)[0] == name[0] && (name + u)[1..] == name[1..] + u;
      CStringOf(name[1..], u);
    }
  }

  function FieldName(sec: seq<byte>, i: nat): seq<byte>
    requires |sec| == 512 && i < ENTRIES
  {
    CString(sec[24 * i..24 * i + 16])
  }

  function FieldNo(sec: seq<byte>, i: nat): u32
    requires |sec| == 512 && i < ENTRIES
  {
    Un32(sec, 24 * i + 16)
  }

  function FieldKind(sec: seq<byte>, i: nat): u32
    requires |sec| == 512 && i < ENTRIES
  {
    Un32(sec, 24 * i + 20)
  }

  lemma WordOfSlice(s: seq<byte>, at: nat, n: u32)
    requires at + 4 <= |s| && s[at..at + 4] == Le32(n)
    ensures Un32(s, at) == n
  {
    var w := s[at..at + 4];
    Un32OfLe32(n);
    assert w[0] == s[at] && w[1] == s[at + 1] && w[2] == s[at + 2] && w[3] == s[at + 3];
  }

  lemma ImageParts(s: Slot)
    requires Storable(s)
    ensures EntryImage(s)[..16] == s.name + Zeros(16 - |s.name|)
    ensures EntryImage(s)[16..20] == Le32(s.no) && EntryImage(s)[20..24] == Le32(KindNo(s.kind))
  {
    hide Le32, Zeros;
  }

  /** Reading the fields of an entry gives what was put in. */
  lemma FieldsOf(sec: seq<byte>, slots: seq<Slot>, i: nat)
    requires Holds(sec, slots) && i < ENTRIES
    ensures FieldName(sec, i) == slots[i].name
    ensures FieldNo(sec, i) == slots[i].no
    ensures FieldKind(sec, i) == KindNo(slots[i].kind)
  {
    hide Le32, Un32, EntryImage;
    var e := sec[24 * i..24 * i + 24];
    var s := slots[i];
    assert e == EntryImage(s);
    ImageParts(s);
    SliceOfSlice(sec, 24 * i, 24 * i + 24, 0, 16);
    SliceOfSlice(sec, 24 * i, 24 * i + 24, 16, 20);
    SliceOfSlice(sec, 24 * i, 24 * i + 24, 20, 24);
    CStringOf(s.name, Zeros(16 - |s.name|));
    WordOfSlice(sec, 24 * i + 16, s.no);
    WordOfSlice(sec, 24 * i + 20, KindNo(s.kind));
  }

  /** Putting an entry over another changes that one alone. */
  lemma HoldsPut(sec: seq<byte>, slots: seq<Slot>, i: nat, s: Slot)
    requires Holds(sec, slots) && i < ENTRIES && Storable(s)
    ensures Holds(Splice(sec, 24 * i, EntryImage(s)), slots[i := s])
  {
    hide EntryImage;
    var sec' := Splice(sec, 24 * i, EntryImage(s));
    forall j: nat | j < ENTRIES
      ensures Storable(slots[i := s][j]) && sec'[24 * j..24 * j + 24] == EntryImage(slots[i := s][j])
    {
      SliceOfSplice(sec, 24 * i, EntryImage(s), 24 * j, 24 * j + 24);
      assert j != i ==> 24 * j + 24 <= 24 * i || 24 * i + 24 <= 24 * j;
    }
  }

  /** create_dir_entry stores a name without its NUL, a number and a kind over a cleared
      entry. Since it was cleared, that is the whole image of the new entry. */
  lemma FillsEntry(sec: seq<byte>, slots: seq<Slot>, i: nat, s: Slot)
    requires Holds(sec, slots) && i < ENTRIES && slots[i] == FREE && Storable(s)
    ensures var filled := Splice(Splice(Splice(sec, 24 * i, s.name), 24 * i + 16, Le32(s.no)), 24 * i + 20, Le32(KindNo(s.kind)));
            Holds(filled, slots[i := s])
  {
    hide Le32, EntryImage;
    FreeImage();
    ImageParts(s);
    var e := EntryImage(s);
    var filled := Splice(Splice(Splice(sec, 24 * i, s.name), 24 * i + 16, Le32(s.no)), 24 * i + 20, Le32(KindNo(s.kind)));
    forall j: nat | j < 512
      ensures filled[j] == Splice(sec, 24 * i, e)[j]
    {
      if 24 * i <= j < 24 * i + 16 {
        assert sec[j] == sec[24 * i..24 * i + 24][j - 24 * i] == 0;
        assert e[j - 24 * i] == e[..16][j - 24 * i];
      } else if 24 * i + 16 <= j < 24 * i + 20 {
        assert e[j - 24 * i] == e[16..20][j - 24 * i - 16];
      } else if 24 * i + 20 <= j < 24 * i + 24 {
        assert e[j - 24 * i] == e[20..24][j - 24 * i - 20];
      }
    }
    assert filled == Splice(sec, 24 * i, e);
    HoldsPut(sec, slots, i, s);
  }

  lemma FreeImage()
    ensures Storable(FREE) && EntryImage(FREE) == Zeros(24)
  {
    Le32Zero();
  }

  lemma Le32Zero()
    ensures Le32(0) == [0, 0, 0, 0]
  {
  }

  // ---- the scans of fs.c over one block ----

  /** The inner loop of search_dir_entry: strcmp over the entries. */
  method ScanName(sec: seq<byte>, name: Name, ghost slots: seq<Slot>) returns (i: nat)
    requires Holds(sec, slots)
    ensures i == FindName(slots, name, 0)
  {
    i := 0;
    while i < ENTRIES
      invariant i <= ENTRIES && FindName(slots, name, 0) == FindName(slots, name, i)
    {
      FieldsOf(sec, slots, i);
      if FieldName(sec, i) == name {
        return;
      }
      i := i + 1;
    }
  }

  /** The inner loop of create_dir_entry. */
  method ScanFree(sec: seq<byte>, ghost slots: seq<Slot>) returns (i: nat)
    requires Holds(sec, slots)
    ensures i == FindFree(slots, 0)
  {
    i := 0;
    while i < ENTRIES
      invariant i <= ENTRIES && FindFree(slots, 0) == FindFree(slots, i)
    {
      FieldsOf(sec, slots, i);
      if FieldKind(sec, i) == 0 {
        return;
      }
      i := i + 1;
    }
  }

  /** The inner loop of delete_dir_entry and get_child_dir_name. */
  method ScanNo(sec: seq<byte>, no: u32, ghost slots: seq<Slot>) returns (i: nat)
    requires Holds(sec, slots)
    ensures i == FindNo(slots, no, 0)
  {
    i := 0;
    while i < ENTRIES
      invariant i <= ENTRIES && FindNo(slots, no, 0) == FindNo(slots, no, i)
    {
      FieldsOf(sec, slots, i);
      if FieldNo(sec, i) == no {
        return;
      }
      i := i + 1;
    }
  }
}
