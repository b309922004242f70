/** The slots of a directory file, and the map from names to inode sectors they stand for. */
module DirLayout {
  import opened Disk
  import opened Bits
  import opened Words

  const ENTRY_SIZE := 24
  const NAME_MAX := 14
  const IN_USE := 19

  /** A C string without its terminator. */
  type Name = seq<byte>

  /** One directory entry as it lies in the file: inode sector (4 bytes), name (15 bytes),
      in_use (1 byte), isfile (1 byte), padding (3 bytes). */
  type Slot = e: seq<byte> | |e| == ENTRY_SIZE witness seq(ENTRY_SIZE, _ => 0)

  predicate InUse(e: Slot) {
    e[IN_USE] != 0
  }

  function EntrySector(e: Slot): word {
    BytesWord(e[..4])
  }

  /** The bytes of S before its first zero. */
  function CString(s: seq<byte>): (r: Name)
    ensures |r| <= |s| && r == s[..|r|] && 0 !in r && (|r| < |s| ==> s[|r|] == 0)
  {
    if s == [] || s[0] == 0 then [] else [s[0]] + CString(s[1..])
  }

  function EntryName(e: Slot): Name {
    CString(e[4..IN_USE])
  }

  /** A name that dir_add accepts. */
  predicate ValidName(name: Name) {
    0 < |name| <= NAME_MAX
  }

  /** E after dir_add has filled it in: strlcpy leaves the bytes after the terminator. */
  function FillEntry(e: Slot, name: Name, sector: word): (r: Slot)
    requires ValidName(name)
  {
    WordBytes(sector) + name + [0] + e[5 + |name|..IN_USE] + [1] + e[IN_USE + 1..]
  }

  lemma {:induction false} CStringOf(name: Name, rest: seq<byte>)
    requires 0 !in name
    ensures CString(name + [0] + rest) == name
  {
    if name != [] {
      assert (name + [0] + rest)[1..] == name[1..] + [0] + rest;
      assert name[0] in name;
      CStringOf(name[1..], rest);
    }
  }

  lemma FillEntryReads(e: Slot, name: Name, sector: word)
    requires ValidName(name) && 0 !in name
    ensures InUse(FillEntry(e, name, sector))
    ensures EntryName(FillEntry(e, name, sector)) == name && EntrySector(FillEntry(e, name, sector)) == sector
  {
    var r := FillEntry(e, name, sector);
    assert r[4..IN_USE] == name + [0] + e[5 + |name|..IN_USE];
    CStringOf(name, e[5 + |name|..IN_USE]);
    assert r[..4] == WordBytes(sector);
    WordRoundTrip(sector);
  }

  /** What dir_add writes, byte for byte: the sector, low byte first, the name and its terminator, and
      in_use; all other bytes stay. */
  lemma FillEntryBytes(e: Slot, name: Name, sector: word)
    requires ValidName(name)
    ensures var r := FillEntry(e, name, sector);
            && (r[0] as int) + 0x100 * (r[1] as int) + 0x1_0000 * (r[2] as int) + 0x100_0000 * (r[3] as int) == sector
            && r[4..4 + |name|] == name && r[4 + |name|] == 0 && r[19] == 1
            && forall k :: 4 + |name| < k < ENTRY_SIZE && k != 19 ==> r[k] == e[k]
  {
    WordRoundTrip(sector);
    var r := FillEntry(e, name, sector);
    assert r[..4] == WordBytes(sector);
    assert r[0] == r[..4][0] && r[1] == r[..4][1] && r[2] == r[..4][2] && r[3] == r[..4][3];
    var head, mid := WordBytes(sector) + name + [0], e[5 + |name|..IN_USE];
    forall k | 4 + |name| < k < ENTRY_SIZE && k != 19 ensures r[k] == e[k] {
      if k < 19 {
        assert r[k] == mid[k - |head|];
      }
    }
  }

  /** A directory file cut into slots. */
  function Slots(c: seq<byte>): (sl: seq<Slot>)
    ensures |sl| == |c| / ENTRY_SIZE
    ensures forall i :: 0 <= i < |sl| ==> sl[i] == c[ENTRY_SIZE * i..ENTRY_SIZE * i + ENTRY_SIZE]
  {
    seq(|c| / ENTRY_SIZE, i requires 0 <= i < |c| / ENTRY_SIZE => c[ENTRY_SIZE * i..ENTRY_SIZE * i + ENTRY_SIZE])
  }

  /** Names of slots in use are proper and different from each other. */
  ghost predicate SlotsOk(sl: seq<Slot>) {
    && (forall i :: 0 <= i < |sl| && InUse(sl[i]) ==> ValidName(EntryName(sl[i])))
    && (forall i, j :: 0 <= i < j < |sl| && InUse(sl[i]) && InUse(sl[j]) ==> EntryName(sl[i]) != EntryName(sl[j]))
  }

  /** What dir_create and dir_add make of a directory file. */
  ghost predicate DirOk(c: seq<byte>) {
    |c| % ENTRY_SIZE == 0 && SlotsOk(Slots(c))
  }

  /** Every slot is in use. */
  ghost predicate Full(sl: seq<Slot>) {
    forall i :: 0 <= i < |sl| ==> InUse(sl[i])
  }

  /** The first slot in use with NAME, or |sl|. */
  function FindName(sl: seq<Slot>, name: Name): (i: nat)
    ensures i <= |sl|
    ensures i < |sl| ==> InUse(sl[i]) && EntryName(sl[i]) == name
    ensures forall j :: 0 <= j < i ==> !(InUse(sl[j]) && EntryName(sl[j]) == name)
  {
    if sl == [] || (InUse(sl[0]) && EntryName(sl[0]) == name) then 0 else 1 + FindName(sl[1..], name)
  }

  ghost function Names(sl: seq<Slot>): set<Name> {
    set i | 0 <= i < |sl| && InUse(sl[i]) :: EntryName(sl[i])
  }

  /** The directory as a finite map from names to inode sectors. */
  ghost function DirMap(sl: seq<Slot>): (m: map<Name, word>)
    ensures m.Keys == Names(sl)
  {
    map name | name in Names(sl) :: EntrySector(sl[FindName(sl, name)])
  }

  lemma Found(sl: seq<Slot>, name: Name)
    ensures name in DirMap(sl) <==> FindName(sl, name) < |sl|
    ensures name in DirMap(sl) ==> DirMap(sl)[name] == EntrySector(sl[FindName(sl, name)])
  {
  }

  lemma FoundAt(sl: seq<Slot>, i: nat)
    requires SlotsOk(sl) && i < |sl| && InUse(sl[i])
    ensures FindName(sl, EntryName(sl[i])) == i && EntryName(sl[i]) in DirMap(sl)
    ensures DirMap(sl)[EntryName(sl[i])] == EntrySector(sl[i])
  {
  }

  /** A map that has the names of the slots in use, with their sectors, is the directory's map. */
  lemma DirMapIs(sl: seq<Slot>, m: map<Name, word>)
    requires SlotsOk(sl)
    requires forall k :: 0 <= k < |sl| && InUse(sl[k]) ==>
               EntryName(sl[k]) in m && m[EntryName(sl[k])] == EntrySector(sl[k])
    requires forall name :: name in m ==> name in Names(sl)
    ensures DirMap(sl) == m
  {
    forall name | name in DirMap(sl) ensures name in m && DirMap(sl)[name] == m[name] {
      Found(sl, name);
    }
  }

  /** Filling a free slot adds one name to the map. */
  lemma AddAt(sl: seq<Slot>, i: nat, e: Slot)
    requires SlotsOk(sl) && i < |sl| && !InUse(sl[i])
    requires InUse(e) && ValidName(EntryName(e)) && EntryName(e) !in DirMap(sl)
    ensures SlotsOk(sl[i := e]) && DirMap(sl[i := e]) == DirMap(sl)[EntryName(e) := EntrySector(e)]
  {
    hide FindName, EntryName, EntrySector, InUse, ValidName;
    var sl' := sl[i := e];
    var m := DirMap(sl)[EntryName(e) := EntrySector(e)];
    forall k | 0 <= k < |sl'| && InUse(sl'[k])
      ensures EntryName(sl'[k]) in m && m[EntryName(sl'[k])] == EntrySector(sl'[k])
    {
      if k != i {
        FoundAt(sl, k);
      }
    }
    forall name | name in m ensures name in Names(sl') {
      NamesKept(sl, sl', i, name);
      assert InUse(sl'[i]);
    }
    DirMapIs(sl', m);
  }

  lemma NamesKept(sl: seq<Slot>, sl': seq<Slot>, i: nat, name: Name)
    requires |sl| <= |sl'| && forall k :: 0 <= k < |sl| && k != i ==> sl'[k] == sl[k]
    ensures name in Names(sl) && (i < |sl| && InUse(sl[i]) ==> EntryName(sl[i]) != name) ==> name in Names(sl')
  {
    if name in Names(sl) && (i < |sl| && InUse(sl[i]) ==> EntryName(sl[i]) != name) {
      var k :| 0 <= k < |sl| && InUse(sl[k]) && EntryName(sl[k]) == name;
      assert sl'[k] == sl[k];
    }
  }

  /** A directory that is full gets an unused slot and then the new entry. */
  lemma AddBeyond(sl: seq<Slot>, z: Slot, e: Slot)
    requires SlotsOk(sl) && !InUse(z)
    requires InUse(e) && ValidName(EntryName(e)) && EntryName(e) !in DirMap(sl)
    ensures SlotsOk(sl + [z, e]) && DirMap(sl + [z, e]) == DirMap(sl)[EntryName(e) := EntrySector(e)]
  {
    hide FindName, EntryName, EntrySector, InUse, ValidName, SlotsOk, DirMap;
    Unused(sl, z);
    Unused(sl + [z], z);
    var sl1 := sl + [z] + [z];
    AddAt(sl1, |sl| + 1, e);
    assert sl1[|sl| + 1 := e] == sl + [z, e];
  }

  lemma Unused(sl: seq<Slot>, z: Slot)
    requires SlotsOk(sl) && !InUse(z)
    ensures SlotsOk(sl + [z]) && DirMap(sl + [z]) == DirMap(sl)
  {
    hide FindName, EntryName, EntrySector, InUse, ValidName;
    var sl1 := sl + [z];
    forall k | 0 <= k < |sl1| && InUse(sl1[k])
      ensures EntryName(sl1[k]) in DirMap(sl) && DirMap(sl)[EntryName(sl1[k])] == EntrySector(sl1[k])
    {
      FoundAt(sl, k);
    }
    forall name | name in DirMap(sl) ensures name in Names(sl1) {
      NamesKept(sl, sl1, |sl|, name);
    }
    DirMapIs(sl1, DirMap(sl));
  }

  /** Clearing the in_use byte of a slot takes one name out of the map. */
  lemma RemoveAt(sl: seq<Slot>, i: nat, e: Slot)
    requires SlotsOk(sl) && i < |sl| && InUse(sl[i]) && !InUse(e)
    ensures SlotsOk(sl[i := e]) && DirMap(sl[i := e]) == DirMap(sl) - {EntryName(sl[i])}
  {
    hide FindName, EntryName, EntrySector, InUse, ValidName;
    var sl' := sl[i := e];
    var m := DirMap(sl) - {EntryName(sl[i])};
    forall k | 0 <= k < |sl'| && InUse(sl'[k])
      ensures EntryName(sl'[k]) in m && m[EntryName(sl'[k])] == EntrySector(sl'[k])
    {
      FoundAt(sl, k);
    }
    forall name | name in m ensures name in Names(sl') {
      NamesKept(sl, sl', i, name);
    }
    DirMapIs(sl', m);
  }

  const DOT: Name := [46]
  const DOTDOT: Name := [46, 46]

  predicate IsVisible(e: Slot) {
    InUse(e) && EntryName(e) != DOT && EntryName(e) != DOTDOT
  }

  /** The names dir_readdir reports, in slot order. */
  function Visible(sl: seq<Slot>): (names: seq<Name>) {
    if sl == [] then []
    else (if IsVisible(sl[0]) then [EntryName(sl[0])] else []) + Visible(sl[1..])
  }

  lemma {:induction false} VisibleMember(sl: seq<Slot>, name: Name)
    ensures name in Visible(sl) <==> exists i :: 0 <= i < |sl| && IsVisible(sl[i]) && EntryName(sl[i]) == name
  {
    if sl != [] {
      VisibleMember(sl[1..], name);
      if exists i :: 0 <= i < |sl| && IsVisible(sl[i]) && EntryName(sl[i]) == name {
        var i :| 0 <= i < |sl| && IsVisible(sl[i]) && EntryName(sl[i]) == name;
        if i > 0 {
          assert sl[1..][i - 1] == sl[i];
        }
      }
      if name in Visible(sl[1..]) {
        var i :| 0 <= i < |sl[1..]| && IsVisible(sl[1..][i]) && EntryName(sl[1..][i]) == name;
        assert sl[i + 1] == sl[1..][i];
      }
    }
  }

  lemma {:induction false} VisibleOnce(sl: seq<Slot>)
    requires SlotsOk(sl)
    ensures forall i, j :: 0 <= i < j < |Visible(sl)| ==> Visible(sl)[i] != Visible(sl)[j]
  {
    if sl != [] {
      assert SlotsOk(sl[1..]);
      VisibleOnce(sl[1..]);
      VisibleMember(sl[1..], EntryName(sl[0]));
    }
  }

  /** The names dir_readdir reports are the names in the map other than "." and "..", each once. */
  lemma VisibleNames(sl: seq<Slot>)
    requires SlotsOk(sl)
    ensures forall name :: name in Visible(sl) <==> name in DirMap(sl) && name != DOT && name != DOTDOT
    ensures forall i, j :: 0 <= i < j < |Visible(sl)| ==> Visible(sl)[i] != Visible(sl)[j]
  {
    VisibleOnce(sl);
    forall name ensures name in Visible(sl) <==> name in DirMap(sl) && name != DOT && name != DOTDOT {
      VisibleMember(sl, name);
    }
  }

  lemma {:induction false} VisibleSplit(a: seq<Slot>, b: seq<Slot>)
    ensures Visible(a + b) == Visible(a) + Visible(b)
  {
    if a == [] {
      assert a + b == b;
    } else {
      assert (a + b)[1..] == a[1..] + b;
      VisibleSplit(a[1..], b);
    }
  }

  /** The slots in use. */
  ghost function UsedSlots(sl: seq<Slot>): set<nat> {
    set i: nat | i < |sl| && InUse(sl[i])
  }

  lemma UsedNext(sl: seq<Slot>, i: nat)
    requires i < |sl|
    ensures |UsedSlots(sl[..i + 1])| == |UsedSlots(sl[..i])| + if InUse(sl[i]) then 1 else 0
  {
    hide InUse;
    var a, b := UsedSlots(sl[..i]), UsedSlots(sl[..i + 1]);
    assert b == if InUse(sl[i]) then a + {i} else a;
  }

  /** Every name of a directory has one slot in use, and there are no others. */
  lemma {:induction false} OneSlotEach(sl: seq<Slot>)
    requires SlotsOk(sl)
    ensures |DirMap(sl)| == |UsedSlots(sl)|
    decreases |sl|
  {
    hide InUse, EntryName, ValidName, FindName, EntrySector;
    assert |DirMap(sl)| == |Names(sl)|;
    if sl != [] {
      var n := |sl| - 1;
      OneSlotEach(sl[..n]);
      assert sl[..n + 1] == sl;
      UsedNext(sl, n);
      NamesNext(sl, n);
      assert |DirMap(sl[..n])| == |Names(sl[..n])|;
    }
  }

  lemma NamesNext(sl: seq<Slot>, n: nat)
    requires SlotsOk(sl) && n + 1 == |sl|
    ensures |Names(sl)| == |Names(sl[..n])| + if InUse(sl[n]) then 1 else 0
  {
    hide InUse, EntryName, ValidName;
    var a, b := Names(sl[..n]), Names(sl);
    forall name | name in b ensures name in a || (InUse(sl[n]) && name == EntryName(sl[n])) {
      var i :| 0 <= i < |sl| && InUse(sl[i]) && EntryName(sl[i]) == name;
      assert i < n ==> sl[..n][i] == sl[i];
    }
    forall name | name in a ensures name in b && (InUse(sl[n]) ==> name != EntryName(sl[n])) {
      var i :| 0 <= i < n && InUse(sl[..n][i]) && EntryName(sl[..n][i]) == name;
      assert sl[i] == sl[..n][i];
    }
    if InUse(sl[n]) {
      assert EntryName(sl[n]) in b;
      assert b == a + {EntryName(sl[n])};
    } else {
      assert b == a;
    }
  }
}
