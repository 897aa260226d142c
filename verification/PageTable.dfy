/**
  * The three-level Sv39 page table of kernel/vm.c (section 4.4 of the RISC-V Privileged
  * Architecture) as a tree of pages of 512 words, and the flat map from virtual page to entry
  * that it stands for. Addresses are page numbers; an entry is its page number times 1024 plus flags.
  */
module PageTable {
  const ENTRIES := 512
  const NONE := -1
  const PTE_V := 1
  const MAXPAGE := 0x400_0000

  // Entries

  function Encode(ppn: int, flags: int): int {
    ppn * 1024 + flags
  }

  predicate Valid(w: int) {
    w % 2 == 1
  }

  function Ppn(w: int): int {
    w / 1024
  }

  function Flags(w: int): int {
    w % 1024
  }

  /** One of the R, W, X bits is set. */
  predicate IsLeaf(w: int) {
    w / 2 % 8 != 0
  }

  lemma EncodeDecodes(ppn: int, flags: int)
    requires 0 <= ppn && 0 <= flags < 1024
    ensures Ppn(Encode(ppn, flags)) == ppn && Flags(Encode(ppn, flags)) == flags
    ensures Valid(Encode(ppn, flags)) <==> flags % 2 == 1
    ensures IsLeaf(Encode(ppn, flags)) <==> flags / 2 % 8 != 0
  {
    assert Encode(ppn, flags) / 2 == 512 * ppn + flags / 2;
  }

  /** PA2PTE and PTE2PA on 64-bit words: the address of a page and its ten flag bits both come back. */
  lemma PteWordRoundTrip(pa: bv64, perm: bv64)
    requires pa & 0xfff == 0 && pa < 0x100_0000_0000_0000 && perm < 1024
    ensures ((((pa >> 12) << 10) | perm) >> 10) << 12 == pa
    ensures (((pa >> 12) << 10) | perm) & 0x3ff == perm
  {
  }

  // The tree

  /** Where a page-table page hangs: the root, the child for index a of it, or the one for pages 512q .. 512q+511. */
  datatype Place = Root | Mid(a: int) | Last(q: int)

  datatype T = T(root: int, mem: map<int, seq<int>>, free: seq<int>, own: map<int, Place>)

  function Word(t: T, p: int, i: int): int {
    if p in t.mem && 0 <= i < |t.mem[p]| then t.mem[p][i] else 0
  }

  function Child(t: T, p: int, i: int): int {
    if Valid(Word(t, p, i)) then Ppn(Word(t, p, i)) else NONE
  }

  /** The page at a place, if the tree reaches there. */
  function Table(t: T, pl: Place): int {
    match pl
    case Root => t.root
    case Mid(a) => Child(t, t.root, a)
    case Last(q) =>
      if Child(t, t.root, q / ENTRIES) == NONE then NONE else Child(t, Child(t, t.root, q / ENTRIES), q % ENTRIES)
  }

  /** The flat view: the entry for virtual page v; 0 if there is none. */
  function Lookup(t: T, v: int): int {
    if Table(t, Last(v / ENTRIES)) == NONE then 0 else Word(t, Table(t, Last(v / ENTRIES)), v % ENTRIES)
  }

  ghost predicate PlaceOk(t: T, pl: Place) {
    var p := Table(t, pl);
    p != NONE ==> p in t.mem && |t.mem[p]| == ENTRIES && p in t.own && t.own[p] == pl
  }

  ghost predicate PageOk(t: T, p: int) {
    p in t.own ==> p >= 0 && Table(t, t.own[p]) == p
  }

  ghost predicate FreeOk(t: T, i: int) {
    0 <= i < |t.free| ==> t.free[i] >= 0 && t.free[i] !in t.own
  }

  ghost predicate FreeApart(t: T, i: int, j: int) {
    0 <= i < j < |t.free| ==> t.free[i] != t.free[j]
  }

  /** Entries of the upper levels are plain pointers, entries of the last level are mappings. */
  ghost predicate WordOk(t: T, pl: Place, i: int) {
    Table(t, pl) != NONE ==>
      var w := Word(t, Table(t, pl), i);
      w >= 0 && (Valid(w) ==> if pl.Last? then IsLeaf(w) else Flags(w) == PTE_V)
  }

  /** The page-table pages form an unshared tree, and the free pages are not in it. */
  ghost predicate Inv(t: T) {
    && t.root >= 0
    && (forall pl :: PlaceOk(t, pl))
    && (forall p :: PageOk(t, p))
    && (forall i :: FreeOk(t, i))
    && (forall i, j :: FreeApart(t, i, j))
    && (forall pl, i :: WordOk(t, pl, i))
  }

  /** No two places share a page: the tree is a tree. */
  lemma Unshared(t: T, x: Place, y: Place)
    requires Inv(t) && Table(t, x) == Table(t, y) != NONE
    ensures x == y
  {
    assert PlaceOk(t, x) && PlaceOk(t, y);
  }

  // Adding a page

  function Zeros(): (r: seq<int>)
    ensures |r| == ENTRIES
  {
    seq(ENTRIES, _ => 0)
  }

  function ChildPlace(pl: Place, i: int): Place
    requires !pl.Last?
  {
    if pl.Root? then Mid(i) else Last(pl.a * ENTRIES + i)
  }

  predicate CanAttach(t: T, pl: Place, i: int) {
    && !pl.Last? && Table(t, pl) != NONE && Table(t, pl) in t.mem && |t.mem[Table(t, pl)]| == ENTRIES
    && 0 <= i < ENTRIES && !Valid(Word(t, Table(t, pl), i)) && |t.free| > 0 && t.free[0] >= 0
  }

  /** A page from the free list, zeroed, hung below entry i of the page at pl. */
  function Attach(t: T, pl: Place, i: int): T
    requires CanAttach(t, pl, i)
  {
    var p, c := Table(t, pl), t.free[0];
    var mem := t.mem[c := Zeros()];
    t.(mem := mem[p := mem[p][i := Encode(c, PTE_V)]], free := t.free[1..], own := t.own[c := ChildPlace(pl, i)])
  }

  lemma FreshPage(t: T, pl: Place)
    requires Inv(t) && |t.free| > 0
    ensures t.free[0] >= 0 && t.free[0] !in t.own && Table(t, pl) != t.free[0]
  {
    assert FreeOk(t, 0) && PlaceOk(t, pl);
  }

  lemma AttachWords(t: T, pl: Place, i: int, p: int, j: int)
    requires Inv(t) && CanAttach(t, pl, i) && p != t.free[0]
    ensures Word(Attach(t, pl, i), p, j) == if p == Table(t, pl) && j == i then Encode(t.free[0], PTE_V)
            else Word(t, p, j)
  {
    FreshPage(t, pl);
  }

  lemma AttachFresh(t: T, pl: Place, i: int, j: int)
    requires Inv(t) && CanAttach(t, pl, i)
    ensures Word(Attach(t, pl, i), t.free[0], j) == 0
  {
    FreshPage(t, pl);
  }

  /** One place gains a page and no other place changes. */
  lemma AttachTables(t: T, pl: Place, i: int, x: Place)
    requires Inv(t) && CanAttach(t, pl, i)
    ensures Table(Attach(t, pl, i), x) == if x == ChildPlace(pl, i) then t.free[0] else Table(t, x)
  {
    var n, c := Attach(t, pl, i), t.free[0];
    FreshPage(t, pl);
    FreshPage(t, Root);
    EncodeDecodes(c, PTE_V);
    match x
    case Root =>
    case Mid(a) =>
      AttachWords(t, pl, i, t.root, a);
      if t.root == Table(t, pl) {
        Unshared(t, Root, pl);
      }
    case Last(q) =>
      var a, b := q / ENTRIES, q % ENTRIES;
      AttachWords(t, pl, i, t.root, a);
      FreshPage(t, Mid(a));
      if t.root == Table(t, pl) {
        Unshared(t, Root, pl);
        AttachFresh(t, pl, i, b);
      }
      var m := Table(t, Mid(a));
      if m != NONE {
        AttachWords(t, pl, i, m, b);
        if m == Table(t, pl) {
          Unshared(t, Mid(a), pl);
        }
      }
  }

  lemma AttachKeepsInv(t: T, pl: Place, i: int)
    requires Inv(t) && CanAttach(t, pl, i)
    ensures Inv(Attach(t, pl, i))
  {
    var n, c := Attach(t, pl, i), t.free[0];
    FreshPage(t, pl);
    assert PlaceOk(t, pl);
    forall x ensures PlaceOk(n, x) {
      assert PlaceOk(t, x);
      FreshPage(t, x);
      AttachTables(t, pl, i, x);
    }
    forall p ensures PageOk(n, p) {
      assert PageOk(t, p);
      if p in n.own {
        AttachTables(t, pl, i, n.own[p]);
      }
      assert PlaceOk(t, ChildPlace(pl, i));
    }
    forall j ensures FreeOk(n, j) {
      assert FreeOk(t, j + 1) && FreeApart(t, 0, j + 1);
    }
    forall j, k ensures FreeApart(n, j, k) {
      assert FreeApart(t, j + 1, k + 1);
    }
    AttachWordsOk(t, pl, i);
  }

  lemma AttachWordsOk(t: T, pl: Place, i: int)
    requires Inv(t) && CanAttach(t, pl, i)
    ensures forall x, j :: WordOk(Attach(t, pl, i), x, j)
  {
    var n, c := Attach(t, pl, i), t.free[0];
    EncodeDecodes(c, PTE_V);
    forall x, j ensures WordOk(n, x, j) {
      assert WordOk(t, x, j);
      FreshPage(t, x);
      AttachTables(t, pl, i, x);
      if x == ChildPlace(pl, i) {
        AttachFresh(t, pl, i, j);
      } else if Table(t, x) != NONE {
        AttachWords(t, pl, i, Table(t, x), j);
        if Table(t, x) == Table(t, pl) {
          Unshared(t, x, pl);
        }
      }
    }
  }

  /** A new page-table page is empty, so no translation changes. */
  lemma AttachLookup(t: T, pl: Place, i: int, v: int)
    requires Inv(t) && CanAttach(t, pl, i)
    ensures Lookup(Attach(t, pl, i), v) == Lookup(t, v)
  {
    var x := Last(v / ENTRIES);
    AttachTables(t, pl, i, x);
    FreshPage(t, x);
    if x == ChildPlace(pl, i) {
      AttachFresh(t, pl, i, v % ENTRIES);
      assert Table(t, x) == NONE by {
        assert v / ENTRIES == pl.a * ENTRIES + i;
        assert Table(t, Mid(pl.a)) == Table(t, pl);
      }
    } else if Table(t, x) != NONE {
      AttachWords(t, pl, i, Table(t, x), v % ENTRIES);
      if Table(t, x) == Table(t, pl) {
        Unshared(t, x, pl);
      }
    }
  }

  // Writing an entry

  predicate HasEntry(t: T, v: int) {
    var p := Table(t, Last(v / ENTRIES));
    p != NONE && p in t.mem && |t.mem[p]| == ENTRIES
  }

  function SetEntry(t: T, v: int, w: int): T
    requires HasEntry(t, v)
  {
    var p := Table(t, Last(v / ENTRIES));
    t.(mem := t.mem[p := t.mem[p][v % ENTRIES := w]])
  }

  lemma SetEntryTables(t: T, v: int, w: int, x: Place)
    requires Inv(t) && HasEntry(t, v)
    ensures Table(SetEntry(t, v, w), x) == Table(t, x)
  {
    var p, n := Table(t, Last(v / ENTRIES)), SetEntry(t, v, w);
    if t.root == p {
      Unshared(t, Root, Last(v / ENTRIES));
    }
    if x.Last? {
      var m := Table(t, Mid(x.q / ENTRIES));
      if m == p {
        Unshared(t, Mid(x.q / ENTRIES), Last(v / ENTRIES));
      }
    }
  }

  /** Writing through the pointer walk returned changes that page's translation and no other. */
  lemma SetEntryLookup(t: T, v: int, w: int, u: int)
    requires Inv(t) && HasEntry(t, v)
    ensures Lookup(SetEntry(t, v, w), u) == if u == v then w else Lookup(t, u)
  {
    var x := Last(u / ENTRIES);
    SetEntryTables(t, v, w, x);
    if Table(t, x) != NONE && Table(t, x) == Table(t, Last(v / ENTRIES)) {
      Unshared(t, x, Last(v / ENTRIES));
    }
  }

  lemma SetEntryKeepsInv(t: T, v: int, w: int)
    requires Inv(t) && HasEntry(t, v) && w >= 0 && (Valid(w) ==> IsLeaf(w))
    ensures Inv(SetEntry(t, v, w))
  {
    var n := SetEntry(t, v, w);
    forall x ensures PlaceOk(n, x) {
      assert PlaceOk(t, x);
      SetEntryTables(t, v, w, x);
    }
    forall p ensures PageOk(n, p) {
      assert PageOk(t, p);
      if p in t.own {
        SetEntryTables(t, v, w, t.own[p]);
      }
    }
    forall j ensures FreeOk(n, j) {
      assert FreeOk(t, j);
    }
    forall j, k ensures FreeApart(n, j, k) {
      assert FreeApart(t, j, k);
    }
    forall x, j ensures WordOk(n, x, j) {
      assert WordOk(t, x, j);
      SetEntryTables(t, v, w, x);
      if Table(t, x) != NONE && Table(t, x) == Table(t, Last(v / ENTRIES)) {
        Unshared(t, x, Last(v / ENTRIES));
      }
    }
  }
}
