/** The 4-level page tables of KERNEL/SOURCE/memory/page.c as memory: table frames and their words. */
module PageWalk {
  import opened Intervals

  datatype Option<T> = None | Some(value: T)

  /** A physical address, the size of the page it was found in (0 is 4K, 1 is 2M, 2 is 1G), and what its entry allows:
      writing to the page, and running code in it. */
  datatype Page = Page(at: nat, size: nat, write: bool, exec: bool)

  /** Table frames by physical address; each holds 512 words. */
  type Tables = map<nat, seq<nat>>

  /** Addresses below it fit into an entry: bits 59 and up are for other things. */
  const REACH: nat := 0x800_0000_0000_0000

  /** The index a linear address selects at each level: nine bits each, from bit 39 down. */
  function Idx(k: nat, v: nat): (i: nat)
    ensures i < 512
  {
    if k == 0 then v / 0x80_0000_0000 % 512
    else if k == 1 then v / 0x4000_0000 % 512
    else if k == 2 then v / 0x20_0000 % 512
    else v / 0x1000 % 512
  }

  predicate Present(e: nat) { e % 2 == 1 }

  /** Bit 7: the entry maps a large page. */
  predicate Large(e: nat) { e / 128 % 2 == 1 }

  /** `e & ~0xFFF`. */
  function Frame(e: nat): nat { e - e % 0x1000 }

  /** `e & 0x07FFFFFFFFFFF000`. */
  function Address(e: nat): nat { e % REACH - e % 0x1000 }

  function Word(m: Tables, f: nat, i: nat): nat {
    if f in m && i < |m[f]| then m[f][i] else 0
  }

  /** The entry leads on to a table of the next level. */
  predicate Leads(k: nat, e: nat) { Present(e) && (k == 0 || !Large(e)) }

  /** The table of level k on the way to v. */
  function Table(m: Tables, root: nat, v: nat, k: nat): Option<nat> {
    if k == 0 then Some(root) else
      match Table(m, root, v, k - 1)
      case None => None
      case Some(f) =>
        var e := Word(m, f, Idx(k - 1, v));
        if Leads(k - 1, e) then Some(Frame(e)) else None
  }

  /** `physical_mapping`; None stands for ~0. */
  function physical_mapping(m: Tables, root: nat, v: nat): Option<nat> {
    var e0 := Word(m, root, Idx(0, v));
    if !Present(e0) then None else
    var e1 := Word(m, Frame(e0), Idx(1, v));
    if !Present(e1) then None else
    if Large(e1) then Some(Address(e1) + v % 0x4000_0000) else
    var e2 := Word(m, Frame(e1), Idx(2, v));
    if !Present(e2) then None else
    if Large(e2) then Some(Address(e2) + v % 0x20_0000) else
    var e3 := Word(m, Frame(e2), Idx(3, v));
    if !Present(e3) then None else
    Some(Address(e3) + v % 0x1000)
  }

  /** Two linear addresses select the same entry down to level k. */
  predicate Same(v: nat, w: nat, k: nat) {
    && Idx(0, v) == Idx(0, w)
    && (k >= 1 ==> Idx(1, v) == Idx(1, w))
    && (k >= 2 ==> Idx(2, v) == Idx(2, w))
    && (k >= 3 ==> Idx(3, v) == Idx(3, w))
  }

  // ---------------------------------------------------------------- the tree of tables

  /** Where a table hangs: its level, and the table and index of the entry that leads to it. */
  datatype Place = Place(level: nat, parent: nat, index: nat)

  type Places = map<nat, Place>

  /** Bit 1: the page, or all that lies behind a table, may be written to. */
  predicate Writes(e: nat) { e / 2 % 2 == 1 }

  /** Bit 63 keeps code behind the entry from running. */
  predicate Runs(e: nat) { e < 0x8000_0000_0000_0000 }

  /** An entry that withholds nothing from what lies behind it: `| 3`, and no other bit. */
  predicate Permits(e: nat) { Writes(e) && Runs(e) && e % 0x1000 == 3 }

  /** Every entry that leads on leads to a table of its own, one level down, and withholds nothing. */
  ghost predicate Child(m: Tables, at: Places, f: nat, i: nat)
    requires f in m && f in at && i < |m[f]|
  {
    var e := m[f][i];
    at[f].level < 3 && Leads(at[f].level, e) ==>
      && !Large(e) && Permits(e) && Frame(e) in m && Frame(e) in at && at[Frame(e)] == Place(at[f].level + 1, f, i)
  }

  ghost predicate TableTree(m: Tables, at: Places, root: nat) {
    && root in m && m.Keys == at.Keys && at[root].level == 0
    && (forall f :: f in m ==> |m[f]| == 512 && f % 0x1000 == 0 && at[f].level <= 3)
    && (forall f, i :: f in m && 0 <= i < |m[f]| ==> Child(m, at, f, i))
  }

  lemma {:induction false} TableInTree(m: Tables, at: Places, root: nat, v: nat, k: nat)
    requires TableTree(m, at, root) && k <= 3 && Table(m, root, v, k).Some?
    ensures var f := Table(m, root, v, k).value; f in m && at[f].level == k
    decreases k
  {
    if k > 0 {
      TableInTree(m, at, root, v, k - 1);
      var p := Table(m, root, v, k - 1).value;
      assert Child(m, at, p, Idx(k - 1, v));
    }
  }

  /** Only one way leads to a table. */
  lemma {:induction false} OneWay(m: Tables, at: Places, root: nat, v: nat, w: nat, k: nat)
    requires TableTree(m, at, root) && 0 < k <= 3
    requires Table(m, root, v, k).Some? && Table(m, root, v, k) == Table(m, root, w, k)
    ensures Same(v, w, k - 1)
    decreases k
  {
    TableInTree(m, at, root, v, k - 1);
    TableInTree(m, at, root, w, k - 1);
    var p, q := Table(m, root, v, k - 1).value, Table(m, root, w, k - 1).value;
    assert Child(m, at, p, Idx(k - 1, v)) && Child(m, at, q, Idx(k - 1, w));
    if k > 1 {
      OneWay(m, at, root, v, w, k - 1);
    }
  }

  function Put(m: Tables, f: nat, i: nat, e: nat): Tables
    requires f in m && i < |m[f]|
  {
    var t: seq<nat> := m[f][i := e];
    m[f := t]
  }

  /** The word the walk to v reads at level k, if it gets there. */
  function Read(m: Tables, root: nat, v: nat, k: nat): Option<nat> {
    match Table(m, root, v, k)
    case None => None
    case Some(f) => Some(Word(m, f, Idx(k, v)))
  }

  /** What the entry of a page of that size maps v to. */
  function EntryPage(e: nat, v: nat, size: nat): Page {
    Page(Address(e) + PageOffset(v, size), size, Writes(e), Runs(e))
  }

  /** The tables that a walk for a page of that size makes below a table of level k that is empty. */
  ghost function Fresh(size: nat, k: nat): nat
    decreases 3 - k
  {
    if k >= 3 || (k >= 1 && size == 3 - k) then 0 else 1 + Fresh(size, k + 1)
  }

  /** The tables that `linear_mapping` makes from level k on: none behind a large page, and none where it stores. */
  ghost function Missing(m: Tables, root: nat, w: nat, size: nat, k: nat): nat
    decreases 3 - k
  {
    if k >= 3 || Table(m, root, w, k).None? then 0
    else if Present(Word(m, Table(m, root, w, k).value, Idx(k, w))) then Missing(m, root, w, size, k + 1)
    else if k >= 1 && size == 3 - k then 0
    else 1 + Fresh(size, k + 1)
  }

  lemma {:induction false} AtMostThree(m: Tables, root: nat, w: nat, size: nat)
    ensures Missing(m, root, w, size, 0) <= 3
  {
    assert Fresh(size, 3) == 0 && Fresh(size, 2) <= 1 && Fresh(size, 1) <= 2;
    assert Missing(m, root, w, size, 3) == 0 && Missing(m, root, w, size, 2) <= 1 && Missing(m, root, w, size, 1) <= 2;
  }

  /** A new table of level k + 1 leaves one less to be made. */
  lemma OneTableLess(m: Tables, m': Tables, root: nat, w: nat, size: nat, k: nat, l: nat)
    requires k < 3 && Table(m, root, w, k).Some? && !Present(Word(m, Table(m, root, w, k).value, Idx(k, w)))
    requires k == 0 || size != 3 - k
    requires Table(m', root, w, k + 1) == Some(l) && Word(m', l, Idx(k + 1, w)) == 0
    ensures Missing(m', root, w, size, k + 1) + 1 == Missing(m, root, w, size, k)
  {
    hide Table, Word, Idx;
    assert !Present(0);
  }

  predicate Allowed(r: Option<nat>, right: nat -> bool) { r.Some? && right(r.value) }

  /** The rights that are left of a page behind an entry of a table above it. */
  function Restricted(r: Option<nat>, p: Page): Page {
    p.(write := p.write && r.Some? && Writes(r.value), exec := p.exec && r.Some? && Runs(r.value))
  }

  /** What the words of levels 0 to 3 mean for the address v: a right must be given at every level. */
  function Decode(r0: Option<nat>, r1: Option<nat>, r2: Option<nat>, r3: Option<nat>, v: nat): Option<Page> {
    if r1.None? || !Present(r1.value) then None
    else if Large(r1.value) then Some(Restricted(r0, EntryPage(r1.value, v, 2)))
    else if r2.None? || !Present(r2.value) then None
    else if Large(r2.value) then Some(Restricted(r0, Restricted(r1, EntryPage(r2.value, v, 1))))
    else if r3.None? || !Present(r3.value) then None
    else Some(Restricted(r0, Restricted(r1, Restricted(r2, EntryPage(r3.value, v, 0)))))
  }

  /** The translation of v together with the size and the rights of the page that maps it. */
  function Look(m: Tables, root: nat, v: nat): Option<Page> {
    Decode(Read(m, root, v, 0), Read(m, root, v, 1), Read(m, root, v, 2), Read(m, root, v, 3), v)
  }

  /** `physical_mapping` follows the tables. */
  lemma WalkByTables(m: Tables, root: nat, v: nat)
    ensures physical_mapping(m, root, v) ==
            match Look(m, root, v) { case None => None case Some(p) => Some(p.at) }
  {
    hide Idx, Present, Large, Frame, Address, Writes, Runs;
    assert Table(m, root, v, 0) == Some(root);
  }

  /** The tables and words of the walk, as the functions of page.c name them. */
  lemma {:induction false} WalkStepByStep(m: Tables, root: nat, v: nat)
    ensures Read(m, root, v, 0) == Some(Word(m, root, Idx(0, v)))
    ensures var e0 := Word(m, root, Idx(0, v));
            if !Present(e0) then Look(m, root, v) == None else
            var e1 := Word(m, Frame(e0), Idx(1, v));
            && Table(m, root, v, 1) == Some(Frame(e0)) && Read(m, root, v, 1) == Some(e1)
            && if !Present(e1) then Look(m, root, v) == None
               else if Large(e1) then Look(m, root, v).Some? && Look(m, root, v).value.size == 2 else
               var e2 := Word(m, Frame(e1), Idx(2, v));
               && Table(m, root, v, 2) == Some(Frame(e1)) && Read(m, root, v, 2) == Some(e2)
               && if !Present(e2) then Look(m, root, v) == None
                  else if Large(e2) then Look(m, root, v).Some? && Look(m, root, v).value.size == 1 else
                  var e3 := Word(m, Frame(e2), Idx(3, v));
                  && Table(m, root, v, 3) == Some(Frame(e2)) && Read(m, root, v, 3) == Some(e3)
                  && if !Present(e3) then Look(m, root, v) == None
                    else Look(m, root, v).Some? && Look(m, root, v).value.size == 0
  {
    assert Table(m, root, v, 0) == Some(root);
  }

  /** A page may be written to, or run code, just when every entry that the walk to it reads allows it. */
  lemma RightsOfWalk(m: Tables, root: nat, v: nat)
    ensures match Look(m, root, v)
            case None => true
            case Some(p) =>
              && p.size <= 2
              && (p.write <==> forall k: nat :: k <= 3 - p.size ==> Allowed(Read(m, root, v, k), Writes))
              && (p.exec <==> forall k: nat :: k <= 3 - p.size ==> Allowed(Read(m, root, v, k), Runs))
  {
    hide Read, Present, Large, Writes, Runs;
  }

  lemma {:induction false} SameTable(m: Tables, root: nat, v: nat, w: nat, k: nat)
    requires k <= 3 && (k > 0 ==> Same(v, w, k - 1))
    ensures Table(m, root, v, k) == Table(m, root, w, k)
    decreases k
  {
    if k > 0 { SameTable(m, root, v, w, k - 1); }
  }

  // ---------------------------------------------------------------- stores

  /** A store at level k leaves the tables down to that level where they are. */
  lemma {:induction false} StoreBelow(m: Tables, at: Places, root: nat, w: nat, k: nat, e: nat, v: nat, j: nat)
    requires TableTree(m, at, root) && j <= k <= 3 && Table(m, root, w, k).Some?
    ensures var f := Table(m, root, w, k).value; f in m && |m[f]| == 512
    ensures Table(Put(m, Table(m, root, w, k).value, Idx(k, w), e), root, v, j) == Table(m, root, v, j)
    decreases j
  {
    TableInTree(m, at, root, w, k);
    if j > 0 {
      StoreBelow(m, at, root, w, k, e, v, j - 1);
      if Table(m, root, v, j - 1).Some? {
        TableInTree(m, at, root, v, j - 1);
      }
    }
  }

  /** A store into the entry that w selects at level k is not seen on the way to an address that
      selects another entry there. */
  lemma {:induction false} StoreUnseen(m: Tables, at: Places, root: nat, w: nat, k: nat, e: nat, v: nat, j: nat)
    requires TableTree(m, at, root) && k <= 3 && Table(m, root, w, k).Some? && !Same(v, w, k) && j <= 3
    ensures var f := Table(m, root, w, k).value; f in m && |m[f]| == 512
    ensures var m' := Put(m, Table(m, root, w, k).value, Idx(k, w), e);
            Table(m', root, v, j) == Table(m, root, v, j) && Read(m', root, v, j) == Read(m, root, v, j)
    decreases j
  {
    hide Child, Leads, Frame, Idx;
    TableInTree(m, at, root, w, k);
    if j > 0 {
      StoreUnseen(m, at, root, w, k, e, v, j - 1);
    }
    if Table(m, root, v, j).Some? {
      TableInTree(m, at, root, v, j);
      if Table(m, root, v, j) == Table(m, root, w, k) {
        if k > 0 { OneWay(m, at, root, v, w, k); }
        assert Idx(k, v) != Idx(k, w);
      }
    }
  }

  /** ... so its translation is unchanged. */
  lemma {:induction false} StoreElsewhere(m: Tables, at: Places, root: nat, w: nat, k: nat, e: nat, v: nat)
    requires TableTree(m, at, root) && k <= 3 && Table(m, root, w, k).Some? && !Same(v, w, k)
    ensures var f := Table(m, root, w, k).value; f in m && |m[f]| == 512
    ensures Look(Put(m, Table(m, root, w, k).value, Idx(k, w), e), root, v) == Look(m, root, v)
  {
    TableInTree(m, at, root, w, k);
    hide TableTree, Table, Look, Put, Read, Idx, Same, Word, Decode;
    StoreUnseen(m, at, root, w, k, e, v, 0);
    StoreUnseen(m, at, root, w, k, e, v, 1);
    StoreUnseen(m, at, root, w, k, e, v, 2);
    StoreUnseen(m, at, root, w, k, e, v, 3);
  }

  /** Storing a present last-level or large-page entry maps the whole page that w lies in. */
  lemma {:induction false} StoreMaps(m: Tables, at: Places, root: nat, w: nat, k: nat, e: nat, v: nat)
    requires TableTree(m, at, root) && 1 <= k <= 3 && Table(m, root, w, k).Some? && Same(v, w, k)
    requires Present(e) && (k < 3 ==> Large(e))
    ensures var f := Table(m, root, w, k).value; f in m && |m[f]| == 512
    ensures Look(Put(m, Table(m, root, w, k).value, Idx(k, w), e), root, v) ==
            Some(EntryPage(e, v, 3 - k))
  {
    hide TableTree, Put, Look, Table, Idx, Same, Read, EntryPage, Present, Large;
    StoreReads(m, at, root, w, k, e, v);
  }

  /** Storing an entry that is not present leaves nothing mapped there. */
  lemma {:induction false} StoreClears(m: Tables, at: Places, root: nat, w: nat, k: nat, e: nat, v: nat)
    requires TableTree(m, at, root) && 1 <= k <= 3 && Table(m, root, w, k).Some? && Same(v, w, k) && !Present(e)
    ensures var f := Table(m, root, w, k).value; f in m && |m[f]| == 512
    ensures Look(Put(m, Table(m, root, w, k).value, Idx(k, w), e), root, v) == None
  {
    StoreReads(m, at, root, w, k, e, v);
  }

  lemma {:induction false} StoreReads(m: Tables, at: Places, root: nat, w: nat, k: nat, e: nat, v: nat)
    requires TableTree(m, at, root) && 1 <= k <= 3 && Table(m, root, w, k).Some? && Same(v, w, k)
    ensures var f := Table(m, root, w, k).value; f in m && |m[f]| == 512
    ensures var m' := Put(m, Table(m, root, w, k).value, Idx(k, w), e);
            && Read(m', root, v, k) == Some(e)
            && (forall j :: 0 <= j < k ==> Read(m', root, v, j).Some? && Leads(j, Read(m', root, v, j).value)
                                           && Permits(Read(m', root, v, j).value))
            && Look(m', root, v) ==
               Decode(Read(m', root, v, 0), Read(m', root, v, 1), Read(m', root, v, 2), Read(m', root, v, 3), v)
  {
    TableInTree(m, at, root, w, k);
    var m' := Put(m, Table(m, root, w, k).value, Idx(k, w), e);
    SameTable(m, root, v, w, k);
    StoreBelow(m, at, root, w, k, e, v, k);
    forall j | 0 <= j < k ensures Read(m', root, v, j).Some? && Leads(j, Read(m', root, v, j).value)
      && Permits(Read(m', root, v, j).value) {
      OnTheWay(m', root, v, j, k);
      StoreAbove(m, at, root, w, k, e, v, j);
      PermitsOnTheWay(m, at, root, v, j, k);
    }
  }

  /** A store at level k is not seen by the words read above it. */
  lemma {:induction false} StoreAbove(m: Tables, at: Places, root: nat, w: nat, k: nat, e: nat, v: nat, j: nat)
    requires TableTree(m, at, root) && j < k <= 3 && Table(m, root, w, k).Some? && Table(m, root, v, j).Some?
    ensures var f := Table(m, root, w, k).value; f in m && |m[f]| == 512
    ensures Read(Put(m, Table(m, root, w, k).value, Idx(k, w), e), root, v, j) == Read(m, root, v, j)
  {
    TableInTree(m, at, root, w, k);
    TableInTree(m, at, root, v, j);
    StoreBelow(m, at, root, w, k, e, v, j);
  }

  /** The entries of a tree that lead on withhold nothing. */
  lemma {:induction false} PermitsOnTheWay(m: Tables, at: Places, root: nat, v: nat, j: nat, k: nat)
    requires TableTree(m, at, root) && j < k <= 3 && Table(m, root, v, k).Some?
    ensures Table(m, root, v, j).Some? && Read(m, root, v, j).Some? && Permits(Read(m, root, v, j).value)
  {
    OnTheWay(m, root, v, j, k);
    TableInTree(m, at, root, v, j);
    assert Child(m, at, Table(m, root, v, j).value, Idx(j, v));
  }

  /** A table of level k is reached through entries that lead on. */
  lemma {:induction false} OnTheWay(m: Tables, root: nat, v: nat, j: nat, k: nat)
    requires j < k <= 3 && Table(m, root, v, k).Some?
    ensures Read(m, root, v, j).Some? && Leads(j, Read(m, root, v, j).value)
    decreases k
  {
    if j < k - 1 { OnTheWay(m, root, v, j, k - 1); }
  }

  /** Storing an entry that does not lead on keeps the tree of tables. */
  lemma StoreKeepsTree(m: Tables, at: Places, root: nat, f: nat, i: nat, e: nat)
    requires TableTree(m, at, root) && f in m && i < 512 && !(at[f].level < 3 && Leads(at[f].level, e))
    ensures TableTree(Put(m, f, i, e), at, root)
  {
    var m' := Put(m, f, i, e);
    forall g, j | g in m' && 0 <= j < |m'[g]| ensures Child(m', at, g, j) {
      assert Child(m, at, g, j);
    }
  }

  function Zeros(): (z: seq<nat>)
    ensures |z| == 512 && forall i :: 0 <= i < 512 ==> z[i] == 0
  {
    seq(512, i => 0)
  }

  // ---------------------------------------------------------------- a new table

  /** A zeroed frame that nothing leads to yet changes no table on any way. */
  lemma {:induction false} SpareFrame(m: Tables, at: Places, root: nat, l: nat, v: nat, k: nat)
    requires TableTree(m, at, root) && l !in m && k <= 3
    ensures Table(m[l := Zeros()], root, v, k) == Table(m, root, v, k)
    ensures Read(m[l := Zeros()], root, v, k) == Read(m, root, v, k)
    decreases k
  {
    if k > 0 { SpareFrame(m, at, root, l, v, k - 1); }
    if Table(m, root, v, k).Some? { TableInTree(m, at, root, v, k); }
  }

  lemma SpareTree(m: Tables, at: Places, root: nat, l: nat, p: Place)
    requires TableTree(m, at, root) && l !in m && l % 0x1000 == 0 && p.level <= 3
    ensures TableTree(m[l := Zeros()], at[l := p], root)
  {
    var m', at' := m[l := Zeros()], at[l := p];
    forall g, j | g in m' && 0 <= j < |m'[g]| ensures Child(m', at', g, j) {
      if g != l { assert Child(m, at, g, j); }
    }
  }

  /** The tables after `page_entry` has put a new table behind the entry that w selects at level k. */
  ghost function Extended(m: Tables, root: nat, w: nat, k: nat, l: nat): Tables
    requires Table(m, root, w, k).Some? && Table(m, root, w, k).value in m && |m[Table(m, root, w, k).value]| == 512
  {
    Put(m[l := Zeros()], Table(m, root, w, k).value, Idx(k, w), l + 3)
  }

  lemma ExtendedTree(m: Tables, at: Places, root: nat, w: nat, k: nat, l: nat)
    requires TableTree(m, at, root) && k < 3 && Table(m, root, w, k).Some? && l !in m && l % 0x1000 == 0 && l < REACH
    ensures var f := Table(m, root, w, k).value; f in m && |m[f]| == 512
    ensures TableTree(Extended(m, root, w, k, l), at[l := Place(k + 1, Table(m, root, w, k).value, Idx(k, w))], root)
    ensures Table(Extended(m, root, w, k, l), root, w, k + 1) == Some(l)
  {
    TableInTree(m, at, root, w, k);
    var f := Table(m, root, w, k).value;
    var i := Idx(k, w);
    var at' := at[l := Place(k + 1, f, i)];
    SpareTree(m, at, root, l, Place(k + 1, f, i));
    var m1 := m[l := Zeros()];
    var m' := Extended(m, root, w, k, l);
    EntryOf(l);
    forall g, j | g in m' && 0 <= j < |m'[g]| ensures Child(m', at', g, j) {
      assert Child(m1, at', g, j);
    }
    SpareFrame(m, at, root, l, w, k);
    StoreBelow(m1, at', root, w, k, l + 3, w, k);
  }

  lemma EntryOf(l: nat)
    requires l % 0x1000 == 0 && l < REACH
    ensures Present(l + 3) && !Large(l + 3) && Frame(l + 3) == l && Permits(l + 3)
  {
    var q := l / 0x1000;
    Low12(q, 3);
    Low7(32 * q, 3);
    Low1(2048 * q + 1);
    Even(16 * q);
    Low1(1024 * q);
  }

  // One lemma for each place where a word is cut in two.

  lemma Low12(q: nat, r: nat)
    requires r < 0x1000
    ensures (0x1000 * q + r) % 0x1000 == r
  {
  }

  lemma Low7(q: nat, r: nat)
    requires r < 0x80
    ensures (0x80 * q + r) / 0x80 == q
  {
  }

  lemma Low1(q: nat)
    ensures (2 * q + 1) % 2 == 1
  {
  }

  lemma Even(q: nat)
    ensures (2 * q) % 2 == 0
  {
  }

  lemma Low59(q: nat, r: nat)
    requires r < REACH
    ensures (REACH * q + r) % REACH == r
  {
  }

  /** A new table changes no translation. */
  lemma {:induction false} ExtendedSame(m: Tables, at: Places, root: nat, w: nat, k: nat, l: nat, v: nat)
    requires TableTree(m, at, root) && k < 3 && Table(m, root, w, k).Some? && l !in m && l % 0x1000 == 0 && l < REACH
    requires !Present(Word(m, Table(m, root, w, k).value, Idx(k, w)))
    ensures var f := Table(m, root, w, k).value; f in m && |m[f]| == 512
    ensures Look(Extended(m, root, w, k, l), root, v) == Look(m, root, v)
  {
    TableInTree(m, at, root, w, k);
    var p := Place(k + 1, Table(m, root, w, k).value, Idx(k, w));
    var m1 := m[l := Zeros()];
    SpareTree(m, at, root, l, p);
    SpareFrame(m, at, root, l, w, k);
    if Same(v, w, k) {
      ExtendedEmpty(m, at, root, w, k, l, v);
    } else {
      SpareFrame(m, at, root, l, v, 1);
      SpareFrame(m, at, root, l, v, 2);
      SpareFrame(m, at, root, l, v, 3);
      StoreElsewhere(m1, at[l := p], root, w, k, l + 3, v);
    }
  }

  /** Before and after, nothing is mapped behind the entry that gets a new table. */
  lemma {:induction false} ExtendedEmpty(m: Tables, at: Places, root: nat, w: nat, k: nat, l: nat, v: nat)
    requires TableTree(m, at, root) && k < 3 && Table(m, root, w, k).Some? && l !in m && l % 0x1000 == 0 && l < REACH
      && Same(v, w, k)
    requires !Present(Word(m, Table(m, root, w, k).value, Idx(k, w)))
    ensures var f := Table(m, root, w, k).value; f in m && |m[f]| == 512
    ensures Look(m, root, v) == None && Look(Extended(m, root, w, k, l), root, v) == None
  {
    TableInTree(m, at, root, w, k);
    var m' := Extended(m, root, w, k, l);
    SameTable(m, root, v, w, k);
    ExtendedTree(m, at, root, w, k, l);
    SameTable(m', root, v, w, k + 1);
    forall j | 1 <= j < k ensures Read(m, root, v, j).Some? && Leads(j, Read(m, root, v, j).value) {
      OnTheWay(m, root, v, j, k);
    }
    forall j | 1 <= j < k + 1 ensures Read(m', root, v, j).Some? && Leads(j, Read(m', root, v, j).value) {
      OnTheWay(m', root, v, j, k + 1);
    }
    assert Read(m', root, v, k + 1) == Some(0);
  }

  // ---------------------------------------------------------------- what mapping and unmapping do

  ghost predicate SameMapping(m: Tables, m': Tables, root: nat) {
    forall v: nat :: Look(m', root, v) == Look(m, root, v)
  }

  /** The bytes of a page of size 0 (4K), 1 (2M) or 2 (1G). */
  function PageOffset(v: nat, size: nat): nat {
    if size == 0 then v % 0x1000 else if size == 1 then v % 0x20_0000 else v % 0x4000_0000
  }

  /** What v is mapped to in a page of that size that was mapped to the frame around addr: bit 1 of the options allows
      writing, bit 2 running. */
  function Target(addr: nat, size: nat, options: nat, v: nat): Page {
    Page(addr - PageOffset(addr, size) + PageOffset(v, size), size, options / 2 % 2 == 1, options / 4 % 2 == 1)
  }

  /** The page of that size around w is mapped to the frame of that size around addr, with the rights of the options;
      all else is as before. */
  ghost predicate MapsPage(m: Tables, m': Tables, root: nat, w: nat, size: nat, addr: nat, options: nat)
    requires size <= 2
  {
    forall v: nat :: Look(m', root, v) == if Same(v, w, 3 - size) then Some(Target(addr, size, options, v))
      else Look(m, root, v)
  }

  ghost predicate ClearsPage(m: Tables, m': Tables, root: nat, w: nat, size: nat)
    requires size <= 2
  {
    forall v: nat :: Look(m', root, v) == if Same(v, w, 3 - size) then None else Look(m, root, v)
  }

  /** No large page lies around v above level k, and its entry at level k is not in use. */
  ghost predicate Open(m: Tables, root: nat, v: nat, k: nat) {
    && (forall j :: 1 <= j < k && Read(m, root, v, j).Some? ==>
      !(Present(Read(m, root, v, j).value) && Large(Read(m, root, v, j).value)))
    && (Read(m, root, v, k).Some? ==> !Present(Read(m, root, v, k).value))
  }

  /** Whether a page of level K can be mapped does not depend on tables added above that level. */
  lemma {:induction false} ExtendedOpen(m: Tables, at: Places, root: nat, w: nat, k: nat, l: nat, K: nat)
    requires TableTree(m, at, root) && k < K <= 3 && Table(m, root, w, k).Some? && l !in m && l % 0x1000 == 0
      && l < REACH
    requires !Present(Word(m, Table(m, root, w, k).value, Idx(k, w)))
    ensures var f := Table(m, root, w, k).value; f in m && |m[f]| == 512
    ensures Open(m, root, w, K) && Open(Extended(m, root, w, k, l), root, w, K)
  {
    TableInTree(m, at, root, w, k);
    var m' := Extended(m, root, w, k, l);
    ExtendedTree(m, at, root, w, k, l);
    forall j | 1 <= j < k ensures Read(m, root, w, j).Some? && Leads(j, Read(m, root, w, j).value) {
      OnTheWay(m, root, w, j, k);
    }
    forall j | 1 <= j < k + 1 ensures Read(m', root, w, j).Some? && Leads(j, Read(m', root, w, j).value) {
      OnTheWay(m', root, w, j, k + 1);
    }
    assert Read(m', root, w, k + 1) == Some(0);
    NoneBehind(m, root, w, k, K);
    NoneBehind(m', root, w, k + 1, if K > k + 1 then K else k + 2);
  }

  lemma {:induction false} NoneBehind(m: Tables, root: nat, w: nat, k: nat, K: nat)
    requires k < K && Read(m, root, w, k).Some? && !Present(Read(m, root, w, k).value)
    ensures forall j :: k < j <= K ==> Table(m, root, w, j) == None
  {
    if K > k + 1 { NoneBehind(m, root, w, k, K - 1); }
  }

  lemma LargeIsNotOpen(m: Tables, root: nat, v: nat, k: nat)
    requires 1 <= k < 3 && Read(m, root, v, k).Some? && Present(Read(m, root, v, k).value)
      && Large(Read(m, root, v, k).value)
    ensures forall K :: k <= K <= 3 ==> !Open(m, root, v, K)
  {
  }

  /** Where the processor faults because nothing is mapped, a 4K page can be mapped. */
  lemma UnmappedIsOpen(m: Tables, root: nat, v: nat)
    requires Look(m, root, v) == None
    ensures Open(m, root, v, 3)
  {
    if Read(m, root, v, 3).Some? {
      OnTheWay(m, root, v, 1, 3);
      OnTheWay(m, root, v, 2, 3);
    } else if Read(m, root, v, 2).Some? {
      OnTheWay(m, root, v, 1, 2);
    }
  }

  /** The word that `linear_mapping` stores for a page of the given size. */
  function PageEntry(addr: nat, size: nat, options: nat): nat {
    addr - PageOffset(addr, size) + (if size == 0 then 0 else 0x80) +
    (if options / 4 % 2 == 0 then 0x8000_0000_0000_0000 else 0) + options % 4
  }

  lemma PageEntryMeans(addr: nat, size: nat, options: nat)
    requires options % 2 == 1 && addr < REACH && size <= 2
    ensures Present(PageEntry(addr, size, options)) && (size > 0 ==> Large(PageEntry(addr, size, options)))
    ensures Address(PageEntry(addr, size, options)) == addr - PageOffset(addr, size)
  {
    var q := PageNumber(addr, size);
    var o, l := options / 4, options % 4;
    var big, nx := if size == 0 then 0 else 1, if o % 2 == 0 then 1 else 0;
    hide PageOffset, Address;
    assert PageEntry(addr, size, options) == 0x1000 * q + (0x80 * big + l) + 0x8000_0000_0000_0000 * nx;
    hide PageEntry;
    assert options == 2 * (2 * o) + l;
    Parity(2 * o, l);
    Parity(0x40 * big, l);
    Low7(big, l);
    LeafBits(q, 0x80 * big + l, nx);
  }

  /** The bits of a stored entry that are not its address: those of the options, the one of a large page, and no
      other. */
  lemma PageEntryBits(addr: nat, size: nat, options: nat)
    requires addr < REACH && size <= 2
    ensures var e := PageEntry(addr, size, options);
            && e % 0x1000 == options % 4 + (if size == 0 then 0 else 0x80)
            && e / REACH == if options / 4 % 2 == 0 then 16 else 0
  {
    var q := PageNumber(addr, size);
    hide PageOffset;
    var nx := if options / 4 % 2 == 0 then 1 else 0;
    var low := (if size == 0 then 0 else 0x80) + options % 4;
    Low12(q + 0x8_0000_0000_0000 * nx, low);
    High59(16 * nx, 0x1000 * q + low);
  }

  lemma High59(q: nat, r: nat)
    requires r < REACH
    ensures (REACH * q + r) / REACH == q
  {
  }

  /** The rights of a stored entry are those of the options: bit 1 allows writing, bit 2 running. */
  lemma PageEntryRights(addr: nat, size: nat, options: nat)
    requires addr < REACH && size <= 2
    ensures var e := PageEntry(addr, size, options);
            (Writes(e) <==> options / 2 % 2 == 1) && (Runs(e) <==> options / 4 % 2 == 1)
  {
    var q := PageNumber(addr, size);
    hide PageOffset;
    var nx := if options / 4 % 2 == 0 then 1 else 0;
    var big := if size == 0 then 0 else 0x80;
    var o, l := options / 4, options % 4;
    assert options == 4 * o + l;
    HalfOf(2 * o, l);
    HalfOf(0x800 * q + 0x4000_0000_0000_0000 * nx + big / 2, l);
    Parity(o, l / 2);
    Parity(0x400 * q + 0x2000_0000_0000_0000 * nx + big / 4, l / 2);
  }

  lemma HalfOf(q: nat, r: nat)
    ensures (2 * q + r) / 2 == q + r / 2
  {
  }

  lemma PageNumber(addr: nat, size: nat) returns (q: nat)
    ensures addr - PageOffset(addr, size) == 0x1000 * q
  {
    if size == 0 {
      q := addr / 0x1000;
    } else if size == 1 {
      q := 0x200 * (addr / 0x20_0000);
    } else {
      q := 0x4_0000 * (addr / 0x4000_0000);
    }
  }

  lemma LeafBits(q: nat, low: nat, nx: nat)
    requires q < 0x8000_0000_0000 && low < 0x1000 && nx <= 1
    ensures var e := 0x1000 * q + low + 0x8000_0000_0000_0000 * nx;
            Address(e) == 0x1000 * q && e % 2 == low % 2 && e / 128 % 2 == low / 128 % 2
  {
    Low59(16 * nx, 0x1000 * q + low);
    Low12(q + 0x8_0000_0000_0000 * nx, low);
    var l := low / 0x80;
    assert low == 0x80 * l + low % 0x80;
    Low7(32 * q + l + 0x100_0000_0000_0000 * nx, low % 0x80);
    Parity(16 * q + 0x80_0000_0000_0000 * nx, l);
    Parity(0x800 * q + 0x4000_0000_0000_0000 * nx, low);
  }

  lemma Parity(q: nat, r: nat)
    ensures (2 * q + r) % 2 == r % 2
  {
  }

  // ---------------------------------------------------------------- indices and page numbers

  const SPACE: nat := 0x1_0000_0000_0000

  /** The number of the page of the given size around v, in the 48-bit address space. */
  function PageOf(v: nat, size: nat): nat {
    var u := v % SPACE;
    if size == 0 then u / 0x1000 else if size == 1 then u / 0x20_0000 else u / 0x4000_0000
  }

  lemma Digits(v: nat)
    ensures PageOf(v, 2) == 512 * Idx(0, v) + Idx(1, v)
    ensures PageOf(v, 1) == 512 * PageOf(v, 2) + Idx(2, v)
    ensures PageOf(v, 0) == 512 * PageOf(v, 1) + Idx(3, v)
  {
    var q, u := v / SPACE, v % SPACE;
    var a, b, c := u / 0x80_0000_0000, u / 0x4000_0000, u / 0x20_0000;
    Digit0(q, u);
    Digit1(q, u);
    Digit2(q, u);
    Digit3(q, u);
  }

  lemma Digit0(q: nat, u: nat)
    requires u < SPACE
    ensures Idx(0, SPACE * q + u) == u / 0x80_0000_0000
  {
    var d := u / 0x80_0000_0000;
    assert SPACE * q + u == 0x80_0000_0000 * (512 * q + d) + u % 0x80_0000_0000;
    assert (SPACE * q + u) / 0x80_0000_0000 == 512 * q + d;
    Low9(q, d);
  }

  lemma Digit1(q: nat, u: nat)
    requires u < SPACE
    ensures u / 0x4000_0000 == 512 * (u / 0x80_0000_0000) + Idx(1, SPACE * q + u)
  {
    var d, e := u / 0x4000_0000, u / 0x80_0000_0000;
    assert SPACE * q + u == 0x4000_0000 * (0x4_0000 * q + d) + u % 0x4000_0000;
    assert (SPACE * q + u) / 0x4000_0000 == 0x4_0000 * q + d;
    Low9(512 * q + e, d - 512 * e);
  }

  lemma Digit2(q: nat, u: nat)
    requires u < SPACE
    ensures u / 0x20_0000 == 512 * (u / 0x4000_0000) + Idx(2, SPACE * q + u)
  {
    var d, e := u / 0x20_0000, u / 0x4000_0000;
    assert SPACE * q + u == 0x20_0000 * (0x800_0000 * q + d) + u % 0x20_0000;
    assert (SPACE * q + u) / 0x20_0000 == 0x800_0000 * q + d;
    Low9(0x4_0000 * q + e, d - 512 * e);
  }

  lemma Digit3(q: nat, u: nat)
    requires u < SPACE
    ensures u / 0x1000 == 512 * (u / 0x20_0000) + Idx(3, SPACE * q + u)
  {
    var d, e := u / 0x1000, u / 0x20_0000;
    assert SPACE * q + u == 0x1000 * (0x10_0000_0000 * q + d) + u % 0x1000;
    assert (SPACE * q + u) / 0x1000 == 0x10_0000_0000 * q + d;
    Low9(0x800_0000 * q + e, d - 512 * e);
  }

  lemma Low9(q: nat, r: nat)
    requires r < 512
    ensures (512 * q + r) % 512 == r
  {
  }

  /** Two addresses select the same entry down to the level of a page size just when they lie in the same page. */
  lemma SamePage(v: nat, w: nat, size: nat)
    requires size <= 2
    ensures Same(v, w, 3 - size) <==> PageOf(v, size) == PageOf(w, size)
  {
    hide Idx, PageOf;
    Digits(v);
    Digits(w);
    SameDigits(PageOf(v, 2), PageOf(w, 2), Idx(2, v), Idx(2, w));
    SameDigits(PageOf(v, 1), PageOf(w, 1), Idx(3, v), Idx(3, w));
    SameDigits(Idx(0, v), Idx(0, w), Idx(1, v), Idx(1, w));
  }

  lemma SameDigits(a: nat, b: nat, i: nat, j: nat)
    requires i < 512 && j < 512
    ensures 512 * a + i == 512 * b + j <==> a == b && i == j
  {
  }

  /** What `linear_mapping` did when it returns 0, in terms of addresses and `physical_mapping`. */
  lemma MapsPageMeans(m: Tables, m': Tables, root: nat, w: nat, size: nat, addr: nat, options: nat, v: nat)
    requires size <= 2 && MapsPage(m, m', root, w, size, addr, options)
    ensures physical_mapping(m', root, v) ==
            if PageOf(v, size) == PageOf(w, size) then Some(addr - PageOffset(addr, size) + PageOffset(v, size))
            else physical_mapping(m, root, v)
  {
    SamePage(v, w, size);
    WalkByTables(m, root, v);
    WalkByTables(m', root, v);
  }

  lemma SameMappingMeans(m: Tables, m': Tables, root: nat, v: nat)
    requires SameMapping(m, m', root)
    ensures physical_mapping(m', root, v) == physical_mapping(m, root, v)
  {
    WalkByTables(m, root, v);
    WalkByTables(m', root, v);
  }

  /** All addresses of a 4K page are translated alike. */
  lemma OnePage(m: Tables, root: nat, v: nat, w: nat)
    requires Same(v, w, 3)
    ensures Look(m, root, v).None? <==> Look(m, root, w).None?
    ensures Look(m, root, v).Some? ==>
              var p, q := Look(m, root, v).value, Look(m, root, w).value;
              p.size == q.size && p.write == q.write && p.exec == q.exec
  {
    SameTable(m, root, v, w, 1);
    SameTable(m, root, v, w, 2);
    SameTable(m, root, v, w, 3);
  }
}
