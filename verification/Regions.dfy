/** The commit map as a map from pages to protections: what clearing and setting a range does. */
module Regions {
  import opened Intervals
  import opened PageWalk

  /** The value of the block that covers x. */
  ghost function At(es: seq<Entry>, x: int): Option<nat> {
    if es == [] then None else if es[0].Covers(x) then Some(es[0].V) else At(es[1..], x)
  }

  /** Blocks in order that may touch but not overlap, made of whole pages. */
  ghost predicate Tiled(es: seq<Entry>) {
    && (forall i :: 0 <= i < |es| ==> es[i].S > 0 && es[i].A % 0x1000 == 0 && es[i].S % 0x1000 == 0)
    && (forall i, j :: 0 <= i < j < |es| ==> Bound(es[i]) <= es[j].A)
  }

  /** What is left of a block when the bytes from lo up to hi are cleared. */
  ghost function Rest(e: Entry, lo: nat, hi: nat): seq<Entry> {
    if e.A <= lo < Bound(e) then
      (if lo > e.A then [Entry(e.A, lo - e.A, e.V)] else []) +
        (if Bound(e) > hi then [Entry(hi, Bound(e) - hi, e.V)] else [])
    else if lo <= e.A < hi then
      if Bound(e) > hi then [Entry(hi, Bound(e) - hi, e.V)] else []
    else [e]
  }

  ghost function Clear(es: seq<Entry>, lo: nat, hi: nat): seq<Entry> {
    if es == [] then [] else Rest(es[0], lo, hi) + Clear(es[1..], lo, hi)
  }

  // ---------------------------------------------------------------- meaning

  lemma {:induction false} AtConcat(a: seq<Entry>, b: seq<Entry>, x: int)
    ensures At(a + b, x) == if At(a, x).Some? then At(a, x) else At(b, x)
    decreases |a|
  {
    if a == [] {
      assert a + b == b;
    } else {
      assert (a + b)[1..] == a[1..] + b;
      AtConcat(a[1..], b, x);
    }
  }

  lemma {:induction false} AtHas(es: seq<Entry>, x: int)
    ensures At(es, x).Some? <==> Has(es, x)
    decreases |es|
  {
    if es != [] {
      AtHas(es[1..], x);
      assert es == [es[0]] + es[1..];
      HasConcat([es[0]], es[1..], x);
      HasOne(es[0], x);
    }
  }

  lemma {:induction false} AtOne(e: Entry, x: int)
    ensures At([e], x) == if e.Covers(x) then Some(e.V) else None
  {
    assert [e][1..] == [];
  }

  lemma {:induction false} RestAt(e: Entry, lo: nat, hi: nat, x: int)
    requires lo < hi && e.S > 0
    ensures At(Rest(e, lo, hi), x) == if lo <= x < hi || !e.Covers(x) then None else Some(e.V)
  {
    AtOne(e, x);
    var a, b := Entry(e.A, if lo > e.A then lo - e.A else 0, e.V),
      Entry(hi, if Bound(e) > hi then Bound(e) - hi else 0, e.V);
    AtOne(a, x);
    AtOne(b, x);
    AtConcat(if lo > e.A then [a] else [], if Bound(e) > hi then [b] else [], x);
  }

  /** Clearing a range takes the protection from exactly its bytes. */
  lemma {:induction false} ClearAt(es: seq<Entry>, lo: nat, hi: nat, x: int)
    requires lo < hi && Tiled(es)
    ensures At(Clear(es, lo, hi), x) == if lo <= x < hi then None else At(es, x)
    decreases |es|
  {
    if es != [] {
      TailTiled(es);
      ClearAt(es[1..], lo, hi, x);
      RestAt(es[0], lo, hi, x);
      AtConcat(Rest(es[0], lo, hi), Clear(es[1..], lo, hi), x);
    }
  }

  lemma TailTiled(es: seq<Entry>)
    requires Tiled(es) && es != []
    ensures Tiled(es[1..]) && forall i :: 0 <= i < |es[1..]| ==> Bound(es[0]) <= es[1..][i].A
  {
    forall i, j | 0 <= i < j < |es[1..]| ensures Bound(es[1..][i]) <= es[1..][j].A {
      assert Bound(es[i + 1]) <= es[j + 1].A;
    }
  }

  /** Every block lies between lo and hi. */
  ghost predicate Within(es: seq<Entry>, lo: int, hi: int) {
    forall i :: 0 <= i < |es| ==> lo <= es[i].A && Bound(es[i]) <= hi
  }

  lemma TiledConcat(a: seq<Entry>, b: seq<Entry>, lo: int, mid: int, hi: int)
    requires Tiled(a) && Tiled(b) && Within(a, lo, mid) && Within(b, mid, hi) && lo <= mid <= hi
    ensures Tiled(a + b) && Within(a + b, lo, hi)
  {
  }

  lemma RestTiled(e: Entry, lo: nat, hi: nat)
    requires lo < hi && lo % 0x1000 == 0 && hi % 0x1000 == 0
    requires e.S > 0 && e.A % 0x1000 == 0 && e.S % 0x1000 == 0
    ensures Tiled(Rest(e, lo, hi)) && Within(Rest(e, lo, hi), e.A, Bound(e))
  {
    Aligned(e.A, lo - e.A);
    Aligned(e.A, e.S);
    Aligned(hi, Bound(e) - hi);
  }

  lemma Aligned(a: int, s: int)
    requires a % 0x1000 == 0
    ensures s % 0x1000 == 0 <==> (a + s) % 0x1000 == 0
  {
  }

  /** Clearing a range of pages leaves whole pages in order. */
  lemma {:induction false} ClearTiled(es: seq<Entry>, lo: nat, hi: nat, from: int, to: int)
    requires lo < hi && lo % 0x1000 == 0 && hi % 0x1000 == 0 && Tiled(es) && Within(es, from, to) && from <= to
    ensures Tiled(Clear(es, lo, hi)) && Within(Clear(es, lo, hi), from, to)
    decreases |es|
  {
    if es != [] {
      TailTiled(es);
      RestTiled(es[0], lo, hi);
      ClearTiled(es[1..], lo, hi, Bound(es[0]), to);
      TiledConcat(Rest(es[0], lo, hi), Clear(es[1..], lo, hi), from, Bound(es[0]), to);
    }
  }

  lemma {:induction false} ClearConcat(a: seq<Entry>, b: seq<Entry>, lo: nat, hi: nat)
    ensures Clear(a + b, lo, hi) == Clear(a, lo, hi) + Clear(b, lo, hi)
    decreases |a|
  {
    if a == [] {
      assert a + b == b;
    } else {
      assert (a + b)[1..] == a[1..] + b;
      ClearConcat(a[1..], b, lo, hi);
    }
  }

  /** Blocks behind the range are not touched. */
  lemma {:induction false} ClearNothing(es: seq<Entry>, lo: nat, hi: nat)
    requires lo < hi && forall i :: 0 <= i < |es| ==> hi <= es[i].A
    ensures Clear(es, lo, hi) == es
    decreases |es|
  {
    if es != [] { ClearNothing(es[1..], lo, hi); }
  }

  lemma TiledStrict(es: seq<Entry>)
    requires Tiled(es)
    ensures Strict(es) && Sorted(es)
  {
    forall i, j | 0 <= i < j < |es| ensures es[i].A < es[j].A {
      assert Bound(es[i]) <= es[j].A;
    }
  }

  // ---------------------------------------------------------------- setting a range

  /** Committing a range: clear it, then put one block over it. */
  ghost function Set(es: seq<Entry>, lo: nat, hi: nat, protect: nat): seq<Entry>
    requires lo < hi
  {
    PlainInsert(Clear(es, lo, hi), Entry(lo, hi - lo, protect))
  }

  /** A commit gives exactly the pages of the range the new protection, and leaves all others. */
  lemma {:induction false} SetAt(es: seq<Entry>, lo: nat, hi: nat, protect: nat, x: int)
    requires lo < hi && lo % 0x1000 == 0 && hi % 0x1000 == 0 && Tiled(es)
    ensures At(Set(es, lo, hi, protect), x) == if lo <= x < hi then Some(protect) else At(es, x)
  {
    var c, b := Clear(es, lo, hi), Entry(lo, hi - lo, protect);
    var k := Rank(c, lo);
    ClearAt(es, lo, hi, x);
    AtConcat(c[..k] + [b], c[k..], x);
    AtConcat(c[..k], [b], x);
    AtConcat(c[..k], c[k..], x);
    assert c[..k] + c[k..] == c;
    AtOne(b, x);
  }

  lemma SetTiled(es: seq<Entry>, lo: nat, hi: nat, protect: nat, from: int, to: int)
    requires lo < hi && lo % 0x1000 == 0 && hi % 0x1000 == 0 && Tiled(es) && Within(es, from, to) && from <= lo
      && hi <= to
    ensures Tiled(Set(es, lo, hi, protect)) && Within(Set(es, lo, hi, protect), from, to)
  {
    var c, b := Clear(es, lo, hi), Entry(lo, hi - lo, protect);
    ClearTiled(es, lo, hi, from, to);
    forall i | 0 <= i < |c| ensures Bound(c[i]) <= lo || hi <= c[i].A {
      ClearedApart(es, lo, hi, i);
    }
    GapTiled(c, b, from, to);
  }

  /** A block may be put into a gap. */
  lemma GapTiled(c: seq<Entry>, b: Entry, from: int, to: int)
    requires Tiled(c) && Within(c, from, to) && from <= b.A && Bound(b) <= to
    requires b.S > 0 && b.A % 0x1000 == 0 && b.S % 0x1000 == 0
    requires forall i :: 0 <= i < |c| ==> Bound(c[i]) <= b.A || Bound(b) <= c[i].A
    ensures Tiled(PlainInsert(c, b)) && Within(PlainInsert(c, b), from, to)
  {
    TiledStrict(c);
    var k := Rank(c, b.A);
    assert Splits(c, b.A, k);
    TiledPart(c, k);
    hide Tiled, Rank, Strict, Sorted;
    TiledConcat(c[..k], [b], from, b.A, Bound(b)) by { OneTiled(b); }
    TiledConcat(c[..k] + [b], c[k..], from, Bound(b), to);
  }

  lemma OneTiled(b: Entry)
    requires b.S > 0 && b.A % 0x1000 == 0 && b.S % 0x1000 == 0
    ensures Tiled([b])
  {
  }

  lemma TiledPart(es: seq<Entry>, k: nat)
    requires Tiled(es) && k <= |es|
    ensures Tiled(es[..k]) && Tiled(es[k..])
  {
    forall i, j | 0 <= i < j < |es[k..]| ensures Bound(es[k..][i]) <= es[k..][j].A {
      assert Bound(es[k + i]) <= es[k + j].A;
    }
  }

  /** No block of a cleared map reaches into the range. */
  lemma {:induction false} ClearedApart(es: seq<Entry>, lo: nat, hi: nat, i: nat)
    requires lo < hi && Tiled(es) && i < |Clear(es, lo, hi)|
    ensures var c := Clear(es, lo, hi)[i]; Bound(c) <= lo || hi <= c.A
    decreases |es|
  {
    var r := Rest(es[0], lo, hi);
    if i >= |r| {
      TailTiled(es);
      ClearedApart(es[1..], lo, hi, i - |r|);
    }
  }
}
