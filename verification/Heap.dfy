/** KERNEL/SOURCE/memory/heap.c: the kernel heap, a chain of blocks with their headers in the arena itself. */
module KernelHeap {
  import opened Intervals
  import opened PageWalk

  /** A block: its payload in words, and whether it is in use. In the arena a header word comes before the payload. */
  datatype Block = Block(size: nat, used: bool)

  function Span(b: Block): nat {
    b.size + 1
  }

  function Length(bs: seq<Block>): nat {
    if bs == [] then 0 else Span(bs[0]) + Length(bs[1..])
  }

  /** The header of a block: its size in bytes, bit 0 set when in use. */
  function Header(b: Block): nat {
    8 * b.size + if b.used then 1 else 0
  }

  const MASK: nat := QWORDS - 1

  /** What the code reads off a header: `h >> 3`, `h & 1`, `h & (HEAP_MASK << 3)`. */
  function Words(h: nat): nat { h / 8 }

  predicate Odd(h: nat) { h % 2 == 1 }

  function Bytes(h: nat): nat { h - h % 8 }

  /** `(((size - 1) >> 3) + 1) << 3`. */
  function RoundUp8(size: nat): nat
    requires size < QWORDS
  {
    (Sub64(size, 1) / 8 + 1) * 8 % QWORDS
  }

  /** The same in words. */
  function Need(size: nat): nat
    requires size < QWORDS
  {
    RoundUp8(size) / 8
  }

  /** A request is rounded up to whole words, but one of more than 2^64 - 8 bytes is rounded to nothing: what is granted
      is large enough just for the others. */
  lemma NeedIsEnough(size: nat)
    requires size < QWORDS
    ensures size <= 8 * Need(size) <==> size <= QWORDS - 8
    ensures size <= QWORDS - 8 ==> 8 * Need(size) < size + 8
    ensures size > QWORDS - 8 ==> Need(size) == 0
  {
    if size > 0 {
      var q := (size - 1) / 8;
      assert 8 * q <= size - 1 < 8 * q + 8;
    }
  }

  // ---------------------------------------------------------------- the chain in the arena

  /** From word i on, the arena holds the headers of bs. */
  ghost predicate Laid(w: seq<nat>, i: nat, bs: seq<Block>)
    decreases |bs|
  {
    bs == [] || (i < |w| && w[i] == Header(bs[0]) && Laid(w, i + Span(bs[0]), bs[1..]))
  }

  lemma {:induction false} LengthConcat(a: seq<Block>, b: seq<Block>)
    ensures Length(a + b) == Length(a) + Length(b)
    decreases |a|
  {
    if a == [] {
      assert a + b == b;
    } else {
      assert (a + b)[1..] == a[1..] + b;
      LengthConcat(a[1..], b);
    }
  }

  lemma {:induction false} LaidConcat(w: seq<nat>, i: nat, a: seq<Block>, b: seq<Block>)
    ensures Laid(w, i, a + b) <==> Laid(w, i, a) && Laid(w, i + Length(a), b)
    decreases |a|
  {
    if a == [] {
      assert a + b == b;
    } else {
      assert (a + b)[1..] == a[1..] + b;
      LaidConcat(w, i + Span(a[0]), a[1..], b);
    }
  }

  /** A chain is where it was when its words are. */
  lemma {:induction false} LaidSame(w: seq<nat>, w': seq<nat>, i: nat, bs: seq<Block>)
    requires Laid(w, i, bs) && |w'| == |w| && forall k :: i <= k < i + Length(bs) && k < |w| ==> w'[k] == w[k]
    ensures Laid(w', i, bs)
    decreases |bs|
  {
    if bs != [] { LaidSame(w, w', i + Span(bs[0]), bs[1..]); }
  }

  /** Word k belongs to a block in use, header or payload. */
  ghost predicate Live(bs: seq<Block>, i: nat, k: nat) {
    bs != [] && ((bs[0].used && i <= k < i + Span(bs[0])) || Live(bs[1..], i + Span(bs[0]), k))
  }

  lemma {:induction false} LiveConcat(a: seq<Block>, b: seq<Block>, i: nat, k: nat)
    ensures Live(a + b, i, k) <==> Live(a, i, k) || Live(b, i + Length(a), k)
    decreases |a|
  {
    if a == [] {
      assert a + b == b;
    } else {
      assert (a + b)[1..] == a[1..] + b;
      LiveConcat(a[1..], b, i + Span(a[0]), k);
    }
  }

  lemma {:induction false} LiveRange(bs: seq<Block>, i: nat, k: nat)
    requires Live(bs, i, k)
    ensures i <= k < i + Length(bs)
    decreases |bs|
  {
    if !(bs[0].used && i <= k < i + Span(bs[0])) { LiveRange(bs[1..], i + Span(bs[0]), k); }
  }

  // ---------------------------------------------------------------- what the allocator computes

  /** The payload of the free run at the head of bs once it is one block. */
  ghost function Joined(bs: seq<Block>): nat
    requires bs != [] && !bs[0].used
  {
    if |bs| > 1 && !bs[1].used then bs[0].size + 1 + Joined(bs[1..]) else bs[0].size
  }

  /** What comes behind that run. */
  ghost function Behind(bs: seq<Block>): (r: seq<Block>)
    requires bs != [] && !bs[0].used
    ensures |r| < |bs| && (r != [] ==> r[0].used)
  {
    if |bs| > 1 && !bs[1].used then Behind(bs[1..]) else bs[1..]
  }

  /** A free block cut for a request. */
  ghost function Carve(size: nat, need: nat): seq<Block>
    requires need <= size
  {
    if size > need then [Block(need, true), Block(size - need - 1, false)] else [Block(size, true)]
  }

  datatype Answer = Answer(at: Option<nat>, blocks: seq<Block>)

  /** `HeapAlloc` on the chain that starts at word i: where the block is, and the chain that is left. */
  ghost function Alloc(bs: seq<Block>, i: nat, need: nat): Answer
    decreases |bs|
  {
    if bs == [] then Answer(None, [])
    else if bs[0].used then
      var a := Alloc(bs[1..], i + Span(bs[0]), need);
      Answer(a.at, [bs[0]] + a.blocks)
    else if Joined(bs) >= need then
      Answer(Some(i), Carve(Joined(bs), need) + Behind(bs))
    else
      var a := Alloc(Behind(bs), i + Joined(bs) + 1, need);
      Answer(a.at, [Block(Joined(bs), false)] + a.blocks)
  }

  /** `HeapFree` of the block whose header is word p. */
  ghost function Freed(bs: seq<Block>, i: nat, p: nat): seq<Block> {
    if bs == [] then []
    else if i == p then [Block(bs[0].size, false)] + bs[1..]
    else [bs[0]] + Freed(bs[1..], i + Span(bs[0]), p)
  }

  /** A block starts at word p; used says whether it is in use. */
  ghost predicate Starts(bs: seq<Block>, i: nat, p: nat, used: bool) {
    bs != [] && ((i == p && bs[0].used == used) || Starts(bs[1..], i + Span(bs[0]), p, used))
  }

  // ---------------------------------------------------------------- merging at once

  /** Puts a block before a chain; if both are free they become one. */
  ghost function Push(b: Block, cs: seq<Block>): seq<Block> {
    if !b.used && cs != [] && !cs[0].used then [Block(b.size + 1 + cs[0].size, false)] + cs[1..] else [b] + cs
  }

  /** The chain with every run of free blocks merged. */
  ghost function Coalesce(bs: seq<Block>): seq<Block> {
    if bs == [] then [] else Push(bs[0], Coalesce(bs[1..]))
  }

  /** First fit on a chain without free neighbours. */
  ghost function EagerAlloc(cs: seq<Block>, i: nat, need: nat): Answer {
    if cs == [] then Answer(None, [])
    else if !cs[0].used && cs[0].size >= need then Answer(Some(i), Carve(cs[0].size, need) + cs[1..])
    else
      var a := EagerAlloc(cs[1..], i + Span(cs[0]), need);
      Answer(a.at, [cs[0]] + a.blocks)
  }

  /** Freeing that merges with the free neighbours at once. */
  ghost function EagerFree(cs: seq<Block>, i: nat, p: nat): seq<Block> {
    if cs == [] then []
    else if i == p then Push(Block(cs[0].size, false), cs[1..])
    else Push(cs[0], EagerFree(cs[1..], i + Span(cs[0]), p))
  }

  lemma {:induction false} CoalesceLength(bs: seq<Block>)
    ensures Length(Coalesce(bs)) == Length(bs)
  {
    if bs != [] { CoalesceLength(bs[1..]); }
  }

  /** Merging the free run at the head first gives the same. */
  lemma {:induction false} CoalesceRun(bs: seq<Block>)
    requires bs != [] && !bs[0].used
    ensures Coalesce(bs) == [Block(Joined(bs), false)] + Coalesce(Behind(bs))
    ensures Length(bs) == Joined(bs) + 1 + Length(Behind(bs))
    decreases |bs|
  {
    if |bs| > 1 && !bs[1].used {
      CoalesceRun(bs[1..]);
    } else if |bs| > 1 {
      assert Coalesce(bs[1..]) == [bs[1]] + Coalesce(bs[2..]) by { assert bs[1..][1..] == bs[2..]; }
    }
  }

  lemma {:induction false} UsedHead(bs: seq<Block>)
    requires bs == [] || bs[0].used
    ensures Coalesce(bs) == [] || Coalesce(bs)[0].used
  {
  }

  lemma {:induction false} CoalesceHead(b: Block, bs: seq<Block>)
    requires b.used || Coalesce(bs) == [] || Coalesce(bs)[0].used
    ensures Coalesce([b] + bs) == [b] + Coalesce(bs)
  {
    assert ([b] + bs)[1..] == bs;
  }

  lemma EagerHead(b: Block, cs: seq<Block>, i: nat, need: nat)
    ensures var e := EagerAlloc(cs, i + Span(b), need);
            EagerAlloc([b] + cs, i, need) ==
              if !b.used && b.size >= need then Answer(Some(i), Carve(b.size, need) + cs)
                else Answer(e.at, [b] + e.blocks)
  {
    assert ([b] + cs)[1..] == cs;
  }

  /** Merging late, in `HeapAlloc`, gives every request the same answer as merging at once in `HeapFree` would ... */
  lemma {:induction false} LateIsEager(bs: seq<Block>, i: nat, need: nat)
    ensures var a, e := Alloc(bs, i, need), EagerAlloc(Coalesce(bs), i, need);
            a.at == e.at && Coalesce(a.blocks) == e.blocks
    decreases |bs|
  {
    hide Coalesce, EagerAlloc, Behind, Joined, Carve, Push;
    if bs == [] {
      assert Coalesce([]) == [] && EagerAlloc([], i, need) == Answer(None, []) by { NoChain(i, need); }
    } else if bs[0].used {
      LateUsed(bs, i, need);
      LateIsEager(bs[1..], i + Span(bs[0]), need);
    } else {
      LateRun(bs, i, need);
      if Joined(bs) < need {
        LateIsEager(Behind(bs), i + Joined(bs) + 1, need);
      }
    }
  }

  lemma {:induction false} NoChain(i: nat, need: nat)
    ensures Coalesce([]) == [] && EagerAlloc([], i, need) == Answer(None, [])
  {
  }

  lemma LateUsed(bs: seq<Block>, i: nat, need: nat)
    requires bs != [] && bs[0].used
    ensures var a, e := Alloc(bs[1..], i + Span(bs[0]), need), EagerAlloc(Coalesce(bs[1..]), i + Span(bs[0]), need);
            a.at == e.at && Coalesce(a.blocks) == e.blocks ==>
              Alloc(bs, i, need).at == EagerAlloc(Coalesce(bs), i, need).at &&
              Coalesce(Alloc(bs, i, need).blocks) == EagerAlloc(Coalesce(bs), i, need).blocks
  {
    EagerHead(bs[0], Coalesce(bs[1..]), i, need);
    CoalesceHead(bs[0], Alloc(bs[1..], i + Span(bs[0]), need).blocks);
  }

  lemma LateRun(bs: seq<Block>, i: nat, need: nat)
    requires bs != [] && !bs[0].used
    ensures var a, m := Alloc(Behind(bs), i + Joined(bs) + 1, need), Joined(bs);
            var e := EagerAlloc(Coalesce(Behind(bs)), i + m + 1, need);
            && |Behind(bs)| < |bs|
            && (m < need ==> EagerAlloc(Coalesce(bs), i, need) == Answer(e.at, [Block(m, false)] + e.blocks))
            && (m < need && Coalesce(a.blocks) == e.blocks ==>
              Coalesce(Alloc(bs, i, need).blocks) == [Block(m, false)] + e.blocks)
            && (m >= need ==> EagerAlloc(Coalesce(bs), i, need) == Answer(Some(i), Coalesce(Alloc(bs, i, need).blocks)))
  {
    var m, r := Joined(bs), Behind(bs);
    CoalesceRun(bs);
    EagerHead(Block(m, false), Coalesce(r), i, need);
    if m >= need {
      CarveCoalesced(m, need, r);
    } else {
      AllocHead(r, i + m + 1, need);
      UsedHead(Alloc(r, i + m + 1, need).blocks);
      CoalesceHead(Block(m, false), Alloc(r, i + m + 1, need).blocks);
    }
  }

  lemma {:induction false} AllocHead(bs: seq<Block>, i: nat, need: nat)
    requires bs == [] || bs[0].used
    ensures Alloc(bs, i, need).blocks == [] || Alloc(bs, i, need).blocks[0].used
  {
  }

  lemma {:induction false} CarveCoalesced(size: nat, need: nat, r: seq<Block>)
    requires need <= size && (r == [] || r[0].used)
    ensures Coalesce(Carve(size, need) + r) == Carve(size, need) + Coalesce(r)
  {
    hide Coalesce;
    UsedHead(r);
    if size > need {
      var a, b := Block(need, true), Block(size - need - 1, false);
      CoalesceHead(b, r);
      CoalesceHead(a, [b] + r);
      assert [a] + ([b] + r) == Carve(size, need) + r && [a] + ([b] + Coalesce(r)) == Carve(size, need) + Coalesce(r);
    } else {
      CoalesceHead(Block(size, true), r);
    }
  }

  lemma {:induction false} FreeHead(b: Block, cs: seq<Block>, i: nat, p: nat)
    ensures EagerFree([b] + cs, i, p) ==
              if i == p then Push(Block(b.size, false), cs) else Push(b, EagerFree(cs, i + Span(b), p))
    ensures Freed([b] + cs, i, p) == if i == p then [Block(b.size, false)] + cs else [b] + Freed(cs, i + Span(b), p)
  {
    assert ([b] + cs)[1..] == cs;
  }

  lemma {:induction false} CoalescePush(b: Block, bs: seq<Block>)
    ensures Coalesce([b] + bs) == Push(b, Coalesce(bs))
  {
    assert ([b] + bs)[1..] == bs;
  }

  /** ... and leaves the chain that merging at once would have left, once it is merged. */
  lemma {:induction false} FreeIsEager(bs: seq<Block>, i: nat, p: nat)
    requires Starts(bs, i, p, true)
    ensures Coalesce(Freed(bs, i, p)) == EagerFree(Coalesce(bs), i, p)
    decreases |bs|
  {
    var b, t := bs[0], bs[1..];
    var cs, j := Coalesce(t), i + Span(bs[0]);
    assert bs == [b] + t;
    FreeHead(b, t, i, p);
    if Starts(t, j, p, true) {
      StartsBehind(t, j, p);
      FreeIsEager(t, j, p);
      CoalescePush(b, Freed(t, j, p));
      FreeCommutes(b, cs, i, p) by { StartsCoalesced(t, j, p); }
    } else {
      CoalescePush(Block(b.size, false), t);
      FreeHead(b, cs, i, p);
    }
  }

  lemma {:induction false} FreeCommutes(b: Block, cs: seq<Block>, i: nat, p: nat)
    requires Starts(cs, i + Span(b), p, true)
    ensures Push(b, EagerFree(cs, i + Span(b), p)) == EagerFree(Push(b, cs), i, p)
  {
    var j := i + Span(b);
    StartsBehind(cs, j, p);
    if !b.used && !cs[0].used {
      FreeMerged(b, cs[0], cs[1..], i, p) by { StartsBehind(cs[1..], j + Span(cs[0]), p); }
      assert cs == [cs[0]] + cs[1..];
    } else {
      FreeHead(b, cs, i, p);
    }
  }

  lemma FreeMerged(b: Block, c: Block, t: seq<Block>, i: nat, p: nat)
    requires !b.used && !c.used && p >= i + Span(b) + Span(c)
    ensures Push(b, EagerFree([c] + t, i + Span(b), p)) == EagerFree([Block(b.size + 1 + c.size, false)] + t, i, p)
  {
    hide EagerFree, Freed, Push;
    FreeHead(c, t, i + Span(b), p);
    FreeHead(Block(b.size + 1 + c.size, false), t, i, p);
    PushTwice(b, c, EagerFree(t, i + Span(b) + Span(c), p));
  }

  lemma PushTwice(a: Block, b: Block, cs: seq<Block>)
    requires !a.used && !b.used
    ensures Push(a, Push(b, cs)) == Push(Block(a.size + 1 + b.size, false), cs)
  {
  }

  lemma {:induction false} StartsBehind(bs: seq<Block>, i: nat, p: nat)
    ensures Starts(bs, i, p, true) || Starts(bs, i, p, false) ==> i <= p
    decreases |bs|
  {
    if bs != [] { StartsBehind(bs[1..], i + Span(bs[0]), p); }
  }

  /** Blocks in use start where they did. */
  lemma {:induction false} StartsCoalesced(bs: seq<Block>, i: nat, p: nat)
    ensures Starts(bs, i, p, true) <==> Starts(Coalesce(bs), i, p, true)
    decreases |bs|
  {
    if bs != [] {
      var cs, j := Coalesce(bs[1..]), i + Span(bs[0]);
      StartsCoalesced(bs[1..], j, p);
      assert ([bs[0]] + cs)[1..] == cs;
      if !bs[0].used && cs != [] && !cs[0].used {
        var m := Block(bs[0].size + 1 + cs[0].size, false);
        assert ([m] + cs[1..])[1..] == cs[1..];
      }
    }
  }
  // ---------------------------------------------------------------- first fit, complete

  /** The word at which block k starts. */
  ghost function Start(cs: seq<Block>, i: nat, k: nat): nat
    requires k <= |cs|
  {
    i + Length(cs[..k])
  }

  /** Block k is the first free one that is large enough. */
  ghost predicate FirstFree(cs: seq<Block>, need: nat, k: nat) {
    && k < |cs| && !cs[k].used && cs[k].size >= need
    && (forall j :: 0 <= j < k ==> cs[j].used || cs[j].size < need)
  }

  lemma {:induction false} EagerIsFirstFit(cs: seq<Block>, i: nat, need: nat)
    ensures match EagerAlloc(cs, i, need).at
            case None => forall j :: 0 <= j < |cs| ==> cs[j].used || cs[j].size < need
            case Some(p) => exists k: nat :: FirstFree(cs, need, k) && p == Start(cs, i, k)
    decreases |cs|
  {
    if cs != [] {
      if !cs[0].used && cs[0].size >= need {
        assert FirstFree(cs, need, 0) && i == Start(cs, i, 0);
      } else {
        var t, j := cs[1..], i + Span(cs[0]);
        EagerIsFirstFit(t, j, need);
        match EagerAlloc(t, j, need).at {
          case None =>
            forall l | 0 <= l < |cs| ensures cs[l].used || cs[l].size < need {
              assert l > 0 ==> cs[l] == t[l - 1];
            }
          case Some(p) =>
            var k: nat :| FirstFree(t, need, k) && p == Start(t, j, k);
            assert cs[..k + 1][1..] == t[..k];
            assert forall l :: 0 < l < k + 1 ==> cs[l] == t[l - 1];
            assert FirstFree(cs, need, k + 1) && p == Start(cs, i, k + 1);
        }
      }
    }
  }

  /** `HeapAlloc` takes the lowest maximal run of free blocks that holds the request, and fails only when none does. */
  lemma {:induction false} AllocIsFirstFit(bs: seq<Block>, need: nat)
    ensures match Alloc(bs, 0, need).at
            case None => forall j :: 0 <= j < |Coalesce(bs)| ==> Coalesce(bs)[j].used || Coalesce(bs)[j].size < need
            case Some(p) => exists k: nat :: FirstFree(Coalesce(bs), need, k) && p == Start(Coalesce(bs), 0, k)
  {
    LateIsEager(bs, 0, need);
    EagerIsFirstFit(Coalesce(bs), 0, need);
  }

  /** The runs of a merged chain are maximal: no two free blocks are neighbours. */
  lemma {:induction false} CoalesceMaximal(bs: seq<Block>)
    ensures forall j :: 0 < j < |Coalesce(bs)| ==> Coalesce(bs)[j - 1].used || Coalesce(bs)[j].used
  {
    if bs != [] { CoalesceMaximal(bs[1..]); }
  }

  // ---------------------------------------------------------------- blocks in use

  /** A block in use with that payload starts at word p. */
  ghost predicate InUse(bs: seq<Block>, i: nat, p: nat, size: nat) {
    bs != [] && ((i == p && bs[0] == Block(size, true)) || InUse(bs[1..], i + Span(bs[0]), p, size))
  }

  lemma {:induction false} UseConcat(a: seq<Block>, b: seq<Block>, i: nat, p: nat, size: nat)
    ensures InUse(a + b, i, p, size) <==> InUse(a, i, p, size) || InUse(b, i + Length(a), p, size)
    decreases |a|
  {
    if a == [] {
      assert a + b == b;
    } else {
      assert (a + b)[1..] == a[1..] + b;
      UseConcat(a[1..], b, i + Span(a[0]), p, size);
    }
  }

  /** The free run at the head holds no block in use. */
  lemma {:induction false} RunUse(bs: seq<Block>, i: nat, p: nat, size: nat, k: nat)
    requires bs != [] && !bs[0].used
    ensures InUse(bs, i, p, size) <==> InUse(Behind(bs), i + Joined(bs) + 1, p, size)
    ensures Live(bs, i, k) <==> Live(Behind(bs), i + Joined(bs) + 1, k)
    decreases |bs|
  {
    if |bs| > 1 && !bs[1].used { RunUse(bs[1..], i + Span(bs[0]), p, size, k); }
  }

  lemma {:induction false} CarveUse(m: nat, need: nat, i: nat, p: nat, size: nat, k: nat)
    requires need <= m
    ensures Length(Carve(m, need)) == m + 1
    ensures InUse(Carve(m, need), i, p, size) <==> p == i && size == need
    ensures Live(Carve(m, need), i, k) <==> i <= k <= i + need
  {
    if m > need {
      var rest := [Block(m - need - 1, false)];
      HeadUse(Block(need, true), rest, i, p, size, k);
      HeadUse(Block(m - need - 1, false), [], i + need + 1, p, size, k);
      assert Carve(m, need) == [Block(need, true)] + rest && rest + [] == rest;
    } else {
      HeadUse(Block(m, true), [], i, p, size, k);
      assert Carve(m, need) == [Block(m, true)] + [];
    }
  }

  lemma {:induction false} HeadUse(b: Block, t: seq<Block>, i: nat, p: nat, size: nat, k: nat)
    ensures Length([b] + t) == Span(b) + Length(t)
    ensures InUse([b] + t, i, p, size) <==> (i == p && b == Block(size, true)) || InUse(t, i + Span(b), p, size)
    ensures Live([b] + t, i, k) <==> (b.used && i <= k < i + Span(b)) || Live(t, i + Span(b), k)
  {
    assert ([b] + t)[1..] == t;
  }

  /** An allocation keeps all blocks in use, adds just the one that is returned, out of words that were in no block in
      use, and keeps the size of the arena. */
  lemma {:induction false} AllocUse(bs: seq<Block>, i: nat, need: nat, p: nat, size: nat, k: nat)
    ensures var a := Alloc(bs, i, need);
      && Length(a.blocks) == Length(bs)
      && (InUse(a.blocks, i, p, size) <==> InUse(bs, i, p, size) || (a.at == Some(p) && size == need))
      && (Live(a.blocks, i, k) <==> Live(bs, i, k) || (a.at.Some? && a.at.value <= k <= a.at.value + need))
      && (a.at.Some? && a.at.value <= k <= a.at.value + need ==> !Live(bs, i, k))
      && (a.at.Some? ==> i <= a.at.value && a.at.value + 1 + need <= i + Length(bs))
    decreases |bs|
  {
    hide Alloc, InUse, Live, Length, Behind, Joined;
    if bs == [] {
      AllocNone(i, need, p, size, k);
    } else if bs[0].used {
      AllocPast(bs, i, need, p, size, k);
      AllocUse(bs[1..], i + Span(bs[0]), need, p, size, k);
    } else {
      AllocRun(bs, i, need, p, size, k);
      if Joined(bs) < need { AllocUse(Behind(bs), i + Joined(bs) + 1, need, p, size, k); }
    }
  }

  lemma {:induction false} AllocNone(i: nat, need: nat, p: nat, size: nat, k: nat)
    ensures Alloc([], i, need) == Answer(None, []) && !InUse([], i, p, size) && !Live([], i, k)
  {
  }

  lemma AllocPast(bs: seq<Block>, i: nat, need: nat, p: nat, size: nat, k: nat)
    requires bs != [] && bs[0].used
    ensures var t, j := bs[1..], i + Span(bs[0]);
      var a, l := Alloc(bs, i, need), Alloc(t, j, need);
      && a.at == l.at && Length(a.blocks) == Span(bs[0]) + Length(l.blocks) && Length(bs) == Span(bs[0]) + Length(t)
      && (InUse(a.blocks, i, p, size) <==> (i == p && bs[0].size == size) || InUse(l.blocks, j, p, size))
      && (InUse(bs, i, p, size) <==> (i == p && bs[0].size == size) || InUse(t, j, p, size))
      && (Live(a.blocks, i, k) <==> i <= k < j || Live(l.blocks, j, k))
      && (Live(bs, i, k) <==> i <= k < j || Live(t, j, k))
  {
    var t, j := bs[1..], i + Span(bs[0]);
    assert bs == [bs[0]] + t;
    HeadUse(bs[0], t, i, p, size, k);
    HeadUse(bs[0], Alloc(t, j, need).blocks, i, p, size, k);
  }

  lemma AllocRun(bs: seq<Block>, i: nat, need: nat, p: nat, size: nat, k: nat)
    requires bs != [] && !bs[0].used
    ensures var m, r := Joined(bs), Behind(bs);
      var j := i + m + 1;
      var a, t := Alloc(bs, i, need), Alloc(r, j, need);
      && Length(bs) == m + 1 + Length(r) && |r| < |bs|
      && (InUse(bs, i, p, size) <==> InUse(r, j, p, size)) && (Live(bs, i, k) <==> Live(r, j, k))
      && (Live(r, j, k) ==> j <= k)
      && (m < need ==> && a.at == t.at && Length(a.blocks) == m + 1 + Length(t.blocks)
                       && (InUse(a.blocks, i, p, size) <==> InUse(t.blocks, j, p, size))
                       && (Live(a.blocks, i, k) <==> Live(t.blocks, j, k)))
      && (m >= need ==> && a.at == Some(i) && Length(a.blocks) == m + 1 + Length(r)
                        && (InUse(a.blocks, i, p, size) <==> (p == i && size == need) || InUse(r, j, p, size))
                        && (Live(a.blocks, i, k) <==> i <= k <= i + need || Live(r, j, k)))
  {
    var m, r := Joined(bs), Behind(bs);
    var j := i + m + 1;
    CoalesceRun(bs);
    RunUse(bs, i, p, size, k);
    if Live(r, j, k) { LiveRange(r, j, k); }
    if m >= need {
      CarveUse(m, need, i, p, size, k);
      LengthConcat(Carve(m, need), r);
      UseConcat(Carve(m, need), r, i, p, size);
      LiveConcat(Carve(m, need), r, i, k);
    } else {
      HeadUse(Block(m, false), Alloc(r, j, need).blocks, i, p, size, k);
    }
  }

  lemma {:induction false} AllocSafe(bs: seq<Block>, need: nat)
    ensures match Alloc(bs, 0, need).at
            case None => true
            case Some(p) => InUse(Alloc(bs, 0, need).blocks, 0, p, need) && p + 1 + need <= Length(bs)
                            && forall k: nat :: p <= k < p + 1 + need ==> !Live(bs, 0, k)
  {
    var a := Alloc(bs, 0, need);
    if a.at.Some? {
      AllocUse(bs, 0, need, a.at.value, need, 0);
      forall k: nat | a.at.value <= k < a.at.value + 1 + need ensures !Live(bs, 0, k) {
        AllocUse(bs, 0, need, a.at.value, need, k);
      }
    }
  }

  /** Freeing takes exactly that block out of use. */
  lemma {:induction false} FreeUse(bs: seq<Block>, i: nat, at: nat, s: nat, p: nat, size: nat, k: nat)
    requires InUse(bs, i, at, s)
    ensures var t := Freed(bs, i, at);
      && Length(t) == Length(bs) && i <= at && at + 1 + s <= i + Length(bs)
      && (InUse(t, i, p, size) <==> InUse(bs, i, p, size) && p != at)
      && (Live(t, i, k) <==> Live(bs, i, k) && !(at <= k <= at + s))
    decreases |bs|
  {
    var b, t, j := bs[0], bs[1..], i + Span(bs[0]);
    assert bs == [b] + t;
    HeadUse(b, t, i, p, size, k);
    if InUse(t, j, at, s) {
      FreeUse(t, j, at, s, p, size, k);
      HeadUse(b, Freed(t, j, at), i, p, size, k);
    } else {
      HeadUse(Block(b.size, false), t, i, p, size, k);
      if Live(t, j, k) { LiveRange(t, j, k); }
      UseBehind(t, j, p, size);
    }
  }

  lemma {:induction false} UseBehind(bs: seq<Block>, i: nat, p: nat, size: nat)
    ensures InUse(bs, i, p, size) ==> i <= p && p + 1 + size <= i + Length(bs) && forall k :: p <= k <= p + size ==>
      Live(bs, i, k)
    ensures InUse(bs, i, p, size) ==> Starts(bs, i, p, true)
    decreases |bs|
  {
    if bs != [] { UseBehind(bs[1..], i + Span(bs[0]), p, size); }
  }

  /** Blocks in use do not overlap. */
  lemma {:induction false} UseApart(bs: seq<Block>, i: nat, p: nat, s: nat, q: nat, t: nat)
    requires InUse(bs, i, p, s) && InUse(bs, i, q, t)
    ensures (p == q && s == t) || p + 1 + s <= q || q + 1 + t <= p
    decreases |bs|
  {
    var r, j := bs[1..], i + Span(bs[0]);
    UseBehind(r, j, p, s);
    UseBehind(r, j, q, t);
    if InUse(r, j, p, s) && InUse(r, j, q, t) { UseApart(r, j, p, s, q, t); }
  }

  // ---------------------------------------------------------------- whole runs

  datatype Request = Get(need: nat) | Put(p: nat)

  /** The answers of the heap to a run of requests. */
  ghost function Answers(bs: seq<Block>, rs: seq<Request>): seq<Option<nat>>
    decreases |rs|
  {
    if rs == [] then [] else
    match rs[0]
    case Get(need) => [Alloc(bs, 0, need).at] + Answers(Alloc(bs, 0, need).blocks, rs[1..])
    case Put(p) => [None] + Answers(Freed(bs, 0, p), rs[1..])
  }

  ghost function EagerAnswers(cs: seq<Block>, rs: seq<Request>): seq<Option<nat>>
    decreases |rs|
  {
    if rs == [] then [] else
    match rs[0]
    case Get(need) => [EagerAlloc(cs, 0, need).at] + EagerAnswers(EagerAlloc(cs, 0, need).blocks, rs[1..])
    case Put(p) => [None] + EagerAnswers(EagerFree(cs, 0, p), rs[1..])
  }

  /** Only blocks in use are freed. */
  ghost predicate Proper(bs: seq<Block>, rs: seq<Request>)
    decreases |rs|
  {
    rs == [] ||
    match rs[0]
    case Get(need) => Proper(Alloc(bs, 0, need).blocks, rs[1..])
    case Put(p) => Starts(bs, 0, p, true) && Proper(Freed(bs, 0, p), rs[1..])
  }

  /** Over every run of requests, merging late and merging at once cannot be told apart. */
  lemma {:induction false} LateIsEagerForever(bs: seq<Block>, rs: seq<Request>)
    requires Proper(bs, rs)
    ensures Answers(bs, rs) == EagerAnswers(Coalesce(bs), rs)
    decreases |rs|
  {
    if rs != [] {
      match rs[0]
      case Get(need) =>
        LateIsEager(bs, 0, need);
        LateIsEagerForever(Alloc(bs, 0, need).blocks, rs[1..]);
      case Put(p) =>
        FreeIsEager(bs, 0, p);
        LateIsEagerForever(Freed(bs, 0, p), rs[1..]);
    }
  }
  // ---------------------------------------------------------------- stores into the arena

  /** A stretch of the chain is replaced by another of the same length; no word outside it is changed. */
  lemma {:induction false} LaidStore(w: seq<nat>, w': seq<nat>, a: seq<Block>, b: seq<Block>, b': seq<Block>,
      c: seq<Block>)
    requires Laid(w, 0, a + (b + c)) && |w'| == |w| && Length(b') == Length(b) && Laid(w', Length(a), b')
    requires forall k :: 0 <= k < |w| && !(Length(a) <= k < Length(a) + Length(b)) ==> w'[k] == w[k]
    ensures Laid(w', 0, a + (b' + c)) && Length(a + (b' + c)) == Length(a + (b + c))
  {
    hide Laid, Length;
    LaidConcat(w, 0, a, b + c);
    LaidConcat(w, Length(a), b, c);
    LaidSame(w, w', 0, a);
    LaidSame(w, w', Length(a) + Length(b), c);
    LaidConcat(w', Length(a), b', c);
    LaidConcat(w', 0, a, b' + c);
    LengthConcat(a, b + c);
    LengthConcat(b, c);
    LengthConcat(a, b' + c);
    LengthConcat(b', c);
  }

  lemma LengthTwo(a: Block, b: Block)
    ensures Length([a, b]) == Span(a) + Span(b) && Length([a]) == Span(a)
  {
    assert [a, b][1..] == [b] && [b][1..] == [] && [a][1..] == [];
    assert Length([b]) == Span(b) + Length([b][1..]) && Length([a, b]) == Span(a) + Length([a, b][1..]);
  }

  lemma LaidTwo(w: seq<nat>, i: nat, a: Block, b: Block)
    ensures Laid(w, i, [a, b]) <==> i < |w| && w[i] == Header(a) && i + Span(a) < |w| && w[i + Span(a)] == Header(b)
    ensures Laid(w, i, [a]) <==> i < |w| && w[i] == Header(a)
  {
    assert [a, b][1..] == [b] && [b][1..] == [] && [a][1..] == [];
    assert Laid(w, i + Span(a), [b]) <==>
      i + Span(a) < |w| && w[i + Span(a)] == Header(b) && Laid(w, i + Span(a) + Span(b), [b][1..]);
    assert Laid(w, i, [a, b]) <==> i < |w| && w[i] == Header(a) && Laid(w, i + Span(a), [a, b][1..]);
  }

  /** The chain up to a block, and from there on. */
  ghost predicate At(w: seq<nat>, bs: seq<Block>, pre: seq<Block>, rest: seq<Block>, i: nat) {
    && Laid(w, 0, bs) && bs == pre + rest && i == Length(pre) && Length(bs) + 1 == |w| && w[|w| - 1] == MASK
    && 8 * |w| < QWORDS
  }

  /** What the word of a header says. */
  lemma {:induction false} HeaderAt(w: seq<nat>, bs: seq<Block>, pre: seq<Block>, rest: seq<Block>, i: nat)
    requires At(w, bs, pre, rest, i)
    ensures i < |w| && i + Length(rest) + 1 == |w| && bs == pre + rest && i == Length(pre)
      && (w[i] == MASK <==> rest == [])
    ensures rest != [] ==>
      w[i] == Header(rest[0]) && Words(w[i]) == rest[0].size && (Odd(w[i]) <==> rest[0].used) && i + Span(rest[0]) < |w|
  {
    hide Length, Laid, Header;
    LaidConcat(w, 0, pre, rest);
    LengthConcat(pre, rest);
    HeadFits(w, rest, i);
  }

  lemma HeadFits(w: seq<nat>, rest: seq<Block>, i: nat)
    requires Laid(w, i, rest) && i + Length(rest) + 1 == |w| && 8 * |w| < QWORDS && w[|w| - 1] == MASK
    ensures w[i] == MASK <==> rest == []
    ensures rest != [] ==>
      w[i] == Header(rest[0]) && Words(w[i]) == rest[0].size && (Odd(w[i]) <==> rest[0].used) && i + Span(rest[0]) < |w|
  {
    if rest != [] {
      assert Length(rest) == Span(rest[0]) + Length(rest[1..]) && w[i] == Header(rest[0]);
      HeaderBits(rest[0]);
    }
  }

  lemma HeaderBits(b: Block)
    ensures Words(Header(b)) == b.size && (Odd(Header(b)) <==> b.used) && Bytes(Header(b)) == 8 * b.size
      && Header(b) / 2 * 2 == 8 * b.size
    ensures Header(b) <= 8 * b.size + 1
  {
    EightTimes(b.size);
    Parity(4 * b.size, if b.used then 1 else 0);
  }

  lemma EightTimes(s: nat)
    ensures 8 * s / 8 == s && (8 * s + 1) / 8 == s && 8 * s % 8 == 0 && (8 * s + 1) % 8 == 1
  {
  }

  /** One block on. */
  lemma NextBlock(w: seq<nat>, bs: seq<Block>, pre: seq<Block>, rest: seq<Block>, i: nat)
    requires At(w, bs, pre, rest, i) && rest != []
    ensures At(w, bs, pre + [rest[0]], rest[1..], i + Span(rest[0])) && Span(rest[0]) == rest[0].size + 1
  {
    assert rest == [rest[0]] + rest[1..] && pre + rest == (pre + [rest[0]]) + rest[1..];
    LengthConcat(pre, [rest[0]]);
    LengthTwo(rest[0], rest[0]);
  }

  /** The loop of `HeapAlloc` goes on behind a block. */
  lemma Advance(w: seq<nat>, bs: seq<Block>, pre: seq<Block>, rest: seq<Block>, i: nat, n: nat)
    requires At(w, bs, pre, rest, i) && rest != []
    ensures i < |w| && Words(w[i]) == rest[0].size && Span(rest[0]) == rest[0].size + 1
    ensures var j := i + rest[0].size + 1;
            && At(w, bs, pre + [rest[0]], rest[1..], j) && j < |w| && (w[j] == MASK <==> rest[1..] == [])
            && pre + ([rest[0]] + Alloc(rest[1..], j, n).blocks) == (pre + [rest[0]]) + Alloc(rest[1..], j, n).blocks
  {
    hide Laid, Length, Header, Alloc, At, Words;
    HeaderAt(w, bs, pre, rest, i);
    NextBlock(w, bs, pre, rest, i);
    HeaderAt(w, bs, pre + [rest[0]], rest[1..], i + Span(rest[0]));
  }

  /** The first free block takes in the second one. */
  lemma {:induction false} MergeOne(w: seq<nat>, w': seq<nat>, bs: seq<Block>, pre: seq<Block>, rest: seq<Block>,
      i: nat)
    requires At(w, bs, pre, rest, i) && |rest| > 1 && !rest[0].used && !rest[1].used && i < |w|
    requires w' == w[i := w[i] + 8 * rest[1].size + 8]
    ensures var rest' := [Block(rest[0].size + 1 + rest[1].size, false)] + rest[2..];
            && At(w', pre + rest', pre, rest', i)
            && Joined(rest') == Joined(rest) && Behind(rest') == Behind(rest)
            && forall k :: Live(pre + rest', 0, k) <==> Live(bs, 0, k)
  {
    var a, b, c := rest[0], rest[1], rest[2..];
    var m := Block(a.size + 1 + b.size, false);
    HeaderAt(w, bs, pre, rest, i);
    assert rest == [a, b] + c;
    LengthTwo(a, b);
    LengthTwo(m, m);
    LaidTwo(w', i, m, m);
    LaidStore(w, w', pre, [a, b], [m], c);
    forall k ensures Live(pre + ([m] + c), 0, k) <==> Live(bs, 0, k) {
      LiveConcat(pre, rest, 0, k);
      LiveConcat(pre, [m] + c, 0, k);
      HeadUse(m, c, i, 0, 0, k);
      assert rest == [a] + ([b] + c);
      HeadUse(a, [b] + c, i, 0, 0, k);
      HeadUse(b, c, i + Span(a), 0, 0, k);
    }
    MergedRun(a, b, c);
    assert [a, b] + c == rest;
  }

  lemma {:induction false} MergedRun(a: Block, b: Block, c: seq<Block>)
    requires !a.used && !b.used
    ensures var m := [Block(a.size + 1 + b.size, false)] + c;
            Joined(m) == Joined([a, b] + c) && Behind(m) == Behind([a, b] + c)
  {
    var r, m := [a, b] + c, [Block(a.size + 1 + b.size, false)] + c;
    assert r[1..] == [b] + c && m[1..] == c && r[1..][1..] == c;
  }

  /** The same words belong to blocks in use. */
  ghost predicate SameLive(a: seq<Block>, b: seq<Block>) {
    forall k: nat :: Live(b, 0, k) <==> Live(a, 0, k)
  }

  /** The words of blocks in use are as they were. */
  ghost predicate Kept(bs: seq<Block>, was: seq<nat>, now: seq<nat>) {
    |now| == |was| && forall k :: 0 <= k < |was| && Live(bs, 0, k) ==> now[k] == was[k]
  }

  lemma {:induction false} IsKept(bs: seq<Block>, was: seq<nat>, now: seq<nat>)
    ensures Kept(bs, was, now) <==> |now| == |was| && forall k :: 0 <= k < |was| && Live(bs, 0, k) ==> now[k] == was[k]
  {
  }

  lemma {:induction false} AreSameLive(a: seq<Block>, b: seq<Block>)
    ensures (forall k: nat :: Live(b, 0, k) <==> Live(a, 0, k)) ==> SameLive(a, b)
    ensures SameLive(a, b) ==> forall k: nat :: Live(b, 0, k) <==> Live(a, 0, k)
  {
    hide Live;
  }

  lemma KeptOn(a: seq<Block>, b: seq<Block>, c: seq<Block>, was: seq<nat>, mid: seq<nat>, now: seq<nat>, on: bool)
    requires SameLive(a, b) && Kept(a, was, mid) && Kept(b, mid, now) && (on ==> SameLive(b, c))
    ensures Kept(a, was, now) && (on ==> SameLive(a, c))
  {
    hide Live;
  }

  class Heap {
    const words: array<nat>
    ghost var blocks: seq<Block>

    ghost predicate Valid()
      reads this, words
    {
      At(words[..], blocks, [], blocks, 0)
    }

    /** `setup_heap`: one free block over the 16M of the arena, whatever it held before. */
    constructor ()
      ensures Valid() && blocks == [Block(0x1F_FFFE, false)] && words.Length == 0x20_0000
    {
      words := new nat[0x20_0000];
      blocks := [Block(0x1F_FFFE, false)];
      new;
      words[0] := 0x00FF_FFF0;
      words[0x1F_FFFF] := MASK;
      LengthTwo(blocks[0], blocks[0]);
      LaidTwo(words[..], 0, blocks[0], blocks[0]);
      assert [] + blocks == blocks;
    }

    /** Lines 31-39: the free blocks behind a free block are merged into it. */
    method MergeFree(block: nat, ghost pre: seq<Block>, ghost rest: seq<Block>) returns (ghost rest': seq<Block>)
      requires At(words[..], blocks, pre, rest, block) && rest != [] && !rest[0].used
      modifies this`blocks, words
      ensures rest' == [Block(Joined(rest), false)] + Behind(rest) && blocks == pre + rest'
      ensures At(words[..], blocks, pre, rest', block)
      ensures forall k :: Live(blocks, 0, k) <==> Live(old(blocks), 0, k)
      ensures forall k :: 0 <= k < words.Length && k != block ==> words[k] == old(words[k])
    {
      hide *;
      rest' := rest;
      HeaderAt(words[..], blocks, pre, rest', block);
      var next := block + Words(words[block]);
      next := next + 1;
      Peek(words[..], blocks, pre, rest', block);
      while !Odd(words[next])
        invariant At(words[..], blocks, pre, rest', block) && blocks == pre + rest' && rest' != [] && !rest'[0].used
        invariant Joined(rest') == Joined(rest) && Behind(rest') == Behind(rest)
        invariant next == block + Span(rest'[0]) < words.Length
          && (!Odd(words[next]) <==> |rest'| > 1 && !rest'[1].used)
        invariant forall k :: Live(blocks, 0, k) <==> Live(old(blocks), 0, k)
        invariant forall k :: 0 <= k < words.Length && k != block ==> words[k] == old(words[k])
        decreases |rest'|
      {
        ghost var w := words[..];
        HeaderAt(w, blocks, pre, rest', block);
        HeaderNext(w, blocks, pre, rest', block);
        words[block] := words[block] + Bytes(words[next]);
        words[block] := words[block] + 8;
        next := next + Words(words[next]);
        next := next + 1;
        MergeOne(w, words[..], blocks, pre, rest', block);
        rest' := [Block(rest'[0].size + 1 + rest'[1].size, false)] + rest'[2..];
        blocks := pre + rest';
        HeaderAt(words[..], blocks, pre, rest', block);
        Peek(words[..], blocks, pre, rest', block);
      }
      RunDone(rest');
    }

    /** Lines 45-56: what the request does not need is split off, and the block is taken. */
    method TakeBlock(block: nat, blockSize: nat, size: nat, ghost pre: seq<Block>, ghost m: nat, ghost need: nat,
        ghost tail: seq<Block>)
      requires At(words[..], blocks, pre, [Block(m, false)] + tail, block) && blockSize == 8 * m && size == 8 * need
        && need <= m
      modifies this`blocks, words
      ensures blocks == pre + (Carve(m, need) + tail) && At(words[..], blocks, pre, Carve(m, need) + tail, block)
      ensures forall k :: 0 <= k < words.Length && !(block <= k <= block + m) ==> words[k] == old(words[k])
    {
      ghost var w := words[..];
      HeaderAt(w, blocks, pre, [Block(m, false)] + tail, block);
      if blockSize > size {
        var next := block;
        words[next] := size;
        next := next + size / 8;
        next := next + 1;
        words[next] := blockSize - size - 8;
      }
      words[block] := words[block] + 1;
      CarveLaid(w, words[..], blocks, pre, m, need, tail, block);
      blocks := pre + (Carve(m, need) + tail);
    }

    lemma Opened()
      requires Valid()
      ensures At(words[..], blocks, [], blocks, 0) && forall a: Answer :: a == Answer(a.at, [] + a.blocks)
    {
      assert forall a: Answer :: [] + a.blocks == a.blocks;
    }

    lemma Closed()
      requires At(words[..], blocks, [], blocks, 0)
      ensures Valid()
    {
    }

    /** Lines 28-58: a free block is merged with the free run behind it, and taken if that is large enough. */
    method TryFree(block: nat, need: nat, ghost pre: seq<Block>, ghost r: seq<Block>, ghost n: nat)
        returns (taken: bool, ghost rest: seq<Block>)
      requires At(words[..], blocks, pre, r, block) && r != [] && !r[0].used && need == 8 * n
      modifies this`blocks, words
      ensures taken <==> Joined(r) >= n
      ensures taken ==> Valid() && blocks == pre + (Carve(Joined(r), n) + Behind(r))
      ensures !taken ==> At(words[..], blocks, pre, rest, block) && rest == [Block(Joined(r), false)] + Behind(r)
                         && SameLive(old(blocks), blocks)
      ensures Kept(old(blocks), old(words[..]), words[..])
    {
      hide *;
      ghost var bs, was := blocks, words[..];
      HeaderAt(words[..], blocks, pre, r, block);
      FreeWord(blocks, pre, r, block);
      rest := MergeFree(block, pre, r);
      HeaderAt(words[..], blocks, pre, rest, block);
      var blockSize := Words(words[block]) * 8;
      taken := blockSize >= need;
      if taken {
        FreeWords(blocks, pre, Joined(r), Behind(r), block);
        TakeBlock(block, blockSize, need, pre, Joined(r), n, Behind(r));
        WholeChain(words[..], blocks, pre, Carve(Joined(r), n) + Behind(r), block);
        Closed();
      }
      IsKept(bs, was, words[..]);
      AreSameLive(bs, blocks);
    }

    /** The loop of `HeapAlloc`. */
    method Walk(size: nat) returns (p: nat)
      requires Valid() && size < QWORDS
      modifies this`blocks, words
      ensures Valid()
      ensures var a := Alloc(old(blocks), 0, Need(size));
              blocks == a.blocks && p == match a.at { case None => 0 case Some(at) => at + 1 }
      ensures forall k :: 0 <= k < words.Length && Live(old(blocks), 0, k) ==> words[k] == old(words[k])
    {
      hide *;
      Opened();
      var need := RoundUp8(size);
      WholeWords(size);
      var block: nat := 0;
      ghost var pre, rest, bs, n := [], blocks, blocks, Need(size);
      HeaderAt(words[..], blocks, pre, rest, block);
      ghost var was := words[..];
      IsKept(bs, was, was);
      AreSameLive(bs, bs);
      while words[block] != MASK
        invariant At(words[..], blocks, pre, rest, block) && block < words.Length
          && (words[block] == MASK <==> rest == [])
        invariant Alloc(bs, 0, n) == Answer(Alloc(rest, block, n).at, pre + Alloc(rest, block, n).blocks)
        invariant SameLive(bs, blocks) && Kept(bs, was, words[..])
        decreases |rest|
      {
        HeaderAt(words[..], blocks, pre, rest, block);
        if !Odd(words[block]) {
          AllocFree(rest, block, n);
          ghost var b, mid := blocks, words[..];
          var taken;
          taken, rest := TryFree(block, need, pre, rest, n);
          KeptOn(bs, b, blocks, was, mid, words[..], !taken);
          if taken {
            IsKept(bs, was, words[..]);
            return block + 1;
          }
        } else {
          AllocTaken(rest, block, n);
        }
        Advance(words[..], blocks, pre, rest, block, n);
        block := block + Words(words[block]);
        block := block + 1;
        pre, rest := pre + [rest[0]], rest[1..];
      }
      AllocEnd(block, n);
      IsKept(bs, was, words[..]);
      WholeChain(words[..], blocks, pre, rest, block);
      Closed();
      return 0;
    }

    /** `HeapAlloc`: the word behind the header of the block, or 0. The block is in use from then on, its words were in
        no block in use, and the words of blocks in use are what they were. */
    method HeapAlloc(size: nat) returns (p: nat)
      requires Valid() && size < QWORDS
      modifies this`blocks, words
      ensures Valid()
      ensures var a := Alloc(old(blocks), 0, Need(size));
              blocks == a.blocks && p == match a.at { case None => 0 case Some(at) => at + 1 }
      ensures forall k :: 0 <= k < words.Length && Live(old(blocks), 0, k) ==> words[k] == old(words[k])
      ensures p != 0 ==> InUse(blocks, 0, p - 1, Need(size)) && p + Need(size) < words.Length
                         && forall k: nat :: p - 1 <= k < p + Need(size) ==> !Live(old(blocks), 0, k)
    {
      hide *;
      Opened();
      AllocSafe(blocks, Need(size));
      HeaderAt(words[..], blocks, [], blocks, 0);
      p := Walk(size);
    }

    /** `HeapFree` of a block in use. */
    method HeapFree(p: nat, ghost size: nat)
      requires Valid() && p > 0 && InUse(blocks, 0, p - 1, size)
      modifies this`blocks, words
      ensures Valid() && blocks == Freed(old(blocks), 0, p - 1)
      ensures forall k :: 0 <= k < words.Length && k != p - 1 ==> words[k] == old(words[k])
    {
      ghost var pre, rest := FindBlock(words[..], blocks, [], blocks, 0, p - 1, size);
      var block := p - 1;
      ghost var w := words[..];
      HeaderAt(w, blocks, pre, rest, block);
      words[block] := words[block] / 2 * 2;
      FreeLaid(w, words[..], blocks, pre, rest, block);
      blocks := pre + ([Block(rest[0].size, false)] + rest[1..]);
    }
  }

  lemma CarveLaid(w: seq<nat>, w': seq<nat>, bs: seq<Block>, pre: seq<Block>, m: nat, need: nat, tail: seq<Block>,
      i: nat)
    requires At(w, bs, pre, [Block(m, false)] + tail, i) && need <= m && i + m + 1 < |w| == |w'|
    requires w' == if m > need then w[i := 8 * need + 1][i + need + 1 := 8 * (m - need - 1)] else w[i := 8 * m + 1]
    ensures At(w', pre + (Carve(m, need) + tail), pre, Carve(m, need) + tail, i)
  {
    hide Laid, Length;
    var b := Block(m, false);
    LengthTwo(b, b);
    LengthTwo(Block(need, true), if m > need then Block(m - need - 1, false) else b);
    LengthTwo(Block(m, true), b);
    LaidTwo(w', i, Block(need, true), if m > need then Block(m - need - 1, false) else b);
    LaidTwo(w', i, Block(m, true), b);
    LaidStore(w, w', pre, [b], Carve(m, need), tail);
  }

  /** `HeapFree` finds the header it clears. */
  lemma {:induction false} FindBlock(w: seq<nat>, bs: seq<Block>, a: seq<Block>, b: seq<Block>, i: nat, p: nat,
      size: nat)
      returns (pre: seq<Block>, rest: seq<Block>)
    requires At(w, bs, a, b, i) && InUse(b, i, p, size)
    ensures At(w, bs, pre, rest, p) && rest != [] && rest[0] == Block(size, true)
    ensures pre + ([Block(size, false)] + rest[1..]) == a + Freed(b, i, p)
    decreases |b|
  {
    hide Laid, Length, At, Header;
    UseBehind(b[1..], i + Span(b[0]), p, size);
    if InUse(b[1..], i + Span(b[0]), p, size) {
      NextBlock(w, bs, a, b, i);
      pre, rest := FindBlock(w, bs, a + [b[0]], b[1..], i + Span(b[0]), p, size);
      assert (a + [b[0]]) + Freed(b[1..], i + Span(b[0]), p) == a + ([b[0]] + Freed(b[1..], i + Span(b[0]), p));
    } else {
      pre, rest := a, b;
    }
  }

  lemma FreeLaid(w: seq<nat>, w': seq<nat>, bs: seq<Block>, pre: seq<Block>, rest: seq<Block>, i: nat)
    requires At(w, bs, pre, rest, i) && rest != [] && rest[0].used && i < |w| && w' == w[i := w[i] / 2 * 2]
    ensures var t := pre + ([Block(rest[0].size, false)] + rest[1..]); At(w', t, [], t, 0)
  {
    hide Laid, Length;
    var b, b' := rest[0], Block(rest[0].size, false);
    HeaderAt(w, bs, pre, rest, i);
    HeaderBits(b);
    assert rest == [b] + rest[1..];
    LengthTwo(b, b);
    LengthTwo(b', b');
    LaidTwo(w', i, b', b');
    LaidStore(w, w', pre, [b], [b'], rest[1..]);
    WholeChain(w', pre + ([b'] + rest[1..]), pre, [b'] + rest[1..], i);
  }

  /** The chain seen from its first word. */
  lemma WholeChain(w: seq<nat>, bs: seq<Block>, pre: seq<Block>, rest: seq<Block>, i: nat)
    requires At(w, bs, pre, rest, i)
    ensures At(w, bs, [], bs, 0) && bs == pre + rest
  {
  }

  lemma WholeWords(size: nat)
    requires size < QWORDS
    ensures RoundUp8(size) == 8 * Need(size)
  {
    var q := Sub64(size, 1) / 8 + 1;
    assert q <= 0x2000_0000_0000_0000;
  }

  lemma AllocFree(bs: seq<Block>, i: nat, need: nat)
    requires bs != [] && !bs[0].used
    ensures Joined(bs) >= need ==> Alloc(bs, i, need) == Answer(Some(i), Carve(Joined(bs), need) + Behind(bs))
    ensures Joined(bs) < need ==>
              var a := Alloc(Behind(bs), i + Joined(bs) + 1, need);
              Alloc(bs, i, need) == Answer(a.at, [Block(Joined(bs), false)] + a.blocks)
  {
  }

  lemma AllocTaken(bs: seq<Block>, i: nat, need: nat)
    requires bs != [] && bs[0].used
    ensures var a := Alloc(bs[1..], i + Span(bs[0]), need); Alloc(bs, i, need) == Answer(a.at, [bs[0]] + a.blocks)
  {
  }

  lemma {:induction false} AllocEnd(i: nat, need: nat)
    ensures Alloc([], i, need) == Answer(None, [])
  {
  }

  /** Neither the header of a free block nor its payload belongs to a block in use. */
  lemma FreeWords(bs: seq<Block>, pre: seq<Block>, m: nat, tail: seq<Block>, i: nat)
    requires bs == pre + ([Block(m, false)] + tail) && i == Length(pre)
    ensures forall k :: i <= k <= i + m ==> !Live(bs, 0, k)
  {
    forall k | i <= k <= i + m ensures !Live(bs, 0, k) {
      LiveConcat(pre, [Block(m, false)] + tail, 0, k);
      HeadUse(Block(m, false), tail, i, 0, 0, k);
      if Live(pre, 0, k) { LiveRange(pre, 0, k); }
      if Live(tail, i + m + 1, k) { LiveRange(tail, i + m + 1, k); }
    }
  }

  lemma {:induction false} FreeWord(bs: seq<Block>, pre: seq<Block>, rest: seq<Block>, i: nat)
    requires bs == pre + rest && i == Length(pre) && rest != [] && !rest[0].used
    ensures !Live(bs, 0, i)
  {
    assert rest == [Block(rest[0].size, false)] + rest[1..];
    FreeWords(bs, pre, rest[0].size, rest[1..], i);
  }

  lemma {:induction false} RunDone(rest: seq<Block>)
    requires rest != [] && !rest[0].used && !(|rest| > 1 && !rest[1].used)
    ensures rest == [Block(Joined(rest), false)] + Behind(rest)
  {
  }

  /** What the loop sees behind a block: the sentinel ends every run. */
  lemma Peek(w: seq<nat>, bs: seq<Block>, pre: seq<Block>, rest: seq<Block>, i: nat)
    requires At(w, bs, pre, rest, i) && rest != []
    ensures Span(rest[0]) == rest[0].size + 1 && i + Span(rest[0]) < |w|
      && (!Odd(w[i + Span(rest[0])]) <==> |rest| > 1 && !rest[1].used)
  {
    NextBlock(w, bs, pre, rest, i);
    HeaderAt(w, bs, pre + [rest[0]], rest[1..], i + Span(rest[0]));
  }

  lemma HeaderNext(w: seq<nat>, bs: seq<Block>, pre: seq<Block>, rest: seq<Block>, i: nat)
    requires At(w, bs, pre, rest, i) && |rest| > 1
    ensures var n := i + Span(rest[0]);
            Span(rest[0]) == rest[0].size + 1 && n < |w| && w[n] == Header(rest[1]) && Words(w[n]) == rest[1].size
            && Bytes(w[n]) == 8 * rest[1].size && n + Span(rest[1]) < |w|
  {
    NextBlock(w, bs, pre, rest, i);
    HeaderAt(w, bs, pre + [rest[0]], rest[1..], i + Span(rest[0]));
  }
}
