/** Merging runs of neighbouring free blocks into the first block of each
    run, as one forward pass over the list does. */
module Coalescing {
  import opened Blocks

  /** The list after every run of neighbouring free blocks has been merged
      into the run's first block; the absorbed headers become payload. */
  function MergeRuns(bs: seq<Block>): (r: seq<Block>)
    ensures |r| <= |bs|
    ensures (r == []) == (bs == [])
    ensures bs != [] ==> r[0].free == bs[0].free
    decreases |bs|
  {
    if |bs| < 2 then bs
    else if bs[0].free && bs[1].free then
      MergeRuns([Block(bs[0].size + H + bs[1].size, true)] + bs[2..])
    else
      [bs[0]] + MergeRuns(bs[1..])
  }

  /** Total payload bytes of `bs`. */
  function SizeSum(bs: seq<Block>): nat
  {
    if bs == [] then 0 else bs[0].size + SizeSum(bs[1..])
  }

  /** The used blocks of `bs`, in list order. */
  function UsedBlocks(bs: seq<Block>): seq<Block>
  {
    if bs == [] then []
    else if bs[0].free then UsedBlocks(bs[1..])
    else [bs[0]] + UsedBlocks(bs[1..])
  }

  predicate AllFree(bs: seq<Block>)
  {
    forall k :: 0 <= k < |bs| ==> bs[k].free
  }

  /** Merging keeps the pool tiled: absorbed headers become payload. */
  lemma {:induction false} MergeRunsKeepsSpan(bs: seq<Block>)
    ensures Span(MergeRuns(bs)) == Span(bs)
    decreases |bs|
  {
    if |bs| >= 2 {
      var a, b, rest := bs[0], bs[1], bs[2..];
      assert bs == [a] + ([b] + rest);
      SpanCons(a, [b] + rest);
      SpanCons(b, rest);
      if a.free && b.free {
        var m := Block(a.size + H + b.size, true);
        SpanCons(m, rest);
        MergeRunsKeepsSpan([m] + rest);
      } else {
        assert bs[1..] == [b] + rest;
        SpanCons(a, MergeRuns(bs[1..]));
        MergeRunsKeepsSpan(bs[1..]);
      }
    }
  }

  /** After merging, no two neighbouring blocks are both free. */
  lemma {:induction false} MergeRunsCoalesced(bs: seq<Block>)
    ensures Coalesced(MergeRuns(bs))
    decreases |bs|
  {
    if |bs| >= 2 {
      if bs[0].free && bs[1].free {
        MergeRunsCoalesced([Block(bs[0].size + H + bs[1].size, true)] + bs[2..]);
      } else {
        MergeRunsCoalesced(bs[1..]);
        var r := MergeRuns(bs);
        var t := MergeRuns(bs[1..]);
        assert r == [bs[0]] + t;
        forall k | 0 <= k && k + 1 < |r|
          ensures !(r[k].free && r[k + 1].free)
        {
          if k > 0 {
            assert r[k] == t[k - 1] && r[k + 1] == t[k];
          }
        }
      }
    }
  }

  /** Used blocks keep their sizes, flags and relative order. */
  lemma {:induction false} MergeRunsKeepsUsed(bs: seq<Block>)
    ensures UsedBlocks(MergeRuns(bs)) == UsedBlocks(bs)
    decreases |bs|
  {
    if |bs| >= 2 {
      var a, b, rest := bs[0], bs[1], bs[2..];
      assert bs[1..] == [b] + rest;
      if a.free && b.free {
        var m := Block(a.size + H + b.size, true);
        MergeRunsKeepsUsed([m] + rest);
        assert ([m] + rest)[1..] == rest;
        assert ([b] + rest)[1..] == rest;
      } else {
        MergeRunsKeepsUsed(bs[1..]);
        assert ([a] + MergeRuns(bs[1..]))[1..] == MergeRuns(bs[1..]);
      }
    }
  }

  /** A list with no neighbouring free blocks is left as it is. */
  lemma {:induction false} MergeRunsFixpoint(bs: seq<Block>)
    requires Coalesced(bs)
    ensures MergeRuns(bs) == bs
    decreases |bs|
  {
    if |bs| >= 2 {
      assert !(bs[0].free && bs[1].free);
      MergeRunsFixpoint(bs[1..]);
      assert bs == [bs[0]] + bs[1..];
    }
  }

  /** Merging a second time changes nothing. */
  lemma MergeRunsIdempotent(bs: seq<Block>)
    ensures MergeRuns(MergeRuns(bs)) == MergeRuns(bs)
  {
    MergeRunsCoalesced(bs);
    MergeRunsFixpoint(MergeRuns(bs));
  }

  /** A run of k free blocks ending at a used block (or at the end of the
      list) becomes one free block at the run's start, whose payload is the
      run's payload plus the k - 1 absorbed headers. */
  lemma {:induction false} MergeRunsRun(run: seq<Block>, rest: seq<Block>)
    requires run != [] && AllFree(run)
    requires rest == [] || !rest[0].free
    ensures MergeRuns(run + rest) ==
              [Block(SizeSum(run) + (|run| - 1) * H, true)] + MergeRuns(rest)
    decreases |run|
  {
    var a := run[0];
    if |run| == 1 {
      assert SizeSum(run) == a.size by {
        assert run[1..] == [];
      }
      if rest == [] {
        assert run + rest == [a];
      } else {
        assert (run + rest)[1..] == rest;
      }
      assert a == Block(a.size, true);
    } else {
      var b := run[1];
      var m := Block(a.size + H + b.size, true);
      var run' := [m] + run[2..];
      assert (run + rest)[2..] == run[2..] + rest;
      assert run' + rest == [m] + (run + rest)[2..];
      MergeRunsRun(run', rest);
      assert SizeSum(run') == SizeSum(run) + H by {
        assert run'[1..] == run[2..];
        assert run[1..][1..] == run[2..];
      }
    }
  }

  /** A block that does not start a run of free blocks is kept as it is. */
  lemma MergeRunsKeepsHead(a: Block, t: seq<Block>)
    requires t == [] || !(a.free && t[0].free)
    ensures MergeRuns([a] + t) == [a] + MergeRuns(t)
  {
  }

  /** A coalesced prefix that does not end in a free block next to a free
      block of `q` passes through merging untouched. */
  lemma {:induction false} MergeRunsPrefix(p: seq<Block>, q: seq<Block>)
    requires Coalesced(p)
    requires p == [] || q == [] || !(p[|p| - 1].free && q[0].free)
    ensures MergeRuns(p + q) == p + MergeRuns(q)
    decreases |p|
  {
    if p != [] {
      var a := p[0];
      var p' := p[1..];
      assert p == [a] + p';
      assert p + q == [a] + (p' + q);
      if p' == [] {
        MergeRunsKeepsHead(a, q);
        assert p + MergeRuns(q) == [a] + MergeRuns(q);
      } else {
        assert Coalesced(p') by {
          forall k | 0 <= k && k + 1 < |p'|
            ensures !(p'[k].free && p'[k + 1].free)
          {
            assert p'[k] == p[k + 1] && p'[k + 1] == p[k + 2];
          }
        }
        assert p'[|p'| - 1] == p[|p| - 1];
        MergeRunsPrefix(p', q);
        assert (p' + q)[0] == p[1];
        MergeRunsKeepsHead(a, p' + q);
        assert [a] + (p' + MergeRuns(q)) == p + MergeRuns(q);
      }
    } else {
      assert p + q == q && p + MergeRuns(q) == MergeRuns(q);
    }
  }

  /** A used block survives merging as it is, and its header stays where it
      was: merging only moves bytes between free neighbours. */
  lemma {:induction false} MergeRunsKeepsUsedAt(bs: seq<Block>, j: nat) returns (k: nat)
    requires j < |bs| && !bs[j].free
    ensures k < |MergeRuns(bs)| && MergeRuns(bs)[k] == bs[j]
    ensures Offset(MergeRuns(bs), k) == Offset(bs, j)
    decreases |bs|
  {
    if |bs| < 2 {
      k := j;
    } else if bs[0].free && bs[1].free {
      var a, b, rest := bs[0], bs[1], bs[2..];
      var m := Block(a.size + H + b.size, true);
      assert bs == [a] + ([b] + rest);
      assert ([m] + rest)[j - 1] == bs[j];
      OffsetCons(a, [b] + rest, j - 1);
      OffsetCons(b, rest, j - 2);
      OffsetCons(m, rest, j - 2);
      k := MergeRunsKeepsUsedAt([m] + rest, j - 1);
    } else if j == 0 {
      k := 0;
    } else {
      var t := MergeRuns(bs[1..]);
      assert bs == [bs[0]] + bs[1..];
      var k' := MergeRunsKeepsUsedAt(bs[1..], j - 1);
      OffsetCons(bs[0], bs[1..], j - 1);
      OffsetCons(bs[0], t, k');
      k := k' + 1;
    }
  }

  /** Every header of the merged list was already a header of the input, at
      the same address and with the same flag: merging never creates a
      header, it only removes the absorbed ones. */
  lemma {:induction false} MergeRunsHeaderOrigin(bs: seq<Block>, k: nat) returns (j: nat)
    requires k < |MergeRuns(bs)|
    ensures j < |bs| && Offset(bs, j) == Offset(MergeRuns(bs), k)
    ensures MergeRuns(bs)[k].free == bs[j].free
    decreases |bs|
  {
    if |bs| < 2 {
      j := k;
    } else if bs[0].free && bs[1].free {
      var a, b, rest := bs[0], bs[1], bs[2..];
      var m := Block(a.size + H + b.size, true);
      var j' := MergeRunsHeaderOrigin([m] + rest, k);
      if j' == 0 {
        j := 0;
      } else {
        assert bs == [a] + ([b] + rest);
        assert bs[j' + 1] == ([m] + rest)[j'];
        OffsetCons(a, [b] + rest, j');
        OffsetCons(b, rest, j' - 1);
        OffsetCons(m, rest, j' - 1);
        j := j' + 1;
      }
    } else if k == 0 {
      j := 0;
    } else {
      var t := MergeRuns(bs[1..]);
      assert bs == [bs[0]] + bs[1..];
      var j' := MergeRunsHeaderOrigin(bs[1..], k - 1);
      OffsetCons(bs[0], bs[1..], j');
      OffsetCons(bs[0], t, k - 1);
      j := j' + 1;
    }
  }

  /** A used block closes every run before it, so the pass works on the two
      sides of it independently: a run anywhere in the list is merged as if
      it were at the front. */
  lemma {:induction false} MergeRunsSplit(p: seq<Block>, q: seq<Block>)
    requires p != [] && !p[|p| - 1].free
    ensures MergeRuns(p + q) == MergeRuns(p) + MergeRuns(q)
    decreases |p|
  {
    var a := p[0];
    if |p| == 1 {
      assert p + q == [a] + q;
      MergeRunsKeepsHead(a, q);
    } else if a.free && p[1].free {
      var m := Block(a.size + H + p[1].size, true);
      var p' := [m] + p[2..];
      assert (p + q)[2..] == p[2..] + q;
      assert [m] + (p + q)[2..] == p' + q;
      assert p'[|p'| - 1] == p[|p| - 1];
      MergeRunsSplit(p', q);
    } else {
      assert (p + q)[1..] == p[1..] + q;
      MergeRunsSplit(p[1..], q);
      assert [a] + (MergeRuns(p[1..]) + MergeRuns(q)) == [a] + MergeRuns(p[1..]) + MergeRuns(q);
    }
  }

  /** The list after block `i` absorbs block `i + 1`: it grows by the later
      block's header and payload, and the later block is unlinked. */
  function MergeAt(bs: seq<Block>, i: nat): (r: seq<Block>)
    requires i + 1 < |bs|
    ensures |r| == |bs| - 1
    ensures r[..i] == bs[..i] && r[i + 1..] == bs[i + 2..]
    ensures r[i] == Block(bs[i].size + H + bs[i + 1].size, bs[i].free)
  {
    var grown := bs[i := bs[i].(size := bs[i].size + H + bs[i + 1].size)];
    grown[..i + 1] + grown[i + 2..]
  }

  /** One merge keeps the pool tiled: the unlinked header becomes payload of
      the block that absorbs it. */
  lemma MergeAtKeepsSpan(bs: seq<Block>, i: nat)
    requires i + 1 < |bs|
    ensures Span(MergeAt(bs, i)) == Span(bs)
  {
    var r := MergeAt(bs, i);
    SpanAround(bs, i + 1);
    OffsetStep(bs, i);
    SpanAround(r, i);
  }

  /** Merging two free neighbours in place leaves the blocks before them
      alone and does not change what the rest of the pass produces. */
  lemma MergeAtStep(bs: seq<Block>, i: nat)
    requires i + 1 < |bs| && bs[i].free && bs[i + 1].free
    ensures MergeAt(bs, i)[..i] == bs[..i]
    ensures MergeRuns(MergeAt(bs, i)[i..]) == MergeRuns(bs[i..])
  {
    var a, b, rest := bs[i], bs[i + 1], bs[i + 2..];
    var m := Block(a.size + H + b.size, true);
    assert bs[i..][0] == a && bs[i..][1] == b && bs[i..][2..] == rest;
    assert MergeAt(bs, i) == bs[..i] + [m] + rest;
    assert MergeAt(bs, i)[i..] == [m] + rest;
  }

  /** Moving past a block that does not start a free pair keeps the result
      of the pass unchanged. */
  lemma AdvanceStep(bs: seq<Block>, i: nat)
    requires i + 1 < |bs| && !(bs[i].free && bs[i + 1].free)
    ensures bs[..i] + MergeRuns(bs[i..]) == bs[..i + 1] + MergeRuns(bs[i + 1..])
  {
  }
}
