/** Which block each fit strategy selects for a request, stated without
    reference to how the list is traversed. */
module Selection {
  import opened Blocks

  /** A block can serve a request of `n` bytes. */
  predicate Fits(b: Block, n: nat)
  {
    b.free && b.size >= n
  }

  /** No block of `bs` can serve a request of `n` bytes. */
  predicate NoFit(bs: seq<Block>, n: nat)
  {
    forall j :: 0 <= j < |bs| ==> !Fits(bs[j], n)
  }

  /** Block `i` is the one strategy `s` selects for `n` bytes: the earliest
      qualifying block, or among the qualifying blocks of smallest (largest)
      size the earliest. */
  predicate IsChoice(bs: seq<Block>, n: nat, s: Strategy, i: nat)
  {
    i < |bs| && Fits(bs[i], n) &&
    match s
    case FirstFit =>
      forall j :: 0 <= j < i ==> !Fits(bs[j], n)
    case BestFit =>
      (forall j :: 0 <= j < |bs| && Fits(bs[j], n) ==> bs[i].size <= bs[j].size) &&
      (forall j :: 0 <= j < i && Fits(bs[j], n) ==> bs[i].size < bs[j].size)
    case WorstFit =>
      (forall j :: 0 <= j < |bs| && Fits(bs[j], n) ==> bs[i].size >= bs[j].size) &&
      (forall j :: 0 <= j < i && Fits(bs[j], n) ==> bs[i].size > bs[j].size)
  }

  /** Each strategy selects at most one block. */
  lemma ChoiceUnique(bs: seq<Block>, n: nat, s: Strategy, i: nat, k: nat)
    requires IsChoice(bs, n, s, i) && IsChoice(bs, n, s, k)
    ensures i == k
  {
  }

  /** Each strategy selects some block whenever one qualifies. */
  lemma {:induction false} ChoiceExists(bs: seq<Block>, n: nat, s: Strategy)
    requires !NoFit(bs, n)
    ensures exists i :: IsChoice(bs, n, s, i)
    decreases |bs|
  {
    var last := |bs| - 1;
    var p := bs[..last];
    if NoFit(p, n) {
      assert forall j :: 0 <= j < last ==> !Fits(bs[j], n) by {
        forall j | 0 <= j < last ensures !Fits(bs[j], n) {
          assert bs[j] == p[j];
        }
      }
      assert IsChoice(bs, n, s, last);
    } else {
      ChoiceExists(p, n, s);
      var i: nat :| IsChoice(p, n, s, i);
      assert forall j :: 0 <= j < last ==> bs[j] == p[j];
      match s
      case FirstFit =>
        assert IsChoice(bs, n, s, i);
      case BestFit =>
        if Fits(bs[last], n) && bs[last].size < bs[i].size {
          assert IsChoice(bs, n, s, last);
        } else {
          assert IsChoice(bs, n, s, i);
        }
      case WorstFit =>
        if Fits(bs[last], n) && bs[last].size > bs[i].size {
          assert IsChoice(bs, n, s, last);
        } else {
          assert IsChoice(bs, n, s, i);
        }
    }
  }

  /** The block strategy `s` selects for `n` bytes, or None when none
      qualifies. */
  ghost function Choice(bs: seq<Block>, n: nat, s: Strategy): (r: Option<nat>)
    ensures r.None? <==> NoFit(bs, n)
    ensures r.Some? ==> IsChoice(bs, n, s, r.value)
  {
    if NoFit(bs, n) then None
    else
      ChoiceExists(bs, n, s);
      var i: nat :| IsChoice(bs, n, s, i);
      Some(i)
  }

  /** Free blocks of 50, 200 and 80 bytes and a request of 60: first fit
      takes the 200-byte block, best fit the 80-byte block, worst fit the
      200-byte block. */
  lemma StrategyExample()
    ensures var bs := [Block(50, true), Block(200, true), Block(80, true)];
      Choice(bs, 60, FirstFit) == Some(1) &&
      Choice(bs, 60, BestFit) == Some(2) &&
      Choice(bs, 60, WorstFit) == Some(1)
  {
    var bs := [Block(50, true), Block(200, true), Block(80, true)];
    assert IsChoice(bs, 60, FirstFit, 1);
    ChoiceUnique(bs, 60, FirstFit, 1, Choice(bs, 60, FirstFit).value);
    assert IsChoice(bs, 60, BestFit, 2);
    ChoiceUnique(bs, 60, BestFit, 2, Choice(bs, 60, BestFit).value);
    assert IsChoice(bs, 60, WorstFit, 1);
    ChoiceUnique(bs, 60, WorstFit, 1, Choice(bs, 60, WorstFit).value);
  }
}
