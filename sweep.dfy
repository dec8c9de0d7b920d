/**
 * The orphan sweep run on every database change (src/index.ts:342-365), as
 * functions of the registry's keys in insertion order, the ids of the tab
 * headers present in the document, and the document's blocks.
 */
module Sweep {
  import opened Dom
  import opened Ids

  /** No key occurs twice: the keys of a JavaScript Map. */
  predicate Distinct(keys: seq<string>) {
    keys == [] || (keys[|keys| - 1] !in keys[..|keys| - 1] && Distinct(keys[..|keys| - 1]))
  }

  /** In a sequence without repeats, the element at `i` occurs neither before nor after `i`. */
  lemma {:induction false} DistinctSplit(keys: seq<string>, i: nat)
    requires Distinct(keys) && i < |keys|
    ensures keys[i] !in keys[..i] && keys[i] !in keys[i + 1..]
  {
    var m := |keys| - 1;
    if i < m {
      var front := keys[..m];
      DistinctSplit(front, i);
      assert front[..i] == keys[..i] && front[i] == keys[i];
      assert keys[i + 1..] == front[i + 1..] + [keys[m]];
      assert keys[i] in front;
    } else {
      assert keys[i + 1..] == [];
    }
  }

  /** The sequence without `key` (deleting a Map entry keeps the order of the rest). */
  function Remove(keys: seq<string>, key: string): (r: seq<string>)
    ensures |r| <= |keys|
  {
    if keys == [] then []
    else
      var last := keys[|keys| - 1];
      Remove(keys[..|keys| - 1], key) + (if last == key then [] else [last])
  }

  /** What Remove keeps: every other key. */
  lemma {:induction false} RemoveMembers(keys: seq<string>, key: string)
    ensures forall k :: k in Remove(keys, key) <==> k in keys && k != key
  {
    if keys != [] {
      RemoveMembers(keys[..|keys| - 1], key);
      assert keys == keys[..|keys| - 1] + [keys[|keys| - 1]];
    }
  }

  /** Removing a key that is absent changes nothing. */
  lemma {:induction false} RemoveAbsent(keys: seq<string>, key: string)
    requires key !in keys
    ensures Remove(keys, key) == keys
  {
    if keys != [] {
      assert keys == keys[..|keys| - 1] + [keys[|keys| - 1]];
      RemoveAbsent(keys[..|keys| - 1], key);
    }
  }

  /** Removing from a concatenation removes from each part. */
  lemma {:induction false} RemoveAppend(front: seq<string>, back: seq<string>, key: string)
    ensures Remove(front + back, key) == Remove(front, key) + Remove(back, key)
    decreases |back|
  {
    if back == [] {
      assert front + back == front;
    } else {
      var m := |back| - 1;
      assert (front + back)[..|front + back| - 1] == front + back[..m];
      RemoveAppend(front, back[..m], key);
    }
  }

  /** Deleting a key that occurs once removes exactly that occurrence. */
  lemma RemoveOnly(before: seq<string>, key: string, after: seq<string>)
    requires key !in before && key !in after
    ensures Remove(before + [key] + after, key) == before + after
  {
    assert Remove([key], key) == [] by {
      assert [key][..0] == [];
    }
    calc {
      Remove(before + [key] + after, key);
      { RemoveAppend(before + [key], after, key); }
      Remove(before + [key], key) + Remove(after, key);
      { RemoveAppend(before, [key], key); }
      Remove(before, key) + Remove(after, key);
      { RemoveAbsent(before, key); RemoveAbsent(after, key); }
      before + after;
    }
  }

  /** Deleting keeps the keys free of repeats. */
  lemma {:induction false} RemoveKeepsDistinct(keys: seq<string>, key: string)
    requires Distinct(keys)
    ensures Distinct(Remove(keys, key))
  {
    if keys != [] {
      var front, last := keys[..|keys| - 1], keys[|keys| - 1];
      RemoveKeepsDistinct(front, key);
      if last != key {
        var r := Remove(front, key) + [last];
        assert Remove(keys, key) == r;
        RemoveMembers(front, key);
        assert last !in front;
        assert r[..|r| - 1] == Remove(front, key);
      } else {
        assert Remove(keys, key) == Remove(front, key) + [] == Remove(front, key);
      }
    }
  }

  /** The entries of `index` whose keys are in `keys`. */
  function Restrict(index: map<string, int>, keys: seq<string>): map<string, int> {
    map k | k in index && k in keys :: index[k]
  }

  function AllShown(n: nat): (shown: seq<bool>)
    ensures |shown| == n && forall i :: 0 <= i < n ==> shown[i]
  {
    seq(n, _ => true)
  }

  /** The sweep stops at this key: its header is gone, its owner block is found, and the block has no level. */
  predicate Halts(key: string, headers: set<string>, blocks: map<string, Block>)
    ensures Halts(key, headers, blocks) ==> key !in headers && StripPrefix(key) in blocks
  {
    key !in headers && StripPrefix(key) in blocks && blocks[StripPrefix(key)].level.None?
  }

  /** Position of the key at which the sweep returns early, or the number of keys. */
  function FirstHalt(keys: seq<string>, headers: set<string>, blocks: map<string, Block>): (n: nat)
    ensures n <= |keys|
    ensures n < |keys| ==> Halts(keys[n], headers, blocks)
  {
    if keys == [] then 0
    else if Halts(keys[0], headers, blocks) then 0
    else 1 + FirstHalt(keys[1..], headers, blocks)
  }

  /** No key before the halting one halts the sweep. */
  lemma {:induction false} NoHaltBefore(keys: seq<string>, headers: set<string>, blocks: map<string, Block>, j: nat)
    requires j < FirstHalt(keys, headers, blocks)
    ensures !Halts(keys[j], headers, blocks)
  {
    if j > 0 {
      NoHaltBefore(keys[1..], headers, blocks, j - 1);
      assert keys[1..][j - 1] == keys[j];
    }
  }

  /** A halting key at or before the first halt is the first halt. */
  lemma HaltIsFirst(keys: seq<string>, headers: set<string>, blocks: map<string, Block>, i: nat)
    requires i <= FirstHalt(keys, headers, blocks) && i < |keys| && Halts(keys[i], headers, blocks)
    ensures FirstHalt(keys, headers, blocks) == i
  {
    if i < FirstHalt(keys, headers, blocks) {
      NoHaltBefore(keys, headers, blocks, i);
    }
  }

  /** The keys whose header is present, in order. */
  function Survivors(keys: seq<string>, headers: set<string>): (r: seq<string>)
    ensures |r| <= |keys|
  {
    if keys == [] then []
    else
      var last := keys[|keys| - 1];
      Survivors(keys[..|keys| - 1], headers) + (if last in headers then [last] else [])
  }

  /** The survivors are exactly the keys whose header is present. */
  lemma {:induction false} SurvivorsMembers(keys: seq<string>, headers: set<string>)
    ensures forall k :: k in Survivors(keys, headers) <==> k in keys && k in headers
  {
    if keys != [] {
      SurvivorsMembers(keys[..|keys| - 1], headers);
      assert keys == keys[..|keys| - 1] + [keys[|keys| - 1]];
    }
  }

  /** One step of the sweep on the document: an orphan's owner block, when found with a level, shows all its panes. */
  function RestoreOne(blocks: map<string, Block>, key: string, headers: set<string>): (r: map<string, Block>)
    ensures r.Keys == blocks.Keys
  {
    var b := StripPrefix(key);
    if key !in headers && b in blocks && blocks[b].level.Some? then
      blocks[b := Block(blocks[b].level, AllShown(|blocks[b].panes|))]
    else blocks
  }

  /** The document after the sweep has visited `keys` in order. */
  function Restore(keys: seq<string>, headers: set<string>, blocks: map<string, Block>): (r: map<string, Block>)
    ensures r.Keys == blocks.Keys
  {
    if keys == [] then blocks
    else RestoreOne(Restore(keys[..|keys| - 1], headers, blocks), keys[|keys| - 1], headers)
  }

  /** Restoring changes only the display of panes: every block keeps its level and its number of panes. */
  lemma {:induction false} RestoreKeepsLevels(keys: seq<string>, headers: set<string>, blocks: map<string, Block>, b: string)
    requires b in blocks
    ensures Restore(keys, headers, blocks)[b].level == blocks[b].level
    ensures |Restore(keys, headers, blocks)[b].panes| == |blocks[b].panes|
  {
    if keys != [] {
      RestoreKeepsLevels(keys[..|keys| - 1], headers, blocks, b);
    }
  }

  /**
   * The registry keys left by a sweep, in order: orphans before the halting key
   * are gone, the halting key itself is gone, and every key after it stays.
   */
  function SweptOrder(keys: seq<string>, headers: set<string>, blocks: map<string, Block>): (r: seq<string>)
    ensures |r| <= |keys|
    ensures FirstHalt(keys, headers, blocks) < |keys| ==> |r| < |keys|
  {
    var n := FirstHalt(keys, headers, blocks);
    if n == |keys| then Survivors(keys, headers)
    else Survivors(keys[..n], headers) + keys[n + 1..]
  }

  /**
   * A sweep keeps every key whose header is present, adds no key, and, when
   * it does not halt, keeps exactly the keys whose header is present.
   */
  lemma SweptOrderMembers(keys: seq<string>, headers: set<string>, blocks: map<string, Block>)
    ensures forall k :: k in keys && k in headers ==> k in SweptOrder(keys, headers, blocks)
    ensures forall k :: k in SweptOrder(keys, headers, blocks) ==> k in keys
    ensures FirstHalt(keys, headers, blocks) == |keys| ==>
              forall k :: k in SweptOrder(keys, headers, blocks) <==> k in keys && k in headers
  {
    var n := FirstHalt(keys, headers, blocks);
    SurvivorsMembers(keys, headers);
    SurvivorsMembers(keys[..n], headers);
    if n < |keys| {
      assert keys == keys[..n] + [keys[n]] + keys[n + 1..];
    }
  }

  /** The document left by a sweep: the owners of the orphans visited before the halt are restored. */
  function SweptBlocks(keys: seq<string>, headers: set<string>, blocks: map<string, Block>): (r: map<string, Block>)
    ensures r.Keys == blocks.Keys
  {
    Restore(keys[..FirstHalt(keys, headers, blocks)], headers, blocks)
  }

  /** Restoring leaves an all-shown block all shown. */
  lemma {:induction false} RestoreKeepsShown(keys: seq<string>, headers: set<string>, blocks: map<string, Block>, b: string)
    requires b in blocks && blocks[b].panes == AllShown(|blocks[b].panes|)
    ensures Restore(keys, headers, blocks)[b] == blocks[b]
  {
    if keys != [] {
      RestoreKeepsShown(keys[..|keys| - 1], headers, blocks, b);
    }
  }

  /** A block that is not the owner of any orphan among `keys` is left as it is. */
  lemma {:induction false} RestoreLeavesOthers(keys: seq<string>, headers: set<string>, blocks: map<string, Block>, b: string)
    requires b in blocks
    requires forall j :: 0 <= j < |keys| ==> keys[j] in headers || StripPrefix(keys[j]) != b
    ensures Restore(keys, headers, blocks)[b] == blocks[b]
  {
    if keys != [] {
      RestoreLeavesOthers(keys[..|keys| - 1], headers, blocks, b);
    }
  }

  /** Once an orphan's owner block has been restored, it stays fully shown. */
  lemma {:induction false} RestoreShowsOwner(keys: seq<string>, headers: set<string>, blocks: map<string, Block>, j: nat)
    requires j < |keys| && keys[j] !in headers
    requires StripPrefix(keys[j]) in blocks && blocks[StripPrefix(keys[j])].level.Some?
    ensures var b := StripPrefix(keys[j]);
            Restore(keys, headers, blocks)[b].panes == AllShown(|blocks[b].panes|)
    decreases |keys|
  {
    var b := StripPrefix(keys[j]);
    var prefix := keys[..|keys| - 1];
    if j == |keys| - 1 {
      assert keys[|keys| - 1] == keys[j];
      RestoreKeepsLevels(prefix, headers, blocks, b);
    } else {
      RestoreKeepsLevels(prefix, headers, blocks, b);
      assert prefix[j] == keys[j];
      RestoreShowsOwner(prefix, headers, blocks, j);
      var mid := Restore(prefix, headers, blocks);
      RestoreKeepsShown([keys[|keys| - 1]], headers, mid, b);
      assert [keys[|keys| - 1]][..0] == [];
    }
  }

  /**
   * After a sweep, every orphan visited before the halt whose owner block is
   * found with a level has all of that block's panes shown.
   */
  lemma {:induction false} SweepShowsOrphanPanes(keys: seq<string>, headers: set<string>, blocks: map<string, Block>, j: nat)
    requires j < FirstHalt(keys, headers, blocks) && keys[j] !in headers
    requires StripPrefix(keys[j]) in blocks && blocks[StripPrefix(keys[j])].level.Some?
    ensures var b := StripPrefix(keys[j]);
            SweptBlocks(keys, headers, blocks)[b].panes == AllShown(|blocks[b].panes|)
  {
    var n := FirstHalt(keys, headers, blocks);
    assert keys[..n][j] == keys[j];
    RestoreShowsOwner(keys[..n], headers, blocks, j);
  }

  /** The sweep changes no block other than the owners of the orphans it evicts. */
  lemma {:induction false} SweepLeavesOtherBlocks(keys: seq<string>, headers: set<string>, blocks: map<string, Block>, b: string)
    requires b in blocks
    requires forall k :: k in keys && k !in headers ==> StripPrefix(k) != b
    ensures SweptBlocks(keys, headers, blocks)[b] == blocks[b]
  {
    var n := FirstHalt(keys, headers, blocks);
    forall j | 0 <= j < n ensures keys[..n][j] in headers || StripPrefix(keys[..n][j]) != b {
      assert keys[..n][j] == keys[j];
    }
    RestoreLeavesOthers(keys[..n], headers, blocks, b);
  }

  /**
   * When every registered header is present (an empty registry included), the
   * sweep changes neither the registry nor the document.
   */
  lemma {:induction false} SweepWithoutOrphans(keys: seq<string>, headers: set<string>, blocks: map<string, Block>)
    requires forall k :: k in keys ==> k in headers
    ensures SweptOrder(keys, headers, blocks) == keys
    ensures SweptBlocks(keys, headers, blocks) == blocks
  {
    SurvivorsAll(keys, headers);
    assert FirstHalt(keys, headers, blocks) == |keys|;
    assert keys[..|keys|] == keys;
    forall b | b in blocks ensures Restore(keys, headers, blocks)[b] == blocks[b] {
      RestoreLeavesOthers(keys, headers, blocks, b);
    }
  }

  lemma {:induction false} SurvivorsAll(keys: seq<string>, headers: set<string>)
    requires forall k :: k in keys ==> k in headers
    ensures Survivors(keys, headers) == keys
  {
    if keys != [] {
      SurvivorsAll(keys[..|keys| - 1], headers);
      assert keys == keys[..|keys| - 1] + [keys[|keys| - 1]];
    }
  }

  /**
   * Every orphan visited before the sweep halts is evicted, whether or not the
   * sweep halts later.
   */
  lemma {:induction false} EarlierOrphansEvicted(keys: seq<string>, headers: set<string>, blocks: map<string, Block>)
    requires Distinct(keys)
    ensures forall j :: 0 <= j < FirstHalt(keys, headers, blocks) && keys[j] !in headers ==>
              keys[j] !in SweptOrder(keys, headers, blocks)
  {
    var n := FirstHalt(keys, headers, blocks);
    forall j | 0 <= j < n && keys[j] !in headers ensures keys[j] !in SweptOrder(keys, headers, blocks) {
      if n == |keys| {
        SurvivorsMembers(keys, headers);
      } else {
        SurvivorsMembers(keys[..n], headers);
        DistinctSplit(keys, j);
        assert keys[n + 1..] == keys[j + 1..][n - j..];
      }
    }
  }

  /**
   * The key that halts the sweep is evicted, and every key after it is kept,
   * orphan or not, until the next sweep.
   */
  lemma {:induction false} HaltKeepsLaterKeys(keys: seq<string>, headers: set<string>, blocks: map<string, Block>)
    requires Distinct(keys)
    requires FirstHalt(keys, headers, blocks) < |keys|
    ensures var n := FirstHalt(keys, headers, blocks);
            keys[n] !in SweptOrder(keys, headers, blocks)
            && forall j :: n < j < |keys| ==> keys[j] in SweptOrder(keys, headers, blocks)
  {
    var n := FirstHalt(keys, headers, blocks);
    var r := SweptOrder(keys, headers, blocks);
    assert r == Survivors(keys[..n], headers) + keys[n + 1..];
    SurvivorsMembers(keys[..n], headers);
    DistinctSplit(keys, n);
    forall j | n < j < |keys| ensures keys[j] in r {
      assert keys[j] == keys[n + 1..][j - n - 1];
    }
  }

  /** A sweep that did not halt leaves only present headers, so a second sweep changes nothing. */
  lemma {:induction false} SecondSweepIsNoOp(keys: seq<string>, headers: set<string>, blocks: map<string, Block>, later: map<string, Block>)
    requires FirstHalt(keys, headers, blocks) == |keys|
    ensures var once := SweptOrder(keys, headers, blocks);
            SweptOrder(once, headers, later) == once && SweptBlocks(once, headers, later) == later
  {
    SweptOrderMembers(keys, headers, blocks);
    SweepWithoutOrphans(SweptOrder(keys, headers, blocks), headers, later);
  }

  /**
   * One key of the sweep, on the functions that describe it: the order and the
   * document after visiting `keys[i]` are those after visiting `keys[..i + 1]`,
   * and whether it halts is judged the same on the partly restored document.
   */
  lemma SweepStep(keys: seq<string>, i: nat, headers: set<string>, blocks: map<string, Block>)
    requires Distinct(keys) && i < |keys|
    ensures var before := Survivors(keys[..i], headers) + keys[i..];
            var after := Survivors(keys[..i + 1], headers) + keys[i + 1..];
            && (keys[i] in headers ==> before == after)
            && (keys[i] !in headers ==>
                  Remove(before, keys[i]) == after == Survivors(keys[..i], headers) + keys[i + 1..])
    ensures Halts(keys[i], headers, Restore(keys[..i], headers, blocks)) == Halts(keys[i], headers, blocks)
    ensures !Halts(keys[i], headers, blocks) ==>
              Restore(keys[..i + 1], headers, blocks) == RestoreOne(Restore(keys[..i], headers, blocks), keys[i], headers)
  {
    SurvivorsStep(keys, i, headers);
    RestoreStep(keys, i, headers, blocks);
    if StripPrefix(keys[i]) in blocks {
      RestoreKeepsLevels(keys[..i], headers, blocks, StripPrefix(keys[i]));
    }
    assert keys[i..] == [keys[i]] + keys[i + 1..];
    if keys[i] !in headers {
      DeleteVisited(keys, i, headers);
    }
  }

  /** A key that does not halt the sweep, at or before the first halt, is before it. */
  lemma PastKey(keys: seq<string>, headers: set<string>, blocks: map<string, Block>, i: nat)
    requires i <= FirstHalt(keys, headers, blocks) && i < |keys| && !Halts(keys[i], headers, blocks)
    ensures i + 1 <= FirstHalt(keys, headers, blocks)
  {
  }

  /** The sweep's result when it halts: the state reached just before the halting key, less that key. */
  lemma SweptOrderAtHalt(keys: seq<string>, headers: set<string>, blocks: map<string, Block>)
    requires FirstHalt(keys, headers, blocks) < |keys|
    ensures var n := FirstHalt(keys, headers, blocks);
            && SweptOrder(keys, headers, blocks) == Survivors(keys[..n], headers) + keys[n + 1..]
            && SweptBlocks(keys, headers, blocks) == Restore(keys[..n], headers, blocks)
  {
  }

  /** The sweep's result when it does not halt: the state after visiting every key. */
  lemma SweptOrderWithoutHalt(keys: seq<string>, headers: set<string>, blocks: map<string, Block>)
    requires FirstHalt(keys, headers, blocks) == |keys|
    ensures SweptOrder(keys, headers, blocks) == Survivors(keys[..|keys|], headers)
    ensures SweptBlocks(keys, headers, blocks) == Restore(keys[..|keys|], headers, blocks)
  {
    assert keys[..|keys|] == keys;
  }

  /** Visiting an orphan at `i`: deleting it from the current order leaves the survivors so far followed by the unvisited keys. */
  lemma DeleteVisited(keys: seq<string>, i: nat, headers: set<string>)
    requires Distinct(keys) && i < |keys| && keys[i] !in headers
    ensures Remove(Survivors(keys[..i], headers) + keys[i..], keys[i])
            == Survivors(keys[..i], headers) + keys[i + 1..]
  {
    assert keys[i..] == [keys[i]] + keys[i + 1..];
    assert Survivors(keys[..i], headers) + keys[i..] == Survivors(keys[..i], headers) + [keys[i]] + keys[i + 1..];
    DistinctSplit(keys, i);
    SurvivorsMembers(keys[..i], headers);
    RemoveOnly(Survivors(keys[..i], headers), keys[i], keys[i + 1..]);
  }

  /** Survivors grows by one visited key at a time. */
  lemma SurvivorsStep(keys: seq<string>, i: nat, headers: set<string>)
    requires i < |keys|
    ensures Survivors(keys[..i + 1], headers)
            == Survivors(keys[..i], headers) + (if keys[i] in headers then [keys[i]] else [])
  {
    assert keys[..i + 1][..i] == keys[..i];
  }

  /** Restore applies one visited key at a time. */
  lemma RestoreStep(keys: seq<string>, i: nat, headers: set<string>, blocks: map<string, Block>)
    requires i < |keys|
    ensures Restore(keys[..i + 1], headers, blocks)
            == RestoreOne(Restore(keys[..i], headers, blocks), keys[i], headers)
  {
    assert keys[..i + 1][..i] == keys[..i];
  }

  /** Dropping a key from the order drops exactly its entry from the restricted index. */
  lemma RestrictRemove(index: map<string, int>, keys: seq<string>, key: string)
    ensures Restrict(index, Remove(keys, key)) == Restrict(index, keys) - {key}
  {
    RemoveMembers(keys, key);
  }

  /**
   * One visit of the sweep loop, from the state after `keys[..i]` to the state
   * after `keys[i]`: either the sweep halts there, with the result SweptOrder
   * and SweptBlocks describe, or it goes on with `keys[..i + 1]` visited.
   */
  lemma SweepAdvance(
    keys: seq<string>, i: nat, headers: set<string>, index0: map<string, int>, blocks0: map<string, Block>,
    order: seq<string>, index: map<string, int>, blocks: map<string, Block>,
    halt: bool, order': seq<string>, index': map<string, int>, blocks': map<string, Block>)
    requires Distinct(keys) && i < |keys| && i <= FirstHalt(keys, headers, blocks0)
    requires order == Survivors(keys[..i], headers) + keys[i..]
    requires index == Restrict(index0, order)
    requires blocks == Restore(keys[..i], headers, blocks0)
    requires halt == Halts(keys[i], headers, blocks)
    requires keys[i] in headers ==> order' == order && index' == index
    requires keys[i] !in headers ==> order' == Remove(order, keys[i]) && index' == index - {keys[i]}
    requires blocks' == if halt then blocks else RestoreOne(blocks, keys[i], headers)
    ensures index' == Restrict(index0, order')
    ensures halt ==> order' == SweptOrder(keys, headers, blocks0) && blocks' == SweptBlocks(keys, headers, blocks0)
    ensures !halt ==>
              && i + 1 <= FirstHalt(keys, headers, blocks0)
              && order' == Survivors(keys[..i + 1], headers) + keys[i + 1..]
              && blocks' == Restore(keys[..i + 1], headers, blocks0)
  {
    SweepStep(keys, i, headers, blocks0);
    RestrictRemove(index0, order, keys[i]);
    if halt {
      HaltIsFirst(keys, headers, blocks0, i);
      SweptOrderAtHalt(keys, headers, blocks0);
    } else {
      PastKey(keys, headers, blocks0, i);
    }
  }
}
