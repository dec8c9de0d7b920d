/**
 * The tab-state registry `tabActionIndexs` (src/index.ts:30): a process-wide
 * Map from header id to active tab index, and the three callbacks that read
 * and write it in place: the reconcile pass of the MutationObserver
 * (src/index.ts:102-154), the `activeTab` click handler (src/index.ts:298-338)
 * and the orphan sweep of `DB.onChanged` (src/index.ts:342-365).
 */
module Registry {
  import opened Wrappers
  import opened Dom
  import opened Ids
  import opened View
  import opened Sweep
  import opened Resolve

  class TabRegistry {
    /** The keys in insertion order, the order in which a Map is iterated. */
    var order: seq<string>
    /** Header id to active tab index. */
    var index: map<string, int>

    /** The keys of `index` are those of `order`, once each; stored indexes are never negative. */
    ghost predicate Valid()
      reads this
    {
      && Distinct(order)
      && (forall k :: k in index <==> k in order)
      && (forall k :: k in index ==> index[k] >= 0)
    }

    constructor ()
      ensures Valid() && order == [] && index == map[]
    {
      order := [];
      index := map[];
    }

    /** Map.prototype.set: a new key goes last, an existing key keeps its place. */
    method Set(key: string, value: int)
      requires Valid() && value >= 0
      modifies this
      ensures Valid()
      ensures index == old(index)[key := value]
      ensures order == if key in old(index) then old(order) else old(order) + [key]
    {
      if key !in index {
        assert (order + [key])[..|order|] == order;
        order := order + [key];
      }
      index := index[key := value];
    }

    /** Map.prototype.delete. */
    method Delete(key: string)
      requires Valid()
      modifies this
      ensures Valid()
      ensures index == old(index) - {key}
      ensures order == Remove(old(order), key)
    {
      RemoveKeepsDistinct(order, key);
      RemoveMembers(order, key);
      order := Remove(order, key);
      index := index - {key};
    }

    /**
     * One reconcile pass for header `id`. Nothing happens when the content or
     * tab container is missing (`layout` is None). Otherwise the tab container's
     * max width is set, every arrow container is shown or hidden by the overflow
     * test, the active index is read from the registry (0 is recorded for an
     * unknown id), and tabs and panes are shown by position as PaneView and
     * TabFlags say. The only registry change is that recording.
     */
    method Reconcile(id: string, layout: Option<Layout>, arrows: array<bool>, tabs: array<bool>, panes: array<bool>)
      returns (maxWidth: Option<int>)
      requires Valid()
      requires arrows != tabs && arrows != panes && tabs != panes
      modifies this, arrows, tabs, panes
      ensures Valid()
      ensures layout.None? ==>
                && maxWidth.None? && order == old(order) && index == old(index)
                && arrows[..] == old(arrows[..]) && tabs[..] == old(tabs[..]) && panes[..] == old(panes[..])
      ensures layout.Some? ==>
                var active := Lookup(old(index), id);
                && maxWidth == Some(MaxWidth(layout.value.innerWidth))
                && arrows[..] == seq(arrows.Length, _ => Overflows(layout.value.tabWidths, layout.value.containerWidth))
                && index == old(index)[id := active]
                && order == (if id in old(index) then old(order) else old(order) + [id])
                && tabs[..] == TabFlags(tabs.Length, active)
                && panes[..] == PaneView(tabs.Length, panes.Length, active)
    {
      if layout.None? {
        return None;
      }
      var measured := layout.value;
      maxWidth := Some(MaxWidth(measured.innerWidth));
      var tabsWidth := Sum(measured.tabWidths);
      Fill(arrows, tabsWidth > measured.containerWidth);

      var current := ReadIndex(id);

      if panes.Length > tabs.Length {
        Fill(panes, true);
      }
      ClickAfterShowingSurplus(tabs.Length, panes[..], current);
      SelectTab(id, current, tabs, panes);
    }

    /** The registry read of a reconcile pass: the stored index, or 0, which is then recorded. */
    method ReadIndex(id: string) returns (current: int)
      requires Valid()
      modifies this
      ensures Valid()
      ensures current == Lookup(old(index), id) && current >= 0
      ensures index == old(index)[id := current]
      ensures order == if id in old(index) then old(order) else old(order) + [id]
    {
      current := 0;
      if id in index {
        current := index[id];
      } else {
        Set(id, 0);
      }
    }

    /**
     * The loop shared by the reconcile pass and the click handler
     * (src/index.ts:128-151 and 325-336): tab `k` and the pane at the same
     * position are shown, the other tabs and the other panes below the tab
     * count are hidden, and `k` is recorded for `key` when it names a tab.
     */
    method SelectTab(key: string, k: int, tabs: array<bool>, panes: array<bool>)
      requires Valid() && tabs != panes
      modifies this, tabs, panes
      ensures Valid()
      ensures tabs[..] == TabFlags(tabs.Length, k)
      ensures panes[..] == ClickPanes(tabs.Length, old(panes[..]), k)
      ensures 0 <= k < tabs.Length ==>
                index == old(index)[key := k]
                && order == (if key in old(index) then old(order) else old(order) + [key])
      ensures !(0 <= k < tabs.Length) ==> index == old(index) && order == old(order)
    {
      for i := 0 to tabs.Length
        modifies this, tabs, panes
        invariant Valid()
        invariant 0 <= k < i ==>
                    index == old(index)[key := k]
                    && order == (if key in old(index) then old(order) else old(order) + [key])
        invariant !(0 <= k < i) ==> index == old(index) && order == old(order)
        invariant forall j :: 0 <= j < i ==> tabs[j] == (j == k)
        invariant forall j :: 0 <= j < panes.Length ==>
                    panes[j] == (if j < i then j == k else old(panes[j]))
      {
        if i < panes.Length {
          panes[i] := i == k;
        }
        if i == k {
          Set(key, k);
        }
        tabs[i] := i == k;
      }
    }

    /**
     * The tab click handler. When the click resolves to a registry key (see
     * ClickOwner), every tab and every pane below the tab count follow the
     * clicked index, panes beyond the tab count keep their display, and the
     * index is recorded only when it names a tab. Otherwise nothing changes.
     */
    method ActiveTab(data: TabData, ref: RefLookup, doc: Document, tabs: array<bool>, panes: array<bool>)
      returns (key: Option<string>)
      requires Valid()
      requires tabs != panes
      modifies this, tabs, panes
      ensures Valid()
      ensures key == ClickOwner(data, ref, doc.blocks.Keys)
      ensures key.None? ==>
                order == old(order) && index == old(index) && tabs[..] == old(tabs[..]) && panes[..] == old(panes[..])
      ensures key.Some? ==>
                var clicked := data.index.value;
                && tabs[..] == TabFlags(tabs.Length, clicked)
                && panes[..] == ClickPanes(tabs.Length, old(panes[..]), clicked)
                && (0 <= clicked < tabs.Length ==>
                      index == old(index)[key.value := clicked]
                      && order == (if key.value in old(index) then old(order) else old(order) + [key.value]))
                && (!(0 <= clicked < tabs.Length) ==> index == old(index) && order == old(order))
    {
      if data.index.None? || !Truthy(data.parentid) || data.parentlevel.None? {
        return None;
      }
      var parentid := data.parentid.value;
      match ref {
        case Ref(b) =>
          if !Truthy(b) {
            return None;
          }
          parentid := ContainerId(b.value);
        case NotRef =>
      }
      if StripPrefix(parentid) !in doc.blocks {
        return None;
      }
      key := Some(parentid);
      SelectTab(parentid, data.index.value, tabs, panes);
    }

    /**
     * The orphan sweep: visits the keys in insertion order; a key whose header
     * is not in `headers` is deleted, and its owner block, when found, either
     * has all its panes shown or, lacking a level, ends the sweep. The result
     * is what SweptOrder and SweptBlocks describe.
     */
    method Sweep(headers: set<string>, doc: Document)
      requires Valid()
      modifies this, doc
      ensures Valid()
      ensures order == SweptOrder(old(order), headers, old(doc.blocks))
      ensures index == Restrict(old(index), order)
      ensures doc.blocks == SweptBlocks(old(order), headers, old(doc.blocks))
    {
      var keys := order;
      ghost var index0 := index;
      ghost var blocks0 := doc.blocks;
      ghost var n := FirstHalt(keys, headers, blocks0);
      var i := 0;
      while i < |keys|
        invariant 0 <= i <= n
        invariant Valid()
        invariant order == Survivors(keys[..i], headers) + keys[i..]
        invariant index == Restrict(index0, order)
        invariant doc.blocks == Restore(keys[..i], headers, blocks0)
      {
        ghost var order1, index1, blocks1 := order, index, doc.blocks;
        var halt := Visit(keys[i], headers, doc);
        SweepAdvance(keys, i, headers, index0, blocks0, order1, index1, blocks1, halt, order, index, doc.blocks);
        if halt {
          return;
        }
        i := i + 1;
      }
      SweptOrderWithoutHalt(keys, headers, blocks0);
    }

    /**
     * The body of the sweep for one key: a key whose header is missing is
     * deleted, and its owner block, when found, has all its panes shown, unless
     * it has no level, in which case the whole sweep stops (`halt`).
     */
    method Visit(key: string, headers: set<string>, doc: Document) returns (halt: bool)
      requires Valid()
      modifies this, doc
      ensures Valid()
      ensures halt == Halts(key, headers, old(doc.blocks))
      ensures key in headers ==> order == old(order) && index == old(index)
      ensures key !in headers ==> order == Remove(old(order), key) && index == old(index) - {key}
      ensures doc.blocks == if halt then old(doc.blocks) else RestoreOne(old(doc.blocks), key, headers)
    {
      halt := false;
      if key !in headers {
        Delete(key);
        var owner := StripPrefix(key);
        if owner in doc.blocks {
          var block := doc.blocks[owner];
          if block.level.None? {
            return true;
          }
          doc.blocks := doc.blocks[owner := Block(block.level, AllShown(|block.panes|))];
        }
      }
    }
  }

  /** Every element of `a` becomes `v` (a `forEach` setting the same display on each element). */
  method Fill(a: array<bool>, v: bool)
    modifies a
    ensures a[..] == seq(a.Length, _ => v)
  {
    for i := 0 to a.Length
      invariant forall j :: 0 <= j < i ==> a[j] == v
    {
      a[i] := v;
    }
  }
}
