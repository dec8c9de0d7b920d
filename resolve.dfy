/**
 * Reference resolution: which block owns a tab group, for the render handler
 * (src/index.ts:38-64) and for the tab click handler (src/index.ts:298-320).
 * A group rendered inside a block reference belongs to the referenced block,
 * so both copies share one header id and one registry entry.
 */
module Resolve {
  import opened Wrappers
  import opened Dom
  import opened Ids
  import opened Titles

  /** The enclosing `.ls-block` of a render slot: its `blockid` and `level` attributes. */
  datatype BlockAttrs = BlockAttrs(blockid: Option<string>, level: Option<int>)

  /** What the render handler sets up: header id, owner level and titles. */
  datatype Group = Group(containerId: string, level: int, titles: seq<string>, isRef: bool)

  /** The dataset of a clicked tab: `data-index`, `data-parentid`, `data-parentlevel`. */
  datatype TabData = TabData(index: Option<int>, parentid: Option<string>, parentlevel: Option<int>)

  /**
   * The owner block id the render handler settles on: the referenced block for
   * a reference, else the enclosing block's own id (empty when it has none).
   */
  function OwnerId(ref: RefLookup, block: BlockAttrs): (owner: string)
    ensures ref.Ref? && Truthy(ref.blockid) ==> owner == ref.blockid.value
    ensures !(ref.Ref? && Truthy(ref.blockid)) ==> (owner == "" <==> !Truthy(block.blockid))
    ensures !(ref.Ref? && Truthy(ref.blockid)) && Truthy(block.blockid) ==> owner == block.blockid.value
  {
    if ref.Ref? && Truthy(ref.blockid) then ref.blockid.value
    else if Truthy(block.blockid) then block.blockid.value
    else ""
  }

  /**
   * The render handler: a group is set up exactly when the macro is `tabs`,
   * it yields at least one title, a reference names its block, and the slot
   * sits in a block; its header id is the owner's container id.
   */
  function RenderGroup(args: seq<string>, ref: RefLookup, block: Option<BlockAttrs>): (g: Option<Group>)
    ensures g.Some? <==>
              |args| >= 2 && args[0] == "tabs" && ParseTabTitles(args) != []
              && (ref.Ref? ==> Truthy(ref.blockid)) && block.Some?
    ensures g.Some? ==> g.value.titles == ParseTabTitles(args) && |g.value.titles| >= 1
    ensures g.Some? ==> g.value.containerId == ContainerId(OwnerId(ref, block.value))
    ensures g.Some? ==> g.value.isRef == ref.Ref?
    ensures g.Some? ==> g.value.level == if block.value.level.Some? then block.value.level.value else 0
    ensures g.Some? && ref.Ref? ==> g.value.containerId == ContainerId(ref.blockid.value)
  {
    if |args| == 0 || args[0] != "tabs" then None
    else
      var titles := ParseTabTitles(args);
      if titles == [] then None
      else if ref.Ref? && !Truthy(ref.blockid) then None
      else if block.None? then None
      else
        var level := match block.value.level case Some(l) => l case None => 0;
        Some(Group(ContainerId(OwnerId(ref, block.value)), level, titles, ref.Ref?))
  }

  /**
   * A block and a reference to it render headers with the same id: the tab
   * state of the two copies is one registry entry.
   */
  lemma ReferenceSharesHeaderId(args: seq<string>, b: string, refHost: BlockAttrs, level: Option<int>)
    requires b != ""
    requires RenderGroup(args, NotRef, Some(BlockAttrs(Some(b), level))).Some?
    ensures RenderGroup(args, Ref(Some(b)), Some(refHost)).Some?
    ensures RenderGroup(args, Ref(Some(b)), Some(refHost)).value.containerId
         == RenderGroup(args, NotRef, Some(BlockAttrs(Some(b), level))).value.containerId
  {
  }

  /** The header id of a rendered group leads back to its owner block. */
  lemma {:induction false} RenderedHeaderFindsOwner(args: seq<string>, ref: RefLookup, block: BlockAttrs)
    requires RenderGroup(args, ref, Some(block)).Some?
    ensures StripPrefix(RenderGroup(args, ref, Some(block)).value.containerId) == OwnerId(ref, block)
  {
    IdRoundTrip(OwnerId(ref, block));
  }

  /**
   * activeTab's resolution of the registry key: nothing unless index, parent id
   * and parent level are all given; a header inside a reference is re-keyed to
   * the referenced block (nothing when the reference names none); and the
   * owner block must be found in the document.
   */
  function ClickOwner(data: TabData, ref: RefLookup, blockIds: set<string>): (key: Option<string>)
    ensures key.Some? ==> data.index.Some? && Truthy(data.parentid) && data.parentlevel.Some?
    ensures key.Some? ==> StripPrefix(key.value) in blockIds
    ensures key.Some? && ref.NotRef? ==> key == data.parentid
    ensures key.Some? && ref.Ref? ==> Truthy(ref.blockid) && key.value == ContainerId(ref.blockid.value)
    ensures ref.Ref? && !Truthy(ref.blockid) ==> key.None?
    ensures (data.index.Some? && Truthy(data.parentid) && data.parentlevel.Some? && ref.NotRef?
             && StripPrefix(data.parentid.value) in blockIds) ==> key == data.parentid
    ensures (data.index.Some? && Truthy(data.parentid) && data.parentlevel.Some? && ref.Ref? && Truthy(ref.blockid)
             && StripPrefix(ContainerId(ref.blockid.value)) in blockIds) ==> key == Some(ContainerId(ref.blockid.value))
  {
    if data.index.None? || !Truthy(data.parentid) || data.parentlevel.None? then None
    else
      match ref
      case Ref(b) =>
        if !Truthy(b) then None
        else
          var key := ContainerId(b.value);
          if StripPrefix(key) in blockIds then Some(key) else None
      case NotRef =>
        var key := data.parentid.value;
        if StripPrefix(key) in blockIds then Some(key) else None
  }

  /**
   * A click on a tab of a rendered header, seen either from the owner block or
   * from a reference to it, resolves to the registry key the header was
   * rendered with, as long as the owner block is in the document.
   */
  lemma {:induction false} ClickFindsRenderedGroup(
    args: seq<string>, ref: RefLookup, block: BlockAttrs, clickRef: RefLookup, i: int, blockIds: set<string>)
    requires RenderGroup(args, ref, Some(block)).Some?
    requires OwnerId(ref, block) in blockIds
    requires clickRef == NotRef || clickRef == Ref(Some(OwnerId(ref, block)))
    requires clickRef.Ref? ==> OwnerId(ref, block) != ""
    ensures var g := RenderGroup(args, ref, Some(block)).value;
            ClickOwner(TabData(Some(i), Some(g.containerId), Some(g.level)), clickRef, blockIds) == Some(g.containerId)
  {
    IdRoundTrip(OwnerId(ref, block));
  }
}
