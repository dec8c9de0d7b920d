/**
 * The two stateless click handlers: `arrowPull` scrolls the tab strip and
 * `editBlock` opens the owner block for editing (src/index.ts:271-296).
 */
module Actions {
  import opened Wrappers
  import opened Dom
  import opened Ids

  /** Pixels scrolled by one click on an arrow. */
  const ScrollStep: int := 180

  /**
   * arrowPull: no scroll unless the arrow names its header and the header's tab
   * container is found; direction "1" scrolls right, anything else left.
   */
  function ScrollOffset(direction: Option<string>, parentid: Option<string>, containerFound: bool): (dx: Option<int>)
    ensures dx.Some? <==> Truthy(parentid) && containerFound
    ensures dx.Some? ==> dx.value == ScrollStep || dx.value == -ScrollStep
    ensures dx.Some? ==> (dx.value > 0 <==> direction == Some("1"))
  {
    if !Truthy(parentid) || !containerFound then None
    else if direction == Some("1") then Some(ScrollStep)
    else Some(-ScrollStep)
  }

  /** `x?.replace('block-tabs-', '')`. */
  function StripOptional(x: Option<string>): (r: Option<string>)
    ensures r.Some? <==> x.Some?
    ensures x.Some? ==> r.value == StripPrefix(x.value)
  {
    match x
    case None => None
    case Some(s) => Some(StripPrefix(s))
  }

  /**
   * editBlock: the block to open, taken from the clicked element's
   * `data-blockid`, or failing that from its own id, with the header prefix
   * removed; nothing when both give an empty id.
   */
  function EditTarget(datasetBlockid: Option<string>, elementId: Option<string>): (target: Option<string>)
    ensures target.Some? ==> target.value != ""
    ensures target.Some? ==> target == StripOptional(datasetBlockid) || target == StripOptional(elementId)
    ensures Truthy(StripOptional(datasetBlockid)) ==> target == StripOptional(datasetBlockid)
    ensures target.None? <==> !Truthy(StripOptional(datasetBlockid)) && !Truthy(StripOptional(elementId))
  {
    var fromData := StripOptional(datasetBlockid);
    if Truthy(fromData) then fromData
    else
      var fromId := StripOptional(elementId);
      if Truthy(fromId) then fromId else None
  }

  /**
   * Both ways of asking to edit a header open its owner block: the edit icon
   * carries the container id in `data-blockid`, and a double click on the
   * header carries it as the element's own id.
   */
  lemma EditOpensOwner(blockId: string, elementId: Option<string>)
    requires blockId != ""
    ensures EditTarget(Some(ContainerId(blockId)), elementId) == Some(blockId)
    ensures EditTarget(None, Some(ContainerId(blockId))) == Some(blockId)
  {
    IdRoundTrip(blockId);
  }

  /** A header whose owner has no id opens nothing, whichever way it is asked. */
  lemma EditWithoutOwnerDoesNothing()
    ensures EditTarget(Some(ContainerId("")), Some(ContainerId(""))) == None
  {
    IdRoundTrip("");
  }

  /** The two arrows of one header scroll by the same amount in opposite directions. */
  lemma ArrowsAreOpposite(parentid: Option<string>, other: string)
    requires Truthy(parentid) && other != "1"
    ensures ScrollOffset(Some("1"), parentid, true).value == -ScrollOffset(Some(other), parentid, true).value
  {
  }
}
