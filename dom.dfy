/**
 * The host document as the plugin sees it once the DOM queries are taken as
 * given: attribute values, the result of `closest(...)` lookups, measured
 * widths, and the blocks that can be found by id.
 */
module Dom {
  import opened Wrappers

  /** JavaScript truthiness of an optional string attribute: present and non-empty. */
  predicate Truthy(s: Option<string>) {
    s.Some? && s.value != ""
  }

  /**
   * Result of `closest('.block-ref > .block-content')` from a slot or header:
   * not inside a block reference, or inside one whose `blockid` attribute
   * (the referenced block) may be missing.
   */
  datatype RefLookup = NotRef | Ref(blockid: Option<string>)

  /**
   * A block element `.ls-block[blockid=...]`: its `level` attribute (None when
   * missing or empty) and the display state of its next-level child blocks,
   * the tab panes, in document order (true: shown).
   */
  datatype Block = Block(level: Option<int>, panes: seq<bool>)

  /**
   * Layout measured by a reconcile pass: the width of `.block-content-inner`,
   * the width of each tab, and the width of the tab container.
   */
  datatype Layout = Layout(innerWidth: nat, tabWidths: seq<nat>, containerWidth: nat)

  /** The blocks of the document that can be found by their `blockid`. */
  class Document {
    var blocks: map<string, Block>

    constructor (blocks: map<string, Block>)
      ensures this.blocks == blocks
    {
      this.blocks := blocks;
    }
  }
}
