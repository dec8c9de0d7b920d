/**
 * Header ids: a tab header's element id (and registry key) is "block-tabs-"
 * followed by the owner block's id (src/index.ts:64); handlers recover the
 * block id with `replace('block-tabs-', '')` (src/index.ts:287, 317, 348).
 */
module Ids {
  import opened Wrappers

  const Prefix: string := "block-tabs-"

  function ContainerId(blockId: string): (id: string)
    ensures |id| == |Prefix| + |blockId|
    ensures id[..|Prefix|] == Prefix && id[|Prefix|..] == blockId
  {
    Prefix + blockId
  }

  /** `pat` occurs in `s` starting at position `i`. */
  predicate OccursAt(s: string, pat: string, i: nat) {
    i + |pat| <= |s| && s[i..i + |pat|] == pat
  }

  /** String.prototype.indexOf(pat, from): the first occurrence at or after `from`. */
  function IndexOf(s: string, pat: string, from: nat): (r: Option<nat>)
    ensures r.Some? ==> from <= r.value && OccursAt(s, pat, r.value)
    ensures r.Some? ==> forall j :: from <= j < r.value ==> !OccursAt(s, pat, j)
    ensures r.None? ==> forall j :: from <= j ==> !OccursAt(s, pat, j)
    decreases |s| - from
  {
    if from + |pat| > |s| then None
    else if s[from..from + |pat|] == pat then Some(from)
    else IndexOf(s, pat, from + 1)
  }

  /** String.prototype.replace with a string pattern: only the FIRST occurrence is replaced. */
  function ReplaceFirst(s: string, pat: string, rep: string): (r: string)
    ensures IndexOf(s, pat, 0).None? ==> r == s
    ensures IndexOf(s, pat, 0).Some? ==>
              var i := IndexOf(s, pat, 0).value;
              |r| == |s| - |pat| + |rep| && r[..i] == s[..i]
  {
    match IndexOf(s, pat, 0)
    case None => s
    case Some(i) => s[..i] + rep + s[i + |pat|..]
  }

  /** `id.replace('block-tabs-', '')`. */
  function StripPrefix(id: string): (r: string)
    ensures IndexOf(id, Prefix, 0).None? ==> r == id
    ensures IndexOf(id, Prefix, 0).Some? ==> |r| == |id| - |Prefix|
  {
    ReplaceFirst(id, Prefix, "")
  }

  /** Stripping the prefix from a container id gives back the owner block's id. */
  lemma {:induction false} IdRoundTrip(blockId: string)
    ensures StripPrefix(ContainerId(blockId)) == blockId
  {
    var id := ContainerId(blockId);
    assert OccursAt(id, Prefix, 0);
    assert IndexOf(id, Prefix, 0) == Some(0);
    assert id[|Prefix|..] == blockId;
  }

  /** Distinct owner blocks get distinct header ids, hence distinct registry keys. */
  lemma {:induction false} ContainerIdInjective(a: string, b: string)
    requires ContainerId(a) == ContainerId(b)
    ensures a == b
  {
    IdRoundTrip(a);
    IdRoundTrip(b);
  }

  /** An id that does not contain the prefix anywhere is left as it is. */
  lemma StripWithoutPrefix(id: string)
    requires forall j: nat :: !OccursAt(id, Prefix, j)
    ensures StripPrefix(id) == id
  {
  }

  /**
   * The prefix is removed where it FIRST occurs, not only at the start: an id
   * with other text in front of the prefix loses the prefix from its middle.
   */
  lemma {:induction false} StripRemovesFirstOccurrence(lead: string, blockId: string)
    requires forall j: nat :: !OccursAt(lead + Prefix, Prefix, j) || j == |lead|
    ensures StripPrefix(lead + ContainerId(blockId)) == lead + blockId
  {
    assert lead + ContainerId(blockId) == lead + Prefix + blockId;
    ReplaceFirstAt(lead, Prefix, blockId, "");
    assert lead + "" + blockId == lead + blockId;
  }

  /** When the first occurrence of `pat` in `lead + pat` is the one after `lead`, that one is replaced. */
  lemma {:induction false} ReplaceFirstAt(lead: string, pat: string, rest: string, rep: string)
    requires forall j: nat :: !OccursAt(lead + pat, pat, j) || j == |lead|
    ensures ReplaceFirst(lead + pat + rest, pat, rep) == lead + rep + rest
  {
    var id := lead + pat + rest;
    var k := |lead|;
    assert id[k..k + |pat|] == pat;
    assert OccursAt(id, pat, k);
    forall j: nat | j < k ensures !OccursAt(id, pat, j) {
      assert j + |pat| <= |lead + pat| && !OccursAt(lead + pat, pat, j);
      assert id[j..j + |pat|] == (lead + pat)[j..j + |pat|];
    }
    assert IndexOf(id, pat, 0) == Some(k);
    assert id[..k] == lead;
    assert id[k + |pat|..] == rest;
  }
}
