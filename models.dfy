/**
 * The in-memory playbook: a list of entries that only grows, with a lookup
 * by id.
 */
module Models {
  import opened Types

  datatype PlaybookEntry = PlaybookEntry(id: EntryId, content: string, metadata: Metadata)

  ghost predicate DistinctIds(es: seq<PlaybookEntry>) {
    forall i, j :: 0 <= i < j < |es| ==> es[i].id != es[j].id
  }

  /** `metadata = {}` when `metadata is None`. */
  function MetadataOrEmpty(metadata: Option<Metadata>): Metadata {
    metadata.GetOr(map[])
  }

  class Playbook {
    var entries: seq<PlaybookEntry>

    ghost predicate Valid()
      reads this
    {
      DistinctIds(entries)
    }

    constructor ()
      ensures entries == [] && Valid()
    {
      entries := [];
    }

    /**
     * The `uuid4()` default of `PlaybookEntry.id`, made deterministic: an id
     * longer than every id already in the list, so held by no entry.
     */
    method FreshId() returns (id: EntryId)
      ensures forall j :: 0 <= j < |entries| ==> entries[j].id != id
    {
      var longest: nat := 0;
      var i := 0;
      while i < |entries|
        invariant 0 <= i <= |entries|
        invariant forall j :: 0 <= j < i ==> |entries[j].id| <= longest
      {
        if |entries[i].id| > longest {
          longest := |entries[i].id|;
        }
        i := i + 1;
      }
      id := seq(longest + 1, _ => 'u');
    }

    /** `add_entry`: appends one entry, whatever its content, and returns it. */
    method AddEntry(content: string, metadata: Option<Metadata>) returns (entry: PlaybookEntry)
      modifies this
      ensures entries == old(entries) + [entry]
      ensures entry.content == content && entry.metadata == MetadataOrEmpty(metadata)
      ensures forall j :: 0 <= j < |old(entries)| ==> old(entries)[j].id != entry.id
      ensures old(Valid()) ==> Valid()
    {
      var id := FreshId();
      entry := PlaybookEntry(id, content, MetadataOrEmpty(metadata));
      entries := entries + [entry];
    }

    /** `get_entry`: the first entry with this id, if any. */
    method GetEntry(id: EntryId) returns (r: Option<PlaybookEntry>)
      ensures r.None? <==> forall j :: 0 <= j < |entries| ==> entries[j].id != id
      ensures r.Some? ==>
                r.value.id == id &&
                exists k :: 0 <= k < |entries| && entries[k] == r.value &&
                            forall j :: 0 <= j < k ==> entries[j].id != id
    {
      var i := 0;
      while i < |entries|
        invariant 0 <= i <= |entries|
        invariant forall j :: 0 <= j < i ==> entries[j].id != id
      {
        if entries[i].id == id {
          return Some(entries[i]);
        }
        i := i + 1;
      }
      return None;
    }
  }
}
