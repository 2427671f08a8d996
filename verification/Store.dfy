/** The bundle store: descriptors by bundle identifier. */
module Store {
  import opened Bytes
  import opened Endpoint
  import opened Block
  import opened Bundle
  import opened Descriptor

  datatype BundleId = BundleId(source: Eid, time: u64, sequence: u64, fragment: bool, offset: u64, total: u64)

  function IdOf(b: Bundle): BundleId {
    var p := b.primary;
    BundleId(p.source, p.time, p.sequence, p.IsFragment(), p.offset, p.total)
  }

  /** The node a bundle says it came from, if it names exactly one. */
  function PreviousNodeOf(b: Bundle): (r: seq<Eid>) {
    var found := ByType(b.exts, PREVIOUS_NODE);
    if |found| == 1 && found[0].value.PreviousNode? then [found[0].value.eid] else []
  }

  class BundleStore {
    const nodeId: Eid
    var bundles: map<BundleId, BundleDescriptor>

    constructor (nodeId: Eid)
      ensures this.nodeId == nodeId && bundles == map[]
    {
      this.nodeId, bundles := nodeId, map[];
    }

    /**
      * A new bundle gets a descriptor that knows this node and the sender as holders, and when it
      * expires. For a known bundle only the sender is recorded; every other descriptor is left alone.
      */
    method InsertBundle(b: Bundle) returns (d: Option<BundleDescriptor>)
      modifies this`bundles, bundles.Values`knownHolders
      ensures IdOf(b) !in old(bundles) ==>
                && d.Some? && fresh(d.value) && bundles == old(bundles)[IdOf(b) := d.value]
                && d.value.View() == NEW && d.value.knownHolders == [nodeId] + PreviousNodeOf(b)
                && d.value.expires == Deadline(b.primary.time, b.primary.lifetime) && d.value.copies == None
                && forall x :: x in old(bundles) ==> old(bundles)[x].knownHolders == old(bundles[x].knownHolders)
      ensures IdOf(b) in old(bundles) ==>
                var known := old(bundles)[IdOf(b)];
                && bundles == old(bundles)
                && d == (if known.deleted && PreviousNodeOf(b) != [] then None else Some(known))
                && known.knownHolders == old(known.knownHolders) + (if known.deleted then [] else PreviousNodeOf(b))
                && forall x :: x in bundles && bundles[x] != known ==> bundles[x].knownHolders == old(bundles[x].knownHolders)
    {
      var previous := PreviousNodeOf(b);
      if IdOf(b) !in bundles {
        var expires := Deadline(b.primary.time, b.primary.lifetime);
        var descriptor := new BundleDescriptor([nodeId] + previous, expires);
        bundles := bundles[IdOf(b) := descriptor];
        return Some(descriptor);
      }
      var known := bundles[IdOf(b)];
      if previous != [] {
        var ok := known.AddKnownHolder(previous[0]);
        if !ok { return None; }
      }
      return Some(known);
    }
  }
}
