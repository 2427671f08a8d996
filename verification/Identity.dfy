/** How the store tells bundles apart, when it lets them expire, and whom it takes for their sender. */
module Identity {
  import opened Bytes
  import opened Endpoint
  import opened Block
  import opened Primary
  import opened Bundle
  import opened Numbering
  import opened Store
  import opened Fragmentation
  import opened Reassembly
  import opened Lifetime

  /** Two bundles share a descriptor exactly if they agree in source, creation timestamp and fragment fields. */
  lemma SameIdIff(a: Bundle, b: Bundle)
    ensures IdOf(a) == IdOf(b) <==>
              && a.primary.source == b.primary.source && a.primary.time == b.primary.time && a.primary.sequence == b.primary.sequence
              && a.primary.flags % 2 == b.primary.flags % 2
              && a.primary.offset == b.primary.offset && a.primary.total == b.primary.total
  {
  }

  /** The fragments of a bundle are stored apart from each other and from the bundle. */
  lemma PiecesStoredApart(cs: Checksums, b: Bundle, mtu: i64, now: int, i: nat, j: nat)
    requires b.payload.value.Payload? && |b.exts| <= MAX_LEN && Fragment(cs, b, mtu, now).Ok?
    requires i < j < |Fragment(cs, b, mtu, now).value|
    ensures var ps := Fragment(cs, b, mtu, now).value;
            IdOf(ps[i]) != IdOf(ps[j]) && (!b.primary.IsFragment() ==> IdOf(ps[i]) != IdOf(b) && IdOf(ps[j]) != IdOf(b))
  {
    hide Fragment, Tiling, PrimaryBlock.IsFragment;
    var ps := Fragment(cs, b, mtu, now).value;
    PiecesTile(cs, b, mtu, now);
    PieceFacts(ps, b, i);
    PieceFacts(ps, b, j);
    PiecesByOffset(ps, b, j, i);
  }

  /** With a clock the store expires a bundle when its lifetime is exceeded; without one it goes by the clock all the same. */
  lemma StoreExpires(b: Bundle, now: int)
    ensures b.primary.time != 0 ==>
              (Deadline(b.primary.time, b.primary.lifetime) < now <==> LifetimeExceeded(b.primary, b.exts, now))
    ensures b.primary.time == 0 && b.primary.lifetime * 1000000 < I63 ==>
              (Deadline(b.primary.time, b.primary.lifetime) < now <==> now > (EPOCH_2000 + b.primary.lifetime) * 1000000)
  {
    hide Deadline;
    DeadlineExactIff(b.primary.time, b.primary.lifetime);
  }

  /** A bundle that was forwarded, and whatever is read of it, names the forwarding node as its sender. */
  lemma ReceiverKnowsSender(b: Bundle, now: int, self: Eid)
    requires BundleValid(b, now) && WireExts(b.exts) && |b.exts| <= MAX_LEN
    ensures var f := b.(exts := Forwarded(b.exts, self));
            PreviousNodeOf(f) == [self] && PreviousNodeOf(f.AsRead()) == [self]
  {
    hide BundleValid, Forwarded, WireExts, ByType, AsReadAll, Canonical.AsRead;
    ForwardingReplacesPreviousNode(b, now, self);
    var r := Forwarded(b.exts, self);
    ByTypeAsRead(r, PREVIOUS_NODE);
    AsReadOne(ByType(r, PREVIOUS_NODE), self);
  }

  lemma AsReadOne(found: seq<Canonical>, self: Eid)
    requires |found| == 1 && found[0].value == PreviousNode(self)
    ensures |AsReadAll(found)| == 1 && AsReadAll(found)[0].value == PreviousNode(self)
  {
  }
}
