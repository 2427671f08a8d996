/** The minimal TCP convergence layer: framed bundles and keepalives on one byte stream. */
module Mtcp {
  import opened Bytes
  import opened Cbor
  import opened Block
  import opened Bundle

  /** What a client puts on the wire in one piece, under its lock. */
  datatype Event = Sent(bundle: Bundle) | Keepalive

  const KEEPALIVE: bytes := Head(BYTE_STRING, 0)

  /** A bundle the client can send and the server can accept. */
  predicate Sendable(cs: Checksums, b: Bundle, now: int) {
    BundleValid(b, now) && Writable(b) && Wire(b) && |BundleBytes(cs, b)| < 0x8000_0000_0000_0000
  }

  /** A frame: the length, the bundle, and an empty frame that probes the connection. */
  function EventBytes(cs: Checksums, e: Event): (s: bytes)
    requires e.Sent? ==> Writable(e.bundle)
  {
    match e
    case Keepalive => KEEPALIVE
    case Sent(b) => Head(BYTE_STRING, ToU64(|BundleBytes(cs, b)|)) + (BundleBytes(cs, b) + KEEPALIVE)
  }

  predicate AllWritten(events: seq<Event>) {
    forall i :: 0 <= i < |events| && events[i].Sent? ==> Writable(events[i].bundle)
  }

  function StreamBytes(cs: Checksums, events: seq<Event>): (s: bytes)
    requires AllWritten(events)
  {
    if events == [] then [] else EventBytes(cs, events[0]) + StreamBytes(cs, events[1..])
  }

  /** The bundle of an event, if any, as a reader sees it. */
  function BundleOf(e: Event): (bs: seq<Bundle>)
    ensures |bs| == if e.Sent? then 1 else 0
  {
    if e.Sent? then [e.bundle.AsRead()] else []
  }

  function SentBundles(events: seq<Event>): (bs: seq<Bundle>) {
    if events == [] then [] else BundleOf(events[0]) + SentBundles(events[1..])
  }

  /** Every bundle sent is acceptable when the server reads it; `clock(k)` is its clock at the k-th bundle. */
  predicate AllSendable(cs: Checksums, events: seq<Event>, clock: nat -> int, k: nat) {
    events == []
    || (if events[0].Sent? then Sendable(cs, events[0].bundle, clock(k)) && AllSendable(cs, events[1..], clock, k + 1)
        else AllSendable(cs, events[1..], clock, k))
  }

  /** What the server hands on from a stream, from its k-th bundle on. The announced length is only compared with zero. */
  function Received(cs: Checksums, s: bytes, clock: nat -> int, k: nat): (bs: seq<Bundle>)
    decreases |s|
  {
    match ReadTyped(BYTE_STRING, s)
    case Fail(_) => []
    case Got(n, rest) =>
      if n == 0 then Received(cs, rest, clock, k)
      else
        match ParseBundle(cs, rest, clock(k))
        case Fail(_) => []
        case Got(b, after) => [b] + Received(cs, after, clock, k + 1)
  }

  /** What the server hands on behind the bundles it has already. */
  function Handed(bs: seq<Bundle>, cs: Checksums, s: bytes, clock: nat -> int): seq<Bundle> {
    bs + Received(cs, s, clock, |bs|)
  }

  lemma HandedStep(bs: seq<Bundle>, cs: Checksums, s: bytes, clock: nat -> int)
    ensures var head := ReadTyped(BYTE_STRING, s);
            if head.Fail? then Handed(bs, cs, s, clock) == bs
            else if head.value == 0 then Handed(bs, cs, s, clock) == Handed(bs, cs, head.rest, clock)
            else
              var parsed := ParseBundle(cs, head.rest, clock(|bs|));
              if parsed.Fail? then Handed(bs, cs, s, clock) == bs
              else Handed(bs, cs, s, clock) == Handed(bs + [parsed.value], cs, parsed.rest, clock)
  {
    hide ParseBundle, ReadTyped;
    var head := ReadTyped(BYTE_STRING, s);
    assert bs + [] == bs;
    if head.Got? && head.value != 0 {
      var parsed := ParseBundle(cs, head.rest, clock(|bs|));
      if parsed.Got? {
        BundlesAssoc(bs, [parsed.value], Received(cs, parsed.rest, clock, |bs| + 1));
      }
    }
  }

  /** The server's read loop; it ends with the stream or with the first error. */
  method HandleSender(cs: Checksums, s: bytes, clock: nat -> int) returns (bs: seq<Bundle>)
    ensures bs == Received(cs, s, clock, 0)
  {
    hide ParseBundle, ReadTyped, Received;
    var rest := s;
    bs := [];
    assert Handed([], cs, s, clock) == Received(cs, s, clock, 0);
    while true
      invariant Received(cs, s, clock, 0) == Handed(bs, cs, rest, clock)
      decreases |rest|
    {
      hide Handed;
      HandedStep(bs, cs, rest, clock);
      var head := ReadTyped(BYTE_STRING, rest);
      if head.Fail? { return; }
      if head.value == 0 {
        rest := head.rest;
      } else {
        var parsed := ParseBundle(cs, head.rest, clock(|bs|));
        if parsed.Fail? { return; }
        bs := bs + [parsed.value];
        rest := parsed.rest;
      }
    }
  }

  lemma {:induction false} StreamAppend(cs: Checksums, events: seq<Event>, e: Event)
    requires AllWritten(events) && (e.Sent? ==> Writable(e.bundle))
    ensures AllWritten(events + [e]) && StreamBytes(cs, events + [e]) == StreamBytes(cs, events) + EventBytes(cs, e)
  {
    hide EventBytes, Writable;
    if events == [] {
      assert events + [e] == [e] && [e][1..] == [];
      assert EventBytes(cs, e) + [] == EventBytes(cs, e) == [] + EventBytes(cs, e);
    } else {
      assert (events + [e])[1..] == events[1..] + [e];
      StreamAppend(cs, events[1..], e);
      Assoc(EventBytes(cs, events[0]), StreamBytes(cs, events[1..]), EventBytes(cs, e));
    }
  }

  /** A client, everything it has written to its connection, and, as history, what that was. */
  class Client {
    const cs: Checksums
    var wire: bytes
    var stopped: bool
    ghost var sent: seq<Event>

    /** Nothing but whole frames and keepalives is on the wire. */
    ghost predicate Valid()
      reads this
    {
      AllWritten(sent) && wire == StreamBytes(cs, sent)
    }

    constructor (cs: Checksums)
      ensures Valid() && this.cs == cs && sent == [] && !stopped
    {
      this.cs := cs;
      wire, stopped, sent := [], false, [];
    }

    method SendKeepalive()
      requires Valid()
      modifies this`wire, this`sent
      ensures Valid() && sent == old(sent) + [Keepalive]
    {
      StreamAppend(cs, sent, Keepalive);
      wire := wire + Head(BYTE_STRING, 0);
      sent := sent + [Keepalive];
    }

    /** Sends a bundle; one that cannot be written leaves the wire alone and closes the client. */
    method Send(b: Bundle) returns (ok: bool)
      requires Valid()
      modifies this
      ensures Valid() && ok == Writable(b)
      ensures ok ==> sent == old(sent) + [Sent(b)] && stopped == old(stopped)
      ensures !ok ==> wire == old(wire) && sent == old(sent) && stopped
    {
      hide BundleBytes, Writable, StreamBytes, AllWritten, Head, ToU64;
      var buff := MarshalBundle(cs, b);
      if buff.Err? {
        stopped := true;
        return false;
      }
      StreamAppend(cs, sent, Sent(b));
      var head := Head(BYTE_STRING, ToU64(|buff.value|));
      FrameAssoc(wire, head, buff.value, KEEPALIVE);
      wire := wire + head + buff.value;
      wire := wire + Head(BYTE_STRING, 0);
      sent := sent + [Sent(b)];
      return true;
    }
  }

  lemma FrameAssoc(a: bytes, b: bytes, c: bytes, d: bytes)
    ensures a + b + c + d == a + (b + (c + d))
  {
  }

  lemma TailAssoc(a: bytes, b: bytes, c: bytes, d: bytes)
    ensures a + (b + c) + d == a + (b + (c + d))
  {
  }

  lemma KeepaliveSkipped(cs: Checksums, rest: bytes, clock: nat -> int, k: nat)
    ensures Received(cs, KEEPALIVE + rest, clock, k) == Received(cs, rest, clock, k)
  {
    HeadRoundTrip(BYTE_STRING, 0, rest);
    hide ParseBundle, ReadHead, Head;
  }

  /** The stream of a frame: its length, then what the bundle's reader sees. */
  lemma FrameLayout(cs: Checksums, b: Bundle, rest: bytes)
    requires Writable(b) && |BundleBytes(cs, b)| < U64_LIMIT
    ensures var s := BundleBytes(cs, b);
            EventBytes(cs, Sent(b)) + rest == Head(BYTE_STRING, |s|) + (s + (KEEPALIVE + rest))
  {
    hide Writable, BundleBytes, Head, EventBytes, ToU64;
    var s := BundleBytes(cs, b);
    SentBytes(cs, b);
    TailAssoc(Head(BYTE_STRING, |s|), s, KEEPALIVE, rest);
  }

  lemma SentBytes(cs: Checksums, b: Bundle)
    requires Writable(b) && |BundleBytes(cs, b)| < U64_LIMIT
    ensures var s := BundleBytes(cs, b); EventBytes(cs, Sent(b)) == Head(BYTE_STRING, |s|) + (s + KEEPALIVE)
  {
    hide Writable, BundleBytes, Head, ToU64;
  }

  /** A frame is one byte string with the bundle's bytes, of the length announced, and an empty one. */
  lemma FrameIsByteString(cs: Checksums, b: Bundle, rest: bytes)
    requires Writable(b) && |BundleBytes(cs, b)| <= MAX_LEN
    ensures ReadByteString(EventBytes(cs, Sent(b)) + rest) == Got(BundleBytes(cs, b), KEEPALIVE + rest)
    ensures ReadByteString(KEEPALIVE + rest) == Got([], rest)
  {
    hide Writable, BundleBytes, EventBytes, ReadByteString, Head;
    var s := BundleBytes(cs, b);
    FrameLayout(cs, b, rest);
    Assoc(Head(BYTE_STRING, |s|), s, KEEPALIVE + rest);
    ByteStringRoundTrip(s, KEEPALIVE + rest);
    ByteStringRoundTrip([], rest);
    assert KEEPALIVE + [] == KEEPALIVE;
  }

  /** A non-empty frame in front of a stream that parses hands on the parsed bundle. */
  lemma FrameRead(cs: Checksums, n: u64, s: bytes, clock: nat -> int, k: nat)
    requires n > 0 && ParseBundle(cs, s, clock(k)).Got?
    ensures var parsed := ParseBundle(cs, s, clock(k));
            Received(cs, Head(BYTE_STRING, n) + s, clock, k) == [parsed.value] + Received(cs, parsed.rest, clock, k + 1)
  {
    HeadRoundTrip(BYTE_STRING, n, s);
    hide ParseBundle, ReadHead, Head;
  }

  lemma FrameReceived(cs: Checksums, b: Bundle, rest: bytes, clock: nat -> int, k: nat)
    requires Sendable(cs, b, clock(k))
    ensures Received(cs, EventBytes(cs, Sent(b)) + rest, clock, k) == [b.AsRead()] + Received(cs, rest, clock, k + 1)
  {
    hide BundleBytes, BundleValid, Writable, Wire, ParseBundle, Received, EventBytes;
    var s := BundleBytes(cs, b);
    NonEmpty(cs, b);
    FrameLayout(cs, b, rest);
    WrittenBundleParses(cs, b, KEEPALIVE + rest, clock(k));
    FrameRead(cs, |s|, s + (KEEPALIVE + rest), clock, k);
    KeepaliveSkipped(cs, rest, clock, k + 1);
  }

  lemma NonEmpty(cs: Checksums, b: Bundle)
    requires Writable(b)
    ensures |BundleBytes(cs, b)| > 0
  {
  }

  lemma BundlesAssoc(a: seq<Bundle>, b: seq<Bundle>, c: seq<Bundle>)
    ensures (a + b) + c == a + (b + c)
  {
  }

  lemma EventReceived(cs: Checksums, e: Event, rest: bytes, clock: nat -> int, k: nat)
    requires e.Sent? ==> Sendable(cs, e.bundle, clock(k))
    ensures Received(cs, EventBytes(cs, e) + rest, clock, k)
            == BundleOf(e) + Received(cs, rest, clock, k + |BundleOf(e)|)
  {
    hide ParseBundle, Received, BundleBytes;
    if e.Sent? {
      FrameReceived(cs, e.bundle, rest, clock, k);
    } else {
      KeepaliveSkipped(cs, rest, clock, k);
    }
  }

  lemma {:induction false} SendableIsWritten(cs: Checksums, events: seq<Event>, clock: nat -> int, k: nat)
    requires AllSendable(cs, events, clock, k)
    ensures AllWritten(events)
  {
    hide Writable, BundleBytes, BundleValid, Wire;
    if events != [] {
      SendableIsWritten(cs, events[1..], clock, if events[0].Sent? then k + 1 else k);
      forall i | 0 <= i < |events| && events[i].Sent? ensures Writable(events[i].bundle) {
        if i > 0 { assert events[1..][i - 1] == events[i]; }
      }
    }
  }

  /** The first event of a run, apart from the others. */
  lemma RunUnfold(cs: Checksums, events: seq<Event>, clock: nat -> int, k: nat)
    requires events != [] && AllSendable(cs, events, clock, k)
    ensures events[0].Sent? ==> Sendable(cs, events[0].bundle, clock(k)) && Writable(events[0].bundle)
    ensures AllSendable(cs, events[1..], clock, k + |BundleOf(events[0])|)
    ensures SentBundles(events) == BundleOf(events[0]) + SentBundles(events[1..])
    ensures AllWritten(events) && AllWritten(events[1..])
    ensures StreamBytes(cs, events) == EventBytes(cs, events[0]) + StreamBytes(cs, events[1..])
  {
    SendableIsWritten(cs, events, clock, k);
    hide Sendable, EventBytes, Writable;
  }

  lemma JoinReceived(
      cs: Checksums, head: bytes, rest: bytes, tail: bytes, sent: seq<Bundle>, more: seq<Bundle>, clock: nat -> int, k: nat)
    requires Received(cs, head + (rest + tail), clock, k) == sent + Received(cs, rest + tail, clock, k + |sent|)
    requires Received(cs, rest + tail, clock, k + |sent|) == more + Received(cs, tail, clock, k + |sent| + |more|)
    ensures Received(cs, (head + rest) + tail, clock, k) == (sent + more) + Received(cs, tail, clock, k + |sent + more|)
  {
    hide *;
    Assoc(head, rest, tail);
    BundlesAssoc(sent, more, Received(cs, tail, clock, k + |sent + more|));
    assert k + |sent + more| == k + |sent| + |more|;
  }

  lemma NothingReceived(cs: Checksums, tail: bytes, clock: nat -> int, k: nat)
    ensures AllWritten([])
    ensures Received(cs, StreamBytes(cs, []) + tail, clock, k)
            == SentBundles([]) + Received(cs, tail, clock, k + |SentBundles([])|)
  {
    hide Received;
    assert StreamBytes(cs, []) + tail == tail;
    assert SentBundles([]) + Received(cs, tail, clock, k) == Received(cs, tail, clock, k);
  }

  /**
    * For every run of whole frames and keepalives, the server hands on exactly the bundles sent, in
    * order, and goes on with whatever follows on the stream.
    */
  lemma {:induction false} ServerReceivesWhatWasSent(cs: Checksums, events: seq<Event>, tail: bytes, clock: nat -> int, k: nat)
    requires AllSendable(cs, events, clock, k)
    ensures AllWritten(events)
    ensures Received(cs, StreamBytes(cs, events) + tail, clock, k)
            == SentBundles(events) + Received(cs, tail, clock, k + |SentBundles(events)|)
  {
    hide *;
    if events == [] {
      NothingReceived(cs, tail, clock, k);
    } else {
      RunUnfold(cs, events, clock, k);
      var sent, more := BundleOf(events[0]), SentBundles(events[1..]);
      var head, rest := EventBytes(cs, events[0]), StreamBytes(cs, events[1..]);
      ServerReceivesWhatWasSent(cs, events[1..], tail, clock, k + |sent|);
      EventReceived(cs, events[0], rest + tail, clock, k);
      JoinReceived(cs, head, rest, tail, sent, more, clock, k);
    }
  }

  /** The stream does not go on with a frame that holds a bundle. */
  predicate Garbled(cs: Checksums, s: bytes, now: int) {
    var head := ReadTyped(BYTE_STRING, s);
    head.Fail? || (head.value > 0 && ParseBundle(cs, head.rest, now).Fail?)
  }

  /** At the first frame that is none, or holds no bundle, the server stops; all before it were handed on. */
  lemma StopsWhereGarbled(cs: Checksums, events: seq<Event>, tail: bytes, clock: nat -> int)
    requires AllSendable(cs, events, clock, 0) && Garbled(cs, tail, clock(|SentBundles(events)|))
    ensures AllWritten(events) && Received(cs, StreamBytes(cs, events) + tail, clock, 0) == SentBundles(events)
  {
    hide ReadTyped, ParseBundle, SentBundles, AllSendable, StreamBytes, AllWritten;
    ServerReceivesWhatWasSent(cs, events, tail, clock, 0);
  }
}
