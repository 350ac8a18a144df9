/** Redaction withholds and never alters: over one step, over any run, and between any two
    packets that share a head. */
module PacketTheorems {
  import opened Hashing
  import opened Text
  import opened MerkleTree
  import opened JournalLog
  import opened JournalTheorems
  import opened AgentEvents
  import opened AgentPackets

  // ---- building and redacting -------------------------------------------------------------------

  /** Whatever is sealed verifies, and shows each event with its commitment and payload. */
  lemma {:induction false} SealedVerifies(h: Hash, rec: Recover, events: seq<Event>)
    requires SessionOk(h, events)
    ensures ShapeOk(PacketOf(h, events)) && PacketOk(h, rec, PacketOf(h, events), None)
    ensures PacketOf(h, events).leaves == Leaves(h, events)
    ensures |PacketOf(h, events).events| == |events|
    ensures forall i :: 0 <= i < |events| ==> IsSound(h, events[i]) && PacketOf(h, events).events[i] == CanonicalEvent(h, events[i])
  {
    hide ValidateEvent;
    hide EventBytes;
    var p := PacketOf(h, events);
    forall i | 0 <= i < |events|
      ensures IsSound(h, events[i]) && IsSound(h, p.events[i]) && p.events[i].seqNo == i
      ensures BoundOf(h, p.events[i]) == BoundOf(h, events[i])
    {
      SessionEvent(h, events, i);
      TwinKeepsBound(h, events[i]);
    }
    assert Leaves(h, p.events) == Leaves(h, events);
  }

  /** What event i of a redacted copy is. */
  lemma {:induction false} EventAfterRedaction(h: Hash, p: Packet, requested: set<int>, i: nat)
    requires SessionOk(h, p.events) && i < |p.events|
    ensures IsSound(h, p.events[i]) && |RedactPacket(h, p, requested).events| == |p.events|
    ensures RedactPacket(h, p, requested).events[i]
            == if i in requested then Twin(h, p.events[i]) else CanonicalEvent(h, p.events[i])
  {
    hide ValidateEvent;
    hide EventBytes;
    SessionEvent(h, p.events, i);
    RedactedSession(h, p.events, requested);
    TwinKeepsBound(h, p.events[i]);
  }

  lemma {:induction false} RedactionKeepsLeaves(h: Hash, p: Packet, requested: set<int>)
    requires SessionOk(h, p.events)
    ensures SessionOk(h, RedactPacket(h, p, requested).events)
    ensures Leaves(h, RedactPacket(h, p, requested).events) == Leaves(h, p.events)
  {
    hide ValidateEvent;
    hide EventBytes;
    hide RedactPacket;
    var q := RedactPacket(h, p, requested);
    RedactedIsSealed(h, p, requested);
    EventCounts(h, p, requested);
    forall i | 0 <= i < |p.events| ensures Leaf(h, q.events[i]) == Leaf(h, p.events[i]) {
      EventAfterRedaction(h, p, requested, i);
      TwinKeepsBound(h, p.events[i]);
    }
  }

  lemma EventCounts(h: Hash, p: Packet, requested: set<int>)
    requires SessionOk(h, p.events)
    ensures |RedactPacket(h, p, requested).events| == |p.events|
  {
  }

  /** A redacted copy is again a sealed packet, save for the carried attestation. */
  lemma {:induction false} RedactedIsSealed(h: Hash, p: Packet, requested: set<int>)
    requires SessionOk(h, p.events)
    ensures ShapeOk(RedactPacket(h, p, requested)) && BodyOk(h, RedactPacket(h, p, requested))
    ensures RedactPacket(h, p, requested).attestation == p.attestation
    ensures RedactPacket(h, p, requested).leaves == Leaves(h, RedactPacket(h, p, requested).events)
  {
    hide ValidateEvent;
    hide EventBytes;
    hide SessionOk;
    var r := RedactEvents(h, p.events, requested);
    RedactedSession(h, p.events, requested);
    SealedVerifies(h, (_, _) => None, r);
    var q, s := RedactPacket(h, p, requested), PacketOf(h, r);
    assert q.events == s.events && q.leaves == s.leaves && q.head == s.head && q.counts == s.counts;
    assert forall i :: 0 <= i < |s.events| ==> LeafMatches(h, s, i) && (LeafMatches(h, q, i) <==> LeafMatches(h, s, i));
  }

  lemma {:induction false} BodyFixesLeaves(h: Hash, p: Packet)
    requires ShapeOk(p) && BodyOk(h, p)
    ensures p.leaves == Leaves(h, p.events)
  {
    hide ValidateEvent;
    hide EventBytes;
    forall i | 0 <= i < |p.events| ensures p.leaves[i] == Leaf(h, p.events[i]) { assert LeafMatches(h, p, i); }
  }

  /** Redacting an accepted packet gives an accepted packet, under the same signer pin, with the
      same leaves, head and signed head. */
  lemma {:induction false} RedactionKeepsAcceptance(h: Hash, rec: Recover, p: Packet, vendor: Option<Address>, requested: set<int>)
    requires ShapeOk(p) && PacketOk(h, rec, p, vendor)
    ensures var q := RedactPacket(h, p, requested);
            ShapeOk(q) && PacketOk(h, rec, q, vendor) &&
            q.leaves == p.leaves && q.head == p.head && q.attestation == p.attestation
  {
    hide ValidateEvent;
    hide EventBytes;
    hide SessionOk;
    hide RedactPacket;
    hide LeavesMatch;
    hide CountsMatch;
    RedactedIsSealed(h, p, requested);
    RedactionKeepsLeaves(h, p, requested);
    BodyFixesLeaves(h, p);
  }

  /** Only what was asked for is withheld, on top of what already was; every other payload is
      still there, and every event still binds what it bound. */
  lemma {:induction false} RedactionWithholdsExactly(h: Hash, p: Packet, requested: set<int>, i: nat)
    requires SessionOk(h, p.events) && i < |p.events|
    ensures var q := RedactPacket(h, p, requested);
            |q.events| == |p.events| && IsSound(h, p.events[i]) && IsSound(h, q.events[i]) &&
            Agree(h, p.events[i], q.events[i]) &&
            q.events[i].payload == (if i in requested then None else p.events[i].payload)
  {
    hide EventBytes;
    EventAfterRedaction(h, p, requested, i);
    TwinKeepsBound(h, p.events[i]);
  }

  /** The withheld seqs of the redacted copy: the old ones and the requested ones, and the
      counts account for every event. */
  lemma {:induction false} WithheldGrows(h: Hash, p: Packet, requested: set<int>)
    requires ShapeOk(p) && BodyOk(h, p)
    ensures var q := RedactPacket(h, p, requested);
            forall s :: s in Withheld(q.events) <==> s in Withheld(p.events) || (s in requested && 0 <= s < |p.events|)
    ensures RedactPacket(h, p, requested).counts.full + RedactPacket(h, p, requested).counts.redacted == |p.events|
    ensures RedactPacket(h, p, requested).counts.redacted == |Withheld(RedactPacket(h, p, requested).events)|
  {
    hide EventBytes;
    hide ValidateEvent;
    hide RedactPacket;
    hide Withheld;
    hide Leaves;
    hide RedactEvents;
    hide CanonicalAll;
    var q := RedactPacket(h, p, requested);
    RedactedIsSealed(h, p, requested);
    EventCounts(h, p, requested);
    WithheldExactly(h, p.events);
    WithheldExactly(h, q.events);
    forall s | 0 <= s < |p.events|
      ensures q.events[s].redacted == Some(true) <==> p.events[s].redacted == Some(true) || s in requested
    {
      RedactedFlag(h, p, requested, s);
    }
  }

  lemma RedactedFlag(h: Hash, p: Packet, requested: set<int>, i: nat)
    requires SessionOk(h, p.events) && i < |p.events|
    ensures |RedactPacket(h, p, requested).events| == |p.events|
    ensures RedactPacket(h, p, requested).events[i].redacted == Some(true) <==> p.events[i].redacted == Some(true) || i in requested
  {
    hide EventBytes;
    hide ValidateEvent;
    EventAfterRedaction(h, p, requested, i);
    AcceptedShapes(h, p.events[i]);
  }

  // ---- runs of redactions -------------------------------------------------------------------------

  lemma SealedEqual(h: Hash, p: Packet, q: Packet, s: set<int>, t: set<int>)
    requires SessionOk(h, p.events) && SessionOk(h, q.events) && p.attestation == q.attestation
    requires RedactPacket(h, p, s).events == RedactPacket(h, q, t).events
    ensures RedactPacket(h, p, s) == RedactPacket(h, q, t)
  {
    hide EventBytes;
    hide ValidateEvent;
  }

  /** Redacting twice is redacting once: the same packet, field for field, in either order. */
  lemma {:induction false} RedactTwice(h: Hash, p: Packet, s: set<int>, t: set<int>)
    requires SessionOk(h, p.events)
    ensures SessionOk(h, RedactPacket(h, p, s).events)
    ensures RedactPacket(h, RedactPacket(h, p, s), t) == RedactPacket(h, p, s + t)
  {
    hide EventBytes;
    hide ValidateEvent;
    hide RedactPacket;
    hide SessionOk;
    var q := RedactPacket(h, p, s);
    RedactionKeepsLeaves(h, p, s);
    RedactedIsSealed(h, p, s);
    EventCounts(h, p, s);
    EventCounts(h, q, t);
    EventCounts(h, p, s + t);
    forall i | 0 <= i < |p.events|
      ensures RedactPacket(h, q, t).events[i] == RedactPacket(h, p, s + t).events[i]
    {
      EventAfterRedaction(h, p, s, i);
      EventAfterRedaction(h, q, t, i);
      EventAfterRedaction(h, p, s + t, i);
      TwinKeepsBound(h, p.events[i]);
    }
    SealedEqual(h, q, p, t, s + t);
  }

  lemma {:induction false} RedactionsCommute(h: Hash, p: Packet, s: set<int>, t: set<int>)
    requires SessionOk(h, p.events)
    ensures SessionOk(h, RedactPacket(h, p, s).events) && SessionOk(h, RedactPacket(h, p, t).events)
    ensures RedactPacket(h, RedactPacket(h, p, s), t) == RedactPacket(h, RedactPacket(h, p, t), s)
  {
    hide RedactPacket;
    RedactTwice(h, p, s, t);
    RedactTwice(h, p, t, s);
    assert s + t == t + s;
  }

  /** A run of redactions, oldest first. */
  datatype Run = Start | Then(before: Run, requested: set<int>)

  function Requested(run: Run): set<int> {
    match run
    case Start => {}
    case Then(before, requested) => Requested(before) + requested
  }

  function RedactAll(h: Hash, p: Packet, run: Run): (q: Packet)
    requires SessionOk(h, p.events)
    ensures SessionOk(h, q.events)
  {
    match run
    case Start => p
    case Then(before, requested) =>
      var q := RedactAll(h, p, before);
      RedactionKeepsLeaves(h, q, requested);
      RedactPacket(h, q, requested)
  }

  /** Any non-empty run is one redaction of everything it asked for. */
  lemma {:induction false} RunIsOneRedaction(h: Hash, p: Packet, run: Run)
    requires SessionOk(h, p.events) && run.Then?
    ensures RedactAll(h, p, run) == RedactPacket(h, p, Requested(run))
  {
    hide RedactPacket;
    hide SessionOk;
    var q := RedactAll(h, p, run.before);
    if run.before.Then? {
      RunIsOneRedaction(h, p, run.before);
      RedactTwice(h, p, Requested(run.before), run.requested);
    } else {
      assert Requested(run) == run.requested;
    }
  }

  /** After any run of redactions an accepted packet is still accepted, under the same pin, for
      the same head, with the same leaves and signed head. */
  lemma {:induction false} RunKeepsAcceptance(h: Hash, rec: Recover, p: Packet, vendor: Option<Address>, run: Run)
    requires ShapeOk(p) && PacketOk(h, rec, p, vendor)
    ensures var q := RedactAll(h, p, run);
            ShapeOk(q) && PacketOk(h, rec, q, vendor) &&
            q.leaves == p.leaves && q.head == p.head && q.attestation == p.attestation
  {
    hide RedactPacket;
    if run.Then? {
      RunIsOneRedaction(h, p, run);
      RedactionKeepsAcceptance(h, rec, p, vendor, Requested(run));
    }
  }

  // ---- the command ------------------------------------------------------------------------------------

  datatype RedactResult = Redacted(packet: Packet) | DoesNotVerify(reason: RejectReason) | OutOfRange(seqNo: nat) | NotRebuilt | HeadChanged

  /** runAgentRedact.  The last two outcomes, which the source calls unreachable and defensive,
      are shown never to be taken. */
  method RunRedact(h: Hash, rec: Recover, p: Packet, seqs: seq<nat>) returns (r: RedactResult)
    requires ShapeOk(p)
    ensures r.DoesNotVerify? <==> !PacketOk(h, rec, p, None)
    ensures r.OutOfRange? <==> PacketOk(h, rec, p, None) && exists i :: 0 <= i < |seqs| && seqs[i] >= p.head.size
    ensures r.OutOfRange? ==> r.seqNo in seqs && r.seqNo >= p.head.size
    ensures !r.NotRebuilt? && !r.HeadChanged?
    ensures r.Redacted? ==> r.packet == RedactPacket(h, p, set s: nat | s in seqs :: s as int)
  {
    hide ValidateEvent;
    hide SigningFault;
    hide LeavesMatch;
    hide Leaves;
    hide Withheld;
    var pre := VerifyPacket(h, rec, p, None);
    if pre.Rejected? { return DoesNotVerify(pre.reason); }
    for i := 0 to |seqs|
      invariant forall j :: 0 <= j < i ==> seqs[j] < p.head.size
    {
      if seqs[i] >= p.head.size { return OutOfRange(seqs[i]); }
    }
    var requested := set s: nat | s in seqs :: s as int;
    var newEvents := RedactEvents(h, p.events, requested);
    RedactedSession(h, p.events, requested);
    var rebuilt := BuildPacket(h, newEvents);
    if rebuilt.NotSealed? { return NotRebuilt; }
    var out := rebuilt.packet;
    assert out.(attestation := p.attestation) == RedactPacket(h, p, requested);
    RedactionKeepsAcceptance(h, rec, p, None, requested);
    if out.head != p.head { return HeadChanged; }
    r := Redacted(out.(attestation := p.attestation));
  }

  // ---- hide but never alter ------------------------------------------------------------------------------

  /** Two sessions with one root are the same session: same length, and at every seq the same
      timestamp, actor, type, metadata and payload commitment, and the same payload wherever
      both still show it. */
  lemma {:induction false} HideButNeverAlter(h: Hash, p: Packet, q: Packet)
    requires ShapeOk(p) && BodyOk(h, p) && ShapeOk(q) && BodyOk(h, q) && p.head.root == q.head.root
    ensures (|p.events| == |q.events| &&
             forall i :: 0 <= i < |p.events| ==>
               IsSound(h, p.events[i]) && IsSound(h, q.events[i]) && Agree(h, p.events[i], q.events[i])) ||
            Clash(h, SessionMessages(h, p.events) + SessionMessages(h, q.events))
  {
    hide ValidateEvent;
    hide EventBytes;
    hide LeavesMatch;
    hide Agree;
    var a, b := Leaves(h, p.events), Leaves(h, q.events);
    var seen := SessionMessages(h, p.events) + SessionMessages(h, q.events);
    if !Clash(h, seen) {
      HeadFixesLog(h, a, b, seen);
      forall i | 0 <= i < |p.events|
        ensures IsSound(h, p.events[i]) && IsSound(h, q.events[i]) && Agree(h, p.events[i], q.events[i])
      {
        SessionEvent(h, p.events, i);
        SessionEvent(h, q.events, i);
        EventMessagesIn(h, p.events, i);
        EventMessagesIn(h, q.events, i);
        assert a[i] == b[i];
        EqualLeavesAgree(h, p.events[i], q.events[i], seen);
      }
    }
  }

  /** The other direction, outright: sessions that bind the same fields share their head. */
  lemma {:induction false} SameBoundsSameHead(h: Hash, p: Packet, q: Packet)
    requires ShapeOk(p) && BodyOk(h, p) && ShapeOk(q) && BodyOk(h, q) && |p.events| == |q.events|
    requires forall i :: 0 <= i < |p.events| ==> IsSound(h, p.events[i]) && IsSound(h, q.events[i])
    requires forall i :: 0 <= i < |p.events| ==> BoundOf(h, p.events[i]) == BoundOf(h, q.events[i])
    ensures p.head == q.head
  {
    hide ValidateEvent;
    hide EventBytes;
    hide LeavesMatch;
    assert Leaves(h, p.events) == Leaves(h, q.events);
  }

  // ---- the signed head ---------------------------------------------------------------------------------

  /** A pinned verify fails closed: it accepts exactly the sound packets whose attestation signs
      their own head, recovers to the pinned vendor and claims that vendor.  An unsigned or
      stripped packet passes only where no vendor is pinned. */
  lemma PinFailsClosed(h: Hash, rec: Recover, p: Packet, v: Address)
    requires ShapeOk(p)
    ensures PacketOk(h, rec, p, Some(v)) <==>
              BodyOk(h, p) && p.attestation.Some? && p.attestation.value.head == p.head &&
              rec(p.head, p.attestation.value.signature) == Some(v) && p.attestation.value.claimed == v
    ensures PacketOk(h, rec, p, None) <==>
              BodyOk(h, p) && (p.attestation.None? || exists w :: PacketOk(h, rec, p, Some(w)))
  {
    hide BodyOk;
    if p.attestation.Some? && PacketOk(h, rec, p, None) {
      assert PacketOk(h, rec, p, Some(p.attestation.value.claimed));
    }
  }

  /** A signed head belongs to one session: two accepted packets that carry it agree on every
      event. */
  lemma SignedHeadFixesSession(h: Hash, rec: Recover, p: Packet, q: Packet, v: Option<Address>, w: Option<Address>)
    requires ShapeOk(p) && PacketOk(h, rec, p, v) && ShapeOk(q) && PacketOk(h, rec, q, w)
    requires p.attestation.Some? && p.attestation == q.attestation
    ensures p.head == q.head
    ensures (|p.events| == |q.events| &&
             forall i :: 0 <= i < |p.events| ==>
               IsSound(h, p.events[i]) && IsSound(h, q.events[i]) && Agree(h, p.events[i], q.events[i])) ||
            Clash(h, SessionMessages(h, p.events) + SessionMessages(h, q.events))
  {
    hide BodyOk;
    hide SessionMessages;
    HideButNeverAlter(h, p, q);
  }

  // ---- tampering is located -----------------------------------------------------------------------------

  /** Changing a sealed payload in place is caught at that very seq. */
  lemma {:induction false} PayloadTamperIsLocated(h: Hash, events: seq<Event>, i: nat, text: Text)
    requires SessionOk(h, events) && i < |events| && events[i].payload.Some? && events[i].payload.value != text
    ensures |PacketOf(h, events).events| == |events| && WellFormed(events[i].payload.value)
    ensures var p := PacketOf(h, events).events;
            FirstFault(h, p[i := p[i].(payload := Some(text))],
                       Located(if WellFormed(text) then PayloadHashMismatch else BadPayload, i)) ||
            Clash(h, {Utf8(events[i].payload.value)} + if WellFormed(text) then {Utf8(text)} else {})
  {
    hide EventBytes;
    hide Utf8;
    hide Leaves;
    hide Withheld;
    var p := PacketOf(h, events).events;
    SessionEvent(h, events, i);
    SealedVerifies(h, (_, _) => None, events);
    var seen := {Utf8(events[i].payload.value)} + if WellFormed(text) then {Utf8(text)} else {};
    if !Clash(h, seen) {
      TamperedPayloadFault(h, events[i], i, text, seen);
      forall j | 0 <= j < i ensures EventFault(h, p[j], j) == None {
        SessionEvent(h, p, j);
      }
    }
  }

  lemma {:induction false} TamperedPayloadFault(h: Hash, e: Event, i: nat, text: Text, seen: set<Data>)
    requires IsSound(h, e) && e.payload.Some? && e.payload.value != text && WellFormed(e.payload.value)
    requires !Clash(h, seen) && seen == {Utf8(e.payload.value)} + if WellFormed(text) then {Utf8(text)} else {}
    ensures EventFault(h, CanonicalEvent(h, e).(payload := Some(text)), i)
            == Some(if WellFormed(text) then PayloadHashMismatch else BadPayload)
  {
    hide Utf8;
    if WellFormed(text) && h(Utf8(text)) == h(Utf8(e.payload.value)) {
      NoClash(h, seen, Utf8(text), Utf8(e.payload.value));
      Utf8Injective(text, e.payload.value);
    }
  }

  /** Swapping a sealed event for another sound one that binds anything different is caught at
      that very seq. */
  lemma {:induction false} EventTamperIsLocated(h: Hash, rec: Recover, p: Packet, i: nat, e: Event, vendor: Option<Address>)
    requires ShapeOk(p) && BodyOk(h, p) && i < |p.events|
    requires IsSound(h, e) && e.seqNo == i && IsSound(h, p.events[i]) && BoundOf(h, e) != BoundOf(h, p.events[i])
    ensures ShapeOk(p.(events := p.events[i := e]))
    ensures Refutes(h, rec, p.(events := p.events[i := e]), vendor, EventLeafMismatch(i)) ||
            Clash(h, {EventBytes(BoundOf(h, e)), EventBytes(BoundOf(h, p.events[i]))})
  {
    hide ValidateEvent;
    hide EventBytes;
    var q := p.(events := p.events[i := e]);
    var x, y := EventBytes(BoundOf(h, e)), EventBytes(BoundOf(h, p.events[i]));
    if !Clash(h, {x, y}) {
      if h(x) == h(y) {
        NoClash(h, {x, y}, x, y);
        EventBytesInjective(BoundOf(h, e), BoundOf(h, p.events[i]));
      }
      assert LeafMatches(h, p, i);
      forall j | 0 <= j < |q.events| ensures EventFault(h, q.events[j], j) == None { SessionEvent(h, p.events, j); }
      forall j | 0 <= j < i ensures LeafMatches(h, q, j) { assert LeafMatches(h, p, j); }
    }
  }
}
