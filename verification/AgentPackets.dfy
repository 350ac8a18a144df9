/** cli/agent.js: sealed session packets, built, verified, redacted. */
module AgentPackets {
  import opened Hashing
  import opened Text
  import opened MerkleTree
  import opened JournalLog
  import opened AgentEvents

  datatype Counts = Counts(events: nat, full: nat, redacted: nat)

  datatype Address = Address(value: nat)

  /** A signed head: the head its embedded payload names, the signer it claims, the signature. */
  datatype SignedHead = SignedHead(head: Head, claimed: Address, signature: Data)

  /** Signature recovery over the canonical bytes of a head payload; nothing when unrecoverable. */
  type Recover = (Head, Data) -> Option<Address>

  datatype Packet = Packet(head: Head, counts: Counts, events: seq<Event>, leaves: seq<Digest>, attestation: Option<SignedHead>)

  /** The cross-field part of validatePacketShape. */
  predicate ShapeOk(p: Packet) {
    |p.leaves| == |p.events| && p.head.size == |p.events| && p.counts.events == |p.events| &&
    p.counts.full + p.counts.redacted == p.counts.events
  }

  /** The seqs of the withheld events, in order. */
  function Withheld(events: seq<Event>): (r: seq<int>)
    ensures |r| <= |events|
  {
    if events == [] then []
    else
      var n := |events| - 1;
      Withheld(events[..n]) + if events[n].redacted == Some(true) then [events[n].seqNo] else []
  }

  lemma {:induction false} WithheldExactly(h: Hash, events: seq<Event>)
    requires SessionOk(h, events)
    ensures forall s :: s in Withheld(events) <==> 0 <= s < |events| && events[s].redacted == Some(true)
    ensures forall i, j :: 0 <= i < j < |Withheld(events)| ==> Withheld(events)[i] < Withheld(events)[j]
  {
    hide ValidateEvent;
    if events != [] {
      var n := |events| - 1;
      SessionEvent(h, events, n);
      forall i | 0 <= i < n ensures EventFault(h, events[..n][i], i) == None {
        assert EventFault(h, events[i], i) == None;
      }
      WithheldExactly(h, events[..n]);
      assert forall s :: 0 <= s < n ==> events[..n][s] == events[s];
      var low := Withheld(events[..n]);
      forall i | 0 <= i < |low| ensures low[i] < n { assert low[i] in low; }
    }
  }

  // ---- build ----------------------------------------------------------------------------------

  function CanonicalAll(h: Hash, events: seq<Event>): (r: seq<Event>)
    requires forall i :: 0 <= i < |events| ==> IsSound(h, events[i])
    ensures |r| == |events| && forall i :: 0 <= i < |r| ==> r[i] == CanonicalEvent(h, events[i])
  {
    seq(|events|, i requires 0 <= i < |events| => CanonicalEvent(h, events[i]))
  }

  lemma SessionSound(h: Hash, events: seq<Event>)
    requires SessionOk(h, events)
    ensures forall i :: 0 <= i < |events| ==> IsSound(h, events[i]) && events[i].seqNo == i
  {
    hide IsSound;
    forall i | 0 <= i < |events| ensures IsSound(h, events[i]) && events[i].seqNo == i { SessionEvent(h, events, i); }
  }

  /** The packet sealed over a session. */
  function PacketOf(h: Hash, events: seq<Event>): Packet
    requires SessionOk(h, events)
  {
    SessionSound(h, events);
    var canon := CanonicalAll(h, events);
    var withheld := |Withheld(canon)|;
    Packet(TreeHead(h, Leaves(h, canon)), Counts(|canon|, |canon| - withheld, withheld), canon, Leaves(h, canon), None)
  }

  datatype BuildResult = Sealed(packet: Packet) | NotSealed(fault: Located)

  method BuildPacket(h: Hash, events: seq<Event>) returns (r: BuildResult)
    ensures r.Sealed? <==> SessionOk(h, events)
    ensures r.Sealed? ==> r.packet == PacketOf(h, events)
    ensures r.NotSealed? ==> FirstFault(h, events, r.fault)
  {
    hide ValidateEvent;
    hide Leaf;
    var s := ValidateSession(h, events);
    if s.Some? { return NotSealed(s.value); }
    var canon, leaves, redactedCount := [], [], 0;
    SessionSound(h, events);
    for i := 0 to |events|
      invariant canon == CanonicalAll(h, events[..i])
      invariant leaves == Leaves(h, canon)
      invariant redactedCount == |Withheld(canon)|
    {
      var e := events[i];
      var v := ValidateEvent(h, e);
      CanonicalFlag(h, e);
      var c := CanonicalEvent(h, e);
      assert (canon + [c])[..i] == canon;
      if v.redacted { redactedCount := redactedCount + 1; }
      canon := canon + [c];
      leaves := leaves + [Leaf(h, c)];
    }
    assert events[..|events|] == events;
    r := Sealed(Packet(TreeHead(h, leaves), Counts(|canon|, |canon| - redactedCount, redactedCount), canon, leaves, None));
  }

  lemma CanonicalFlag(h: Hash, e: Event)
    requires IsSound(h, e)
    ensures CanonicalEvent(h, e).redacted == Some(true) <==> ValidateEvent(h, e).redacted
  {
  }

  // ---- verify ---------------------------------------------------------------------------------

  datatype RejectReason =
    | BadEvent(fault: Located) | EventLeafMismatch(index: nat) | HeadMismatch | CountsMismatch
    | NotSigned | HeadNotBound | SignatureForged | WrongVendor

  datatype PacketVerdict = Accepted(head: Head, counts: Counts, withheld: seq<int>) | Rejected(reason: RejectReason)

  predicate LeafMatches(h: Hash, p: Packet, i: nat)
    requires i < |p.events| == |p.leaves|
  {
    EventLeaf(h, p.events[i]) == Some(p.leaves[i])
  }

  predicate LeavesMatch(h: Hash, p: Packet)
    requires |p.leaves| == |p.events|
  {
    forall i :: 0 <= i < |p.events| ==> LeafMatches(h, p, i)
  }

  predicate CountsMatch(p: Packet) {
    p.counts.full == |p.events| - |Withheld(p.events)| && p.counts.redacted == |Withheld(p.events)|
  }

  /** What is wrong with the signature part, given the head the events derive. */
  function SigningFault(rec: Recover, derived: Head, attestation: Option<SignedHead>, vendor: Option<Address>): (r: Option<RejectReason>)
    ensures r.Some? ==> r.value in {NotSigned, HeadNotBound, SignatureForged, WrongVendor}
  {
    match attestation
    case None => if vendor.Some? then Some(NotSigned) else None
    case Some(a) =>
      if a.head != derived then Some(HeadNotBound)
      else if rec(a.head, a.signature) != Some(a.claimed) then Some(SignatureForged)
      else if vendor.Some? && rec(a.head, a.signature) != vendor then Some(WrongVendor)
      else None
  }

  /** Everything about a packet but its signature. */
  predicate BodyOk(h: Hash, p: Packet)
    requires ShapeOk(p)
  {
    SessionOk(h, p.events) && LeavesMatch(h, p) && p.head == TreeHead(h, Leaves(h, p.events)) && CountsMatch(p)
  }

  predicate PacketOk(h: Hash, rec: Recover, p: Packet, vendor: Option<Address>)
    requires ShapeOk(p)
  {
    BodyOk(h, p) && SigningFault(rec, p.head, p.attestation, vendor) == None
  }

  /** The reason is the right one: everything checked before it holds, and it does not. */
  predicate Refutes(h: Hash, rec: Recover, p: Packet, vendor: Option<Address>, reason: RejectReason)
    requires ShapeOk(p)
  {
    match reason
    case BadEvent(f) => FirstFault(h, p.events, f)
    case EventLeafMismatch(i) =>
      SessionOk(h, p.events) && i < |p.events| && !LeafMatches(h, p, i) && forall j :: 0 <= j < i ==> LeafMatches(h, p, j)
    case HeadMismatch => SessionOk(h, p.events) && LeavesMatch(h, p) && p.head != TreeHead(h, Leaves(h, p.events))
    case CountsMismatch =>
      SessionOk(h, p.events) && LeavesMatch(h, p) && p.head == TreeHead(h, Leaves(h, p.events)) && !CountsMatch(p)
    case NotSigned => BodyOk(h, p) && p.attestation.None? && vendor.Some?
    case HeadNotBound => BodyOk(h, p) && p.attestation.Some? && p.attestation.value.head != p.head
    case SignatureForged => BodyOk(h, p) && Bound(p) && !Recovers(rec, p.attestation.value)
    case WrongVendor =>
      BodyOk(h, p) && Bound(p) && Recovers(rec, p.attestation.value) && vendor.Some? && vendor.value != p.attestation.value.claimed
  }

  /** The attestation names the packet's own head. */
  predicate Bound(p: Packet) { p.attestation.Some? && p.attestation.value.head == p.head }

  /** The signature over the attested head recovers the signer it claims. */
  predicate Recovers(rec: Recover, a: SignedHead) { rec(a.head, a.signature) == Some(a.claimed) }

  /** Each signing reason by its own condition; nothing is wrong with an unsigned packet nobody
      asked a signature of, nor with a bound signature by whoever was asked for. */
  lemma SigningFaultExactly(rec: Recover, p: Packet, vendor: Option<Address>)
    ensures var fault := SigningFault(rec, p.head, p.attestation, vendor);
            fault == None <==>
              if p.attestation.None? then vendor == None
              else Bound(p) && Recovers(rec, p.attestation.value) && (vendor == None || vendor == Some(p.attestation.value.claimed))
    ensures var fault := SigningFault(rec, p.head, p.attestation, vendor);
            (fault == Some(NotSigned) <==> p.attestation.None? && vendor.Some?) &&
            (fault == Some(HeadNotBound) <==> p.attestation.Some? && p.attestation.value.head != p.head) &&
            (fault == Some(SignatureForged) <==> Bound(p) && !Recovers(rec, p.attestation.value)) &&
            (fault == Some(WrongVendor) <==>
               Bound(p) && Recovers(rec, p.attestation.value) && vendor.Some? && vendor.value != p.attestation.value.claimed)
  {
  }

  /** verifyPacket's second loop: the first event whose recomputed leaf is not the stored one. */
  method FirstLeafMismatch(h: Hash, p: Packet) returns (bad: Option<nat>)
    requires |p.leaves| == |p.events|
    ensures bad.None? <==> LeavesMatch(h, p)
    ensures bad.Some? ==> bad.value < |p.events| && !LeafMatches(h, p, bad.value)
    ensures bad.Some? ==> forall j :: 0 <= j < bad.value ==> LeafMatches(h, p, j)
  {
    hide EventLeaf;
    for i := 0 to |p.events|
      invariant forall j :: 0 <= j < i ==> LeafMatches(h, p, j)
    {
      if !LeafMatches(h, p, i) { return Some(i); }
    }
    bad := None;
  }

  /** Its recount of the withheld events. */
  method ListWithheld(events: seq<Event>) returns (withheld: seq<int>)
    ensures withheld == Withheld(events)
  {
    withheld := [];
    for i := 0 to |events|
      invariant withheld == Withheld(events[..i])
    {
      assert events[..i + 1][..i] == events[..i];
      if events[i].redacted == Some(true) { withheld := withheld + [events[i].seqNo]; }
    }
    assert events[..|events|] == events;
  }

  method VerifyPacket(h: Hash, rec: Recover, p: Packet, vendor: Option<Address>) returns (r: PacketVerdict)
    requires ShapeOk(p)
    ensures r.Accepted? <==> PacketOk(h, rec, p, vendor)
    ensures r.Accepted? ==> r == Accepted(p.head, p.counts, Withheld(p.events))
    ensures r.Rejected? ==> Refutes(h, rec, p, vendor, r.reason)
    ensures r.Rejected? && r.reason.EventLeafMismatch? ==>
              r.reason.index < |p.events| && EventLeaf(h, p.events[r.reason.index]) != Some(p.leaves[r.reason.index]) &&
              forall j :: 0 <= j < r.reason.index ==> EventLeaf(h, p.events[j]) == Some(p.leaves[j])
  {
    hide ValidateEvent;
    hide EventLeaf;
    hide Leaf;
    hide SigningFault;
    hide EventFault;
    hide Recovers;
    hide Bound;
    var s := ValidateSession(h, p.events);
    if s.Some? { return Rejected(BadEvent(s.value)); }
    var bad := FirstLeafMismatch(h, p);
    if bad.Some? {
      assert !LeafMatches(h, p, bad.value);
      forall j | 0 <= j < bad.value ensures EventLeaf(h, p.events[j]) == Some(p.leaves[j]) { assert LeafMatches(h, p, j); }
      return Rejected(EventLeafMismatch(bad.value));
    }
    var derived := TreeHead(h, Leaves(h, p.events));
    if derived != p.head { return Rejected(HeadMismatch); }
    var withheld := ListWithheld(p.events);
    var full := |p.events| - |withheld|;
    if p.counts.full != full || p.counts.redacted != |withheld| { return Rejected(CountsMismatch); }
    var fault := SigningFault(rec, derived, p.attestation, vendor);
    SigningFaultExactly(rec, p, vendor);
    if fault.Some? { return Rejected(fault.value); }
    r := Accepted(derived, Counts(|p.events|, full, |withheld|), withheld);
  }

  // ---- redact -----------------------------------------------------------------------------------

  function RedactEvents(h: Hash, events: seq<Event>, requested: set<int>): (r: seq<Event>)
    requires SessionOk(h, events)
    ensures |r| == |events|
  {
    SessionSound(h, events);
    seq(|events|, i requires 0 <= i < |events| => if events[i].seqNo in requested then Twin(h, events[i]) else events[i])
  }

  lemma RedactedSession(h: Hash, events: seq<Event>, requested: set<int>)
    requires SessionOk(h, events)
    ensures SessionOk(h, RedactEvents(h, events, requested))
  {
    hide ValidateEvent;
    var r := RedactEvents(h, events, requested);
    forall i | 0 <= i < |r| ensures EventFault(h, r[i], i) == None {
      SessionEvent(h, events, i);
      TwinKeepsBound(h, events[i]);
    }
  }

  /** The redacted copy: the rebuilt packet, carrying the head attestation verbatim. */
  function RedactPacket(h: Hash, p: Packet, requested: set<int>): Packet
    requires SessionOk(h, p.events)
  {
    RedactedSession(h, p.events, requested);
    PacketOf(h, RedactEvents(h, p.events, requested)).(attestation := p.attestation)
  }
}
