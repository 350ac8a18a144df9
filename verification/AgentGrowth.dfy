/** cli/agent.js: append-only growth of a session between checkpoints. */
module AgentGrowth {
  import opened Hashing
  import opened Text
  import opened MerkleTree
  import opened JournalLog
  import opened JournalTheorems
  import opened AgentEvents
  import opened AgentPackets
  import opened PacketTheorems

  datatype GrowthVerdict = Grown | PacketRejected(reason: RejectReason) | GrowthRange | NotAppendOnly

  /** The later packet's own consistency proof against an earlier size. */
  function OwnProof(h: Hash, leaves: seq<Digest>, size: nat): ConsistencyProof
    requires 0 < size <= |leaves|
  {
    ProveConsistency(h, leaves, size, |leaves|).value
  }

  predicate Extends(h: Hash, earlier: Head, leaves: seq<Digest>) {
    earlier.size == 0 ||
    (earlier.size <= |leaves| &&
     ConsistencyOk(h, OwnProof(h, leaves, earlier.size), FullHead(earlier), FullHead(TreeHead(h, leaves))))
  }

  predicate GrowthOk(h: Hash, rec: Recover, earlier: Head, later: Packet)
    requires ShapeOk(later)
  {
    PacketOk(h, rec, later, None) && Extends(h, earlier, Leaves(h, later.events))
  }

  /** runAgentVerifyGrowth's decision. */
  method RunVerifyGrowth(h: Hash, rec: Recover, earlier: Head, later: Packet) returns (r: GrowthVerdict)
    requires ShapeOk(later)
    ensures r.Grown? <==> GrowthOk(h, rec, earlier, later)
    ensures r.PacketRejected? ==> Refutes(h, rec, later, None, r.reason)
    ensures r.GrowthRange? <==> PacketOk(h, rec, later, None) && earlier.size > |later.events|
  {
    hide ValidateEvent;
    hide SigningFault;
    hide LeavesMatch;
    hide Refutes;
    var pre := VerifyPacket(h, rec, later, None);
    if pre.Rejected? { return PacketRejected(pre.reason); }
    if earlier.size == 0 { return Grown; }
    if earlier.size > later.head.size { return GrowthRange; }
    var proof := OwnProof(h, Leaves(h, later.events), earlier.size);
    var consistent := VerifyConsistency(h, proof, FullHead(earlier), FullHead(later.head));
    r := if consistent then Grown else NotAppendOnly;
  }

  // ---- what acceptance means ----------------------------------------------------------------------

  /** Everything hashed while deciding one growth step. */
  function GrowthMessages(h: Hash, earlier: Head, leaves: seq<Digest>): set<Data> {
    if 0 < earlier.size <= |leaves| then
      LogMessages(h, leaves) + ConsistencyMessages(h, OwnProof(h, leaves, earlier.size), FullHead(earlier))
    else {}
  }

  predicate IsPrefixHead(h: Hash, earlier: Head, leaves: seq<Digest>) {
    earlier.size <= |leaves| && earlier.root == Mth(h, leaves[..earlier.size])
  }

  /** A head of a prefix is always accepted. */
  lemma PrefixHeadsExtend(h: Hash, earlier: Head, leaves: seq<Digest>)
    requires IsPrefixHead(h, earlier, leaves)
    ensures Extends(h, earlier, leaves)
  {
    if earlier.size == |leaves| {
      assert leaves[..earlier.size] == leaves;
    } else if earlier.size > 0 {
      OwnProofDecides(h, leaves, earlier.size, FullHead(earlier));
      assert leaves[..|leaves|] == leaves;
    }
  }

  /** The only heads accepted are heads of prefixes, and any head of size zero. */
  lemma ExtendsExactly(h: Hash, earlier: Head, leaves: seq<Digest>)
    ensures earlier.size == 0 || IsPrefixHead(h, earlier, leaves) ==> Extends(h, earlier, leaves)
    ensures Extends(h, earlier, leaves) ==>
              earlier.size == 0 || IsPrefixHead(h, earlier, leaves) || Clash(h, GrowthMessages(h, earlier, leaves))
  {
    hide ConsistencyOk;
    hide ConsistencyMessages;
    if IsPrefixHead(h, earlier, leaves) { PrefixHeadsExtend(h, earlier, leaves); }
    if Extends(h, earlier, leaves) && earlier.size > 0 {
      ConsistencyIsSound(h, leaves, FullHead(earlier), OwnProof(h, leaves, earlier.size));
    }
  }

  /** verify-growth, decided on whole packets. */
  lemma {:induction false} GrowthMeansPrefix(h: Hash, rec: Recover, earlier: Head, later: Packet)
    requires ShapeOk(later) && PacketOk(h, rec, later, None)
    ensures earlier.size == 0 || IsPrefixHead(h, earlier, later.leaves) ==> GrowthOk(h, rec, earlier, later)
    ensures GrowthOk(h, rec, earlier, later) ==>
              earlier.size == 0 || IsPrefixHead(h, earlier, later.leaves) || Clash(h, GrowthMessages(h, earlier, later.leaves))
  {
    hide PacketOk;
    hide Extends;
    hide IsPrefixHead;
    AcceptedLeaves(h, rec, later, None);
    ExtendsExactly(h, earlier, later.leaves);
  }

  lemma {:induction false} AcceptedLeaves(h: Hash, rec: Recover, p: Packet, vendor: Option<Address>)
    requires ShapeOk(p) && PacketOk(h, rec, p, vendor)
    ensures p.leaves == Leaves(h, p.events) && p.head == TreeHead(h, p.leaves)
  {
    hide LeavesMatch;
    BodyFixesLeaves(h, p);
  }

  // ---- composition ---------------------------------------------------------------------------------

  function ComposeMessages(h: Hash, a: Head, b: seq<Digest>, c: seq<Digest>): set<Data> {
    GrowthMessages(h, a, b) + GrowthMessages(h, TreeHead(h, b), c) + LogMessages(h, b) + LogMessages(h, Prefix(c, |b|))
  }

  lemma StepKeepsLeaves(h: Hash, b: seq<Digest>, c: seq<Digest>, seen: set<Data>)
    requires Extends(h, TreeHead(h, b), c) && !Clash(h, seen)
    requires GrowthMessages(h, TreeHead(h, b), c) + LogMessages(h, b) + LogMessages(h, Prefix(c, |b|)) <= seen
    ensures b <= c
  {
    hide Extends;
    hide GrowthMessages;
    ExtendsExactly(h, TreeHead(h, b), c);
    ClashMonotone(h, GrowthMessages(h, TreeHead(h, b), c), seen);
    if b != [] { HeadFixesLog(h, b, Prefix(c, |b|), seen); }
  }

  lemma PrefixOfPrefix(h: Hash, a: Head, b: seq<Digest>, c: seq<Digest>)
    requires b <= c && (a.size == 0 || IsPrefixHead(h, a, b))
    ensures Extends(h, a, c)
  {
    hide ConsistencyOk;
    if a.size > 0 {
      assert c[..a.size] == b[..a.size];
      PrefixHeadsExtend(h, a, c);
    }
  }

  lemma {:induction false} StepsCompose(h: Hash, a: Head, b: seq<Digest>, c: seq<Digest>, seen: set<Data>)
    requires Extends(h, a, b) && Extends(h, TreeHead(h, b), c)
    requires !Clash(h, seen) && ComposeMessages(h, a, b, c) <= seen
    ensures b <= c && Extends(h, a, c)
  {
    hide Extends;
    hide GrowthMessages;
    hide IsPrefixHead;
    StepKeepsLeaves(h, b, c, seen);
    ExtendsExactly(h, a, b);
    ClashMonotone(h, GrowthMessages(h, a, b), seen);
    PrefixOfPrefix(h, a, b, c);
  }

  /** Growth from head A to packet B and from B's head to packet C gives growth from A to C, and
      C starts with every event leaf of B. */
  lemma {:induction false} GrowthComposes(h: Hash, rec: Recover, a: Head, b: Packet, c: Packet)
    requires ShapeOk(b) && ShapeOk(c) && GrowthOk(h, rec, a, b) && GrowthOk(h, rec, b.head, c)
    ensures (GrowthOk(h, rec, a, c) && b.leaves <= c.leaves) || Clash(h, ComposeMessages(h, a, b.leaves, c.leaves))
  {
    hide PacketOk;
    hide Extends;
    hide ComposeMessages;
    AcceptedLeaves(h, rec, b, None);
    AcceptedLeaves(h, rec, c, None);
    var seen := ComposeMessages(h, a, b.leaves, c.leaves);
    if !Clash(h, seen) { StepsCompose(h, a, b.leaves, c.leaves, seen); }
  }

  /** A chain of checkpoints: a first head and packets that each grow from the one before. */
  datatype Chain = First(head: Head, packet: Packet) | Next(before: Chain, packet: Packet)

  function Origin(c: Chain): Head { if c.First? then c.head else Origin(c.before) }

  predicate ChainOk(h: Hash, rec: Recover, c: Chain) {
    ShapeOk(c.packet) &&
    match c
    case First(head, p) => GrowthOk(h, rec, head, p)
    case Next(before, p) => ChainOk(h, rec, before) && GrowthOk(h, rec, before.packet.head, p)
  }

  function ChainMessages(h: Hash, c: Chain): set<Data> {
    match c
    case First(_, _) => {}
    case Next(before, p) => ChainMessages(h, before) + ComposeMessages(h, Origin(c), before.packet.leaves, p.leaves)
  }

  predicate InChain(p: Packet, c: Chain) { c.packet == p || (c.Next? && InChain(p, c.before)) }

  /** Over a whole chain: growth from the first head to the last packet is accepted, and the
      last packet starts with the leaves of every packet before it. */
  lemma {:induction false} ChainGrows(h: Hash, rec: Recover, c: Chain, seen: set<Data>)
    requires ChainOk(h, rec, c) && !Clash(h, seen) && ChainMessages(h, c) <= seen
    ensures GrowthOk(h, rec, Origin(c), c.packet)
    ensures forall p :: InChain(p, c) ==> p.leaves <= c.packet.leaves
  {
    hide GrowthOk;
    hide ComposeMessages;
    if c.Next? {
      var some := ComposeMessages(h, Origin(c), c.before.packet.leaves, c.packet.leaves);
      ChainGrows(h, rec, c.before, seen);
      GrowthComposes(h, rec, Origin(c), c.before.packet, c.packet);
      ClashMonotone(h, some, seen);
    }
  }

  /** As `ChainGrows`, with the collision it may exhibit instead. */
  lemma {:induction false} ChainsAreAppendOnly(h: Hash, rec: Recover, c: Chain)
    requires ChainOk(h, rec, c)
    ensures (GrowthOk(h, rec, Origin(c), c.packet) && forall p :: InChain(p, c) ==> p.leaves <= c.packet.leaves) ||
            Clash(h, ChainMessages(h, c))
  {
    if !Clash(h, ChainMessages(h, c)) { ChainGrows(h, rec, c, ChainMessages(h, c)); }
  }

  /** Packets whose leaves extend each other: the later one's first events are the earlier one's. */
  lemma {:induction false} PrefixKeepsEvents(h: Hash, rec: Recover, b: Packet, c: Packet, seen: set<Data>)
    requires ShapeOk(b) && PacketOk(h, rec, b, None) && ShapeOk(c) && PacketOk(h, rec, c, None) && b.leaves <= c.leaves
    requires !Clash(h, seen) && SessionMessages(h, b.events) + SessionMessages(h, c.events) <= seen
    ensures EventsKept(h, b, c)
  {
    hide ValidateEvent;
    hide EventBytes;
    hide LeavesMatch;
    hide Agree;
    hide SessionMessages;
    hide PacketOk;
    AcceptedLeaves(h, rec, b, None);
    AcceptedLeaves(h, rec, c, None);
    AcceptedSession(h, rec, b);
    AcceptedSession(h, rec, c);
    forall i | 0 <= i < |b.events|
      ensures IsSound(h, b.events[i]) && IsSound(h, c.events[i]) && Agree(h, b.events[i], c.events[i])
    {
      SessionEvent(h, b.events, i);
      SessionEvent(h, c.events, i);
      EventMessagesIn(h, b.events, i);
      EventMessagesIn(h, c.events, i);
      assert b.leaves[i] == c.leaves[i];
      EqualLeavesAgree(h, b.events[i], c.events[i], seen);
    }
  }

  /** No event of b was rewritten, reordered, dropped or displaced in c. */
  predicate EventsKept(h: Hash, b: Packet, c: Packet) {
    |b.events| <= |c.events| &&
    forall i :: 0 <= i < |b.events| ==>
      IsSound(h, b.events[i]) && IsSound(h, c.events[i]) && Agree(h, b.events[i], c.events[i])
  }

  /** Accepted growth from an accepted packet keeps its events. */
  lemma {:induction false} GrowthKeepsEvents(h: Hash, rec: Recover, b: Packet, c: Packet)
    requires ShapeOk(b) && PacketOk(h, rec, b, None) && ShapeOk(c) && GrowthOk(h, rec, b.head, c)
    ensures EventsKept(h, b, c) ||
            Clash(h, GrowthMessages(h, b.head, c.leaves) + LogMessages(h, Prefix(c.leaves, |b.leaves|))
                     + SessionMessages(h, b.events) + SessionMessages(h, c.events))
  {
    hide PacketOk;
    hide Extends;
    hide GrowthMessages;
    hide EventsKept;
    AcceptedLeaves(h, rec, b, None);
    AcceptedLeaves(h, rec, c, None);
    var seen := GrowthMessages(h, b.head, c.leaves) + LogMessages(h, Prefix(c.leaves, |b.leaves|))
                + SessionMessages(h, b.events) + SessionMessages(h, c.events);
    if !Clash(h, seen) {
      StepKeepsLeaves(h, b.leaves, c.leaves, seen);
      PrefixKeepsEvents(h, rec, b, c, seen);
    }
  }

  lemma {:induction false} ChainMembers(h: Hash, rec: Recover, c: Chain, p: Packet)
    requires ChainOk(h, rec, c) && InChain(p, c)
    ensures ShapeOk(p) && PacketOk(h, rec, p, None)
  {
    hide PacketOk;
    hide Extends;
    if c.packet != p { ChainMembers(h, rec, c.before, p); }
  }

  /** Over a whole chain, each packet's events are the first events of the last. */
  lemma {:induction false} ChainsKeepEvents(h: Hash, rec: Recover, c: Chain, p: Packet)
    requires ChainOk(h, rec, c) && InChain(p, c)
    ensures EventsKept(h, p, c.packet) ||
            Clash(h, ChainMessages(h, c) + SessionMessages(h, p.events) + SessionMessages(h, c.packet.events))
  {
    hide PacketOk;
    hide ChainOk;
    hide ChainMessages;
    hide SessionMessages;
    hide EventsKept;
    var seen := ChainMessages(h, c) + SessionMessages(h, p.events) + SessionMessages(h, c.packet.events);
    if !Clash(h, seen) {
      ChainGrows(h, rec, c, seen);
      ChainMembers(h, rec, c, p);
      LastMember(c);
      ChainMembers(h, rec, c, c.packet);
      PrefixKeepsEvents(h, rec, p, c.packet, seen);
    }
  }

  lemma LastMember(c: Chain)
    ensures InChain(c.packet, c)
  {
  }

  /** Redacting the later packet, or the packet the earlier head comes from, changes nothing. */
  lemma {:induction false} GrowthSurvivesRedaction(h: Hash, rec: Recover, earlier: Head, later: Packet, run: Run)
    requires ShapeOk(later) && PacketOk(h, rec, later, None)
    ensures ShapeOk(RedactAll(h, later, run)) && RedactAll(h, later, run).head == later.head
    ensures GrowthOk(h, rec, earlier, RedactAll(h, later, run)) <==> GrowthOk(h, rec, earlier, later)
  {
    hide PacketOk;
    hide Extends;
    hide RedactAll;
    AcceptedSession(h, rec, later);
    RunKeepsAcceptance(h, rec, later, None, run);
    AcceptedLeaves(h, rec, later, None);
    AcceptedLeaves(h, rec, RedactAll(h, later, run), None);
  }

  lemma {:induction false} AcceptedSession(h: Hash, rec: Recover, p: Packet)
    requires ShapeOk(p) && PacketOk(h, rec, p, None)
    ensures SessionOk(h, p.events)
  {
  }

  /** Growing a session by appending events to it is always accepted. */
  lemma AppendingGrows(h: Hash, rec: Recover, events: seq<Event>, more: seq<Event>)
    requires SessionOk(h, events + more)
    ensures SessionOk(h, events) && ShapeOk(PacketOf(h, events)) && ShapeOk(PacketOf(h, events + more))
    ensures GrowthOk(h, rec, PacketOf(h, events).head, PacketOf(h, events + more))
  {
    hide ValidateEvent;
    hide PacketOf;
    hide PacketOk;
    hide Extends;
    hide EventFault;
    var all := events + more;
    forall i | 0 <= i < |events| ensures EventFault(h, events[i], i) == None {
      assert EventFault(h, all[i], i) == None;
    }
    SealedVerifies(h, rec, events);
    SealedVerifies(h, rec, all);
    var p, q := PacketOf(h, events), PacketOf(h, all);
    AcceptedLeaves(h, rec, p, None);
    AcceptedLeaves(h, rec, q, None);
    var a, c := Leaves(h, events), Leaves(h, all);
    assert c[..|a|] == a;
    assert p.head == TreeHead(h, a);
    PrefixHeadsExtend(h, p.head, c);
  }
}
