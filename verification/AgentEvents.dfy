/** cli/core/agent-session.js: session events, their redaction-safe leaves, redacted twins,
    whole sessions, and single-event disclosure. */
module AgentEvents {
  import opened Hashing
  import opened Text
  import opened MerkleTree
  import opened Json
  import opened JournalLog
  import opened JournalTheorems

  /** The optional metadata value, seen through its canonical JSON text. */
  datatype Meta = Absent | Canonical(json: Text) | NotCanonical

  datatype Event = Event(seqNo: int, ts: Text, actor: Text, kind: Text,
                         payload: Option<Text>, payloadHash: Option<Digest>, redacted: Option<bool>, meta: Meta)

  datatype Reason =
    | BadSeq | BadActor | BadType | MissingPayload | RedactedWithPayload | BadPayloadHash
    | UnflaggedRedaction | BadPayload | PayloadHashMismatch | BadMeta | SeqNotContiguous

  datatype Verdict = Sound(redacted: bool, commitment: Digest, meta: Option<Text>) | Unsound(reason: Reason)

  const MAX_SAFE_INTEGER := 0x1F_FFFF_FFFF_FFFF

  function EventTypes(): seq<Text> {
    [Ascii("prompt"), Ascii("completion"), Ascii("tool_call"), Ascii("tool_result"), Ascii("note")]
  }

  function LeafDomain(): Text { Ascii("vh.agent-session/v1:event-leaf") }

  /** The hash of the payload's UTF-8, or nothing for a string with a lone surrogate. */
  function PayloadHash(h: Hash, payload: Text): Option<Digest> {
    if WellFormed(payload) then Some(h(Utf8(payload))) else None
  }

  function ValidateMeta(redacted: bool, commitment: Digest, meta: Meta): Verdict {
    match meta
    case Absent => Sound(redacted, commitment, None)
    case Canonical(json) => Sound(redacted, commitment, Some(json))
    case NotCanonical => Unsound(BadMeta)
  }

  function ValidateEvent(h: Hash, e: Event): Verdict {
    if e.seqNo < 0 || e.seqNo > MAX_SAFE_INTEGER then Unsound(BadSeq)
    else if |e.actor| == 0 then Unsound(BadActor)
    else if e.kind !in EventTypes() then Unsound(BadType)
    else if e.payload.None? && e.payloadHash.None? then Unsound(MissingPayload)
    else if e.redacted == Some(true) && e.payload.Some? then Unsound(RedactedWithPayload)
    else if e.redacted == Some(true) && e.payloadHash.None? then Unsound(BadPayloadHash)
    else if e.payload.None? && e.redacted != Some(true) then Unsound(UnflaggedRedaction)
    else if e.payload.None? then ValidateMeta(true, e.payloadHash.value, e.meta)
    else
      match PayloadHash(h, e.payload.value)
      case None => Unsound(BadPayload)
      case Some(commitment) =>
        if e.payloadHash.Some? && commitment != e.payloadHash.value then Unsound(PayloadHashMismatch)
        else ValidateMeta(false, commitment, e.meta)
  }

  predicate IsSound(h: Hash, e: Event) { ValidateEvent(h, e).Sound? }

  predicate CommonFields(e: Event) {
    0 <= e.seqNo <= MAX_SAFE_INTEGER && |e.actor| > 0 && e.kind in EventTypes() && !e.meta.NotCanonical?
  }

  /** The payload is there, and any carried commitment is the payload's own. */
  predicate FullShape(h: Hash, e: Event) {
    e.payload.Some? && e.redacted != Some(true) && WellFormed(e.payload.value) &&
    (e.payloadHash.Some? ==> e.payloadHash.value == h(Utf8(e.payload.value)))
  }

  /** The payload is gone, its commitment is carried and the withholding is declared. */
  predicate RedactedShape(e: Event) {
    e.payload.None? && e.payloadHash.Some? && e.redacted == Some(true)
  }

  /** Exactly two shapes are accepted. */
  lemma AcceptedShapes(h: Hash, e: Event)
    ensures IsSound(h, e) <==> CommonFields(e) && (FullShape(h, e) || RedactedShape(e))
    ensures IsSound(h, e) ==> (ValidateEvent(h, e).redacted <==> RedactedShape(e))
    ensures IsSound(h, e) ==> (e.redacted == Some(true) <==> e.payload.None?)
  {
  }

  /** The checks in the order they are made, each with the reason it gives. */
  ghost function Checks(h: Hash, e: Event): seq<(bool, Reason)> {
    [(!(0 <= e.seqNo <= 9007199254740991), BadSeq),
     (e.actor == [], BadActor),
     (e.kind !in {Ascii("prompt"), Ascii("completion"), Ascii("tool_call"), Ascii("tool_result"), Ascii("note")}, BadType),
     (e.payload == None && e.payloadHash == None, MissingPayload),
     (e.redacted == Some(true) && e.payload != None, RedactedWithPayload),
     (e.redacted == Some(true) && e.payloadHash == None, BadPayloadHash),
     (e.redacted != Some(true) && e.payload == None, UnflaggedRedaction),
     (e.payload.Some? && !WellFormed(e.payload.value), BadPayload),
     (e.payload.Some? && WellFormed(e.payload.value) && e.payloadHash.Some? && e.payloadHash.value != h(Utf8(e.payload.value)),
      PayloadHashMismatch),
     (e.meta.NotCanonical?, BadMeta)]
  }

  /** The reason given is that of the first check that fails, and an event that fails none is sound. */
  lemma FirstFailingCheck(h: Hash, e: Event)
    ensures IsSound(h, e) <==> forall k :: 0 <= k < 10 ==> !Checks(h, e)[k].0
    ensures !IsSound(h, e) ==>
              exists k :: 0 <= k < 10 && Checks(h, e)[k] == (true, ValidateEvent(h, e).reason) && forall j :: 0 <= j < k ==> !Checks(h, e)[j].0
  {
    hide Ascii;
    hide WellFormed;
    hide Utf8;
    var c := Checks(h, e);
    KindsInFull(e.kind);
    hide EventTypes;
    assert c[0].0 || c[1].0 || c[2].0 || c[3].0 || c[4].0 || c[5].0 || c[6].0 || c[7].0 || c[8].0 || c[9].0 || IsSound(h, e);
    if c[0].0 { assert c[0] == (true, ValidateEvent(h, e).reason); }
    else if c[1].0 { assert c[1] == (true, ValidateEvent(h, e).reason); }
    else if c[2].0 { assert c[2] == (true, ValidateEvent(h, e).reason); }
    else if c[3].0 { assert c[3] == (true, ValidateEvent(h, e).reason); }
    else if c[4].0 { assert c[4] == (true, ValidateEvent(h, e).reason); }
    else if c[6].0 { assert c[6] == (true, ValidateEvent(h, e).reason); }
    else if c[7].0 { assert c[7] == (true, ValidateEvent(h, e).reason); }
    else if c[8].0 { assert c[8] == (true, ValidateEvent(h, e).reason); }
    else if c[9].0 { assert c[9] == (true, ValidateEvent(h, e).reason); }
  }

  lemma KindsInFull(kind: Text)
    ensures kind in EventTypes() <==>
              kind in {Ascii("prompt"), Ascii("completion"), Ascii("tool_call"), Ascii("tool_result"), Ascii("note")}
  {
    var types := EventTypes();
    assert types[0] == Ascii("prompt") && types[1] == Ascii("completion") && types[2] == Ascii("tool_call");
    assert types[3] == Ascii("tool_result") && types[4] == Ascii("note");
  }

  // ---- leaves -------------------------------------------------------------------------------

  /** What a leaf binds.  The payload takes part only through its commitment. */
  datatype Bound = Bound(seqNo: int, ts: Text, actor: Text, kind: Text, commitment: Digest, meta: Option<Text>)

  function BoundOf(h: Hash, e: Event): Bound
    requires IsSound(h, e)
  {
    Bound(e.seqNo, e.ts, e.actor, e.kind, ValidateEvent(h, e).commitment, ValidateEvent(h, e).meta)
  }

  function MetaScalar(meta: Option<Text>): Scalar { if meta.Some? then Str(meta.value) else Null }

  function BoundScalars(b: Bound): Scalars {
    More(Num(b.seqNo), More(Str(b.ts), More(Str(b.actor), More(Str(b.kind),
      More(Str(Hex(b.commitment)), More(MetaScalar(b.meta), Done))))))
  }

  /** The leaf preimage: a fixed-position JSON array under the leaf's domain tag. */
  function EventBytes(b: Bound): Data { ArrayBytes(Str(LeafDomain()), BoundScalars(b)) }

  lemma {:induction false} EventBytesInjective(b: Bound, c: Bound)
    requires EventBytes(b) == EventBytes(c)
    ensures b == c
  {
    hide ArrayBytes;
    hide LeafDomain;
    hide Hex;
    ArrayBytesInjective(Str(LeafDomain()), BoundScalars(b), Str(LeafDomain()), BoundScalars(c));
    assert BoundScalars(b).tail.tail.tail.tail.head == BoundScalars(c).tail.tail.tail.tail.head;
    HexInjective(b.commitment, c.commitment);
  }

  function EventLeaf(h: Hash, e: Event): Option<Digest> {
    if IsSound(h, e) then Some(h(EventBytes(BoundOf(h, e)))) else None
  }

  /** The leaf in full: what is hashed is this JSON text over the event's own fields, in which the
      payload shows only as its commitment. */
  lemma LeafInFull(h: Hash, e: Event)
    requires IsSound(h, e)
    ensures BoundOf(h, e) ==
              Bound(e.seqNo, e.ts, e.actor, e.kind, Commitment(h, e), if e.meta.Absent? then None else Some(e.meta.json))
    ensures WellFormed(LeafText(BoundOf(h, e))) && EventLeaf(h, e) == Some(h(Utf8(LeafText(BoundOf(h, e)))))
  {
    hide EventBytes;
    hide LeafText;
    hide WellFormed;
    hide Utf8;
    LeafPrinted(BoundOf(h, e));
  }

  /** The commitment to the payload: its own hash when it is held, else the carried one. */
  function Commitment(h: Hash, e: Event): Digest
    requires if e.payload.Some? then WellFormed(e.payload.value) else e.payloadHash.Some?
  {
    if e.payload.Some? then h(Utf8(e.payload.value)) else e.payloadHash.value
  }

  function LeafText(b: Bound): Text
    requires b.seqNo >= 0
  {
    [91] + Quote(Ascii("vh.agent-session/v1:event-leaf"))
    + ([44] + Decimal(b.seqNo)
       + ([44] + Quote(b.ts)
          + ([44] + Quote(b.actor)
             + ([44] + Quote(b.kind)
                + ([44] + Quote(Hex(b.commitment))
                   + ([44] + (if b.meta.Some? then Quote(b.meta.value) else Ascii("null")) + [93]))))))
  }

  lemma LeafPrinted(b: Bound)
    requires b.seqNo >= 0
    ensures WellFormed(LeafText(b)) && EventBytes(b) == Utf8(LeafText(b))
  {
    hide Quote;
    hide Decimal;
    hide Hex;
    var r5 := More(MetaScalar(b.meta), Done);
    var r4 := More(Str(Hex(b.commitment)), r5);
    var r3 := More(Str(b.kind), r4);
    var r2 := More(Str(b.actor), r3);
    var r1 := More(Str(b.ts), r2);
    var r0 := More(Num(b.seqNo), r1);
    WellFormedArray(Str(LeafDomain()), r0);
    hide WellFormed;
    hide Utf8;
    assert PrintRest(r5) == [44] + (if b.meta.Some? then Quote(b.meta.value) else Ascii("null")) + [93];
    assert PrintRest(r4) == [44] + Quote(Hex(b.commitment)) + PrintRest(r5);
    assert PrintRest(r3) == [44] + Quote(b.kind) + PrintRest(r4);
    assert PrintRest(r2) == [44] + Quote(b.actor) + PrintRest(r3);
    assert PrintRest(r1) == [44] + Quote(b.ts) + PrintRest(r2);
    assert PrintRest(r0) == [44] + Decimal(b.seqNo) + PrintRest(r1);
    assert LeafText(b) == PrintArray(Str(LeafDomain()), r0);
  }

  // ---- redaction ------------------------------------------------------------------------------

  /** The redacted twin of a sound event. */
  function Twin(h: Hash, e: Event): Event
    requires IsSound(h, e)
  {
    e.(payload := None, payloadHash := Some(ValidateEvent(h, e).commitment), redacted := Some(true))
  }

  /** The same event with its commitment always carried and no idle flag. */
  function CanonicalEvent(h: Hash, e: Event): Event
    requires IsSound(h, e)
  {
    e.(payloadHash := Some(ValidateEvent(h, e).commitment), redacted := if e.payload.None? then Some(true) else None)
  }

  /** A twin and a canonical copy are sound, bind what the event bound, and settle at once. */
  lemma TwinKeepsBound(h: Hash, e: Event)
    requires IsSound(h, e)
    ensures IsSound(h, Twin(h, e)) && BoundOf(h, Twin(h, e)) == BoundOf(h, e)
    ensures IsSound(h, CanonicalEvent(h, e)) && BoundOf(h, CanonicalEvent(h, e)) == BoundOf(h, e)
    ensures CanonicalEvent(h, e).payload == e.payload
    ensures Twin(h, Twin(h, e)) == Twin(h, e) == Twin(h, CanonicalEvent(h, e)) == CanonicalEvent(h, Twin(h, e))
    ensures CanonicalEvent(h, CanonicalEvent(h, e)) == CanonicalEvent(h, e)
    ensures Twin(h, e) == Event(e.seqNo, e.ts, e.actor, e.kind, None, Some(Commitment(h, e)), Some(true), e.meta)
    ensures CanonicalEvent(h, e) ==
              Event(e.seqNo, e.ts, e.actor, e.kind, e.payload, Some(Commitment(h, e)), if e.payload.None? then Some(true) else None, e.meta)
  {
  }

  /** Twins tell events apart exactly as leaves do, so a twin reveals nothing but what is bound. */
  lemma TwinsAgreeExactly(h: Hash, d: Event, e: Event)
    requires IsSound(h, d) && IsSound(h, e)
    ensures Twin(h, d) == Twin(h, e) <==> BoundOf(h, d) == BoundOf(h, e)
  {
  }

  // ---- sessions -----------------------------------------------------------------------------------

  function EventFault(h: Hash, e: Event, i: nat): Option<Reason> {
    match ValidateEvent(h, e)
    case Unsound(reason) => Some(reason)
    case Sound(_, _, _) => if e.seqNo != i then Some(SeqNotContiguous) else None
  }

  predicate SessionOk(h: Hash, events: seq<Event>) {
    forall i :: 0 <= i < |events| ==> EventFault(h, events[i], i) == None
  }

  lemma SessionEvent(h: Hash, events: seq<Event>, i: nat)
    requires SessionOk(h, events) && i < |events|
    ensures IsSound(h, events[i]) && events[i].seqNo == i
  {
    assert EventFault(h, events[i], i) == None;
  }

  datatype Located = Located(reason: Reason, index: nat)

  /** f names the first event that breaks the session, and how. */
  predicate FirstFault(h: Hash, events: seq<Event>, f: Located) {
    f.index < |events| && EventFault(h, events[f.index], f.index) == Some(f.reason) &&
    forall i :: 0 <= i < f.index ==> EventFault(h, events[i], i) == None
  }

  method ValidateSession(h: Hash, events: seq<Event>) returns (fault: Option<Located>)
    ensures fault.None? <==> SessionOk(h, events)
    ensures fault.Some? ==> FirstFault(h, events, fault.value)
    ensures fault.Some? ==> forall j :: 0 <= j < fault.value.index ==> IsSound(h, events[j]) && events[j].seqNo == j
  {
    for i := 0 to |events|
      invariant forall j :: 0 <= j < i ==> EventFault(h, events[j], j) == None
    {
      var f := EventFault(h, events[i], i);
      if f.Some? { return Some(Located(f.value, i)); }
    }
    fault := None;
  }

  function Leaf(h: Hash, e: Event): Digest { if IsSound(h, e) then h(EventBytes(BoundOf(h, e))) else Digest(0) }

  function Leaves(h: Hash, events: seq<Event>): (r: seq<Digest>)
    ensures |r| == |events| && forall i :: 0 <= i < |r| ==> r[i] == Leaf(h, events[i])
  {
    seq(|events|, i requires 0 <= i < |events| => Leaf(h, events[i]))
  }

  /** Everything hashed to commit to one event: its leaf preimage and, when held, its payload. */
  function EventMessages(h: Hash, e: Event): set<Data> {
    (if IsSound(h, e) then {EventBytes(BoundOf(h, e))} else {})
    + (if e.payload.Some? && WellFormed(e.payload.value) then {Utf8(e.payload.value)} else {})
  }

  function SessionMessages(h: Hash, events: seq<Event>): set<Data> {
    LogMessages(h, Leaves(h, events)) + (set e, m | e in events && m in EventMessages(h, e) :: m)
  }

  lemma EventMessagesIn(h: Hash, events: seq<Event>, i: nat)
    requires i < |events|
    ensures EventMessages(h, events[i]) <= SessionMessages(h, events)
  {
  }

  /** The two events bind the same fields, and agree on the payload wherever both show it. */
  predicate Agree(h: Hash, d: Event, e: Event)
    requires IsSound(h, d) && IsSound(h, e)
  {
    BoundOf(h, d) == BoundOf(h, e) && (d.payload.Some? && e.payload.Some? ==> d.payload == e.payload)
  }

  lemma {:induction false} EqualLeavesAgree(h: Hash, d: Event, e: Event, seen: set<Data>)
    requires IsSound(h, d) && IsSound(h, e) && Leaf(h, d) == Leaf(h, e)
    requires !Clash(h, seen) && EventMessages(h, d) + EventMessages(h, e) <= seen
    ensures Agree(h, d, e)
  {
    hide EventBytes;
    NoClash(h, seen, EventBytes(BoundOf(h, d)), EventBytes(BoundOf(h, e)));
    EventBytesInjective(BoundOf(h, d), BoundOf(h, e));
    if d.payload.Some? && e.payload.Some? { EqualCommitmentsAgree(h, d, e, seen); }
  }

  lemma {:induction false} EqualCommitmentsAgree(h: Hash, d: Event, e: Event, seen: set<Data>)
    requires IsSound(h, d) && IsSound(h, e) && d.payload.Some? && e.payload.Some?
    requires BoundOf(h, d).commitment == BoundOf(h, e).commitment
    requires !Clash(h, seen) && EventMessages(h, d) + EventMessages(h, e) <= seen
    ensures d.payload == e.payload
  {
    hide EventBytes;
    hide Utf8;
    assert Utf8(d.payload.value) in EventMessages(h, d) && Utf8(e.payload.value) in EventMessages(h, e);
    NoClash(h, seen, Utf8(d.payload.value), Utf8(e.payload.value));
    Utf8Injective(d.payload.value, e.payload.value);
  }

  // ---- single-event disclosure ------------------------------------------------------------------------

  /** The raw leaf is deliberately not carried. */
  datatype Disclosure = Disclosure(event: Event, leafIndex: int, treeSize: int, path: seq<Digest>)

  function ProveEvent(h: Hash, events: seq<Event>, index: int): Option<Disclosure> {
    if !SessionOk(h, events) || index < 0 || index >= |events| then None
    else
      var ip := ProveInclusion(h, Leaves(h, events), index).value;
      Some(Disclosure(events[index], ip.leafIndex, ip.treeSize, ip.path))
  }

  function AsInclusion(h: Hash, p: Disclosure): InclusionProof {
    InclusionProof(Leaf(h, p.event), p.leafIndex, p.treeSize, p.path)
  }

  predicate DisclosureOk(h: Hash, p: Disclosure, head: Trusted) {
    IsSound(h, p.event) && p.event.seqNo == p.leafIndex && InclusionOk(h, AsInclusion(h, p), head)
  }

  /** What a disclosure must show before its path is folded, and when the prover refuses. */
  lemma DisclosureInFull(h: Hash, events: seq<Event>, index: int, p: Disclosure, head: Trusted)
    ensures DisclosureOk(h, p, head) ==>
              p.event.seqNo == p.leafIndex && IsSound(h, p.event) && 0 <= p.leafIndex < p.treeSize &&
              (head.FullHead? ==> head.head.size == p.treeSize)
    ensures ProveEvent(h, events, index).Some? <==> SessionOk(h, events) && 0 <= index < |events|
    ensures ProveEvent(h, events, index).Some? ==>
              var d := ProveEvent(h, events, index).value;
              d.event == events[index] && d.leafIndex == index && d.treeSize == |events|
  {
    hide ValidateEvent;
    hide IterDirs;
    hide SessionOk;
  }

  /** Every proof the prover makes verifies, for the event as held or for its redacted twin. */
  lemma {:induction false} DisclosureIsComplete(h: Hash, events: seq<Event>, i: nat)
    requires SessionOk(h, events) && i < |events|
    ensures ProveEvent(h, events, i).Some?
    ensures var p, head := ProveEvent(h, events, i).value, FullHead(TreeHead(h, Leaves(h, events)));
            DisclosureOk(h, p, head) && IsSound(h, p.event) && DisclosureOk(h, p.(event := Twin(h, p.event)), head)
  {
    hide InclusionOk;
    hide EventBytes;
    SessionEvent(h, events, i);
    InclusionIsComplete(h, Leaves(h, events), i);
    TwinKeepsBound(h, events[i]);
  }

  /** Whatever is accepted against the head of a session is that session's event at that
      position: same bound fields, and same payload wherever both show it. */
  lemma {:induction false} DisclosureIsSound(h: Hash, events: seq<Event>, p: Disclosure)
    requires SessionOk(h, events) && DisclosureOk(h, p, FullHead(TreeHead(h, Leaves(h, events))))
    ensures (0 <= p.event.seqNo < |events| && IsSound(h, events[p.event.seqNo]) && Agree(h, p.event, events[p.event.seqNo])) ||
            Clash(h, SessionMessages(h, events) + EventMessages(h, p.event) + InclusionMessages(h, AsInclusion(h, p)))
  {
    hide InclusionOk;
    hide EventBytes;
    hide InclusionMessages;
    hide Agree;
    hide ValidateEvent;
    var leaves, proof := Leaves(h, events), AsInclusion(h, p);
    var seen := SessionMessages(h, events) + EventMessages(h, p.event) + InclusionMessages(h, proof);
    InclusionIsSound(h, leaves, proof);
    ClashMonotone(h, LogMessages(h, leaves) + InclusionMessages(h, proof), seen);
    if !Clash(h, seen) {
      var i := p.leafIndex;
      assert ProveInclusion(h, leaves, i) == Some(proof);
      SessionEvent(h, events, i);
      EventMessagesIn(h, events, i);
      EqualLeavesAgree(h, p.event, events[i], seen);
    }
  }
}
