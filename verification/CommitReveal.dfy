/** cli/claim.js against contracts/ContributionRegistry.sol: commit, wait, reveal, among any
    other senders. */
module CommitReveal {
  import opened Hashing
  import opened MerkleTree

  /** A sender: never the zero address. */
  type Account = a: nat | 0 < a < 0x1_0000_0000_0000_0000_0000_0000_0000_0000_0000_0000 witness 1

  /** uint64 block numbers. */
  type Block = b: nat | b < 0x1_0000_0000_0000_0000

  const MIN_REVEAL_DELAY: nat := 1

  const ZERO: Digest := Digest(0)

  // ---- commitments --------------------------------------------------------------------------------

  /** abi.encode of (bytes32, address, bytes32): three words. */
  function CommitmentMessage(contentHash: Digest, committer: Account, salt: Digest): (m: Data)
    ensures |m| == 96
  {
    Word(contentHash) + Word(Digest(committer)) + Word(salt)
  }

  /** computeCommitment, and the contract's commitmentOf. */
  function CommitmentOf(h: Hash, contentHash: Digest, committer: Account, salt: Digest): Digest {
    h(CommitmentMessage(contentHash, committer, salt))
  }

  /** abi.encode lays the words out in this order, the address right-aligned in its own. */
  lemma CommitmentLayout(contentHash: Digest, committer: Account, salt: Digest)
    ensures var m := CommitmentMessage(contentHash, committer, salt);
            Number(m[..32]) == contentHash.value && Number(m[32..64]) == committer && Number(m[64..]) == salt.value
  {
    var m := CommitmentMessage(contentHash, committer, salt);
    assert m[..32] == Word(contentHash) && m[32..64] == Word(Digest(committer)) && m[64..] == Word(salt);
    WordIsNumber(contentHash);
    WordIsNumber(Digest(committer));
    WordIsNumber(salt);
  }

  lemma CommitmentMessageInjective(c: Digest, a: Account, s: Digest, d: Digest, b: Account, t: Digest)
    requires CommitmentMessage(c, a, s) == CommitmentMessage(d, b, t)
    ensures c == d && a == b && s == t
  {
    var x, y := CommitmentMessage(c, a, s), CommitmentMessage(d, b, t);
    assert x[..32] == Word(c) && y[..32] == Word(d);
    assert x[32..64] == Word(Digest(a)) && y[32..64] == Word(Digest(b));
    assert x[64..] == Word(s) && y[64..] == Word(t);
    WordInjective(c, d);
    WordInjective(Digest(a), Digest(b));
    WordInjective(s, t);
  }

  /** A reveal copied by another sender resolves to a different commitment, or the hash collides. */
  lemma CopiedRevealMissesCommitment(h: Hash, contentHash: Digest, salt: Digest, a: Account, b: Account)
    requires a != b
    ensures CommitmentOf(h, contentHash, b, salt) != CommitmentOf(h, contentHash, a, salt) ||
            Clash(h, {CommitmentMessage(contentHash, a, salt), CommitmentMessage(contentHash, b, salt)})
  {
    var x, y := CommitmentMessage(contentHash, a, salt), CommitmentMessage(contentHash, b, salt);
    if h(x) == h(y) && !Clash(h, {x, y}) {
      NoClash(h, {x, y}, x, y);
      CommitmentMessageInjective(contentHash, a, salt, contentHash, b, salt);
    }
  }

  // ---- the registry -----------------------------------------------------------------------------------

  datatype Commitment = Commitment(committer: Account, blockNumber: Block)

  /** parent == ZERO means no predecessor. */
  datatype Record = Record(contributor: Account, authorBound: bool, blockNumber: Block, parent: Digest)

  datatype Error =
    | ZeroCommitment | CommitmentExists | ZeroHash | NoSuchCommitment | RevealTooSoon
    | AlreadyAnchored | SelfParent | UnknownParent

  /** A Committed event. */
  datatype Committed = Committed(commitment: Digest, committer: Account, blockNumber: Block)

  /** How an author-bound record came about: the salt opened, and which Committed event it was. */
  datatype Opening = Opening(salt: Digest, event: nat)

  datatype State = State(block: Block, pending: map<Digest, Commitment>, records: map<Digest, Record>, order: seq<Digest>,
                         committed: seq<Committed>, openings: map<Digest, Opening>)

  datatype Tx =
    | Commit(sender: Account, commitment: Digest)
    | Reveal(sender: Account, contentHash: Digest, salt: Digest, parent: Digest)
    | Anchor(sender: Account, contentHash: Digest, parent: Digest)

  datatype Result = Ok(next: State) | Reverted(error: Error)

  /** _record's checks. */
  function RecordFault(s: State, contentHash: Digest, parent: Digest): Option<Error> {
    if contentHash == ZERO then Some(ZeroHash)
    else if contentHash in s.records then Some(AlreadyAnchored)
    else if parent == ZERO then None
    else if parent == contentHash then Some(SelfParent)
    else if parent !in s.records then Some(UnknownParent)
    else None
  }

  function Write(s: State, contentHash: Digest, r: Record): State {
    s.(records := s.records[contentHash := r], order := s.order + [contentHash])
  }

  /** The last Committed event of a commitment. */
  function EventOf(committed: seq<Committed>, commitment: Digest): nat {
    if committed == [] then 0
    else if committed[|committed| - 1].commitment == commitment then |committed| - 1
    else EventOf(committed[..|committed| - 1], commitment)
  }

  function ExecCommit(s: State, sender: Account, commitment: Digest): Result {
    if commitment == ZERO then Reverted(ZeroCommitment)
    else if commitment in s.pending then Reverted(CommitmentExists)
    else Ok(s.(pending := s.pending[commitment := Commitment(sender, s.block)],
               committed := s.committed + [Committed(commitment, sender, s.block)]))
  }

  function ExecReveal(h: Hash, s: State, sender: Account, contentHash: Digest, salt: Digest, parent: Digest): Result {
    if contentHash == ZERO then Reverted(ZeroHash)
    else
      var c := CommitmentOf(h, contentHash, sender, salt);
      if c !in s.pending then Reverted(NoSuchCommitment)
      else if s.block <= s.pending[c].blockNumber + MIN_REVEAL_DELAY then Reverted(RevealTooSoon)
      else
        match RecordFault(s, contentHash, parent)
        case Some(e) => Reverted(e)
        case None =>
          var t := s.(pending := s.pending - {c}, openings := s.openings[contentHash := Opening(salt, EventOf(s.committed, c))]);
          Ok(Write(t, contentHash, Record(sender, true, s.block, parent)))
  }

  function ExecAnchor(s: State, sender: Account, contentHash: Digest, parent: Digest): Result {
    match RecordFault(s, contentHash, parent)
    case Some(e) => Reverted(e)
    case None => Ok(Write(s, contentHash, Record(sender, false, s.block, parent)))
  }

  function Exec(h: Hash, s: State, tx: Tx): Result {
    match tx
    case Commit(sender, commitment) => ExecCommit(s, sender, commitment)
    case Reveal(sender, contentHash, salt, parent) => ExecReveal(h, s, sender, contentHash, salt, parent)
    case Anchor(sender, contentHash, parent) => ExecAnchor(s, sender, contentHash, parent)
  }

  /** The contract's storage, changed in place by its entry points. */
  class Registry {
    const h: Hash
    var block: Block
    var pending: map<Digest, Commitment>
    var records: map<Digest, Record>
    var order: seq<Digest>
    ghost var committed: seq<Committed>
    ghost var openings: map<Digest, Opening>

    ghost function Now(): State
      reads this
    {
      State(block, pending, records, order, committed, openings)
    }

    constructor (hash: Hash, at: Block)
      ensures Now() == Genesis(at) && h == hash
    {
      h := hash;
      block := at;
      pending, records, order := map[], map[], [];
      committed, openings := [], map[];
    }

    method DoCommit(sender: Account, commitment: Digest) returns (e: Option<Error>)
      modifies this
      ensures e.None? ==> Exec(h, old(Now()), Commit(sender, commitment)) == Ok(Now())
      ensures e.Some? ==> Exec(h, old(Now()), Commit(sender, commitment)) == Reverted(e.value) && Now() == old(Now())
      ensures e == Some(ZeroCommitment) <==> commitment == Digest(0)
      ensures e == Some(CommitmentExists) <==> commitment != Digest(0) && commitment in old(pending)
      ensures e == None <==> commitment != Digest(0) && commitment !in old(pending)
      ensures e == None ==> pending == old(pending)[commitment := Commitment.Commitment(sender, block)] && records == old(records)
    {
      if commitment == ZERO { return Some(ZeroCommitment); }
      if commitment in pending { return Some(CommitmentExists); }
      pending := pending[commitment := Commitment.Commitment(sender, block)];
      committed := committed + [Committed(commitment, sender, block)];
      e := None;
    }

    /** _record: first writer wins, parents first. */
    method WriteRecord(contentHash: Digest, r: Record) returns (e: Option<Error>)
      modifies this
      ensures e == RecordFault(old(Now()), contentHash, r.parent)
      ensures Now() == if e.None? then Write(old(Now()), contentHash, r) else old(Now())
      ensures e == None <==> contentHash != Digest(0) && contentHash !in old(records) &&
                             (r.parent == Digest(0) || (r.parent != contentHash && r.parent in old(records)))
      ensures e == None ==> records == old(records)[contentHash := r] && order == old(order) + [contentHash]
      ensures e == Some(ZeroHash) <==> contentHash == Digest(0)
      ensures e == Some(AlreadyAnchored) <==> contentHash != Digest(0) && contentHash in old(records)
      ensures e == Some(SelfParent) <==> contentHash != Digest(0) && contentHash !in old(records) && r.parent == contentHash
      ensures e == Some(UnknownParent) <==> contentHash != Digest(0) && contentHash !in old(records) &&
                                            r.parent != Digest(0) && r.parent != contentHash && r.parent !in old(records)
    {
      if contentHash == ZERO { return Some(ZeroHash); }
      if contentHash in records { return Some(AlreadyAnchored); }
      if r.parent != ZERO {
        if r.parent == contentHash { return Some(SelfParent); }
        if r.parent !in records { return Some(UnknownParent); }
      }
      records := records[contentHash := r];
      order := order + [contentHash];
      e := None;
    }

    method DoAnchor(sender: Account, contentHash: Digest, parent: Digest) returns (e: Option<Error>)
      modifies this
      ensures e.None? ==> Exec(h, old(Now()), Anchor(sender, contentHash, parent)) == Ok(Now())
      ensures e.Some? ==> Exec(h, old(Now()), Anchor(sender, contentHash, parent)) == Reverted(e.value) && Now() == old(Now())
      ensures e == None ==> records == old(records)[contentHash := Record(sender, false, block, parent)] && pending == old(pending)
    {
      e := WriteRecord(contentHash, Record(sender, false, block, parent));
    }

    /** _reveal.  A revert undoes the cleared commitment along with everything else. */
    method DoReveal(sender: Account, contentHash: Digest, salt: Digest, parent: Digest) returns (e: Option<Error>)
      modifies this
      ensures e.None? ==> Exec(h, old(Now()), Reveal(sender, contentHash, salt, parent)) == Ok(Now())
      ensures e.Some? ==> Exec(h, old(Now()), Reveal(sender, contentHash, salt, parent)) == Reverted(e.value) && Now() == old(Now())
      ensures e == None ==>
                var c := h(Word(contentHash) + Word(Digest(sender)) + Word(salt));
                c in old(pending) && block > old(pending)[c].blockNumber + 1 && pending == old(pending) - {c} &&
                records == old(records)[contentHash := Record(sender, true, block, parent)] && order == old(order) + [contentHash]
    {
      if contentHash == ZERO { return Some(ZeroHash); }
      var c := CommitmentOf(h, contentHash, sender, salt);
      if c !in pending { return Some(NoSuchCommitment); }
      if block <= pending[c].blockNumber + MIN_REVEAL_DELAY { return Some(RevealTooSoon); }
      var savedPending := pending;
      ghost var savedOpenings := openings;
      pending := pending - {c};
      openings := openings[contentHash := Opening(salt, EventOf(committed, c))];
      e := WriteRecord(contentHash, Record(sender, true, block, parent));
      if e.Some? {
        pending := savedPending;
        openings := savedOpenings;
      }
    }

    /** A transaction of any kind. */
    method Execute(tx: Tx) returns (e: Option<Error>)
      modifies this
      ensures e.None? ==> Exec(h, old(Now()), tx) == Ok(Now())
      ensures e.Some? ==> Exec(h, old(Now()), tx) == Reverted(e.value) && Now() == old(Now())
    {
      match tx {
        case Commit(sender, commitment) => e := DoCommit(sender, commitment);
        case Reveal(sender, contentHash, salt, parent) => e := DoReveal(sender, contentHash, salt, parent);
        case Anchor(sender, contentHash, parent) => e := DoAnchor(sender, contentHash, parent);
      }
    }
  }

  // ---- runs --------------------------------------------------------------------------------------------

  function Genesis(at: Block): State { State(at, map[], map[], [], [], map[]) }

  /** Any sender's transaction, or time passing. */
  datatype Step = Call(tx: Tx) | Mine(to: Block)

  /** A transaction that reverts leaves the state as it was; block numbers only rise. */
  function Next(h: Hash, s: State, step: Step): State {
    match step
    case Mine(to) => if to > s.block then s.(block := to) else s
    case Call(tx) => (match Exec(h, s, tx) case Ok(t) => t case Reverted(_) => s)
  }

  datatype Run = Start(at: Block) | Then(before: Run, step: Step)

  function Final(h: Hash, run: Run): State {
    match run
    case Start(at) => Genesis(at)
    case Then(before, step) => Next(h, Final(h, before), step)
  }

  /** A pending commitment is what its last Committed event says. */
  predicate PendingLogged(s: State, c: Digest)
    requires c in s.pending
  {
    var i := EventOf(s.committed, c);
    i < |s.committed| && s.committed[i] == Committed(c, s.pending[c].committer, s.pending[c].blockNumber) &&
    s.pending[c].blockNumber <= s.block
  }

  /** An author-bound record opens a commitment to its content, bound to its contributor, that
      was on the chain more than the delay before. */
  predicate OpenedRightly(h: Hash, s: State, contentHash: Digest)
    requires contentHash in s.records
  {
    contentHash in s.openings &&
    var r, o := s.records[contentHash], s.openings[contentHash];
    o.event < |s.committed| &&
    s.committed[o.event].commitment == CommitmentOf(h, contentHash, r.contributor, o.salt) &&
    s.committed[o.event].blockNumber + MIN_REVEAL_DELAY < r.blockNumber
  }

  /** Every predecessor was anchored before its successor: the lineage has no cycle. */
  predicate ParentsFirst(s: State) {
    forall i :: 0 <= i < |s.order| ==>
      s.order[i] in s.records && (s.records[s.order[i]].parent == ZERO || s.records[s.order[i]].parent in s.order[..i])
  }

  predicate Listed(s: State) {
    (forall c :: c in s.records ==> c in s.order) && forall i, j :: 0 <= i < j < |s.order| ==> s.order[i] != s.order[j]
  }

  predicate Inv(h: Hash, s: State) {
    (forall c :: c in s.pending ==> PendingLogged(s, c)) &&
    (forall c :: c in s.records && s.records[c].authorBound ==> OpenedRightly(h, s, c)) &&
    ParentsFirst(s) && Listed(s)
  }

  lemma EventOfSnoc(committed: seq<Committed>, e: Committed, c: Digest)
    ensures EventOf(committed + [e], c) == if e.commitment == c then |committed| else EventOf(committed, c)
  {
    assert (committed + [e])[..|committed|] == committed;
  }

  lemma CommitKeeps(h: Hash, s: State, sender: Account, commitment: Digest)
    requires Inv(h, s) && ExecCommit(s, sender, commitment).Ok?
    ensures Inv(h, ExecCommit(s, sender, commitment).next)
  {
    hide EventOf;
    hide CommitmentOf;
    var t := ExecCommit(s, sender, commitment).next;
    forall c | c in t.pending ensures PendingLogged(t, c) {
      EventOfSnoc(s.committed, Committed(commitment, sender, s.block), c);
      if c in s.pending { assert PendingLogged(s, c); }
    }
    forall c | c in t.records && t.records[c].authorBound ensures OpenedRightly(h, t, c) { assert OpenedRightly(h, s, c); }
  }

  lemma WriteKeepsLineage(s: State, contentHash: Digest, r: Record)
    requires ParentsFirst(s) && Listed(s) && RecordFault(s, contentHash, r.parent) == None
    ensures ParentsFirst(Write(s, contentHash, r)) && Listed(Write(s, contentHash, r))
  {
    var t := Write(s, contentHash, r);
    var n := |s.order|;
    forall i | 0 <= i < n ensures s.order[i] in s.records && s.order[i] != contentHash { }
    forall i | 0 <= i < |t.order|
      ensures t.order[i] in t.records && (t.records[t.order[i]].parent == ZERO || t.records[t.order[i]].parent in t.order[..i])
    {
      if i < n {
        assert t.order[i] == s.order[i] && t.order[..i] == s.order[..i];
      } else {
        assert t.order[..n] == s.order;
      }
    }
    forall i, j | 0 <= i < j < |t.order| ensures t.order[i] != t.order[j] {
      if j == n { assert s.order[i] != contentHash; } else { assert s.order[i] != s.order[j]; }
    }
    forall c | c in t.records ensures c in t.order {
      if c != contentHash { assert c in s.order; } else { assert t.order[n] == c; }
    }
  }

  lemma RevealOpensRightly(h: Hash, s: State, sender: Account, contentHash: Digest, salt: Digest, parent: Digest)
    requires Inv(h, s) && ExecReveal(h, s, sender, contentHash, salt, parent).Ok?
    ensures OpenedRightly(h, ExecReveal(h, s, sender, contentHash, salt, parent).next, contentHash)
  {
    hide EventOf;
    hide CommitmentOf;
    hide ParentsFirst;
    hide Listed;
    assert PendingLogged(s, CommitmentOf(h, contentHash, sender, salt));
  }

  lemma RevealKeeps(h: Hash, s: State, sender: Account, contentHash: Digest, salt: Digest, parent: Digest)
    requires Inv(h, s) && ExecReveal(h, s, sender, contentHash, salt, parent).Ok?
    ensures Inv(h, ExecReveal(h, s, sender, contentHash, salt, parent).next)
  {
    hide EventOf;
    hide CommitmentOf;
    hide RecordFault;
    var t := ExecReveal(h, s, sender, contentHash, salt, parent).next;
    RevealOpensRightly(h, s, sender, contentHash, salt, parent);
    RevealKeepsLineage(h, s, sender, contentHash, salt, parent);
    hide ParentsFirst;
    hide Listed;
    forall c | c in t.pending ensures PendingLogged(t, c) { assert PendingLogged(s, c); }
    forall c | c in t.records && t.records[c].authorBound ensures OpenedRightly(h, t, c) {
      if c != contentHash { assert OpenedRightly(h, s, c); }
    }
  }

  lemma RevealKeepsLineage(h: Hash, s: State, sender: Account, contentHash: Digest, salt: Digest, parent: Digest)
    requires Inv(h, s) && ExecReveal(h, s, sender, contentHash, salt, parent).Ok?
    ensures ParentsFirst(ExecReveal(h, s, sender, contentHash, salt, parent).next)
    ensures Listed(ExecReveal(h, s, sender, contentHash, salt, parent).next)
  {
    hide EventOf;
    hide CommitmentOf;
    hide PendingLogged;
    hide OpenedRightly;
    WriteKeepsLineage(s, contentHash, Record(sender, true, s.block, parent));
  }

  lemma {:induction false} AnchorKeeps(h: Hash, s: State, sender: Account, contentHash: Digest, parent: Digest)
    requires Inv(h, s) && ExecAnchor(s, sender, contentHash, parent).Ok?
    ensures Inv(h, ExecAnchor(s, sender, contentHash, parent).next)
  {
    hide EventOf;
    hide CommitmentOf;
    var t := ExecAnchor(s, sender, contentHash, parent).next;
    WriteKeepsLineage(s, contentHash, Record(sender, false, s.block, parent));
    forall c | c in t.pending ensures PendingLogged(t, c) { assert PendingLogged(s, c); }
    forall c | c in t.records && t.records[c].authorBound ensures OpenedRightly(h, t, c) { assert OpenedRightly(h, s, c); }
  }

  lemma MineKeeps(h: Hash, s: State, to: Block)
    requires Inv(h, s)
    ensures Inv(h, Next(h, s, Mine(to)))
  {
    hide EventOf;
    hide CommitmentOf;
    var t := Next(h, s, Mine(to));
    forall c | c in t.pending ensures PendingLogged(t, c) { assert PendingLogged(s, c); }
    forall c | c in t.records && t.records[c].authorBound ensures OpenedRightly(h, t, c) { assert OpenedRightly(h, s, c); }
  }

  lemma {:induction false} StepKeepsInv(h: Hash, s: State, step: Step)
    requires Inv(h, s)
    ensures Inv(h, Next(h, s, step))
  {
    hide Inv;
    hide ExecCommit;
    hide ExecReveal;
    hide ExecAnchor;
    match step {
      case Mine(to) => MineKeeps(h, s, to);
      case Call(tx) =>
        if Exec(h, s, tx).Ok? {
          match tx {
            case Commit(sender, c) => CommitKeeps(h, s, sender, c);
            case Reveal(sender, c, salt, parent) => RevealKeeps(h, s, sender, c, salt, parent);
            case Anchor(sender, c, parent) => AnchorKeeps(h, s, sender, c, parent);
          }
        }
    }
  }

  /** In every reachable state, whoever sent what: each author-bound record rests on a commitment
      to its content, bound to its contributor, registered more than the delay earlier; and the
      lineage graph is acyclic. */
  lemma {:induction false} RunsKeepInv(h: Hash, run: Run)
    ensures Inv(h, Final(h, run))
  {
    hide Inv;
    hide Next;
    match run {
      case Start(at) => GenesisHolds(h, at);
      case Then(before, step) =>
        RunsKeepInv(h, before);
        StepKeepsInv(h, Final(h, before), step);
    }
  }

  lemma GenesisHolds(h: Hash, at: Block)
    ensures Inv(h, Genesis(at))
  {
  }

  lemma AuthorBoundWasCommitted(h: Hash, run: Run, contentHash: Digest)
    requires contentHash in Final(h, run).records && Final(h, run).records[contentHash].authorBound
    ensures exists salt, i ::
              0 <= i < |Final(h, run).committed| &&
              Final(h, run).committed[i].commitment == CommitmentOf(h, contentHash, Final(h, run).records[contentHash].contributor, salt) &&
              Final(h, run).committed[i].blockNumber + MIN_REVEAL_DELAY < Final(h, run).records[contentHash].blockNumber
  {
    hide CommitmentOf;
    hide Next;
    RunsKeepInv(h, run);
    assert OpenedRightly(h, Final(h, run), contentHash);
  }

  /** The steps a chain takes after some point. */
  datatype Later = Here | More(before: Later, step: Step)

  function After(h: Hash, s: State, l: Later): State {
    match l
    case Here => s
    case More(before, step) => Next(h, After(h, s, before), step)
  }

  /** One step changes or removes no record. */
  lemma StepKeepsRecords(h: Hash, s: State, step: Step)
    ensures forall c :: c in s.records ==> c in Next(h, s, step).records && Next(h, s, step).records[c] == s.records[c]
    ensures Next(h, s, step).block >= s.block
  {
    hide CommitmentOf;
    hide EventOf;
  }

  /** First writer wins: through anything that happens later a record stays as it was written. */
  lemma {:induction false} RecordsNeverChange(h: Hash, s: State, l: Later)
    ensures forall c :: c in s.records ==> c in After(h, s, l).records && After(h, s, l).records[c] == s.records[c]
    ensures After(h, s, l).block >= s.block
  {
    hide Next;
    if l.More? {
      RecordsNeverChange(h, s, l.before);
      StepKeepsRecords(h, After(h, s, l.before), l.step);
    }
  }

  lemma {:induction false} AfterKeepsInv(h: Hash, s: State, l: Later)
    requires Inv(h, s)
    ensures Inv(h, After(h, s, l))
  {
    hide Inv;
    hide Next;
    if l.More? {
      AfterKeepsInv(h, s, l.before);
      StepKeepsInv(h, After(h, s, l.before), l.step);
    }
  }

  /** Committed events are only added, and each with a block number no earlier than the start. */
  lemma {:induction false} LaterEvents(h: Hash, s: State, l: Later)
    ensures s.committed <= After(h, s, l).committed && After(h, s, l).block >= s.block
    ensures forall i :: |s.committed| <= i < |After(h, s, l).committed| ==> After(h, s, l).committed[i].blockNumber >= s.block
  {
    hide CommitmentOf;
    hide EventOf;
    hide RecordFault;
    if l.More? { LaterEvents(h, s, l.before); }
  }

  // ---- copying a reveal ----------------------------------------------------------------------------------

  predicate Registered(s: State, c: Digest) { exists i :: 0 <= i < |s.committed| && s.committed[i].commitment == c }

  /** A copier who learns content and salt only once the reveal is public comes too late to reveal:
      if by then no event carries the copier's own commitment to them, no reveal by the copier with
      that salt succeeds before more than the delay has passed, whatever anyone does meanwhile. */
  lemma CopiedRevealComesTooLate(h: Hash, run: Run, l: Later, b: Account, contentHash: Digest, salt: Digest, parent: Digest)
    requires !Registered(Final(h, run), CommitmentOf(h, contentHash, b, salt))
    requires After(h, Final(h, run), l).block <= Final(h, run).block + MIN_REVEAL_DELAY
    ensures !ExecReveal(h, After(h, Final(h, run), l), b, contentHash, salt, parent).Ok?
  {
    hide CommitmentOf;
    hide EventOf;
    hide Next;
    var s, t := Final(h, run), After(h, Final(h, run), l);
    var c := CommitmentOf(h, contentHash, b, salt);
    RunsKeepInv(h, run);
    AfterKeepsInv(h, s, l);
    LaterEvents(h, s, l);
    if c in t.pending {
      assert PendingLogged(t, c);
      assert forall i :: 0 <= i < |s.committed| ==> t.committed[i] == s.committed[i];
    }
  }

  /** So the owner's registration is of no use to the copier: a copied reveal that does succeed in
      that window opens the copier's own commitment, different from the owner's and on the chain
      before there was anything to copy. */
  lemma CopiedRevealNeedsOwnCommitment(h: Hash, run: Run, l: Later, a: Account, b: Account, contentHash: Digest, salt: Digest, parent: Digest)
    requires a != b && After(h, Final(h, run), l).block <= Final(h, run).block + MIN_REVEAL_DELAY
    requires ExecReveal(h, After(h, Final(h, run), l), b, contentHash, salt, parent).Ok?
    ensures Registered(Final(h, run), CommitmentOf(h, contentHash, b, salt))
    ensures CommitmentOf(h, contentHash, b, salt) != CommitmentOf(h, contentHash, a, salt) ||
            Clash(h, {CommitmentMessage(contentHash, a, salt), CommitmentMessage(contentHash, b, salt)})
  {
    hide CommitmentMessage;
    hide ExecReveal;
    hide Next;
    if !Registered(Final(h, run), CommitmentOf(h, contentHash, b, salt)) {
      CopiedRevealComesTooLate(h, run, l, b, contentHash, salt, parent);
    }
    CopiedRevealMissesCommitment(h, contentHash, salt, a, b);
  }

  // ---- who registered ------------------------------------------------------------------------------------

  /** The registering sender need not be the contributor: a reveal looks the commitment up by its
      hash alone.  Here b registers a's commitment, and a's reveal still succeeds. */
  lemma RegistrarNeedNotBeContributor(h: Hash, a: Account, b: Account, contentHash: Digest, salt: Digest)
    requires a != b && contentHash != ZERO && CommitmentOf(h, contentHash, a, salt) != ZERO
    ensures var c := CommitmentOf(h, contentHash, a, salt);
            var run := Then(Then(Then(Start(0), Call(Commit(b, c))), Mine(2)), Call(Reveal(a, contentHash, salt, ZERO)));
            var s := Final(h, run);
            contentHash in s.records && s.records[contentHash] == Record(a, true, 2, ZERO) &&
            s.committed == [Committed(c, b, 0)]
  {
    hide CommitmentOf;
    var c := CommitmentOf(h, contentHash, a, salt);
    var r1 := Then(Start(0), Call(Commit(b, c)));
    assert Final(h, r1) == State(0, map[c := Commitment.Commitment(b, 0)], map[], [], [Committed(c, b, 0)], map[]);
    var r2 := Then(r1, Mine(2));
    assert Final(h, r2) == Final(h, r1).(block := 2);
  }

  /** Exactly when the contributor is the registrar: when the commitment on file at the reveal
      names the revealing sender. */
  lemma RegisteredByContributorExactly(h: Hash, s: State, sender: Account, contentHash: Digest, salt: Digest, parent: Digest)
    requires Inv(h, s) && ExecReveal(h, s, sender, contentHash, salt, parent).Ok?
    ensures var t := ExecReveal(h, s, sender, contentHash, salt, parent).next;
            t.openings[contentHash].event < |t.committed| &&
            (t.committed[t.openings[contentHash].event].committer == t.records[contentHash].contributor
             <==> s.pending[CommitmentOf(h, contentHash, sender, salt)].committer == sender)
  {
    hide CommitmentOf;
    hide EventOf;
    assert PendingLogged(s, CommitmentOf(h, contentHash, sender, salt));
  }

  /** The delay in numbers: a commitment of block n cannot be opened in block n or n + 1, and from
      n + 2 on the delay is no obstacle. */
  lemma DelayIsOneBlock(h: Hash, s: State, sender: Account, contentHash: Digest, salt: Digest, parent: Digest)
    requires contentHash != Digest(0) && CommitmentOf(h, contentHash, sender, salt) in s.pending
    ensures var n := s.pending[CommitmentOf(h, contentHash, sender, salt)].blockNumber;
            ExecReveal(h, s, sender, contentHash, salt, parent) == Reverted(RevealTooSoon) <==> s.block < n + 2
  {
    hide CommitmentOf;
  }

  /** An opening is single-use: right after it, the same reveal finds no commitment. */
  lemma OpeningIsSingleUse(h: Hash, s: State, sender: Account, contentHash: Digest, salt: Digest, parent: Digest)
    requires ExecReveal(h, s, sender, contentHash, salt, parent).Ok?
    ensures var t := ExecReveal(h, s, sender, contentHash, salt, parent).next;
            forall p :: ExecReveal(h, t, sender, contentHash, salt, p) == Reverted(NoSuchCommitment)
  {
    hide CommitmentOf;
    hide EventOf;
  }

  // ---- the client ------------------------------------------------------------------------------------------

  /** What runCommit writes down before it returns. */
  datatype Receipt = Receipt(contentHash: Digest, committer: Account, salt: Digest, parent: Option<Digest>,
                             commitBlock: Block, minRevealDelay: nat)

  /** runCommit: send the commitment, then record what the reveal will need. */
  method RunCommit(registry: Registry, signer: Account, contentHash: Digest, salt: Digest, parent: Option<Digest>)
    returns (r: Option<Receipt>)
    modifies registry
    ensures r.None? ==> registry.Now() == old(registry.Now())
    ensures r.Some? ==> r.value == Receipt(contentHash, signer, salt, parent, registry.block, MIN_REVEAL_DELAY)
    ensures r.Some? ==> var c := CommitmentOf(registry.h, contentHash, signer, salt);
                        c !in old(registry.pending) && c in registry.pending &&
                        registry.pending[c] == Commitment.Commitment(signer, r.value.commitBlock)
  {
    var commitment := CommitmentOf(registry.h, contentHash, signer, salt);
    var e := registry.DoCommit(signer, commitment);
    if e.Some? { return None; }
    r := Some(Receipt(contentHash, signer, salt, parent, registry.block, MIN_REVEAL_DELAY));
  }

  /** The transaction runReveal sends for a receipt. */
  function RevealTx(r: Receipt): Tx {
    Reveal(r.committer, r.contentHash, r.salt, if r.parent.Some? then r.parent.value else ZERO)
  }

  /** _waitRevealWindow over the block numbers the provider answers with, one per poll: the first
      one past the window, or nothing while none is. */
  method WaitRevealWindow(polls: seq<Block>, r: Receipt) returns (passed: Option<nat>)
    ensures passed.Some? ==> passed.value < |polls| && polls[passed.value] > r.commitBlock + r.minRevealDelay
    ensures passed.Some? ==> forall j :: 0 <= j < passed.value ==> polls[j] <= r.commitBlock + r.minRevealDelay
    ensures passed.None? <==> forall j :: 0 <= j < |polls| ==> polls[j] <= r.commitBlock + r.minRevealDelay
  {
    var revealAfter := r.commitBlock + r.minRevealDelay;
    var k := 0;
    while k < |polls| && polls[k] <= revealAfter
      invariant 0 <= k <= |polls| && forall j :: 0 <= j < k ==> polls[j] <= revealAfter
    {
      k := k + 1;
    }
    passed := if k < |polls| then Some(k) else None;
  }

  /** The predecessor a receipt names; the zero hash when it names none. */
  function ParentNamed(r: Receipt): (p: Digest)
    ensures r.parent == Some(p) || (r.parent == None && p == Digest(0))
  {
    match r.parent
    case Some(p) => p
    case None => ZERO
  }

  datatype RevealOutcome = Sent(result: Result) | WrongSigner | StillWaiting

  /** runReveal from a receipt: refuse a foreign signer, wait, send.  `at` gives the chain state as of
      each poll; the transaction is mined some steps after the poll that ended the wait. */
  method RunReveal(h: Hash, signer: Account, r: Receipt, at: seq<State>, untilMined: Later) returns (o: RevealOutcome)
    ensures o.WrongSigner? <==> signer != r.committer
    ensures o.Sent? ==> exists k :: 0 <= k < |at| && at[k].block > r.commitBlock + r.minRevealDelay &&
                                    (forall j :: 0 <= j < k ==> at[j].block <= r.commitBlock + r.minRevealDelay) &&
                                    o.result == Exec(h, After(h, at[k], untilMined), RevealTx(r)) &&
                                    (o.result.Ok? ==>
                                       r.contentHash in o.result.next.records &&
                                       o.result.next.records[r.contentHash]
                                       == Record(r.committer, true, After(h, at[k], untilMined).block, ParentNamed(r)))
    ensures o.StillWaiting? <==> signer == r.committer && forall k :: 0 <= k < |at| ==> at[k].block <= r.commitBlock + r.minRevealDelay
  {
    if signer != r.committer { return WrongSigner; }
    var polls := seq(|at|, i requires 0 <= i < |at| => at[i].block);
    var passed := WaitRevealWindow(polls, r);
    assert forall k :: 0 <= k < |at| ==> polls[k] == at[k].block;
    if passed.None? { return StillWaiting; }
    o := Sent(Exec(h, After(h, at[passed.value], untilMined), RevealTx(r)));
  }

  /** What the reveals of a stretch of steps hash. */
  function RevealMessages(l: Later): set<Data> {
    match l
    case Here => {}
    case More(before, step) =>
      RevealMessages(before) +
      match step { case Call(Reveal(a, c, s, _)) => {CommitmentMessage(c, a, s)} case _ => {} }
  }

  /** The committer opened the receipt's commitment in this stretch. */
  predicate Opened(h: Hash, s: State, l: Later, r: Receipt) {
    l.More? && (Opened(h, s, l.before, r) ||
                (l.step.Call? && l.step.tx.Reveal? && l.step.tx.sender == r.committer && l.step.tx.contentHash == r.contentHash &&
                 l.step.tx.salt == r.salt && Exec(h, After(h, s, l.before), l.step.tx).Ok?))
  }

  /** A commitment stays on file, at its block, through anything anyone else does. */
  lemma {:induction false} CommitmentStays(h: Hash, s: State, l: Later, r: Receipt, seen: set<Data>)
    requires CommitmentOf(h, r.contentHash, r.committer, r.salt) in s.pending
    requires !Opened(h, s, l, r) && !Clash(h, seen)
    requires RevealMessages(l) + {CommitmentMessage(r.contentHash, r.committer, r.salt)} <= seen
    ensures var c := CommitmentOf(h, r.contentHash, r.committer, r.salt);
            c in After(h, s, l).pending && After(h, s, l).pending[c] == s.pending[c]
  {
    hide CommitmentMessage;
    hide EventOf;
    hide RecordFault;
    if l.More? {
      CommitmentStays(h, s, l.before, r, seen);
      var m := CommitmentMessage(r.contentHash, r.committer, r.salt);
      if l.step.Call? && l.step.tx.Reveal? && Exec(h, After(h, s, l.before), l.step.tx).Ok? {
        var tx := l.step.tx;
        var x := CommitmentMessage(tx.contentHash, tx.sender, tx.salt);
        if h(x) == h(m) {
          NoClash(h, seen, x, m);
          CommitmentMessageInjective(tx.contentHash, tx.sender, tx.salt, r.contentHash, r.committer, r.salt);
        }
      }
    }
  }

  /** Once the receipt is written, a reveal by its committer that waited the window meets the delay
      rule, whatever anyone did meanwhile; and it succeeds exactly when the content is a non-zero
      hash nobody has anchored and the parent, if any, is another anchored record. */
  lemma WaitedRevealMeetsDelay(h: Hash, s: State, l: Later, r: Receipt)
    requires CommitmentOf(h, r.contentHash, r.committer, r.salt) in s.pending
    requires s.pending[CommitmentOf(h, r.contentHash, r.committer, r.salt)].blockNumber == r.commitBlock
    requires r.minRevealDelay == MIN_REVEAL_DELAY && After(h, s, l).block > r.commitBlock + r.minRevealDelay
    requires !Opened(h, s, l, r)
    ensures (Exec(h, After(h, s, l), RevealTx(r)) !in {Reverted(RevealTooSoon), Reverted(NoSuchCommitment)} &&
             (Exec(h, After(h, s, l), RevealTx(r)).Ok? <==> RecordFault(After(h, s, l), r.contentHash, ParentNamed(r)) == None)) ||
            Clash(h, RevealMessages(l) + {CommitmentMessage(r.contentHash, r.committer, r.salt)})
  {
    hide CommitmentMessage;
    hide EventOf;
    var seen := RevealMessages(l) + {CommitmentMessage(r.contentHash, r.committer, r.salt)};
    if !Clash(h, seen) { CommitmentStays(h, s, l, r, seen); }
  }

  /** The predecessor is checked at the reveal: with the content still free and the wait over, a
      receipt that names another hash nobody has anchored gets UnknownParent, and one that names
      its own content gets SelfParent. */
  lemma {:induction false} UnknownParentReverts(h: Hash, s: State, l: Later, r: Receipt)
    requires CommitmentOf(h, r.contentHash, r.committer, r.salt) in s.pending
    requires s.pending[CommitmentOf(h, r.contentHash, r.committer, r.salt)].blockNumber == r.commitBlock
    requires r.minRevealDelay == MIN_REVEAL_DELAY && After(h, s, l).block > r.commitBlock + r.minRevealDelay
    requires !Opened(h, s, l, r) && r.contentHash != Digest(0) && r.contentHash !in After(h, s, l).records
    requires r.parent.Some? && r.parent.value != Digest(0) && r.parent.value !in After(h, s, l).records
    ensures Exec(h, After(h, s, l), RevealTx(r)) == Reverted(if r.parent.value == r.contentHash then SelfParent else UnknownParent) ||
            Clash(h, RevealMessages(l) + {CommitmentMessage(r.contentHash, r.committer, r.salt)})
  {
    hide CommitmentMessage;
    hide CommitmentOf;
    hide After;
    hide Opened;
    WaitedRevealMeetsDelay(h, s, l, r);
  }

  /** The other half of that condition: being first.  Whenever a reveal would succeed, a plain
      anchor of the same hash by any account would succeed as well, and the reveal sent after it
      reverts.  The record is then that account's, and not author-bound: attribution through a
      commitment cannot be redirected, but the hash itself goes to its first writer. */
  lemma FirstWriterWins(h: Hash, s: State, a: Account, contentHash: Digest, salt: Digest, parent: Digest, b: Account)
    requires ExecReveal(h, s, a, contentHash, salt, parent).Ok?
    ensures ExecAnchor(s, b, contentHash, ZERO).Ok?
    ensures var t := ExecAnchor(s, b, contentHash, ZERO).next;
            t.records[contentHash] == Record(b, false, s.block, ZERO) &&
            ExecReveal(h, t, a, contentHash, salt, parent) == Reverted(AlreadyAnchored)
  {
    hide CommitmentOf;
    hide EventOf;
  }
}
