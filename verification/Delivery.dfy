/** cli/fulfill-webhook-http.js fulfillRequest: at-least-once deliveries made idempotent, with an
    await between looking for the license file and creating it. */
module Delivery {
  import opened Hashing
  import opened Text
  import opened MerkleTree
  import opened Json

  datatype BillingEvent = BillingEvent(provider: Text, kind: Option<Text>, priceId: Text, customer: Text, periodEnd: nat)

  /** The signed license, by what its payload says.  Times are epoch milliseconds. */
  datatype License = License(licenseId: Text, customer: Text, plan: Text, issuedAt: nat, expiresAt: nat)

  datatype SignatureReason = MissingHeader | MalformedHeader | SignatureMismatch | OutsideTolerance

  /** What a server is configured with, each part a total function of its inputs: the signature
      check (nothing when the signature is good), the body parser, the price binding with the
      plan catalog, and the key-derivation hash. */
  datatype Config = Config(verify: (Data, Data, nat) -> Option<SignatureReason>,
                           parse: Data -> Option<BillingEvent>,
                           plan: (Text, Text) -> Option<Text>,
                           sha: Hash)

  // ---- keys and licenses -------------------------------------------------------------------------

  function MaybeText(t: Option<Text>): Scalar { if t.Some? then Str(t.value) else Null }

  function KeyMessage(e: BillingEvent): Data {
    ArrayBytes(Str(e.provider), More(MaybeText(e.kind), More(Str(e.priceId), More(Str(e.customer), More(Num(e.periodEnd), Done)))))
  }

  /** intakeDedupKey: the event's own content and nothing else. */
  function Key(cfg: Config, e: BillingEvent): Digest { (cfg.sha)(KeyMessage(e)) }

  lemma KeyMessageInjective(d: BillingEvent, e: BillingEvent)
    requires KeyMessage(d) == KeyMessage(e)
    ensures d == e
  {
    hide ArrayBytes;
    var xs := More(MaybeText(d.kind), More(Str(d.priceId), More(Str(d.customer), More(Num(d.periodEnd), Done))));
    var ys := More(MaybeText(e.kind), More(Str(e.priceId), More(Str(e.customer), More(Num(e.periodEnd), Done))));
    ArrayBytesInjective(Str(d.provider), xs, Str(e.provider), ys);
    assert xs.head == ys.head && xs.tail.head == ys.tail.head && xs.tail.tail.head == ys.tail.tail.head;
  }

  /** Different events get different keys, or the hash collides on their canonical forms. */
  lemma KeysTellEventsApart(cfg: Config, d: BillingEvent, e: BillingEvent)
    requires Key(cfg, d) == Key(cfg, e)
    ensures d == e || Clash(cfg.sha, {KeyMessage(d), KeyMessage(e)})
  {
    var seen := {KeyMessage(d), KeyMessage(e)};
    if !Clash(cfg.sha, seen) {
      NoClash(cfg.sha, seen, KeyMessage(d), KeyMessage(e));
      KeyMessageInjective(d, e);
    }
  }

  /** LIC- and the first 24 hex digits of the key. */
  function LicenseId(key: Digest): Text { Ascii("LIC-") + HexBytes(Word(key))[..24] }

  /** License ids differ exactly where keys differ in their first 12 bytes: different customers,
      prices or periods share one only on a collision of that truncated hash. */
  lemma LicenseIdsAgreeExactly(k: Digest, l: Digest)
    ensures LicenseId(k) == LicenseId(l) <==> Word(k)[..12] == Word(l)[..12]
    ensures LicenseId(k) == [76, 73, 67, 45] + Hex(k)[2..26]
  {
    HexBytesPrefix(Word(k), 12);
    HexBytesPrefix(Word(l), 12);
    assert LicenseId(k)[4..] == HexBytes(Word(k))[..24] && LicenseId(l)[4..] == HexBytes(Word(l))[..24];
    if LicenseId(k) == LicenseId(l) { HexBytesInjective(Word(k)[..12], Word(l)[..12]); }
  }

  /** The license an event maps to at a given time; nothing for an unmapped price or a period
      that has already ended. */
  function MapEvent(cfg: Config, e: BillingEvent, nowMs: nat): Option<License> {
    match (cfg.plan)(e.provider, e.priceId)
    case None => None
    case Some(plan) =>
      if e.periodEnd * 1000 <= nowMs then None
      else Some(License(LicenseId(Key(cfg, e)), e.customer, plan, nowMs, e.periodEnd * 1000))
  }

  // ---- one request, in the two pieces the await cuts it into ---------------------------------------

  type RequestId = nat

  datatype Request = Request(raw: Data, header: Data, nowMs: nat)

  datatype Response = Delivered(licenseId: Text, idempotent: bool) | Failed(status: nat)

  /** A request parked at the await, with the license it is about to write. */
  datatype Parked = Parked(event: BillingEvent, license: License)

  /** What is at a path: a whole license, or what a write that broke off left there.  Creating the
      file and writing it are two things, and nothing removes the file when the second fails. */
  datatype File = Whole(license: License) | Torn

  type Directory = map<Digest, File>

  function SignatureStatus(r: SignatureReason): nat { if r.MalformedHeader? then 400 else 401 }

  /** An existing file is read back through the strict license reader, which throws on a torn one;
      an error that is not an HttpError is answered 500. */
  function ReadBack(f: File): Response { if f.Whole? then Delivered(f.license.licenseId, true) else Failed(500) }

  datatype Begun = Answer(response: Response) | Await(parked: Parked)

  /** The synchronous part, up to the signing: authenticate, parse, look for the file, map. */
  function BeginOutcome(cfg: Config, dir: Directory, r: Request): Begun {
    match (cfg.verify)(r.raw, r.header, r.nowMs)
    case Some(reason) => Answer(Failed(SignatureStatus(reason)))
    case None =>
      match (cfg.parse)(r.raw)
      case None => Answer(Failed(400))
      case Some(e) =>
        var key := Key(cfg, e);
        if key in dir then Answer(ReadBack(dir[key]))
        else
          match MapEvent(cfg, e, r.nowMs)
          case None => Answer(Failed(422))
          case Some(license) => Await(Parked(e, license))
  }

  /** What the environment decides while a request is parked: the signer throws; the file cannot be
      created; it is created but the write breaks off; or all goes well. */
  datatype Weather = SignFails | NotCreated | WriteBreaks | Fine

  // ---- all interleavings ---------------------------------------------------------------------------

  /** One answered request. */
  datatype Answered = Answered(request: Request, response: Response)

  /** `origin` remembers which request made each file; `lost` the files whose answer a crash ate. */
  datatype State = State(dir: Directory, waiting: map<RequestId, (Request, Parked)>, log: seq<Answered>,
                         origin: map<Digest, (Request, Parked)>, lost: set<Digest>)

  /** Where a crash strikes: between requests, in the middle of a write, or after a write and
      before its answer. */
  datatype Moment = Between | Writing(id: RequestId) | Written(id: RequestId)

  /** A crash forgets the parked requests and keeps the directory. */
  datatype Step = Begin(id: RequestId, request: Request) | Finish(id: RequestId, weather: Weather) | Crash(moment: Moment)

  predicate Enabled(s: State, step: Step) {
    match step
    case Begin(id, _) => id !in s.waiting
    case Finish(id, _) => id in s.waiting
    case Crash(moment) => !moment.Between? ==> moment.id in s.waiting
  }

  function Say(s: State, r: Request, response: Response): State { s.(log := s.log + [Answered(r, response)]) }

  function ParkedKey(cfg: Config, s: State, id: RequestId): Digest
    requires id in s.waiting
  {
    Key(cfg, s.waiting[id].1.event)
  }

  /** The exclusive create, and how far the write got; nothing when the file is already there. */
  function Put(cfg: Config, s: State, id: RequestId, f: File): State
    requires id in s.waiting
  {
    var key := ParkedKey(cfg, s, id);
    if key in s.dir then s else s.(dir := s.dir[key := f], origin := s.origin[key := s.waiting[id]])
  }

  /** What the directory is like after a crash. */
  function Struck(cfg: Config, s: State, moment: Moment): State
    requires Enabled(s, Crash(moment))
  {
    match moment
    case Between => s
    case Writing(id) => Put(cfg, s, id, Torn)
    case Written(id) =>
      if ParkedKey(cfg, s, id) in s.dir then s
      else Put(cfg, s, id, Whole(s.waiting[id].1.license)).(lost := s.lost + {ParkedKey(cfg, s, id)})
  }

  function Unpark(s: State, id: RequestId): State { s.(waiting := s.waiting - {id}) }

  function NextFinish(cfg: Config, s: State, id: RequestId, weather: Weather): State
    requires id in s.waiting
  {
    var (r, parked) := s.waiting[id];
    var key := ParkedKey(cfg, s, id);
    if weather.SignFails? then Say(Unpark(s, id), r, Failed(500))
    else if key in s.dir then Say(Unpark(s, id), r, ReadBack(s.dir[key]))
    else
      match weather
      case NotCreated => Say(Unpark(s, id), r, Failed(500))
      case WriteBreaks => Say(Unpark(Put(cfg, s, id, Torn), id), r, Failed(500))
      case _ => Say(Unpark(Put(cfg, s, id, Whole(parked.license)), id), r, Delivered(parked.license.licenseId, false))
  }

  function Next(cfg: Config, s: State, step: Step): State
    requires Enabled(s, step)
  {
    match step
    case Begin(id, r) =>
      (match BeginOutcome(cfg, s.dir, r)
       case Answer(response) => Say(s, r, response)
       case Await(parked) => s.(waiting := s.waiting[id := (r, parked)]))
    case Finish(id, weather) => NextFinish(cfg, s, id, weather)
    case Crash(moment) => Struck(cfg, s, moment).(waiting := map[])
  }

  /** The request is authentic and is about this event. */
  predicate IsAbout(cfg: Config, r: Request, e: BillingEvent) {
    (cfg.verify)(r.raw, r.header, r.nowMs) == None && (cfg.parse)(r.raw) == Some(e)
  }

  /** The server, as its handlers change the output directory and the set of parked requests. */
  class Server {
    const cfg: Config
    var dir: Directory
    var waiting: map<RequestId, (Request, Parked)>
    ghost var log: seq<Answered>
    ghost var origin: map<Digest, (Request, Parked)>
    ghost var lost: set<Digest>

    ghost function Now(): State
      reads this
    {
      State(dir, waiting, log, origin, lost)
    }

    constructor (config: Config)
      ensures Now() == Empty() && cfg == config
    {
      cfg := config;
      dir, waiting := map[], map[];
      log, origin, lost := [], map[], {};
    }

    /** The request up to its first await. */
    method BeginRequest(id: RequestId, r: Request) returns (answer: Option<Response>)
      requires Enabled(Now(), Begin(id, r))
      modifies this
      ensures Now() == Next(cfg, old(Now()), Begin(id, r))
      ensures answer.None? <==> id in waiting
      ensures answer.Some? ==> log == old(log) + [Answered(r, answer.value)]
      ensures dir == old(dir)
      ensures (cfg.verify)(r.raw, r.header, r.nowMs) == Some(MalformedHeader) ==> answer == Some(Failed(400))
      ensures (cfg.verify)(r.raw, r.header, r.nowMs) in {Some(MissingHeader), Some(SignatureMismatch), Some(OutsideTolerance)}
              ==> answer == Some(Failed(401))
      ensures (cfg.verify)(r.raw, r.header, r.nowMs) == None && (cfg.parse)(r.raw) == None ==> answer == Some(Failed(400))
      ensures forall e :: IsAbout(cfg, r, e) && Key(cfg, e) in dir ==>
                answer == Some(if dir[Key(cfg, e)].Whole? then Delivered(dir[Key(cfg, e)].license.licenseId, true) else Failed(500))
      ensures forall e :: IsAbout(cfg, r, e) && Key(cfg, e) !in dir ==>
                (answer == Some(Failed(422)) <==> (cfg.plan)(e.provider, e.priceId).None? || e.periodEnd * 1000 <= r.nowMs) &&
                (answer == None <==> (cfg.plan)(e.provider, e.priceId).Some? && r.nowMs < e.periodEnd * 1000)
    {
      answer := None;
      var sig := (cfg.verify)(r.raw, r.header, r.nowMs);
      if sig.Some? {
        answer := Some(Failed(SignatureStatus(sig.value)));
      } else {
        var event := (cfg.parse)(r.raw);
        if event.None? {
          answer := Some(Failed(400));
        } else {
          var key := Key(cfg, event.value);
          if key in dir {
            answer := Some(ReadBack(dir[key]));
          } else {
            var license := MapEvent(cfg, event.value, r.nowMs);
            if license.None? {
              answer := Some(Failed(422));
            } else {
              waiting := waiting[id := (r, Parked(event.value, license.value))];
            }
          }
        }
      }
      if answer.Some? { log := log + [Answered(r, answer.value)]; }
    }

    /** The rest of it: sign, create exclusively and write, or read the winner back. */
    method FinishRequest(id: RequestId, weather: Weather) returns (response: Response)
      requires Enabled(Now(), Finish(id, weather))
      modifies this
      ensures Now() == Next(cfg, old(Now()), Finish(id, weather))
      ensures log == old(log) + [Answered(old(waiting)[id].0, response)]
      ensures var license := old(waiting)[id].1.license;
              var key := Key(cfg, old(waiting)[id].1.event);
              if weather.SignFails? then response == Failed(500) && dir == old(dir)
              else if key in old(dir) then
                dir == old(dir) && response == if dir[key].Whole? then Delivered(dir[key].license.licenseId, true) else Failed(500)
              else if weather.NotCreated? then response == Failed(500) && dir == old(dir)
              else if weather.WriteBreaks? then response == Failed(500) && dir == old(dir)[key := Torn]
              else response == Delivered(license.licenseId, false) && dir == old(dir)[key := Whole(license)]
    {
      var (r, parked) := waiting[id];
      var key := Key(cfg, parked.event);
      response := Failed(500);
      if !weather.SignFails? {
        if key in dir {
          response := ReadBack(dir[key]);
        } else if !weather.NotCreated? {
          dir := dir[key := Torn];
          origin := origin[key := waiting[id]];
          if weather.Fine? {
            dir := dir[key := Whole(parked.license)];
            response := Delivered(parked.license.licenseId, false);
          }
        }
      }
      waiting := waiting - {id};
      log := log + [Answered(r, response)];
    }

    /** The process dies and is started again on the same directory. */
    method Restart(moment: Moment)
      requires Enabled(Now(), Crash(moment))
      modifies this
      ensures Now() == Next(cfg, old(Now()), Crash(moment))
    {
      if !moment.Between? {
        var parked := waiting[moment.id].1;
        var key := Key(cfg, parked.event);
        if key !in dir {
          dir := dir[key := Torn];
          origin := origin[key := waiting[moment.id]];
          if moment.Written? {
            dir := dir[key := Whole(parked.license)];
            lost := lost + {key};
          }
        }
      }
      waiting := map[];
    }
  }

  function Empty(): State { State(map[], map[], [], map[], {}) }

  /** A run: steps of any number of requests, interleaved in any order, and crashes. */
  datatype Run = Start | Then(before: Run, step: Step)

  predicate Possible(cfg: Config, run: Run) {
    run.Then? ==> Possible(cfg, run.before) && Enabled(Final(cfg, run.before), run.step)
  }

  function Final(cfg: Config, run: Run): State
    decreases run, 0
  {
    match run
    case Start => Empty()
    case Then(before, step) =>
      var s := Final(cfg, before);
      if Enabled(s, step) then Next(cfg, s, step) else s
  }

  // ---- what every run keeps ------------------------------------------------------------------------

  /** The license is what this request's authenticated, parsed event maps to. */
  predicate Earned(cfg: Config, r: Request, e: BillingEvent, license: License) {
    (cfg.verify)(r.raw, r.header, r.nowMs) == None && (cfg.parse)(r.raw) == Some(e) && MapEvent(cfg, e, r.nowMs) == Some(license)
  }

  /** A 200 stands for a whole file, under the key of the request's own event. */
  ghost predicate Backed(cfg: Config, dir: Directory, a: Answered) {
    a.response.Delivered? ==>
      (cfg.parse)(a.request.raw).Some? && IsAbout(cfg, a.request, (cfg.parse)(a.request.raw).value) &&
      var key := Key(cfg, (cfg.parse)(a.request.raw).value);
      key in dir && dir[key].Whole? && a.response.licenseId == dir[key].license.licenseId == LicenseId(key)
  }

  predicate Creates(cfg: Config, a: Answered, key: Digest) {
    a.response.Delivered? && !a.response.idempotent && (cfg.parse)(a.request.raw).Some? &&
    Key(cfg, (cfg.parse)(a.request.raw).value) == key
  }

  /** A file was made by a request whose event is authentic and mappable, and if whole it holds
      the license that event mapped to. */
  predicate FileEarned(cfg: Config, s: State, key: Digest)
    requires key in s.dir
  {
    key in s.origin && Key(cfg, s.origin[key].1.event) == key &&
    Earned(cfg, s.origin[key].0, s.origin[key].1.event, s.origin[key].1.license) &&
    (s.dir[key].Whole? ==> s.dir[key].license == s.origin[key].1.license)
  }

  /** How many answers of a log created the file of a key. */
  function Creations(cfg: Config, log: seq<Answered>, key: Digest): nat {
    if log == [] then 0
    else Creations(cfg, log[..|log| - 1], key) + if Creates(cfg, log[|log| - 1], key) then 1 else 0
  }

  lemma CreationsSnoc(cfg: Config, log: seq<Answered>, a: Answered, key: Digest)
    ensures Creations(cfg, log + [a], key) == Creations(cfg, log, key) + if Creates(cfg, a, key) then 1 else 0
  {
    assert (log + [a])[..|log|] == log;
  }

  predicate IsWhole(dir: Directory, key: Digest) { key in dir && dir[key].Whole? }

  ghost predicate Inv(cfg: Config, s: State) {
    (forall key :: key in s.dir ==> FileEarned(cfg, s, key)) &&
    (forall id :: id in s.waiting ==> Earned(cfg, s.waiting[id].0, s.waiting[id].1.event, s.waiting[id].1.license)) &&
    (forall i :: 0 <= i < |s.log| ==> Backed(cfg, s.dir, s.log[i])) &&
    (forall key :: Creations(cfg, s.log, key) == if IsWhole(s.dir, key) && key !in s.lost then 1 else 0) &&
    (forall key :: key in s.lost ==> key in s.dir)
  }

  lemma EarnedId(cfg: Config, s: State, key: Digest)
    requires IsWhole(s.dir, key) && FileEarned(cfg, s, key)
    ensures s.dir[key].license.licenseId == LicenseId(key)
  {
  }

  /** Answering without touching the directory keeps the invariant. */
  lemma {:induction false} SayKeeps(cfg: Config, s: State, r: Request, response: Response)
    requires Inv(cfg, s) && Backed(cfg, s.dir, Answered(r, response))
    requires response.Delivered? ==> response.idempotent
    ensures Inv(cfg, Say(s, r, response))
  {
    hide Backed;
    hide Earned;
    hide Key;
    hide Creations;
    var a := Answered(r, response);
    forall key | key in s.dir ensures FileEarned(cfg, Say(s, r, response), key) { assert FileEarned(cfg, s, key); }
    forall key ensures Creations(cfg, s.log + [a], key) == Creations(cfg, s.log, key) { CreationsSnoc(cfg, s.log, a, key); }
  }

  /** Putting a file where there was none keeps every file and every 200 as it was. */
  lemma {:induction false} PutKeeps(cfg: Config, s: State, id: RequestId, f: File)
    requires Inv(cfg, s) && id in s.waiting && ParkedKey(cfg, s, id) !in s.dir
    requires f.Whole? ==> f.license == s.waiting[id].1.license
    ensures var t := Put(cfg, s, id, f);
            (forall key :: key in t.dir ==> FileEarned(cfg, t, key)) &&
            forall i :: 0 <= i < |t.log| ==> Backed(cfg, t.dir, t.log[i])
  {
    hide Creations;
    hide LicenseId;
    hide Key;
    hide IsAbout;
    hide Earned;
    var t := Put(cfg, s, id, f);
    forall i | 0 <= i < |s.log| ensures Backed(cfg, t.dir, s.log[i]) { assert Backed(cfg, s.dir, s.log[i]); }
    forall key | key in t.dir ensures FileEarned(cfg, t, key) {
      if key in s.dir { assert FileEarned(cfg, s, key); }
    }
  }

  /** A write that breaks off, answered or not. */
  lemma {:induction false} TearKeeps(cfg: Config, s: State, id: RequestId)
    requires Inv(cfg, s) && id in s.waiting
    ensures Inv(cfg, Put(cfg, s, id, Torn)) && Put(cfg, s, id, Torn).log == s.log
  {
    hide Creations;
    hide Backed;
    hide FileEarned;
    hide Key;
    hide Earned;
    if ParkedKey(cfg, s, id) !in s.dir { PutKeeps(cfg, s, id, Torn); }
  }

  lemma CreatedAnswer(cfg: Config, s: State, id: RequestId)
    requires Inv(cfg, s) && id in s.waiting && ParkedKey(cfg, s, id) !in s.dir
    ensures var (r, parked) := s.waiting[id];
            var a := Answered(r, Delivered(parked.license.licenseId, false));
            Backed(cfg, Put(cfg, s, id, Whole(parked.license)).dir, a) &&
            forall k :: Creates(cfg, a, k) <==> k == ParkedKey(cfg, s, id)
  {
    hide Key;
    hide Creations;
    var (r, parked) := s.waiting[id];
    assert Earned(cfg, r, parked.event, parked.license);
  }

  lemma CreationCounts(cfg: Config, s: State, a: Answered, key: Digest, dir: Directory)
    requires Inv(cfg, s) && key !in s.dir && IsWhole(dir, key)
    requires forall k :: k != key ==> (IsWhole(dir, k) <==> IsWhole(s.dir, k))
    requires forall k :: Creates(cfg, a, k) <==> k == key
    ensures forall k :: Creations(cfg, s.log + [a], k) == if IsWhole(dir, k) && k !in s.lost then 1 else 0
  {
    hide Creations;
    hide Creates;
    hide Backed;
    hide FileEarned;
    hide Earned;
    forall k ensures Creations(cfg, s.log + [a], k) == if IsWhole(dir, k) && k !in s.lost then 1 else 0 {
      CreationsSnoc(cfg, s.log, a, k);
    }
  }

  /** Creating the whole file and answering so. */
  lemma {:induction false} CreateKeeps(cfg: Config, s: State, id: RequestId)
    requires Inv(cfg, s) && id in s.waiting && ParkedKey(cfg, s, id) !in s.dir
    ensures var (r, parked) := s.waiting[id];
            Inv(cfg, Say(Put(cfg, s, id, Whole(parked.license)), r, Delivered(parked.license.licenseId, false)))
  {
    hide Creations;
    hide Creates;
    hide Key;
    hide Earned;
    hide Backed;
    var (r, parked) := s.waiting[id];
    var a := Answered(r, Delivered(parked.license.licenseId, false));
    var t := Put(cfg, s, id, Whole(parked.license));
    PutKeeps(cfg, s, id, Whole(parked.license));
    CreatedAnswer(cfg, s, id);
    CreationCounts(cfg, s, a, ParkedKey(cfg, s, id), t.dir);
    SayEarned(cfg, t, r, a.response);
  }

  lemma SayEarned(cfg: Config, s: State, r: Request, response: Response)
    ensures forall key :: key in s.dir && FileEarned(cfg, s, key) ==> FileEarned(cfg, Say(s, r, response), key)
  {
    hide Key;
    hide Earned;
  }

  /** Creating the whole file with the answer lost. */
  lemma {:induction false} LostKeeps(cfg: Config, s: State, id: RequestId)
    requires Inv(cfg, s) && id in s.waiting
    ensures Inv(cfg, Struck(cfg, s, Written(id)))
  {
    hide Creations;
    hide Backed;
    hide Key;
    hide Earned;
    var key := ParkedKey(cfg, s, id);
    if key !in s.dir {
      var t := Put(cfg, s, id, Whole(s.waiting[id].1.license));
      PutKeeps(cfg, s, id, Whole(s.waiting[id].1.license));
      forall k | k in t.dir ensures FileEarned(cfg, t.(lost := s.lost + {key}), k) { assert FileEarned(cfg, t, k); }
    }
  }

  lemma FileOf(cfg: Config, s: State, r: Request, e: BillingEvent)
    requires Inv(cfg, s) && IsAbout(cfg, r, e) && Key(cfg, e) in s.dir
    ensures Backed(cfg, s.dir, Answered(r, ReadBack(s.dir[Key(cfg, e)])))
  {
    hide LicenseId;
    hide Key;
    hide Creations;
    assert FileEarned(cfg, s, Key(cfg, e));
    if s.dir[Key(cfg, e)].Whole? { EarnedId(cfg, s, Key(cfg, e)); }
  }

  /** Changing only who is parked. */
  lemma ParkKeeps(cfg: Config, s: State, waiting: map<RequestId, (Request, Parked)>)
    requires Inv(cfg, s)
    requires forall id :: id in waiting ==>
               (id in s.waiting && waiting[id] == s.waiting[id]) || Earned(cfg, waiting[id].0, waiting[id].1.event, waiting[id].1.license)
    ensures Inv(cfg, s.(waiting := waiting))
  {
    hide Earned;
    hide Backed;
    hide Creations;
    hide Key;
    forall key | key in s.dir ensures FileEarned(cfg, s.(waiting := waiting), key) { assert FileEarned(cfg, s, key); }
  }

  lemma {:induction false} BeginKeeps(cfg: Config, s: State, id: RequestId, r: Request)
    requires Inv(cfg, s) && Enabled(s, Begin(id, r))
    ensures Inv(cfg, Next(cfg, s, Begin(id, r)))
  {
    hide LicenseId;
    hide Key;
    hide Inv;
    match BeginOutcome(cfg, s.dir, r) {
      case Answer(response) =>
        if (cfg.parse)(r.raw).Some? && IsAbout(cfg, r, (cfg.parse)(r.raw).value) && Key(cfg, (cfg.parse)(r.raw).value) in s.dir {
          FileOf(cfg, s, r, (cfg.parse)(r.raw).value);
        }
        SayKeeps(cfg, s, r, response);
      case Await(parked) =>
        ParkKeeps(cfg, s, s.waiting[id := (r, parked)]);
    }
  }

  lemma {:induction false} FinishKeeps(cfg: Config, s: State, id: RequestId, weather: Weather)
    requires Inv(cfg, s) && id in s.waiting
    ensures Inv(cfg, NextFinish(cfg, s, id, weather))
  {
    hide LicenseId;
    hide Key;
    hide Backed;
    hide FileEarned;
    hide Creations;
    var (r, parked) := s.waiting[id];
    var key := ParkedKey(cfg, s, id);
    var rest := s.waiting - {id};
    if !weather.SignFails? && key in s.dir {
      assert Earned(cfg, r, parked.event, parked.license);
      FileOf(cfg, s, r, parked.event);
      SayKeeps(cfg, s, r, ReadBack(s.dir[key]));
      ParkKeeps(cfg, Say(s, r, ReadBack(s.dir[key])), rest);
    } else if weather.Fine? {
      CreateKeeps(cfg, s, id);
      ParkKeeps(cfg, Say(Put(cfg, s, id, Whole(parked.license)), r, Delivered(parked.license.licenseId, false)), rest);
    } else {
      FailKeeps(cfg, s, id, r);
    }
  }

  /** The two ways to a 500 without reading anything back. */
  lemma {:induction false} FailKeeps(cfg: Config, s: State, id: RequestId, r: Request)
    requires Inv(cfg, s) && id in s.waiting
    ensures Inv(cfg, Say(Unpark(s, id), r, Failed(500)))
    ensures Inv(cfg, Say(Unpark(Put(cfg, s, id, Torn), id), r, Failed(500)))
  {
    hide Key;
    hide Inv;
    TearKeeps(cfg, s, id);
    SayKeeps(cfg, s, r, Failed(500));
    SayKeeps(cfg, Put(cfg, s, id, Torn), r, Failed(500));
    ParkKeeps(cfg, Say(s, r, Failed(500)), s.waiting - {id});
    ParkKeeps(cfg, Say(Put(cfg, s, id, Torn), r, Failed(500)), s.waiting - {id});
  }

  lemma {:induction false} CrashKeeps(cfg: Config, s: State, moment: Moment)
    requires Inv(cfg, s) && Enabled(s, Crash(moment))
    ensures Inv(cfg, Next(cfg, s, Crash(moment)))
  {
    hide Inv;
    hide Key;
    match moment {
      case Between =>
      case Writing(id) => TearKeeps(cfg, s, id);
      case Written(id) => LostKeeps(cfg, s, id);
    }
    ParkKeeps(cfg, Struck(cfg, s, moment), map[]);
  }

  lemma EmptyHolds(cfg: Config)
    ensures Inv(cfg, Empty())
  {
  }

  /** In every reachable state, whatever the interleaving and however often the server crashed: each
      file, whole or torn, stems from an authenticated, mappable event; each 200 carries the
      licenseId of the whole file of its own event; and each whole file was created by exactly one
      answer, or by one whose answer a crash ate. */
  lemma {:induction false} RunsKeepInv(cfg: Config, run: Run)
    requires Possible(cfg, run)
    ensures Inv(cfg, Final(cfg, run))
  {
    hide Inv;
    match run {
      case Start => EmptyHolds(cfg);
      case Then(before, step) =>
        RunsKeepInv(cfg, before);
        match step {
          case Begin(id, r) => BeginKeeps(cfg, Final(cfg, before), id, r);
          case Finish(id, weather) => FinishKeeps(cfg, Final(cfg, before), id, weather);
          case Crash(moment) => CrashKeeps(cfg, Final(cfg, before), moment);
        }
    }
  }

  /** A file, once there, is never changed or removed by any later step. */
  lemma StepKeepsFiles(cfg: Config, s: State, step: Step)
    requires Enabled(s, step)
    ensures forall key :: key in s.dir ==> key in Next(cfg, s, step).dir && Next(cfg, s, step).dir[key] == s.dir[key]
  {
    hide Key;
    hide MapEvent;
  }

  predicate IsEarlier(a: Run, b: Run) { a == b || (b.Then? && IsEarlier(a, b.before)) }

  /** A run is earlier than whatever goes on from it, and only such a run is. */
  lemma EarlierInFull(a: Run, b: Run, step: Step)
    ensures IsEarlier(a, a) && (IsEarlier(a, Then(b, step)) <==> IsEarlier(a, b) || a == Then(b, step))
  {
  }

  lemma {:induction false} FilesNeverChange(cfg: Config, a: Run, b: Run)
    requires Possible(cfg, b) && IsEarlier(a, b)
    ensures Possible(cfg, a)
    ensures forall key :: key in Final(cfg, a).dir ==> key in Final(cfg, b).dir && Final(cfg, b).dir[key] == Final(cfg, a).dir[key]
  {
    hide Next;
    if a != b {
      FilesNeverChange(cfg, a, b.before);
      StepKeepsFiles(cfg, Final(cfg, b.before), b.step);
    }
  }

  /** What a delivered license says: the request that made the file was authentic and about an event
      of that key; the license is for that event's customer and for the plan its price is bound to,
      runs from the moment of the request to the end of the paid period, and that end was still
      ahead. */
  lemma LicenseSaysWhatWasPaid(cfg: Config, run: Run, key: Digest)
    requires Possible(cfg, run) && IsWhole(Final(cfg, run).dir, key)
    ensures key in Final(cfg, run).origin
    ensures var (r, parked) := Final(cfg, run).origin[key];
            var e, license := parked.event, Final(cfg, run).dir[key].license;
            (cfg.verify)(r.raw, r.header, r.nowMs) == None && (cfg.parse)(r.raw) == Some(e) && Key(cfg, e) == key &&
            license.customer == e.customer && (cfg.plan)(e.provider, e.priceId) == Some(license.plan) &&
            license.issuedAt == r.nowMs < license.expiresAt == e.periodEnd * 1000 &&
            license.licenseId == Ascii("LIC-") + HexBytes(Word(key))[..24]
  {
    hide Key;
    hide Creations;
    hide Backed;
    RunsKeepInv(cfg, run);
    assert FileEarned(cfg, Final(cfg, run), key);
  }

  /** The key's preimage, in full: a JSON array of the event's own five fields in this order. */
  lemma KeyInFull(cfg: Config, e: BillingEvent)
    ensures WellFormed(KeyText(e)) && Key(cfg, e) == (cfg.sha)(Utf8(KeyText(e)))
  {
    var r4 := More(Num(e.periodEnd), Done);
    var r3 := More(Str(e.customer), r4);
    var r2 := More(Str(e.priceId), r3);
    var r1 := More(MaybeText(e.kind), r2);
    WellFormedArray(Str(e.provider), r1);
    hide Quote;
    hide Decimal;
    assert PrintRest(r4) == [44] + Decimal(e.periodEnd) + [93];
    assert PrintRest(r3) == [44] + Quote(e.customer) + PrintRest(r4);
    assert PrintRest(r2) == [44] + Quote(e.priceId) + PrintRest(r3);
    assert PrintRest(r1) == [44] + (if e.kind.Some? then Quote(e.kind.value) else Ascii("null")) + PrintRest(r2);
    assert KeyText(e) == PrintArray(Str(e.provider), r1);
  }

  function KeyText(e: BillingEvent): Text {
    [91] + Quote(e.provider)
    + ([44] + (if e.kind.Some? then Quote(e.kind.value) else Ascii("null"))
       + ([44] + Quote(e.priceId) + ([44] + Quote(e.customer) + ([44] + Decimal(e.periodEnd) + [93]))))
  }

  /** Any two 200s for one event carry one licenseId, however the deliveries raced. */
  lemma OneLicensePerEvent(cfg: Config, run: Run, i: nat, j: nat)
    requires Possible(cfg, run)
    requires i < |Final(cfg, run).log| && j < |Final(cfg, run).log|
    requires var x, y := Final(cfg, run).log[i], Final(cfg, run).log[j];
             x.response.Delivered? && y.response.Delivered? && (cfg.parse)(x.request.raw) == (cfg.parse)(y.request.raw)
    ensures Final(cfg, run).log[i].response.licenseId == Final(cfg, run).log[j].response.licenseId
  {
    hide LicenseId;
    hide Key;
    hide Creations;
    hide FileEarned;
    RunsKeepInv(cfg, run);
    var s := Final(cfg, run);
    assert Backed(cfg, s.dir, s.log[i]) && Backed(cfg, s.dir, s.log[j]);
  }

  /** What a failing answer leaves behind: never a new whole file, and no file at all unless it is
      the 500 of a write that broke off after creating the file.  So every 4xx, every failed
      signing and every file that could not be created leave the directory as it was. */
  lemma FailuresDeliverNothing(cfg: Config, s: State, step: Step)
    requires Enabled(s, step) && |Next(cfg, s, step).log| > |s.log|
    requires Next(cfg, s, step).log[|s.log|].response.Failed?
    ensures forall key :: IsWhole(Next(cfg, s, step).dir, key) <==> IsWhole(s.dir, key)
    ensures Next(cfg, s, step).dir != s.dir <==>
              step.Finish? && step.weather.WriteBreaks? && ParkedKey(cfg, s, step.id) !in s.dir
    ensures Next(cfg, s, step).log[|s.log|].response.status != 500 ==> Next(cfg, s, step).dir == s.dir
  {
    hide Key;
    hide MapEvent;
    if step.Finish? && step.weather.WriteBreaks? && ParkedKey(cfg, s, step.id) !in s.dir {
      assert ParkedKey(cfg, s, step.id) in Next(cfg, s, step).dir;
    }
  }

  // ---- redelivery ---------------------------------------------------------------------------------------

  /** The answer a redelivered event gets on the spot, in any reachable state: the file's licenseId
      exactly when the file under its key is whole, a 500 exactly when it is torn. */
  lemma RedeliveryExactly(cfg: Config, run: Run, id: RequestId, r: Request, e: BillingEvent)
    requires Possible(cfg, run) && Enabled(Final(cfg, run), Begin(id, r)) && IsAbout(cfg, r, e)
    ensures var s := Final(cfg, run);
            var t := Next(cfg, s, Begin(id, r));
            (t == Say(s, r, Delivered(LicenseId(Key(cfg, e)), true)) <==> IsWhole(s.dir, Key(cfg, e))) &&
            (t == Say(s, r, Failed(500)) <==> Key(cfg, e) in s.dir && s.dir[Key(cfg, e)].Torn?)
  {
    hide Key;
    hide LicenseId;
    hide Creations;
    var s := Final(cfg, run);
    RunsKeepInv(cfg, run);
    if IsWhole(s.dir, Key(cfg, e)) { EarnedId(cfg, s, Key(cfg, e)); }
    SayAgain(s, r);
  }

  lemma SayAgain(s: State, r: Request)
    ensures forall x, y :: Say(s, r, x) == Say(s, r, y) <==> x == y
    ensures forall x :: Say(s, r, x).log != s.log
  {
    forall x, y ensures Say(s, r, x) == Say(s, r, y) <==> x == y {
      assert Say(s, r, x).log[|s.log|] == Answered(r, x) && Say(s, r, y).log[|s.log|] == Answered(r, y);
    }
    forall x ensures Say(s, r, x).log != s.log { assert |Say(s, r, x).log| == |s.log| + 1; }
  }

  /** Once an event was answered 200, every redelivery of it from then on, across crashes and after
      the paid period, is answered 200 with that same licenseId and mints nothing. */
  lemma RedeliveryIsIdempotent(cfg: Config, a: Run, b: Run, i: nat, id: RequestId, r: Request, e: BillingEvent)
    requires Possible(cfg, b) && IsEarlier(a, b) && i < |Final(cfg, a).log|
    requires Final(cfg, a).log[i].response.Delivered? && (cfg.parse)(Final(cfg, a).log[i].request.raw) == Some(e)
    requires Enabled(Final(cfg, b), Begin(id, r)) && IsAbout(cfg, r, e)
    ensures Next(cfg, Final(cfg, b), Begin(id, r))
            == Say(Final(cfg, b), r, Delivered(Final(cfg, a).log[i].response.licenseId, true))
  {
    hide Key;
    hide LicenseId;
    hide Creations;
    hide FileEarned;
    FilesNeverChange(cfg, a, b);
    RunsKeepInv(cfg, a);
    assert Backed(cfg, Final(cfg, a).dir, Final(cfg, a).log[i]);
    RedeliveryExactly(cfg, b, id, r, e);
  }

  /** A torn file is not repaired by redelivery: from then on every one is answered 500. */
  lemma TornStaysTorn(cfg: Config, a: Run, b: Run, id: RequestId, r: Request, e: BillingEvent)
    requires Possible(cfg, b) && IsEarlier(a, b)
    requires Key(cfg, e) in Final(cfg, a).dir && Final(cfg, a).dir[Key(cfg, e)].Torn?
    requires Enabled(Final(cfg, b), Begin(id, r)) && IsAbout(cfg, r, e)
    ensures Next(cfg, Final(cfg, b), Begin(id, r)) == Say(Final(cfg, b), r, Failed(500))
  {
    hide Key;
    hide LicenseId;
    FilesNeverChange(cfg, a, b);
    RedeliveryExactly(cfg, b, id, r, e);
  }
}
