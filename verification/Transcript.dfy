/** cli/agent-hook.js: a session transcript, one JSON line at a time, mapped to session events. */
module Transcript {
  import opened Hashing
  import opened Text
  import opened MerkleTree
  import opened Json
  import opened AgentEvents
  import opened AgentPackets
  import opened AgentGrowth

  /** A parsed line, as far as the mapping looks at it.  A tool call arrives as the JSON it is
      rendered to; so does a tool result that is not a string. */
  datatype Line = NotMessage | Message(fromUser: bool, timestamp: Option<Text>, content: Content)
  datatype Content = TextContent(text: Text) | Blocks(blocks: seq<Block>) | UnknownContent
  datatype Block =
    | TextBlock(text: Text)
    | ToolUse(rendered: Text)
    | ToolResult(id: Option<Text>, content: Text, isError: bool)
    | UnknownBlock

  /** JSON.parse followed by that view; nothing for a line that does not parse. */
  type Parse = Text -> Option<Line>

  /** An event before it gets its seq. */
  datatype Draft = Draft(ts: Text, actor: Text, kind: Text, payload: Text, meta: Meta)

  // ---- one line -----------------------------------------------------------------------------------

  function TextDraft(fromUser: bool, ts: Text, text: Text): Draft {
    if fromUser then Draft(ts, Ascii("user"), Ascii("prompt"), text, Absent)
    else Draft(ts, Ascii("agent:assistant"), Ascii("completion"), text, Absent)
  }

  /** Canonical metadata text: keys in code-unit order. */
  function ToolMeta(id: Text, isError: bool): Text {
    Ascii(if isError then "{\"is_error\":true,\"tool_use_id\":" else "{\"tool_use_id\":") + Quote(id) + Ascii("}")
  }

  function MapBlock(fromUser: bool, ts: Text, b: Block): Option<Draft> {
    match b
    case TextBlock(text) => Some(TextDraft(fromUser, ts, text))
    case ToolUse(rendered) =>
      if fromUser then None
      else Some(Draft(ts, Ascii("agent:assistant"), Ascii("tool_call"), rendered, Absent))
    case ToolResult(id, content, isError) =>
      if !fromUser then None
      else
        var name := if id.Some? then id.value else Ascii("unknown");
        Some(Draft(ts, Ascii("tool:") + name, Ascii("tool_result"), content, Meta.Canonical(ToolMeta(name, isError))))
    case UnknownBlock => None
  }

  /** The events of a run of blocks, in order. */
  function MapBlocks(fromUser: bool, ts: Text, blocks: seq<Block>): (r: seq<Draft>)
    ensures |r| <= |blocks|
  {
    if blocks == [] then []
    else
      var n := |blocks| - 1;
      MapBlocks(fromUser, ts, blocks[..n]) +
      match MapBlock(fromUser, ts, blocks[n]) { case None => [] case Some(d) => [d] }
  }

  predicate IsMapped(line: Line) { line.Message? && !line.content.UnknownContent? }

  function Stamp(line: Line): Text
    requires line.Message?
  {
    if line.timestamp.Some? then line.timestamp.value else []
  }

  /** How many pieces of content a mapped line offers: its one string, or its blocks. */
  function Offered(line: Line): nat
    requires IsMapped(line)
  {
    if line.content.TextContent? then 1 else |line.content.blocks|
  }

  function Drafts(line: Line): (r: seq<Draft>)
    ensures |r| <= if IsMapped(line) then Offered(line) else 0
  {
    if !IsMapped(line) then []
    else
      match line.content
      case TextContent(text) => [TextDraft(line.fromUser, Stamp(line), text)]
      case Blocks(blocks) => MapBlocks(line.fromUser, Stamp(line), blocks)
      case UnknownContent => []
  }

  // ---- what a line's events say -------------------------------------------------------------------

  /** A block is kept by its kind and the line's role alone. */
  predicate IsKept(fromUser: bool, b: Block) { b.TextBlock? || (b.ToolUse? && !fromUser) || (b.ToolResult? && fromUser) }

  /** The event carries this block: its own text or rendering, the line's time, and the actor, type
      and metadata that go with the block's kind and the line's role. */
  predicate Carries(fromUser: bool, ts: Text, b: Block, d: Draft) {
    d.ts == ts &&
    match b
    case TextBlock(text) =>
      d.payload == text && d.meta == Absent &&
      (if fromUser then d.actor == Ascii("user") && d.kind == Ascii("prompt")
       else d.actor == Ascii("agent:assistant") && d.kind == Ascii("completion"))
    case ToolUse(rendered) =>
      d.payload == rendered && d.meta == Absent && d.actor == Ascii("agent:assistant") && d.kind == Ascii("tool_call")
    case ToolResult(id, content, isError) =>
      var name := if id.Some? then id.value else Ascii("unknown");
      d.payload == content && d.actor == Ascii("tool:") + name && d.kind == Ascii("tool_result") &&
      (isError ==> d.meta == Meta.Canonical(Ascii("{\"is_error\":true,\"tool_use_id\":") + Quote(name) + Ascii("}"))) &&
      (!isError ==> d.meta == Meta.Canonical(Ascii("{\"tool_use_id\":") + Quote(name) + Ascii("}")))
    case UnknownBlock => false
  }

  /** out carries exactly the kept blocks, one event each, in their order. */
  predicate Transcribes(fromUser: bool, ts: Text, blocks: seq<Block>, out: seq<Draft>)
    decreases |blocks|
  {
    if blocks == [] then out == []
    else
      var n, m := |blocks| - 1, |out| - 1;
      if IsKept(fromUser, blocks[n]) then
        out != [] && Carries(fromUser, ts, blocks[n], out[m]) && Transcribes(fromUser, ts, blocks[..n], out[..m])
      else Transcribes(fromUser, ts, blocks[..n], out)
  }

  lemma BlockCarried(fromUser: bool, ts: Text, b: Block)
    ensures MapBlock(fromUser, ts, b).Some? <==> IsKept(fromUser, b)
    ensures MapBlock(fromUser, ts, b).Some? ==> Carries(fromUser, ts, b, MapBlock(fromUser, ts, b).value)
  {
    hide Quote;
  }

  lemma {:induction false} BlocksTranscribed(fromUser: bool, ts: Text, blocks: seq<Block>)
    ensures Transcribes(fromUser, ts, blocks, MapBlocks(fromUser, ts, blocks))
  {
    hide MapBlock;
    hide Carries;
    hide IsKept;
    if blocks != [] {
      var n := |blocks| - 1;
      var front := MapBlocks(fromUser, ts, blocks[..n]);
      BlocksTranscribed(fromUser, ts, blocks[..n]);
      BlockCarried(fromUser, ts, blocks[n]);
      if IsKept(fromUser, blocks[n]) {
        var d := MapBlock(fromUser, ts, blocks[n]).value;
        assert (front + [d])[..|front|] == front;
      } else {
        assert front + [] == front;
      }
    }
  }

  /** Every event of a run of blocks carries one of the kept ones. */
  lemma {:induction false} TranscribedFrom(fromUser: bool, ts: Text, blocks: seq<Block>, out: seq<Draft>, d: Draft) returns (i: nat)
    requires Transcribes(fromUser, ts, blocks, out) && d in out
    ensures i < |blocks| && IsKept(fromUser, blocks[i]) && Carries(fromUser, ts, blocks[i], d)
  {
    hide Carries;
    hide IsKept;
    var n := |blocks| - 1;
    if IsKept(fromUser, blocks[n]) {
      var m := |out| - 1;
      if d == out[m] { i := n; } else { i := TranscribedFrom(fromUser, ts, blocks[..n], out[..m], d); }
    } else {
      i := TranscribedFrom(fromUser, ts, blocks[..n], out, d);
    }
  }

  /** Who said a line, as its events show it. */
  predicate SaidBy(line: Line, ts: Text, actor: Text, kind: Text) {
    line.Message? && ts == (if line.timestamp.Some? then line.timestamp.value else []) &&
    if line.fromUser then
      (actor == Ascii("user") && kind == Ascii("prompt")) || (Ascii("tool:") <= actor && kind == Ascii("tool_result"))
    else
      actor == Ascii("agent:assistant") && (kind == Ascii("completion") || kind == Ascii("tool_call"))
  }

  lemma DraftsSaidBy(line: Line)
    ensures forall d :: d in Drafts(line) ==> SaidBy(line, d.ts, d.actor, d.kind)
  {
    if line.Message? && line.content.Blocks? {
      var blocks, out := line.content.blocks, MapBlocks(line.fromUser, Stamp(line), line.content.blocks);
      BlocksTranscribed(line.fromUser, Stamp(line), blocks);
      hide MapBlocks;
      hide Quote;
      hide Transcribes;
      forall d | d in out ensures SaidBy(line, d.ts, d.actor, d.kind) {
        var i := TranscribedFrom(line.fromUser, Stamp(line), blocks, out, d);
      }
    }
  }

  /** What a line's events are: nothing for a line that is no mappable message, else its one text,
      or exactly its kept blocks in order. */
  predicate Says(line: Line, out: seq<Draft>) {
    match line
    case NotMessage => out == []
    case Message(fromUser, _, content) =>
      match content
      case TextContent(text) => |out| == 1 && Carries(fromUser, Stamp(line), TextBlock(text), out[0])
      case Blocks(blocks) => Transcribes(fromUser, Stamp(line), blocks, out)
      case UnknownContent => out == []
  }

  lemma DraftsSay(line: Line)
    ensures Says(line, Drafts(line))
  {
    hide Transcribes;
    hide Carries;
    if line.Message? && line.content.TextContent? {
      BlockCarried(line.fromUser, Stamp(line), TextBlock(line.content.text));
      assert Carries(line.fromUser, Stamp(line), TextBlock(line.content.text), Drafts(line)[0]);
    }
    if line.Message? && line.content.Blocks? { BlocksTranscribed(line.fromUser, Stamp(line), line.content.blocks); }
  }

  /** The counters every skipped thing goes to. */
  class Skipped {
    var lines: nat
    var blocks: nat
    var malformed: nat

    constructor ()
      ensures lines == blocks == malformed == 0
    {
      lines, blocks, malformed := 0, 0, 0;
    }
  }

  /** mapLine: nothing is dropped uncounted, and nothing counted is emitted. */
  method MapLine(line: Line, skipped: Skipped) returns (out: seq<Draft>)
    modifies skipped
    ensures out == Drafts(line)
    ensures skipped.lines == old(skipped.lines) + if IsMapped(line) then 0 else 1
    ensures skipped.blocks == old(skipped.blocks) + if IsMapped(line) then Offered(line) - |out| else 0
    ensures skipped.malformed == old(skipped.malformed)
    ensures forall d :: d in out ==> SaidBy(line, d.ts, d.actor, d.kind)
    ensures Says(line, out)
  {
    hide Says;
    hide SaidBy;
    hide TextDraft;
    hide MapBlock;
    DraftsSaidBy(line);
    DraftsSay(line);
    if line.NotMessage? {
      skipped.lines := skipped.lines + 1;
      return [];
    }
    var ts := Stamp(line);
    match line.content {
      case TextContent(text) => out := [TextDraft(line.fromUser, ts, text)];
      case UnknownContent =>
        skipped.lines := skipped.lines + 1;
        out := [];
      case Blocks(blocks) =>
        out := [];
        for i := 0 to |blocks|
          invariant out == MapBlocks(line.fromUser, ts, blocks[..i])
          invariant skipped.blocks == old(skipped.blocks) + i - |out|
          invariant skipped.lines == old(skipped.lines) && skipped.malformed == old(skipped.malformed)
        {
          assert blocks[..i + 1][..i] == blocks[..i];
          var d := MapBlock(line.fromUser, ts, blocks[i]);
          if d.Some? { out := out + [d.value]; } else { skipped.blocks := skipped.blocks + 1; }
        }
        assert blocks[..|blocks|] == blocks;
    }
  }

  // ---- the whole text ---------------------------------------------------------------------------------

  const LF: CodeUnit := 10
  const CR: CodeUnit := 13

  /** text.split(/\r?\n/), with the part of the current line already read. */
  function SplitFrom(line: Text, rest: Text): (r: seq<Text>)
    ensures |r| >= 1
    decreases |rest|
  {
    if rest == [] then [line]
    else if rest[0] == LF then [line] + SplitFrom([], rest[1..])
    else if rest[0] == CR && |rest| >= 2 && rest[1] == LF then [line] + SplitFrom([], rest[2..])
    else SplitFrom(line + [rest[0]], rest[1..])
  }

  function Lines(text: Text): seq<Text> { SplitFrom([], text) }

  /** What JavaScript's trim removes. */
  predicate IsSpace(u: CodeUnit) {
    9 <= u <= 13 || u == 32 || u == 0xA0 || u == 0x1680 || 0x2000 <= u <= 0x200A || u == 0x2028 || u == 0x2029 ||
    u == 0x202F || u == 0x205F || u == 0x3000 || u == 0xFEFF
  }

  /** White space and line terminators of ECMA-262 (sections 12.2 and 12.3), one by one. */
  lemma SpacesInFull(u: CodeUnit)
    ensures IsSpace(u) <==>
              u in {0x9, 0xA, 0xB, 0xC, 0xD, 0x20, 0xA0, 0x1680, 0x2000, 0x2001, 0x2002, 0x2003, 0x2004, 0x2005, 0x2006,
                    0x2007, 0x2008, 0x2009, 0x200A, 0x2028, 0x2029, 0x202F, 0x205F, 0x3000, 0xFEFF}
  {
  }

  predicate IsBlank(raw: Text) { forall i :: 0 <= i < |raw| ==> IsSpace(raw[i]) }

  function EventOf(seqNo: nat, d: Draft): Event {
    Event(seqNo, d.ts, d.actor, d.kind, Some(d.payload), None, None, d.meta)
  }

  function Numbered(drafts: seq<Draft>): (r: seq<Event>)
    ensures |r| == |drafts| && forall i :: 0 <= i < |r| ==> r[i] == EventOf(i, drafts[i])
  {
    seq(|drafts|, i requires 0 <= i < |drafts| => EventOf(i, drafts[i]))
  }

  /** Whether the line is parsed at all, and to what. */
  function Read(parse: Parse, raw: Text): Option<Line> { if IsBlank(raw) then None else parse(raw) }

  function LineDrafts(parse: Parse, raw: Text): seq<Draft> {
    match Read(parse, raw)
    case None => []
    case Some(line) => Drafts(line)
  }

  function AllDrafts(parse: Parse, lines: seq<Text>): seq<Draft> {
    if lines == [] then [] else AllDrafts(parse, lines[..|lines| - 1]) + LineDrafts(parse, lines[|lines| - 1])
  }

  /** A count over the lines read so far. */
  function Tally(f: Text -> nat, lines: seq<Text>): nat {
    if lines == [] then 0 else Tally(f, lines[..|lines| - 1]) + f(lines[|lines| - 1])
  }

  function NonBlank(): Text -> nat { raw => if IsBlank(raw) then 0 else 1 }

  function IsMalformed(parse: Parse): Text -> nat { raw => if !IsBlank(raw) && parse(raw).None? then 1 else 0 }

  function IsSkipped(parse: Parse): Text -> nat {
    raw => if Read(parse, raw).Some? && !IsMapped(Read(parse, raw).value) then 1 else 0
  }

  function IsTaken(parse: Parse): Text -> nat {
    raw => if Read(parse, raw).Some? && IsMapped(Read(parse, raw).value) then 1 else 0
  }

  function Pieces(parse: Parse): Text -> nat {
    raw => if Read(parse, raw).Some? && IsMapped(Read(parse, raw).value) then Offered(Read(parse, raw).value) else 0
  }

  /** What one line of the text contributes: nothing when it is blank or does not parse. */
  predicate RawSays(parse: Parse, raw: Text, out: seq<Draft>) {
    if (forall u :: u in raw ==> IsSpace(u)) || parse(raw).None? then out == [] else Says(parse(raw).value, out)
  }

  function Joined(parts: seq<seq<Draft>>): seq<Draft> {
    if parts == [] then [] else Joined(parts[..|parts| - 1]) + parts[|parts| - 1]
  }

  /** The drafts are the lines' contributions laid end to end. */
  predicate Laid(parse: Parse, lines: seq<Text>, parts: seq<seq<Draft>>, drafts: seq<Draft>) {
    |parts| == |lines| && drafts == Joined(parts) && forall i :: 0 <= i < |lines| ==> RawSays(parse, lines[i], parts[i])
  }

  /** The events are the drafts with their positions as seqs, each with its payload held. */
  predicate Stamped(drafts: seq<Draft>, events: seq<Event>) {
    |events| == |drafts| &&
    forall i :: 0 <= i < |events| ==>
      events[i] == Event(i, drafts[i].ts, drafts[i].actor, drafts[i].kind, Some(drafts[i].payload), None, None, drafts[i].meta)
  }

  lemma NumberedStamped(drafts: seq<Draft>)
    ensures Stamped(drafts, Numbered(drafts))
  {
  }

  lemma LineDraftsSay(parse: Parse, raw: Text)
    ensures RawSays(parse, raw, LineDrafts(parse, raw))
  {
    hide IsSpace;
    hide Says;
    hide Drafts;
    if forall u :: u in raw ==> IsSpace(u) { assert IsBlank(raw); }
    if IsBlank(raw) { assert forall u :: u in raw ==> IsSpace(u); }
    if Read(parse, raw).Some? { DraftsSay(Read(parse, raw).value); }
  }

  lemma {:induction false} DraftsLaid(parse: Parse, lines: seq<Text>) returns (parts: seq<seq<Draft>>)
    ensures Laid(parse, lines, parts, AllDrafts(parse, lines))
  {
    hide RawSays;
    hide LineDrafts;
    if lines == [] {
      parts := [];
    } else {
      var n := |lines| - 1;
      var front := DraftsLaid(parse, lines[..n]);
      parts := front + [LineDrafts(parse, lines[n])];
      LineDraftsSay(parse, lines[n]);
      assert parts[..n] == front;
    }
  }

  /** mapTranscriptText.  Each non-blank line is malformed, skipped or mapped; each piece of
      content of a mapped line is emitted or counted; seqs run from 0 without a gap. */
  method MapTranscriptText(parse: Parse, text: Text) returns (events: seq<Event>, skipped: Skipped)
    ensures fresh(skipped)
    ensures events == Numbered(AllDrafts(parse, Lines(text)))
    ensures skipped.malformed == Tally(IsMalformed(parse), Lines(text))
    ensures skipped.lines == Tally(IsSkipped(parse), Lines(text))
    ensures Tally(NonBlank(), Lines(text)) == skipped.malformed + skipped.lines + Tally(IsTaken(parse), Lines(text))
    ensures Tally(Pieces(parse), Lines(text)) == |events| + skipped.blocks
    ensures exists parts, drafts :: Laid(parse, Lines(text), parts, drafts) && Stamped(drafts, events)
  {
    hide IsBlank;
    hide Drafts;
    hide Offered;
    hide Tally;
    hide AllDrafts;
    hide Numbered;
    hide SaidBy;
    hide Says;
    hide Laid;
    hide Stamped;
    hide Stamp;
    hide SplitFrom;
    hide Counted;
    skipped := new Skipped();
    events := [];
    var lines := Lines(text);
    TranscriptStart(parse);
    for i := 0 to |lines|
      invariant events == Numbered(AllDrafts(parse, lines[..i]))
      invariant Counted(parse, lines[..i], |events|, skipped.malformed, skipped.lines, skipped.blocks)
    {
      var raw := lines[i];
      DraftsStep(parse, lines, i);
      CountedStep(parse, lines, i, |events|, skipped.malformed, skipped.lines, skipped.blocks);
      if IsBlank(raw) { continue; }
      var line := parse(raw);
      if line.None? {
        skipped.malformed := skipped.malformed + 1;
        continue;
      }
      ghost var before := AllDrafts(parse, lines[..i]);
      var drafts := MapLine(line.value, skipped);
      for j := 0 to |drafts|
        invariant events == Numbered(before + drafts[..j])
        modifies {}
      {
        NumberedSnoc(before, drafts, j);
        events := events + [EventOf(|events|, drafts[j])];
      }
      assert drafts[..|drafts|] == drafts;
    }
    assert lines[..|lines|] == lines;
    CountedInFull(parse, lines, |events|, skipped.malformed, skipped.lines, skipped.blocks);
    TranscriptLaid(parse, lines);
  }

  lemma NumberedSnoc(before: seq<Draft>, ds: seq<Draft>, j: nat)
    requires j < |ds|
    ensures Numbered(before + ds[..j + 1]) == Numbered(before + ds[..j]) + [EventOf(|before| + j, ds[j])]
  {
    assert before + ds[..j + 1] == (before + ds[..j]) + [ds[j]];
  }

  lemma TranscriptStart(parse: Parse)
    ensures Numbered(AllDrafts(parse, [])) == [] && Counted(parse, [], 0, 0, 0, 0)
  {
  }

  lemma TranscriptLaid(parse: Parse, lines: seq<Text>)
    ensures exists parts, drafts :: Laid(parse, lines, parts, drafts) && Stamped(drafts, Numbered(AllDrafts(parse, lines)))
  {
    var parts := DraftsLaid(parse, lines);
    NumberedStamped(AllDrafts(parse, lines));
  }

  /** What the counters say of the lines read: every non-blank line is malformed, skipped or taken,
      and every piece of a taken one is an event or counted. */
  ghost predicate Counted(parse: Parse, lines: seq<Text>, events: nat, malformed: nat, unmapped: nat, blocks: nat) {
    malformed == Tally(IsMalformed(parse), lines) && unmapped == Tally(IsSkipped(parse), lines) &&
    Tally(NonBlank(), lines) == malformed + unmapped + Tally(IsTaken(parse), lines) &&
    Tally(Pieces(parse), lines) == events + blocks
  }

  lemma CountedInFull(parse: Parse, lines: seq<Text>, events: nat, malformed: nat, unmapped: nat, blocks: nat)
    requires Counted(parse, lines, events, malformed, unmapped, blocks)
    ensures malformed == Tally(IsMalformed(parse), lines) && unmapped == Tally(IsSkipped(parse), lines)
    ensures Tally(NonBlank(), lines) == malformed + unmapped + Tally(IsTaken(parse), lines)
    ensures Tally(Pieces(parse), lines) == events + blocks
  {
  }

  /** One more line, by what becomes of it. */
  lemma CountedStep(parse: Parse, lines: seq<Text>, i: nat, events: nat, malformed: nat, unmapped: nat, blocks: nat)
    requires i < |lines| && Counted(parse, lines[..i], events, malformed, unmapped, blocks)
    ensures IsBlank(lines[i]) ==> Counted(parse, lines[..i + 1], events, malformed, unmapped, blocks)
    ensures !IsBlank(lines[i]) && parse(lines[i]).None? ==>
              Counted(parse, lines[..i + 1], events, malformed + 1, unmapped, blocks)
    ensures !IsBlank(lines[i]) && parse(lines[i]).Some? ==>
              var line := parse(lines[i]).value;
              if IsMapped(line) then
                Counted(parse, lines[..i + 1], events + |Drafts(line)|, malformed, unmapped, blocks + Offered(line) - |Drafts(line)|)
              else Counted(parse, lines[..i + 1], events, malformed, unmapped + 1, blocks)
  {
    hide IsBlank;
    hide Drafts;
    hide Offered;
    hide AllDrafts;
    hide Tally;
    TalliesStep(parse, lines, i);
  }

  lemma TallyStep(f: Text -> nat, lines: seq<Text>, i: nat)
    requires i < |lines|
    ensures Tally(f, lines[..i + 1]) == Tally(f, lines[..i]) + f(lines[i])
  {
    assert lines[..i + 1][..i] == lines[..i];
  }

  /** What one more line adds to the events. */
  lemma DraftsStep(parse: Parse, lines: seq<Text>, i: nat)
    requires i < |lines|
    ensures AllDrafts(parse, lines[..i + 1]) == AllDrafts(parse, lines[..i]) + LineDrafts(parse, lines[i])
    ensures LineDrafts(parse, lines[i]) == [] ==> AllDrafts(parse, lines[..i + 1]) == AllDrafts(parse, lines[..i])
  {
    hide LineDrafts;
    assert lines[..i + 1][..i] == lines[..i];
  }

  /** What it adds to each count. */
  lemma TalliesStep(parse: Parse, lines: seq<Text>, i: nat)
    requires i < |lines|
    ensures Tally(NonBlank(), lines[..i + 1]) == Tally(NonBlank(), lines[..i]) + NonBlank()(lines[i])
    ensures Tally(IsMalformed(parse), lines[..i + 1]) == Tally(IsMalformed(parse), lines[..i]) + IsMalformed(parse)(lines[i])
    ensures Tally(IsSkipped(parse), lines[..i + 1]) == Tally(IsSkipped(parse), lines[..i]) + IsSkipped(parse)(lines[i])
    ensures Tally(IsTaken(parse), lines[..i + 1]) == Tally(IsTaken(parse), lines[..i]) + IsTaken(parse)(lines[i])
    ensures Tally(Pieces(parse), lines[..i + 1]) == Tally(Pieces(parse), lines[..i]) + Pieces(parse)(lines[i])
    ensures NonBlank()(lines[i]) == IsMalformed(parse)(lines[i]) + IsSkipped(parse)(lines[i]) + IsTaken(parse)(lines[i])
  {
    hide Tally;
    TallyStep(NonBlank(), lines, i);
    TallyStep(IsMalformed(parse), lines, i);
    TallyStep(IsSkipped(parse), lines, i);
    TallyStep(IsTaken(parse), lines, i);
    TallyStep(Pieces(parse), lines, i);
  }

  // ---- growth by whole lines --------------------------------------------------------------------------

  predicate WholeLines(text: Text) { text == [] || text[|text| - 1] == LF }

  lemma SplitBreak(line: Text, rest: Text, n: nat)
    requires |rest| >= n && ((n == 1 && rest[0] == LF) || (n == 2 && rest[0] == CR && rest[1] == LF))
    ensures SplitFrom(line, rest) == [line] + Lines(rest[n..])
  {
  }

  /** Whole lines end in an empty remainder. */
  lemma {:induction false} SplitEnds(line: Text, rest: Text)
    requires rest != [] && rest[|rest| - 1] == LF
    ensures SplitFrom(line, rest)[|SplitFrom(line, rest)| - 1] == []
    decreases |rest|
  {
    if rest[0] == LF || (rest[0] == CR && rest[1] == LF) {
      var n := if rest[0] == LF then 1 else 2;
      SplitBreak(line, rest, n);
      if rest[n..] != [] { SplitEnds([], rest[n..]); }
    } else {
      SplitEnds(line + [rest[0]], rest[1..]);
    }
  }

  /** What follows whole lines is split on its own. */
  lemma {:induction false} SplitAppend(line: Text, rest: Text, more: Text)
    requires rest != [] && rest[|rest| - 1] == LF
    ensures SplitFrom(line, rest + more) == SplitFrom(line, rest)[..|SplitFrom(line, rest)| - 1] + Lines(more)
    decreases |rest|
  {
    var t := rest + more;
    if rest[0] == LF || (rest[0] == CR && rest[1] == LF) {
      var n := if rest[0] == LF then 1 else 2;
      var tail := rest[n..];
      assert t[n..] == tail + more;
      SplitBreak(line, rest, n);
      SplitBreak(line, t, n);
      if tail != [] { SplitAppend([], tail, more); }
      SplitAfterBreak(line, tail, more);
    } else {
      assert t[1..] == rest[1..] + more;
      SplitAppend(line + [rest[0]], rest[1..], more);
    }
  }

  lemma SplitAfterBreak(line: Text, tail: Text, more: Text)
    requires tail != [] ==> Lines(tail + more) == Lines(tail)[..|Lines(tail)| - 1] + Lines(more)
    ensures [line] + Lines(tail + more) == ([line] + Lines(tail))[..|Lines(tail)|] + Lines(more)
  {
    if tail == [] { assert tail + more == more && Lines(tail) == [[]]; }
  }

  lemma {:induction false} DraftsAppend(parse: Parse, a: seq<Text>, b: seq<Text>)
    ensures AllDrafts(parse, a + b) == AllDrafts(parse, a) + AllDrafts(parse, b)
    decreases b
  {
    hide LineDrafts;
    if b == [] {
      assert a + b == a;
    } else {
      var n := |b| - 1;
      var x, y, z := AllDrafts(parse, a), AllDrafts(parse, b[..n]), LineDrafts(parse, b[n]);
      assert (a + b)[..|a| + n] == a + b[..n];
      DraftsAppend(parse, a, b[..n]);
      assert (x + y) + z == x + (y + z);
    }
  }

  lemma NoDrafts(parse: Parse)
    ensures AllDrafts(parse, [[]]) == AllDrafts(parse, Lines([])) == []
  {
    var one: seq<Text> := [[]];
    assert one[..0] == [] && LineDrafts(parse, one[0]) == [];
    assert Lines([]) == [[]];
  }

  /** Appending to a transcript of whole lines extends its events and changes none. */
  lemma {:induction false} AppendingExtends(parse: Parse, text: Text, more: Text)
    requires WholeLines(text)
    ensures AllDrafts(parse, Lines(text + more)) == AllDrafts(parse, Lines(text)) + AllDrafts(parse, Lines(more))
    ensures Numbered(AllDrafts(parse, Lines(text))) <= Numbered(AllDrafts(parse, Lines(text + more)))
  {
    hide AllDrafts;
    hide SplitFrom;
    hide IsSpace;
    hide Drafts;
    assert LineDrafts(parse, []) == [];
    NoDrafts(parse);
    if text == [] {
      assert text + more == more;
    } else {
      var r := Lines(text);
      var front := r[..|r| - 1];
      SplitEnds([], text);
      SplitAppend([], text, more);
      DraftsAppend(parse, front, Lines(more));
      assert r == front + [[]];
      DraftsAppend(parse, front, [[]]);
    }
  }

  /** A line's text without the carriage return that belongs to its break. */
  function Chop(a: Text): Text { if a != [] && a[|a| - 1] == 13 then a[..|a| - 1] else a }

  /** What splitting is, in three facts: no line holds a line feed; a text without one is its own
      only line; and a line feed ends a line, taking at most one carriage return with it. */
  lemma LinesExactly(a: Text, rest: Text)
    requires 10 !in a
    ensures forall l :: l in Lines(rest) ==> 10 !in l
    ensures Lines(a) == [a]
    ensures Lines(a + [10] + rest) == [Chop(a)] + Lines(rest)
  {
    LinesHoldNoBreak([], rest);
    OneLine([], a);
    FirstLine([], a, rest);
    assert [] + a == a && [] + Chop(a) == Chop(a);
  }

  lemma {:induction false} LinesHoldNoBreak(line: Text, rest: Text)
    requires 10 !in line
    ensures forall l :: l in SplitFrom(line, rest) ==> 10 !in l
    decreases |rest|
  {
    if rest != [] {
      if rest[0] == 10 {
        LinesHoldNoBreak([], rest[1..]);
      } else if rest[0] == 13 && |rest| >= 2 && rest[1] == 10 {
        LinesHoldNoBreak([], rest[2..]);
      } else {
        LinesHoldNoBreak(line + [rest[0]], rest[1..]);
      }
    }
  }

  lemma {:induction false} OneLine(line: Text, a: Text)
    requires 10 !in a
    ensures SplitFrom(line, a) == [line + a]
    decreases |a|
  {
    if a == [] {
      assert line + a == line;
    } else {
      if |a| >= 2 { assert a[1] in a; }
      OneLine(line + [a[0]], a[1..]);
      assert line + a == (line + [a[0]]) + a[1..];
    }
  }

  lemma {:induction false} FirstLine(line: Text, a: Text, rest: Text)
    requires 10 !in a
    ensures SplitFrom(line, a + [10] + rest) == [line + Chop(a)] + Lines(rest)
    decreases |a|
  {
    var t := a + [10] + rest;
    if a == [] {
      assert t[1..] == rest && line + Chop(a) == line;
    } else if a == [13] {
      assert t[1] == 10 && t[2..] == rest && line + Chop(a) == line;
    } else {
      assert t[0] == a[0] && t[1] == if |a| >= 2 then a[1] else 10;
      if |a| >= 2 { assert a[1] in a; }
      assert a[0] in a;
      assert t[1..] == a[1..] + [10] + rest;
      FirstLine(line + [a[0]], a[1..], rest);
      assert line + Chop(a) == (line + [a[0]]) + Chop(a[1..]);
    }
  }

  predicate Sealable(d: Draft) { WellFormed(d.payload) }

  predicate GoodDraft(d: Draft) { d.kind in EventTypes() && |d.actor| > 0 && !d.meta.NotCanonical? }

  lemma {:induction false} BlocksGood(fromUser: bool, ts: Text, blocks: seq<Block>)
    ensures forall d :: d in MapBlocks(fromUser, ts, blocks) ==> GoodDraft(d)
  {
    if blocks != [] {
      var n := |blocks| - 1;
      BlocksGood(fromUser, ts, blocks[..n]);
      BlockGood(fromUser, ts, blocks[n]);
    }
  }

  lemma BlockGood(fromUser: bool, ts: Text, b: Block)
    ensures MapBlock(fromUser, ts, b).Some? ==> GoodDraft(MapBlock(fromUser, ts, b).value)
  {
    var kinds := EventTypes();
    assert kinds[0] == Ascii("prompt") && kinds[1] == Ascii("completion");
    assert kinds[2] == Ascii("tool_call") && kinds[3] == Ascii("tool_result");
  }

  lemma LineGood(parse: Parse, raw: Text)
    ensures forall d :: d in LineDrafts(parse, raw) ==> GoodDraft(d)
  {
    hide MapBlocks;
    hide GoodDraft;
    hide TextDraft;
    match Read(parse, raw) {
      case None =>
      case Some(line) =>
        if line.Message? && line.content.TextContent? {
          BlockGood(line.fromUser, Stamp(line), TextBlock(line.content.text));
        } else if line.Message? && line.content.Blocks? {
          BlocksGood(line.fromUser, Stamp(line), line.content.blocks);
        }
    }
  }

  lemma {:induction false} AllGood(parse: Parse, lines: seq<Text>)
    ensures forall d :: d in AllDrafts(parse, lines) ==> GoodDraft(d)
  {
    hide GoodDraft;
    hide LineDrafts;
    if lines != [] {
      AllGood(parse, lines[..|lines| - 1]);
      LineGood(parse, lines[|lines| - 1]);
    }
  }

  lemma DraftSound(h: Hash, i: nat, d: Draft)
    requires GoodDraft(d) && i <= MAX_SAFE_INTEGER
    ensures EventFault(h, EventOf(i, d), i) == (if Sealable(d) then None else Some(BadPayload))
  {
    hide EventTypes;
    hide WellFormed;
    hide Utf8;
  }

  /** The core takes the mapped events exactly when every payload has a UTF-8 encoding: a lone
      surrogate, reachable through a \u escape in the transcript, is the one way sealing fails. */
  lemma MappedSessionSeals(h: Hash, parse: Parse, lines: seq<Text>)
    requires |AllDrafts(parse, lines)| <= MAX_SAFE_INTEGER
    ensures SessionOk(h, Numbered(AllDrafts(parse, lines))) <==> forall d :: d in AllDrafts(parse, lines) ==> Sealable(d)
  {
    hide EventFault;
    hide GoodDraft;
    hide AllDrafts;
    hide Sealable;
    AllGood(parse, lines);
    var ds := AllDrafts(parse, lines);
    var events := Numbered(ds);
    forall i | 0 <= i < |ds|
      ensures EventFault(h, events[i], i) == None <==> Sealable(ds[i])
    {
      DraftSound(h, i, ds[i]);
    }
    if SessionOk(h, events) {
      forall d | d in ds ensures Sealable(d) {
        var i :| 0 <= i < |ds| && ds[i] == d;
        assert EventFault(h, events[i], i) == None;
      }
    }
  }

  /** A session sealed again after its transcript grew by whole lines is an accepted growth of
      the earlier seal. */
  lemma {:induction false} GrowingTranscriptGrows(h: Hash, rec: Recover, parse: Parse, text: Text, more: Text)
    requires WholeLines(text) && SessionOk(h, Numbered(AllDrafts(parse, Lines(text + more))))
    ensures var earlier, later := Numbered(AllDrafts(parse, Lines(text))), Numbered(AllDrafts(parse, Lines(text + more)));
            SessionOk(h, earlier) && ShapeOk(PacketOf(h, later)) &&
            GrowthOk(h, rec, PacketOf(h, earlier).head, PacketOf(h, later))
  {
    hide PacketOf;
    hide GrowthOk;
    hide SessionOk;
    hide AllDrafts;
    var earlier, later := Numbered(AllDrafts(parse, Lines(text))), Numbered(AllDrafts(parse, Lines(text + more)));
    AppendingExtends(parse, text, more);
    var rest := later[|earlier|..];
    assert later == earlier + rest;
    AppendingGrows(h, rec, earlier, rest);
  }
}
