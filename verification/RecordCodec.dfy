/** The byte form of a memory record: a 64-byte header, the variable parts, a checksum. */
module RecordCodecs {
  import opened Common
  import opened Wire

  const MAGIC: nat := 0xAB1D_0001
  const HEADER_SIZE: nat := 64
  const MAX_LEN: nat := 65535

  /** Floats are carried as their four bytes; metadata is the blob that is stored. */
  datatype Record = Record(
    id: nat, flags: nat, scope: byte, memoryType: byte, tier: byte, phase: byte, confidence: byte,
    importance: nat, score: nat, accessCount: nat, version: nat, parent: nat, createdAt: nat, lastAccessed: nat,
    turn: nat,
    userId: Bytes, agentId: Bytes, embedding: seq<nat>, content: Bytes, metadata: Bytes)

  datatype Error = TooSmall | BadMagic | BadVersion | BadEnum | CrcMismatch

  /** The widths and the enumeration ranges of the record's own fields. */
  predicate Fields(r: Record) {
    && r.id < 0x1_0000_0000_0000_0000 && r.parent < 0x1_0000_0000_0000_0000 && r.flags < 0x1_0000 && r.turn < 0x1_0000
    && r.importance < 0x1_0000_0000 && r.score < 0x1_0000_0000 && r.accessCount < 0x1_0000_0000
    && r.version < 0x1_0000_0000
    && r.createdAt < 0x1_0000_0000 && r.lastAccessed < 0x1_0000_0000
    && r.scope <= 1 && r.memoryType <= 5 && r.tier <= 2 && r.phase <= 4
    && forall i :: 0 <= i < |r.embedding| ==> r.embedding[i] < 0x1_0000_0000
  }

  // ---- Writing ----

  function Cut<T>(s: seq<T>): seq<T> {
    if |s| <= MAX_LEN then s else s[..MAX_LEN]
  }

  function Words(ws: seq<nat>): (b: Bytes)
    ensures |b| == 4 * |ws|
  {
    if ws == [] then [] else Le(ws[0], 4) + Words(ws[1..])
  }

  function Header(r: Record): (b: Bytes)
    ensures |b| == HEADER_SIZE
  {
    Le(MAGIC, 4) + Le(2, 2) + Le(r.flags, 2) + Le(r.id, 8) +
    [r.scope, r.memoryType, r.tier, r.phase, r.confidence, 0, 0, 0]
    + Le(r.importance, 4) + Le(r.score, 4) + Le(r.accessCount, 4) + Le(r.version, 4) + Le(r.parent, 8)
    + Le(r.createdAt, 4) + Le(r.lastAccessed, 4)
    + Le(|Cut(r.embedding)|, 2) + Le(|Cut(r.content)|, 2) + Le(|Cut(r.metadata)|, 2) + Le(r.turn, 2)
  }

  function Body(r: Record): Bytes {
    Header(r) + Le(|Cut(r.userId)|, 2) + Cut(r.userId) + Le(|Cut(r.agentId)|, 2) + Cut(r.agentId)
    + Words(Cut(r.embedding)) + Cut(r.content) + Cut(r.metadata)
  }

  function Serialize(crc: Crc, r: Record): Bytes {
    Body(r) + Le(crc(Body(r)), 4)
  }

  // ---- Reading ----

  function ReadWords(b: Bytes, n: nat): (ws: seq<nat>)
    requires 4 * n <= |b|
    ensures |ws| == n
  {
    if n == 0 then [] else [FromLe(b[..4])] + ReadWords(b[4..], n - 1)
  }

  /** The fixed fields of the record whose header this is. */
  function Fixed(b: Bytes): Record
    requires |b| >= HEADER_SIZE
  {
    Record(Int(b, 8, 8), Int(b, 6, 2), b[16], b[17], b[18], b[19], b[20],
           Int(b, 24, 4), Int(b, 28, 4), Int(b, 32, 4), Int(b, 36, 4), Int(b, 40, 8), Int(b, 48, 4), Int(b, 52, 4),
           Int(b, 62, 2),
           [], [], [], [], [])
  }

  function Deserialize(crc: Crc, b: Bytes): Result<Record, Error> {
    if |b| < HEADER_SIZE + 4 then Err(TooSmall)
    else if Int(b, 0, 4) != MAGIC then Err(BadMagic)
    else if Int(b, 4, 2) != 2 then Err(BadVersion)
    else if b[16] > 1 || b[17] > 5 || b[18] > 2 || b[19] > 4 then Err(BadEnum)
    else
      var users := HEADER_SIZE + 2;
      var agentLen := users + Int(b, HEADER_SIZE, 2);
      if agentLen + 2 > |b| then Err(TooSmall)
      else
        var agents := agentLen + 2;
        var words := agents + Int(b, agentLen, 2);
        var dim, contentLen, metaLen := Int(b, 56, 2), Int(b, 58, 2), Int(b, 60, 2);
        var content := words + 4 * dim;
        var metadata := content + contentLen;
        var end := metadata + metaLen;
        if |b| < end + 4 then Err(TooSmall)
        else if crc(b[..end]) != Int(b, end, 4) then Err(CrcMismatch)
        else Ok(Fixed(b).(userId := b[users..agentLen], agentId := b[agents..words],
                          embedding := ReadWords(b[words..content], dim),
                          content := b[content..metadata], metadata := b[metadata..end]))
  }

  // ---- Round trip ----

  /** The record with every variable part cut to what 16 bits can count. */
  function Clamped(r: Record): Record {
    r.(userId := Cut(r.userId), agentId := Cut(r.agentId), embedding := Cut(r.embedding), content := Cut(r.content),
       metadata := Cut(r.metadata))
  }

  lemma {:induction false} WordsBack(ws: seq<nat>)
    requires forall i :: 0 <= i < |ws| ==> ws[i] < 0x1_0000_0000
    ensures ReadWords(Words(ws), |ws|) == ws
  {
    hide Le, FromLe, Pow256;
    if ws != [] {
      Widths();
      LeRoundTrip(ws[0], 4);
      assert Words(ws)[..4] == Le(ws[0], 4) && Words(ws)[4..] == Words(ws[1..]);
      WordsBack(ws[1..]);
      assert ws == [ws[0]] + ws[1..];
    }
  }

  lemma HeaderBack(r: Record, rest: Bytes)
    requires Fields(r)
    ensures var b := Header(r) + rest;
            Int(b, 0, 4) == MAGIC && Int(b, 4, 2) == 2 &&
            Fixed(b) == r.(userId := [], agentId := [], embedding := [], content := [], metadata := []) &&
            Int(b, 56, 2) == |Cut(r.embedding)| && Int(b, 58, 2) == |Cut(r.content)| &&
            Int(b, 60, 2) == |Cut(r.metadata)|
  {
    hide Le, FromLe, Pow256, Cut;
    var b := Header(r) + rest;
    Widths();
    CutLength(r.embedding);
    CutLength(r.content);
    CutLength(r.metadata);
    LeRoundTrip(MAGIC, 4);
    LeRoundTrip(2, 2);
    LeRoundTrip(r.flags, 2);
    LeRoundTrip(r.id, 8);
    LeRoundTrip(r.importance, 4);
    LeRoundTrip(r.score, 4);
    LeRoundTrip(r.accessCount, 4);
    LeRoundTrip(r.version, 4);
    LeRoundTrip(r.parent, 8);
    LeRoundTrip(r.createdAt, 4);
    LeRoundTrip(r.lastAccessed, 4);
    LeRoundTrip(|Cut(r.embedding)|, 2);
    LeRoundTrip(|Cut(r.content)|, 2);
    LeRoundTrip(|Cut(r.metadata)|, 2);
    LeRoundTrip(r.turn, 2);
    assert b[0..4] == Le(MAGIC, 4) && b[4..6] == Le(2, 2) && b[6..8] == Le(r.flags, 2) && b[8..16] == Le(r.id, 8);
    assert b[24..28] == Le(r.importance, 4) && b[28..32] == Le(r.score, 4) && b[32..36] == Le(r.accessCount, 4) &&
           b[36..40] == Le(r.version, 4);
    assert b[40..48] == Le(r.parent, 8) && b[48..52] == Le(r.createdAt, 4) && b[52..56] == Le(r.lastAccessed, 4);
    assert b[56..58] == Le(|Cut(r.embedding)|, 2) && b[58..60] == Le(|Cut(r.content)|, 2) &&
           b[60..62] == Le(|Cut(r.metadata)|, 2);
    assert b[62..64] == Le(r.turn, 2);
  }

  /** Where each field of the header stands. */
  lemma Layout(r: Record)
    requires Fields(r)
    ensures var b := Header(r);
            && |b| == 64 && FromLe(b[0..4]) == 0xAB1D_0001 && FromLe(b[4..6]) == 2 && FromLe(b[6..8]) == r.flags
            && FromLe(b[8..16]) == r.id && b[16] == r.scope && b[17] == r.memoryType && b[18] == r.tier
            && b[19] == r.phase
            && b[20] == r.confidence && FromLe(b[24..28]) == r.importance && FromLe(b[28..32]) == r.score
            && FromLe(b[32..36]) == r.accessCount && FromLe(b[36..40]) == r.version && FromLe(b[40..48]) == r.parent
            && FromLe(b[48..52]) == r.createdAt && FromLe(b[52..56]) == r.lastAccessed && FromLe(b[62..64]) == r.turn
            && FromLe(b[56..58]) == |Cut(r.embedding)| && FromLe(b[58..60]) == |Cut(r.content)|
            && FromLe(b[60..62]) == |Cut(r.metadata)|
  {
    hide Le, FromLe, Pow256, Cut;
    HeaderBack(r, []);
    HeaderBytes(r, []);
    assert Header(r) + [] == Header(r);
    assert Header(r)[20] == r.confidence;
  }

  /** Where the parts of a record end and its checksum begins. */
  function End(r: Record): nat {
    68 + |r.userId| + |r.agentId| + 4 * |r.embedding| + |r.content| + |r.metadata|
  }

  /** What is read carries its magic, version 2, known enumeration values, and the checksum of
      everything before it; and the parts stand where the lengths in the bytes say. */
  lemma ReadIsChecked(crc: Crc, b: Bytes)
    requires Deserialize(crc, b).Ok?
    ensures |b| >= 68 && FromLe(b[0..4]) == 0xAB1D_0001 && FromLe(b[4..6]) == 2
    ensures b[16] <= 1 && b[17] <= 5 && b[18] <= 2 && b[19] <= 4
    ensures var r := Deserialize(crc, b).value;
            var end := End(r);
            && end + 4 <= |b| && crc(b[..end]) == FromLe(b[end..end + 4])
            && FromLe(b[64..66]) == |r.userId| && FromLe(b[66 + |r.userId|..68 + |r.userId|]) == |r.agentId|
            && FromLe(b[56..58]) == |r.embedding| && FromLe(b[58..60]) == |r.content|
            && FromLe(b[60..62]) == |r.metadata|
  {
    hide FromLe;
  }

  /** The lengths of all variable parts, the one of the agent's name at the given place, are the same. */
  predicate SameLengths(a: Bytes, b: Bytes, agentLen: nat) {
    && |a| >= 66 && |b| >= 66 && agentLen + 2 <= |a| && agentLen + 2 <= |b|
    && a[56..58] == b[56..58] && a[58..60] == b[58..60] && a[60..62] == b[60..62] && a[64..66] == b[64..66]
    && a[agentLen..agentLen + 2] == b[agentLen..agentLen + 2]
  }

  lemma LengthsInFront(a: Bytes, b: Bytes, agentLen: nat, seal: Bytes)
    requires SameLengths(a, b, agentLen)
    ensures SameLengths(a + seal, b + seal, agentLen)
  {
    Front(a, seal, 56);
    Front(b, seal, 56);
    Front(a, seal, 58);
    Front(b, seal, 58);
    Front(a, seal, 60);
    Front(b, seal, 60);
    Front(a, seal, 64);
    Front(b, seal, 64);
    Front(a, seal, agentLen);
    Front(b, seal, agentLen);
  }

  lemma Front(a: Bytes, seal: Bytes, i: nat)
    requires i + 2 <= |a|
    ensures (a + seal)[i..i + 2] == a[i..i + 2]
  {
  }

  /** Any change to a serialized record that leaves its lengths and its checksum alone, and
      that the checksum notices, is refused. */
  lemma DamageIsRefused(crc: Crc, r: Record, body: Bytes)
    requires Fields(r) && |body| == |Body(r)| && crc(body) != crc(Body(r))
    requires SameLengths(body, Body(r), 66 + |Cut(r.userId)|)
    ensures Deserialize(crc, body + Le(crc(Body(r)), 4)).Err?
  {
    hide Deserialize, Serialize, Body, Cut, Le, FromLe, Pow256, SameLengths, End;
    var b, e := body + Le(crc(Body(r)), 4), Serialize(crc, r);
    SerializedBack(crc, r, []);
    assert e + [] == e;
    Widths();
    LeRoundTrip(crc(Body(r)), 4);
    BodyLength(r);
    SerializeIs(crc, r);
    LengthsInFront(body, Body(r), 66 + |Cut(r.userId)|, Le(crc(Body(r)), 4));
    assert b[..|body|] == body && b[|body|..|body| + 4] == Le(crc(Body(r)), 4);
    if Deserialize(crc, b).Ok? {
      SameEnd(crc, b, e);
      ReadIsChecked(crc, b);
    }
  }

  lemma SameEnd(crc: Crc, b: Bytes, e: Bytes)
    requires Deserialize(crc, b).Ok? && Deserialize(crc, e).Ok?
    requires SameLengths(b, e, 66 + |Deserialize(crc, e).value.userId|)
    ensures End(Deserialize(crc, b).value) == End(Deserialize(crc, e).value)
  {
    hide Deserialize, FromLe;
    ReadIsChecked(crc, b);
    ReadIsChecked(crc, e);
  }

  lemma SerializeIs(crc: Crc, r: Record)
    ensures Serialize(crc, r) == Body(r) + Le(crc(Body(r)), 4)
  {
  }

  lemma BodyLength(r: Record)
    ensures |Body(r)| == End(Clamped(r))
  {
  }

  lemma CutLength<T>(s: seq<T>)
    ensures |Cut(s)| < 0x1_0000
  {
  }

  /** Six parts one after another, each found at its place. */
  lemma Parts(h: Bytes, a: Bytes, u: Bytes, c: Bytes, g: Bytes, w: Bytes, t: Bytes, m: Bytes, rest: Bytes)
    requires |a| == 2 && |c| == 2
    ensures var b := h + a + u + c + g + w + t + m + rest;
            var agentLen := |h| + 2 + |u|;
            var words := agentLen + 2 + |g|;
            var content := words + |w|;
            var metadata := content + |t|;
            b[|h|..|h| + 2] == a && b[|h| + 2..agentLen] == u && b[agentLen..agentLen + 2] == c &&
            b[agentLen + 2..words] == g &&
            b[words..content] == w && b[content..metadata] == t && b[metadata..metadata + |m|] == m
  {
  }

  /** What the reader finds at the places that follow the header. */
  lemma Places(h: Bytes, u: Bytes, g: Bytes, w: Bytes, t: Bytes, m: Bytes, seal: Bytes, rest: Bytes)
    requires |h| == HEADER_SIZE && |u| < 0x1_0000 && |g| < 0x1_0000 && |seal| == 4
    ensures var body := h + Le(|u|, 2) + u + Le(|g|, 2) + g + w + t + m;
            var b := body + seal + rest;
            var agentLen := HEADER_SIZE + 2 + |u|;
            var words := agentLen + 2 + |g|;
            var content := words + |w|;
            var metadata := content + |t|;
            var end := metadata + |m|;
            Int(b, HEADER_SIZE, 2) == |u| && b[HEADER_SIZE + 2..agentLen] == u && Int(b, agentLen, 2) == |g| &&
            b[agentLen + 2..words] == g &&
            b[words..content] == w && b[content..metadata] == t && b[metadata..end] == m &&
            |b| >= end + 4 && b[..end] == body && b[end..end + 4] == seal
  {
    hide Le, FromLe, Pow256;
    Widths();
    LeRoundTrip(|u|, 2);
    LeRoundTrip(|g|, 2);
    Parts(h, Le(|u|, 2), u, Le(|g|, 2), g, w, t, m, seal + rest);
    var body := h + Le(|u|, 2) + u + Le(|g|, 2) + g + w + t + m;
    assert body + seal + rest == body + (seal + rest);
  }

  /** A serialized record reads back with every variable part cut to 65535, whatever follows it. */
  lemma SerializedBack(crc: Crc, r: Record, rest: Bytes)
    requires Fields(r)
    ensures Deserialize(crc, Serialize(crc, r) + rest) == Ok(Clamped(r))
  {
    hide Le, FromLe, Pow256, Header, Fixed, Cut, Words, ReadWords;
    var u, g, w, t, m := Cut(r.userId), Cut(r.agentId), Words(Cut(r.embedding)), Cut(r.content), Cut(r.metadata);
    var seal := Le(crc(Body(r)), 4);
    var b := Serialize(crc, r) + rest;
    var after := Le(|u|, 2) + u + Le(|g|, 2) + g + w + t + m + seal + rest;
    assert b == Header(r) + after;
    HeaderBack(r, after);
    HeaderBytes(r, after);
    CutLength(r.userId);
    CutLength(r.agentId);
    Places(Header(r), u, g, w, t, m, seal, rest);
    Widths();
    LeRoundTrip(crc(Body(r)), 4);
    CutWords(r);
    WordsBack(Cut(r.embedding));
    hide Serialize, Body, Int;
    assert b[..|Body(r)|] == Body(r);
  }

  lemma HeaderBytes(r: Record, rest: Bytes)
    ensures var b := Header(r) + rest; b[16] == r.scope && b[17] == r.memoryType && b[18] == r.tier && b[19] == r.phase
  {
  }

  lemma CutWords(r: Record)
    requires Fields(r)
    ensures forall i :: 0 <= i < |Cut(r.embedding)| ==> Cut(r.embedding)[i] < 0x1_0000_0000
  {
  }

  /** Serializing loses nothing exactly if no variable part is longer than 65535. */
  lemma RoundTripExactly(crc: Crc, r: Record)
    requires Fields(r)
    ensures Deserialize(crc, Serialize(crc, r)) == Ok(r) <==>
            |r.userId| <= 65535 && |r.agentId| <= 65535 && |r.embedding| <= 65535 && |r.content| <= 65535 &&
            |r.metadata| <= 65535
  {
    SerializedBack(crc, r, []);
    assert Serialize(crc, r) + [] == Serialize(crc, r);
  }
}
