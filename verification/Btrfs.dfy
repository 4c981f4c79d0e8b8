/** The Btrfs label transaction: superblock mirrors, the probe that recovers from them, and crashes. */
module Btrfs {
  import opened Words

  const SUPER_SIZE := 4096
  const MIRROR_MAX := 3
  const GEN_MAX := 0xFFFF_FFFF_FFFF_FFFF

  type Super = s: seq<Byte> | |s| == SUPER_SIZE witness Zeros(SUPER_SIZE)

  /** CRC32C of the bytes from 0x20 on, left uninterpreted. */
  type Checksum = seq<Byte> -> U32

  /** A mirror slot: absent when it does not fit the partition. */
  datatype Slot = Absent | Holds(sb: Super)
  type Media = m: seq<Slot> | |m| == MIRROR_MAX witness [Absent, Absent, Absent]

  function Offset(i: int): int {
    if i == 0 then 0x1_0000 else if i == 1 then 0x400_0000 else 0x40_0000_0000
  }

  /** The mirrors lie at 64 KiB, 64 MiB and 256 GiB. */
  lemma OffsetsAre()
    ensures Offset(0) == 64 * 1024 && Offset(1) == 64 * 1024 * 1024 && Offset(2) == 256 * 1024 * 1024 * 1024
  {
  }

  // ---- Fields ----

  function Generation(s: Super): int { Le64(s[0x48..0x50]) }
  function Bytenr(s: Super): int { Le64(s[0x30..0x38]) }
  const MAGIC: seq<Byte> := [0x5F, 0x42, 0x48, 0x52, 0x66, 0x53, 0x5F, 0x4D]
  predicate MagicOk(s: Super) { s[0x40..0x48] == MAGIC }

  predicate Pow2(v: nat) {
    v == 1 || (v > 1 && v % 2 == 0 && Pow2(v / 2))
  }

  predicate GeometryOk(s: Super) {
    var sec, node := Le32(s[0x90..0x94]), Le32(s[0x94..0x98]);
    Pow2(sec) && Pow2(node) && 512 <= sec <= 65536 && sec <= node <= 65536
  }

  predicate CsumOk(crc: Checksum, s: Super) {
    s[0xC4] == 0 && s[0xC5] == 0 && Le32(s[..4]) == crc(s[0x20..])
  }

  /** The bytes before the first NUL, at most all of them. */
  function UpToNul(s: seq<Byte>): (r: seq<Byte>) {
    if s == [] || s[0] == 0 then [] else [s[0]] + UpToNul(s[1..])
  }

  function LabelOf(s: Super): seq<Byte> { UpToNul(s[0x12B..0x22B]) }

  predicate Inspectable(s: Super, i: int) {
    MagicOk(s) && GeometryOk(s) && Bytenr(s) == Offset(i)
  }

  predicate SuperValidAt(crc: Checksum, s: Super, i: int) {
    Inspectable(s, i) && CsumOk(crc, s)
  }

  /** A superblock laid out field by field: where each field is read from. */
  lemma LayoutReads(csum: seq<Byte>, fsid: seq<Byte>, bytenr: int, flags: seq<Byte>, gen: int, roots: seq<Byte>, sec: nat, node: nat,
                    more: seq<Byte>, kind: seq<Byte>, items: seq<Byte>, lab: seq<Byte>, rest: seq<Byte>, s: seq<Byte>)
    requires |csum| == 32 && |fsid| == 16 && 0 <= bytenr <= GEN_MAX && |flags| == 8 && 0 <= gen <= GEN_MAX && |roots| == 64
    requires sec < 0x1_0000_0000 && node < 0x1_0000_0000 && |more| == 44 && |kind| == 2 && |items| == 101 && |lab| == 256 && |rest| == 3541
    requires s == csum + fsid + Put64(bytenr) + flags + MAGIC + Put64(gen) + roots + Put32(sec) + Put32(node) + more + kind + items + lab + rest
    ensures |s| == SUPER_SIZE && Bytenr(s) == bytenr && MagicOk(s) && Generation(s) == gen && LabelOf(s) == UpToNul(lab)
    ensures GeometryOk(s) <==> Size(sec) && Size(node) && sec <= node
    ensures forall crc: Checksum :: CsumOk(crc, s) <==> kind == [0, 0] && Le32(csum[..4]) == crc(s[32..])
  {
    var front := csum + fsid + Put64(bytenr) + flags + MAGIC + Put64(gen) + roots + Put32(sec) + Put32(node);
    FrontLaid(csum + fsid, Put64(bytenr), flags, MAGIC, Put64(gen), roots, Put32(sec), Put32(node), front);
    BackLaid(front, more, kind, items, lab, rest, s);
    FirstBytes(front, s);
    assert s[0xC4] == kind[0] && s[0xC5] == kind[1] && s[..4] == csum[..4];
    SizesAre(sec);
    SizesAre(node);
  }

  /** Where the parts of a superblock begin and end. */
  lemma FrontLaid(a: seq<Byte>, b: seq<Byte>, c: seq<Byte>, d: seq<Byte>, e: seq<Byte>, f: seq<Byte>, g: seq<Byte>, h: seq<Byte>, s: seq<Byte>)
    requires |a| == 48 && |b| == |c| == |d| == |e| == 8 && |f| == 64 && |g| == |h| == 4
    requires s == a + b + c + d + e + f + g + h
    ensures |s| == 0x98 && s[..48] == a && s[0x30..0x38] == b && s[0x40..0x48] == d && s[0x48..0x50] == e
    ensures s[0x90..0x94] == g && s[0x94..0x98] == h
  {
  }

  lemma BackLaid(a: seq<Byte>, i: seq<Byte>, j: seq<Byte>, k: seq<Byte>, l: seq<Byte>, m: seq<Byte>, s: seq<Byte>)
    requires |a| == 0x98 && |i| == 44 && |j| == 2 && |k| == 101 && |l| == 256
    requires s == a + i + j + k + l + m
    ensures |s| == 0x22B + |m| && s[..0x98] == a && s[0xC4..0xC6] == j && s[0x12B..0x22B] == l
  {
  }

  lemma FirstBytes(a: seq<Byte>, s: seq<Byte>)
    requires |s| >= 0x98 && a == s[..0x98]
    ensures forall x, y | 0 <= x <= y <= 0x98 :: a[x..y] == s[x..y]
  {
  }

  /** The sizes a sector or node can have. */
  predicate Size(v: nat) { v in {512, 1024, 2048, 4096, 8192, 16384, 32768, 65536} }

  lemma SizesAre(v: nat)
    ensures Size(v) <==> Pow2(v) && 512 <= v <= 65536
  {
    if 512 <= v < 65536 {
      var a := if v < 1024 then 512 else if v < 2048 then 1024 else if v < 4096 then 2048 else if v < 8192 then 4096
               else if v < 16384 then 8192 else if v < 32768 then 16384 else 32768;
      if Pow2(v) { SamePower(a, v); }
    }
  }

  /** Between a power of two and the next there is no other. */
  lemma {:induction false} SamePower(a: nat, v: nat)
    requires Pow2(a) && Pow2(v) && a <= v < 2 * a
    ensures v == a
  {
    if a > 1 { SamePower(a / 2, v / 2); }
  }

  // ---- The probe ----

  /** What the probe records about one mirror. */
  datatype Info = Info(present: bool, magicOk: bool, csumOk: bool, geometryOk: bool, bytenr: int, generation: int)

  function Examine(crc: Checksum, slot: Slot): Info {
    match slot
    case Absent => Info(false, false, false, false, 0, 0)
    case Holds(sb) => Info(true, MagicOk(sb), CsumOk(crc, sb), GeometryOk(sb), Bytenr(sb), Generation(sb))
  }

  function ExamineAll(crc: Checksum, m: Media): (infos: seq<Info>)
    ensures |infos| == MIRROR_MAX && forall i | 0 <= i < MIRROR_MAX :: infos[i] == Examine(crc, m[i])
  {
    [Examine(crc, m[0]), Examine(crc, m[1]), Examine(crc, m[2])]
  }

  predicate Candidate(x: Info, i: int) {
    x.present && x.magicOk && x.geometryOk && x.bytenr == Offset(i)
  }

  predicate Trusted(x: Info, i: int) {
    Candidate(x, i) && x.csumOk
  }

  predicate Better(c: Info, b: Info) {
    if !b.present then true
    else if c.csumOk != b.csumOk then c.csumOk
    else c.generation > b.generation
  }

  /** The mirror the probe has selected after looking at the first `n`, -1 for none. */
  function Best(infos: seq<Info>, n: nat): (b: int)
    requires n <= |infos|
    ensures b == -1 || (0 <= b < n && Candidate(infos[b], b))
  {
    if n == 0 then -1
    else
      var b := Best(infos, n - 1);
      if Candidate(infos[n - 1], n - 1) && (b < 0 || Better(infos[n - 1], infos[b])) then n - 1 else b
  }

  /** Mirror `b` is the first of the highest generation among the trusted ones below `n`. */
  predicate IsTop(infos: seq<Info>, n: nat, b: int)
    requires n <= |infos|
  {
    && 0 <= b < n && Trusted(infos[b], b)
    && (forall i | 0 <= i < n && Trusted(infos[i], i) :: infos[i].generation <= infos[b].generation)
    && (forall i | 0 <= i < b && Trusted(infos[i], i) :: infos[i].generation < infos[b].generation)
  }

  /** The probe selects a trusted mirror exactly when there is one, and then the top one. */
  lemma {:induction false} BestIsTop(infos: seq<Info>, n: nat)
    requires n <= |infos|
    ensures (exists i | 0 <= i < n :: Trusted(infos[i], i)) ==> IsTop(infos, n, Best(infos, n))
    ensures Best(infos, n) >= 0 && infos[Best(infos, n)].csumOk ==> exists i | 0 <= i < n :: Trusted(infos[i], i)
  {
    if n > 0 {
      BestIsTop(infos, n - 1);
      var b := Best(infos, n);
      if b >= 0 && infos[b].csumOk { assert Trusted(infos[b], b); }
    }
  }

  lemma TopUnique(infos: seq<Info>, n: nat, a: int, b: int)
    requires n <= |infos| && IsTop(infos, n, a) && IsTop(infos, n, b)
    ensures a == b
  {
  }

  /** What a probe of the media reports. */
  datatype Finding = Nothing | Found(mirror: int, trusted: bool, generation: int, tag: seq<Byte>)

  function Find(crc: Checksum, m: Media): (r: Finding) {
    var infos := ExamineAll(crc, m);
    var b := Best(infos, |infos|);
    if b < 0 then Nothing else Found(b, infos[b].csumOk, infos[b].generation, LabelOf(m[b].sb))
  }

  predicate TrustedAt(crc: Checksum, m: Media, i: int) {
    0 <= i < MIRROR_MAX && m[i].Holds? && SuperValidAt(crc, m[i].sb, i)
  }

  /** The probe's answer is pinned down by any mirror that is first among the newest trusted ones. */
  lemma FindIs(crc: Checksum, m: Media, b: int)
    requires TrustedAt(crc, m, b)
    requires forall i | TrustedAt(crc, m, i) :: Generation(m[i].sb) <= Generation(m[b].sb)
    requires forall i | 0 <= i < b && TrustedAt(crc, m, i) :: Generation(m[i].sb) < Generation(m[b].sb)
    ensures Find(crc, m) == Found(b, true, Generation(m[b].sb), LabelOf(m[b].sb))
  {
    var infos := ExamineAll(crc, m);
    assert forall i | 0 <= i < MIRROR_MAX :: Trusted(infos[i], i) <==> TrustedAt(crc, m, i);
    assert Trusted(infos[b], b);
    BestIsTop(infos, |infos|);
    assert IsTop(infos, |infos|, b);
    TopUnique(infos, |infos|, b, Best(infos, |infos|));
  }

  /** Conversely a trusted answer names a trusted mirror that is first among the newest. */
  lemma FindMeans(crc: Checksum, m: Media)
    requires Find(crc, m).Found? && Find(crc, m).trusted
    ensures var r := Find(crc, m);
      && TrustedAt(crc, m, r.mirror)
      && r.generation == Generation(m[r.mirror].sb) && r.tag == LabelOf(m[r.mirror].sb)
      && (forall i | TrustedAt(crc, m, i) :: Generation(m[i].sb) <= r.generation)
      && (forall i | 0 <= i < r.mirror && TrustedAt(crc, m, i) :: Generation(m[i].sb) < r.generation)
  {
    var infos := ExamineAll(crc, m);
    assert forall i | 0 <= i < MIRROR_MAX :: Trusted(infos[i], i) <==> TrustedAt(crc, m, i);
    BestIsTop(infos, |infos|);
  }

  /** Mirror `i` has a superblock that can be inspected: magic, geometry and its own offset are in order. */
  predicate InspectableAt(m: Media, i: int) {
    0 <= i < MIRROR_MAX && m[i].Holds? && Inspectable(m[i].sb, i)
  }

  /** Mirror `i` is to be preferred to mirror `j`: a good checksum goes before a bad one, then a higher generation before a lower. */
  predicate Preferred(crc: Checksum, m: Media, i: int, j: int)
    requires InspectableAt(m, i) && InspectableAt(m, j)
  {
    var good, good' := CsumOk(crc, m[i].sb), CsumOk(crc, m[j].sb);
    (good && !good') || (good == good' && Generation(m[i].sb) > Generation(m[j].sb))
  }

  /** Mirror `b` is the first that no other is to be preferred to. */
  predicate Selects(crc: Checksum, m: Media, b: int) {
    && InspectableAt(m, b)
    && forall i | 0 <= i < MIRROR_MAX && InspectableAt(m, i) :: !Preferred(crc, m, i, b) && (i < b ==> Preferred(crc, m, b, i))
  }

  /** The probe reports the first mirror that no other is to be preferred to, trusted or not, and nothing exactly if none can
      be inspected. */
  lemma FindSelects(crc: Checksum, m: Media)
    ensures Find(crc, m) == Nothing <==> forall i | 0 <= i < MIRROR_MAX :: !InspectableAt(m, i)
    ensures Find(crc, m).Found? ==>
      var r := Find(crc, m);
      && Selects(crc, m, r.mirror) && r.trusted == CsumOk(crc, m[r.mirror].sb)
      && r.generation == Generation(m[r.mirror].sb) && r.tag == LabelOf(m[r.mirror].sb)
  {
    var infos := ExamineAll(crc, m);
    assert forall i | 0 <= i < MIRROR_MAX :: Candidate(infos[i], i) <==> InspectableAt(m, i);
    BestIsFirst(infos, |infos|);
    var b := Best(infos, |infos|);
    if b >= 0 {
      forall i | 0 <= i < MIRROR_MAX && InspectableAt(m, i)
        ensures !Preferred(crc, m, i, b) && (i < b ==> Preferred(crc, m, b, i))
      {
        assert Candidate(infos[i], i);
      }
    } else {
      forall i | 0 <= i < MIRROR_MAX ensures !InspectableAt(m, i) { assert !Candidate(infos[i], i); }
    }
  }

  /** One record goes before another. */
  predicate Before(x: Info, y: Info) { (x.csumOk && !y.csumOk) || (x.csumOk == y.csumOk && x.generation > y.generation) }

  lemma {:induction false} BestIsFirst(infos: seq<Info>, n: nat)
    requires n <= |infos|
    ensures var b := Best(infos, n);
      && (b == -1 <==> forall i | 0 <= i < n :: !Candidate(infos[i], i))
      && (b >= 0 ==> forall i | 0 <= i < n && Candidate(infos[i], i) :: !Before(infos[i], infos[b]) && (i < b ==> Before(infos[b], infos[i])))
  {
    if n > 0 { BestIsFirst(infos, n - 1); }
  }

  // ---- The new superblock ----

  /** Labels are 1 to 255 bytes, none below a space, no slash or backslash. */
  predicate LabelOk(lab: seq<Byte>) {
    1 <= |lab| <= 255 && forall c | c in lab :: c >= 0x20 && c != 0x2F && c != 0x5C
  }

  /** Which single bytes make a label, and how long a label of one letter repeated may be. */
  lemma LabelsAre(c: Byte, lab: seq<Byte>)
    requires forall x | x in lab :: x == c
    ensures LabelOk(lab) <==> 0 < |lab| < 256 && c >= ' ' as int && c != '/' as int && c != '\\' as int
  {
    if lab != [] { assert lab[0] in lab; }
  }

  /** Checksum area cleared, generation and label replaced, checksum recomputed. */
  function NewSuper(crc: Checksum, s: Super, gen: int, lab: seq<Byte>): (r: Super)
    requires 0 <= gen <= GEN_MAX && LabelOk(lab)
  {
    var body := s[0x20..0x48] + Put64(gen) + s[0x50..0x12B] + lab + Zeros(256 - |lab|) + s[0x22B..];
    Put32(crc(body)) + Zeros(28) + body
  }

  /** Only the checksum area, the generation and the label change. */
  lemma NewSuperBytes(crc: Checksum, s: Super, gen: int, lab: seq<Byte>)
    requires 0 <= gen <= GEN_MAX && LabelOk(lab)
    ensures var r := NewSuper(crc, s, gen, lab);
      && r[0x48..0x50] == Put64(gen) && r[0x12B..0x22B] == lab + Zeros(256 - |lab|)
      && Le32(r[..4]) == crc(r[0x20..]) && (forall k | 4 <= k < 0x20 :: r[k] == 0)
      && forall k | 0x20 <= k < SUPER_SIZE && !(0x48 <= k < 0x50) && !(0x12B <= k < 0x22B) :: r[k] == s[k]
  {
    var r := NewSuper(crc, s, gen, lab);
    var a, b, c := s[0x20..0x48], Put64(gen), s[0x50..0x12B];
    var d, e := lab + Zeros(256 - |lab|), s[0x22B..];
    var body := a + b + c + lab + Zeros(256 - |lab|) + e;
    assert body == a + b + c + d + e;
    assert r[0x20..] == body;
    assert r[..4] == Put32(crc(body));
    assert r[0x48..0x50] == b;
    assert r[0x12B..0x22B] == d;
  }

  lemma {:induction false} UpToNulOf(lab: seq<Byte>, tail: seq<Byte>)
    requires tail != [] && tail[0] == 0 && forall k | 0 <= k < |lab| :: lab[k] != 0
    ensures UpToNul(lab + tail) == lab
  {
    if lab == [] {
      assert lab + tail == tail;
    } else {
      assert (lab + tail)[1..] == lab[1..] + tail;
      UpToNulOf(lab[1..], tail);
    }
  }

  /** Label and generation read back as written, and the superblock stays valid where it was. */
  lemma NewSuperReads(crc: Checksum, s: Super, gen: int, lab: seq<Byte>, i: int)
    requires 0 <= gen <= GEN_MAX && LabelOk(lab)
    requires SuperValidAt(crc, s, i)
    ensures var r := NewSuper(crc, s, gen, lab);
      SuperValidAt(crc, r, i) && Generation(r) == gen && LabelOf(r) == lab
  {
    var r := NewSuper(crc, s, gen, lab);
    NewSuperBytes(crc, s, gen, lab);
    assert forall k | 0 <= k < |lab| :: lab[k] in lab;
    UpToNulOf(lab, Zeros(256 - |lab|));
    assert r[0x30..0x38] == s[0x30..0x38];
    assert r[0x40..0x48] == s[0x40..0x48];
    assert r[0x90..0x94] == s[0x90..0x94] && r[0x94..0x98] == s[0x94..0x98];
  }

  // ---- The write plan and the states a crash can leave ----

  datatype Write = Write(i: int, sb: Super)

  predicate OnMirrors(ws: seq<Write>) {
    forall j | 0 <= j < |ws| :: 0 <= ws[j].i < MIRROR_MAX
  }

  function Apply(m: Media, ws: seq<Write>): (r: Media)
    requires OnMirrors(ws)
  {
    if ws == [] then m
    else
      var w := ws[|ws| - 1];
      Apply(m, ws[..|ws| - 1])[w.i := Holds(w.sb)]
  }

  /** Mirrors the last probe found present with a good checksum. */
  predicate Usable(infos: seq<Info>, i: int) {
    0 <= i < |infos| && infos[i].present && infos[i].csumOk
  }

  predicate Preflight(crc: Checksum, infos: seq<Info>, m: Media) {
    forall i | 0 <= i < MIRROR_MAX && Usable(infos, i) :: TrustedAt(crc, m, i)
  }

  /** Writes of the prepared superblocks `tx` to the usable mirrors from the last down to `n`. */
  function PlanDown(infos: seq<Info>, tx: seq<Super>, n: nat): (ws: seq<Write>)
    requires |tx| == MIRROR_MAX
    ensures OnMirrors(ws)
    decreases MIRROR_MAX - n
  {
    if n >= MIRROR_MAX then []
    else PlanDown(infos, tx, n + 1) + if Usable(infos, n) then [Write(n, tx[n])] else []
  }

  /** What the transaction prepares for mirror `i`; the buffers of unusable mirrors are never written. */
  function Prepare(crc: Checksum, infos: seq<Info>, m: Media, gen: int, lab: seq<Byte>, i: int): Super
    requires 0 <= gen <= GEN_MAX && LabelOk(lab) && Preflight(crc, infos, m) && 0 <= i < MIRROR_MAX
  {
    if Usable(infos, i) then NewSuper(crc, m[i].sb, gen, lab) else Zeros(SUPER_SIZE)
  }

  function PrepareAll(crc: Checksum, infos: seq<Info>, m: Media, gen: int, lab: seq<Byte>): (tx: seq<Super>)
    requires 0 <= gen <= GEN_MAX && LabelOk(lab) && Preflight(crc, infos, m)
    ensures |tx| == MIRROR_MAX
  {
    [Prepare(crc, infos, m, gen, lab, 0), Prepare(crc, infos, m, gen, lab, 1), Prepare(crc, infos, m, gen, lab, 2)]
  }

  /** Each usable mirror's prepared superblock is valid there and carries the generation and label. */
  predicate Ready(crc: Checksum, infos: seq<Info>, tx: seq<Super>, gen: int, lab: seq<Byte>) {
    && |tx| == MIRROR_MAX
    && forall i | 0 <= i < MIRROR_MAX && Usable(infos, i) ::
      SuperValidAt(crc, tx[i], i) && Generation(tx[i]) == gen && LabelOf(tx[i]) == lab
  }

  lemma PreparedIsReady(crc: Checksum, infos: seq<Info>, m: Media, gen: int, lab: seq<Byte>)
    requires 0 <= gen <= GEN_MAX && LabelOk(lab) && Preflight(crc, infos, m)
    ensures Ready(crc, infos, PrepareAll(crc, infos, m, gen, lab), gen, lab)
  {
    var tx := PrepareAll(crc, infos, m, gen, lab);
    forall i | 0 <= i < MIRROR_MAX && Usable(infos, i)
      ensures SuperValidAt(crc, tx[i], i) && Generation(tx[i]) == gen && LabelOf(tx[i]) == lab
    {
      assert tx[i] == Prepare(crc, infos, m, gen, lab, i);
      NewSuperReads(crc, m[i].sb, gen, lab, i);
    }
  }

  function Next(gen: int): (r: int)
    requires 0 <= gen <= GEN_MAX
    ensures 0 <= r <= GEN_MAX
  {
    if gen == GEN_MAX then 0 else gen + 1
  }

  /** Writes of prepared superblocks to usable mirrors, highest mirror first, none below `n`. */
  predicate Planned(infos: seq<Info>, tx: seq<Super>, n: int, ws: seq<Write>) {
    && |tx| == MIRROR_MAX
    && (forall j | 0 <= j < |ws| :: 0 <= ws[j].i < MIRROR_MAX && n <= ws[j].i && Usable(infos, ws[j].i) && ws[j].sb == tx[ws[j].i])
    && (forall j, k | 0 <= j < k < |ws| :: ws[j].i > ws[k].i)
  }

  lemma PlanExtends(infos: seq<Info>, tx: seq<Super>, n: nat, rest: seq<Write>)
    requires n < MIRROR_MAX && Usable(infos, n) && Planned(infos, tx, n + 1, rest)
    ensures Planned(infos, tx, n, rest + [Write(n, tx[n])])
  {
  }

  lemma {:induction false} PlanIsPlanned(infos: seq<Info>, tx: seq<Super>, n: nat)
    requires |tx| == MIRROR_MAX && n <= MIRROR_MAX
    ensures Planned(infos, tx, n, PlanDown(infos, tx, n))
    decreases MIRROR_MAX - n
  {
    if n < MIRROR_MAX {
      PlanIsPlanned(infos, tx, n + 1);
      if Usable(infos, n) { PlanExtends(infos, tx, n, PlanDown(infos, tx, n + 1)); }
    }
  }

  /** Every usable mirror has a place in the plan. */
  lemma {:induction false} PlanCovers(infos: seq<Info>, tx: seq<Super>, n: nat, i: int) returns (j: nat)
    requires |tx| == MIRROR_MAX && n <= i < MIRROR_MAX && Usable(infos, i)
    ensures j < |PlanDown(infos, tx, n)| && PlanDown(infos, tx, n)[j] == Write(i, tx[i])
    decreases MIRROR_MAX - n
  {
    if i == n {
      j := |PlanDown(infos, tx, n + 1)|;
    } else {
      j := PlanCovers(infos, tx, n + 1, i);
    }
  }

  /** Applying planned writes sets each mirror to its prepared superblock if it was written, and leaves it otherwise. */
  lemma {:induction false} ApplyAt(infos: seq<Info>, tx: seq<Super>, m: Media, ws: seq<Write>, i: int)
    requires OnMirrors(ws) && Planned(infos, tx, 0, ws) && 0 <= i < MIRROR_MAX
    ensures Apply(m, ws)[i] == if (exists j | 0 <= j < |ws| :: ws[j].i == i) then Holds(tx[i]) else m[i]
    ensures (exists j | 0 <= j < |ws| :: ws[j].i == i) ==> Usable(infos, i)
  {
    if ws != [] {
      var front := ws[..|ws| - 1];
      ApplyAt(infos, tx, m, front, i);
      if ws[|ws| - 1].i != i {
        assert (exists j | 0 <= j < |ws| :: ws[j].i == i) ==> (exists j | 0 <= j < |front| :: front[j].i == i);
      }
    }
  }

  /** A torn write leaves a superblock whose checksum fails. */
  predicate TornAt(crc: Checksum, before: Media, i: int, after: Media) {
    && 0 <= i < MIRROR_MAX && after[i].Holds? && !CsumOk(crc, after[i].sb)
    && after == before[i := after[i]]
  }

  /** The media a crash leaves: `k` writes done and, if `torn`, the next one interrupted. */
  predicate Crashed(crc: Checksum, m: Media, ws: seq<Write>, k: nat, torn: bool, m': Media)
    requires OnMirrors(ws)
  {
    && k <= |ws| && OnMirrors(ws[..k])
    && (if torn then k < |ws| && TornAt(crc, Apply(m, ws[..k]), ws[k].i, m') else m' == Apply(m, ws[..k]))
  }

  /** The probe reports a trusted mirror with this generation and label. */
  predicate Carries(r: Finding, gen: int, lab: seq<Byte>) {
    r.Found? && r.trusted && r.generation == gen && r.tag == lab
  }

  /** The writes of a label update on media whose last probe is still accurate. */
  function Plan(crc: Checksum, m: Media, gen: int, lab: seq<Byte>): (ws: seq<Write>)
    requires 0 <= gen <= GEN_MAX && LabelOk(lab) && Preflight(crc, ExamineAll(crc, m), m)
    ensures OnMirrors(ws)
  {
    PlanDown(ExamineAll(crc, m), PrepareAll(crc, ExamineAll(crc, m), m, gen, lab), 0)
  }
}
