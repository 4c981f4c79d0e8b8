/** Crashes of the Btrfs label transaction: what the probe finds on the media they leave. */
module BtrfsCrash {
  import opened Words
  import opened Btrfs

  // ---- Mirrors as the probe weighs them ----

  /** A mirror is trusted with a generation and a label, or not trusted. */
  datatype Mark = Untrusted | Good(gen: int, tag: seq<Byte>)

  function MarkAt(crc: Checksum, m: Media, i: int): Mark {
    if TrustedAt(crc, m, i) then Good(Generation(m[i].sb), LabelOf(m[i].sb)) else Untrusted
  }

  function Marks(crc: Checksum, m: Media): (ms: seq<Mark>)
    ensures |ms| == MIRROR_MAX && forall i | 0 <= i < MIRROR_MAX :: ms[i] == MarkAt(crc, m, i)
  {
    [MarkAt(crc, m, 0), MarkAt(crc, m, 1), MarkAt(crc, m, 2)]
  }

  /** Mirror `b` is the first of the newest. */
  predicate Newest(ms: seq<Mark>, gen: int, tag: seq<Byte>, b: int) {
    && 0 <= b < |ms| && ms[b] == Good(gen, tag)
    && forall i | 0 <= i < |ms| && ms[i].Good? :: ms[i].gen <= gen && (i < b ==> ms[i].gen < gen)
  }

  ghost predicate Reports(ms: seq<Mark>, gen: int, tag: seq<Byte>) {
    exists b :: Newest(ms, gen, tag, b)
  }

  /** The probe reports exactly the first of the newest trusted mirrors. */
  lemma CarriesIs(crc: Checksum, m: Media, gen: int, tag: seq<Byte>)
    ensures Carries(Find(crc, m), gen, tag) <==> Reports(Marks(crc, m), gen, tag)
  {
    var ms := Marks(crc, m);
    if Carries(Find(crc, m), gen, tag) {
      FindMeans(crc, m);
      assert Newest(ms, gen, tag, Find(crc, m).mirror);
    }
    if Reports(ms, gen, tag) {
      var b :| Newest(ms, gen, tag, b);
      NewestIsFound(crc, m, gen, tag, b);
    }
  }

  lemma NewestIsFound(crc: Checksum, m: Media, gen: int, tag: seq<Byte>, b: int)
    requires Newest(Marks(crc, m), gen, tag, b)
    ensures Carries(Find(crc, m), gen, tag)
  {
    var ms := Marks(crc, m);
    forall i | TrustedAt(crc, m, i)
      ensures Generation(m[i].sb) <= Generation(m[b].sb) && (i < b ==> Generation(m[i].sb) < Generation(m[b].sb))
    {
      assert ms[i].Good?;
    }
    FindIs(crc, m, b);
  }

  // The next three predicates say their `At` counterpart; the dummy argument lets lemmas pass them on without unfolding.

  /** The probe of the media reports a trusted mirror with this generation and label. */
  ghost predicate Probes(crc: Checksum, m: Media, gen: int, tag: seq<Byte>) {
    forall u: bool {:trigger ProbesAt(crc, m, gen, tag, u)} :: ProbesAt(crc, m, gen, tag, u)
  }

  ghost predicate ProbesAt(crc: Checksum, m: Media, gen: int, tag: seq<Byte>, u: bool) { Carries(Find(crc, m), gen, tag) }

  /** `ms` is what the probe can see of the mirrors. */
  ghost predicate Marked(crc: Checksum, m: Media, ms: seq<Mark>) {
    forall u: bool {:trigger MarkedAt(crc, m, ms, u)} :: MarkedAt(crc, m, ms, u)
  }

  ghost predicate MarkedAt(crc: Checksum, m: Media, ms: seq<Mark>, u: bool) { ms == Marks(crc, m) }

  /** A label update writing the mirrors in `order` was interrupted after `k` writes, in the next one if `torn`. */
  ghost predicate Interrupted(crc: Checksum, m: Media, gen: int, lab: seq<Byte>, order: seq<int>, k: nat, torn: bool, m': Media) {
    forall u: bool {:trigger InterruptedAt(crc, m, gen, lab, order, k, torn, m', u)} :: InterruptedAt(crc, m, gen, lab, order, k, torn, m', u)
  }

  ghost predicate InterruptedAt(crc: Checksum, m: Media, gen: int, lab: seq<Byte>, order: seq<int>, k: nat, torn: bool, m': Media, u: bool) {
    && 0 <= gen <= GEN_MAX && LabelOk(lab) && Preflight(crc, ExamineAll(crc, m), m)
    && order == Order(Plan(crc, m, gen, lab)) && Crashed(crc, m, Plan(crc, m, gen, lab), k, torn, m')
  }

  lemma ProbesIs(crc: Checksum, m: Media, ms: seq<Mark>, gen: int, tag: seq<Byte>)
    requires Marked(crc, m, ms)
    ensures Probes(crc, m, gen, tag) <==> Reports(ms, gen, tag)
  {
    assert MarkedAt(crc, m, ms, true);
    CarriesIs(crc, m, gen, tag);
    if Probes(crc, m, gen, tag) { assert ProbesAt(crc, m, gen, tag, true); }
  }

  /** Every media can be seen so. */
  lemma MarksOf(crc: Checksum, m: Media) returns (ms: seq<Mark>)
    ensures Marked(crc, m, ms) && |ms| == MIRROR_MAX
  {
    ms := Marks(crc, m);
  }

  /** An interrupted update as the probe sees it. */
  lemma Interruption(crc: Checksum, m: Media, ms: seq<Mark>, gen: int, lab: seq<Byte>, order: seq<int>, k: nat, torn: bool, m': Media)
      returns (ms': seq<Mark>)
    requires Marked(crc, m, ms) && Interrupted(crc, m, gen, lab, order, k, torn, m')
    ensures Marked(crc, m', ms') && Orderly(ms, order) && After(ms, order, k, torn, Good(gen, lab), ms')
    ensures k == 0 && !torn ==> m' == m
  {
    assert MarkedAt(crc, m, ms, true) && InterruptedAt(crc, m, gen, lab, order, k, torn, m', true);
    PlanOrderly(crc, m, gen, lab);
    CrashMarks(crc, m, gen, lab, k, torn, m');
    ms' := Marks(crc, m');
  }

  // ---- What a crash does to the marks ----

  /** The mirrors written, in order. */
  function Order(ws: seq<Write>): (o: seq<int>)
    ensures |o| == |ws| && forall j | 0 <= j < |ws| :: o[j] == ws[j].i
  {
    seq(|ws|, j requires 0 <= j < |ws| => ws[j].i)
  }

  /** The trusted mirrors, last first. */
  predicate Orderly(ms: seq<Mark>, order: seq<int>) {
    && (forall j | 0 <= j < |order| :: 0 <= order[j] < |ms|)
    && (forall j, k | 0 <= j < k < |order| :: order[j] > order[k])
    && (forall i | 0 <= i < |ms| :: ms[i].Good? <==> i in order)
  }

  /** The first `k` mirrors in order have become `new'`, the next has lost its checksum if `torn`, others are as before. */
  predicate After(ms: seq<Mark>, order: seq<int>, k: nat, torn: bool, new': Mark, ms': seq<Mark>) {
    && |ms| == |ms'| && k <= |order| && (torn ==> k < |order|)
    && forall i | 0 <= i < |ms| ::
      ms'[i] == if i in order[..k] then new' else if torn && i == order[k] then Untrusted else ms[i]
  }

  /** The plan of a label update writes the trusted mirrors, last first. */
  lemma PlanOrderly(crc: Checksum, m: Media, gen: int, lab: seq<Byte>)
    requires 0 <= gen <= GEN_MAX && LabelOk(lab) && Preflight(crc, ExamineAll(crc, m), m)
    ensures Orderly(Marks(crc, m), Order(Plan(crc, m, gen, lab)))
  {
    var infos := ExamineAll(crc, m);
    var tx := PrepareAll(crc, infos, m, gen, lab);
    var ws, ms := PlanDown(infos, tx, 0), Marks(crc, m);
    PlanIsPlanned(infos, tx, 0);
    forall i | 0 <= i < |ms| ensures ms[i].Good? <==> i in Order(ws) {
      if ms[i].Good? {
        assert Usable(infos, i);
        var j := PlanCovers(infos, tx, 0, i);
        assert Order(ws)[j] == i;
      }
    }
  }

  /** The marks of the media a crash leaves. */
  lemma CrashMarks(crc: Checksum, m: Media, gen: int, lab: seq<Byte>, k: nat, torn: bool, m': Media)
    requires 0 <= gen <= GEN_MAX && LabelOk(lab) && Preflight(crc, ExamineAll(crc, m), m)
    requires Crashed(crc, m, Plan(crc, m, gen, lab), k, torn, m')
    ensures After(Marks(crc, m), Order(Plan(crc, m, gen, lab)), k, torn, Good(gen, lab), Marks(crc, m'))
  {
    var infos := ExamineAll(crc, m);
    var tx := PrepareAll(crc, infos, m, gen, lab);
    PreparedIsReady(crc, infos, m, gen, lab);
    var ws := PlanDown(infos, tx, 0);
    PlanIsPlanned(infos, tx, 0);
    forall i | 0 <= i < MIRROR_MAX
      ensures MarkAt(crc, m', i) ==
        if i in Order(ws)[..k] then Good(gen, lab) else if torn && i == Order(ws)[k] then Untrusted else MarkAt(crc, m, i)
    {
      CrashedMirror(crc, infos, m, tx, ws, k, torn, m', i);
      if i in Order(ws)[..k] {
        WrittenMark(crc, infos, tx, gen, lab, m', i);
      } else {
        SameOrTorn(crc, m, m', i, torn && i == Order(ws)[k]);
      }
    }
  }

  /** A mirror of a crash state: as prepared, torn or untouched. */
  lemma CrashedMirror(crc: Checksum, infos: seq<Info>, m: Media, tx: seq<Super>, ws: seq<Write>, k: nat, torn: bool, m': Media, i: int)
    requires OnMirrors(ws) && Planned(infos, tx, 0, ws) && 0 <= i < MIRROR_MAX && Crashed(crc, m, ws, k, torn, m')
    ensures if i in Order(ws)[..k] then m'[i] == Holds(tx[i]) && Usable(infos, i)
            else if torn && i == Order(ws)[k] then m'[i].Holds? && !CsumOk(crc, m'[i].sb)
            else m'[i] == m[i]
  {
    var done := ws[..k];
    ApplyAt(infos, tx, m, done, i);
    assert forall j | 0 <= j < k :: done[j] == ws[j] && Order(ws)[..k][j] == ws[j].i;
    if i in Order(ws)[..k] {
      var j :| 0 <= j < k && Order(ws)[..k][j] == i;
      assert done[j].i == i;
    } else {
      assert forall j | 0 <= j < |done| :: done[j].i == Order(ws)[..k][j];
    }
  }

  lemma WrittenMark(crc: Checksum, infos: seq<Info>, tx: seq<Super>, gen: int, lab: seq<Byte>, m: Media, i: int)
    requires Ready(crc, infos, tx, gen, lab) && 0 <= i < MIRROR_MAX && Usable(infos, i) && m[i] == Holds(tx[i])
    ensures MarkAt(crc, m, i) == Good(gen, lab)
  {
  }

  lemma SameOrTorn(crc: Checksum, m: Media, m': Media, i: int, broken: bool)
    requires 0 <= i < MIRROR_MAX && if broken then m'[i].Holds? && !CsumOk(crc, m'[i].sb) else m'[i] == m[i]
    ensures MarkAt(crc, m', i) == if broken then Untrusted else MarkAt(crc, m, i)
  {
  }

  // ---- Crashes on marks ----

  /** A newer generation on one mirror is reported, whatever became of the others. */
  lemma NewerReported(ms: seq<Mark>, order: seq<int>, k: nat, torn: bool, gen: int, lab: seq<Byte>, ms': seq<Mark>)
    requires Orderly(ms, order) && After(ms, order, k, torn, Good(gen, lab), ms') && k > 0
    requires forall i | 0 <= i < |ms| && ms[i].Good? :: ms[i].gen < gen
    ensures Reports(ms', gen, lab)
  {
    var b := order[k - 1];
    assert order[..k][k - 1] == b;
    assert forall j | 0 <= j < k :: order[..k][j] == order[j] >= b;
    assert Newest(ms', gen, lab, b);
  }

  /** Another trusted mirror than `f` has generation `gen`, and the first such carries the label. */
  predicate IsBackup(ms: seq<Mark>, f: int, gen: int, lab: seq<Byte>, j: int) {
    && 0 <= j < |ms| && j != f && ms[j] == Good(gen, lab)
    && forall i | 0 <= i < j && i != f && ms[i].Good? :: ms[i].gen != gen
  }

  ghost predicate Backup(ms: seq<Mark>, f: int, gen: int, lab: seq<Byte>) {
    exists j :: IsBackup(ms, f, gen, lab, j)
  }

  /** Losing one mirror keeps the report exactly when it has a backup. */
  lemma LosingOne(ms: seq<Mark>, f: int, gen: int, lab: seq<Byte>)
    requires 0 <= f < |ms| && Reports(ms, gen, lab)
    ensures Reports(ms[f := Untrusted], gen, lab) <==> Backup(ms, f, gen, lab)
  {
    var ms' := ms[f := Untrusted];
    var b :| Newest(ms, gen, lab, b);
    if Backup(ms, f, gen, lab) {
      var j :| IsBackup(ms, f, gen, lab, j);
      assert Newest(ms', gen, lab, j);
    }
    if Reports(ms', gen, lab) {
      var j :| Newest(ms', gen, lab, j);
      forall i | 0 <= i < j && i != f && ms[i].Good? ensures ms[i].gen != gen { assert ms'[i] == ms[i]; }
      assert IsBackup(ms, f, gen, lab, j);
    }
  }

  // ---- Crash atomicity ----

  /**
   * A crash at any point of a label update: once one mirror is written the probe finds the new
   * generation and label; before that it finds the old ones, unless the first write is torn, when it
   * does so exactly if the mirror being written has a backup.
   */
  lemma CrashAtomic(crc: Checksum, m: Media, ms: seq<Mark>, gen: int, was: seq<Byte>, lab: seq<Byte>,
                    order: seq<int>, k: nat, torn: bool, m': Media)
    requires Marked(crc, m, ms) && Probes(crc, m, gen, was) && 0 <= gen < GEN_MAX
    requires Interrupted(crc, m, gen + 1, lab, order, k, torn, m')
    ensures k > 0 ==> Probes(crc, m', gen + 1, lab)
    ensures k == 0 && !torn ==> m' == m
    ensures k == 0 && torn ==> |order| > 0 && (Probes(crc, m', gen, was) <==> Backup(ms, order[0], gen, was))
  {
    var ms' := Interruption(crc, m, ms, gen + 1, lab, order, k, torn, m');
    ProbesIs(crc, m, ms, gen, was);
    ProbesIs(crc, m', ms', gen, was);
    ProbesIs(crc, m', ms', gen + 1, lab);
    CrashAtomicMarks(ms, order, k, torn, gen, was, lab, ms');
  }

  lemma CrashAtomicMarks(ms: seq<Mark>, order: seq<int>, k: nat, torn: bool, gen: int, was: seq<Byte>, lab: seq<Byte>, ms': seq<Mark>)
    requires Orderly(ms, order) && After(ms, order, k, torn, Good(gen + 1, lab), ms') && Reports(ms, gen, was)
    ensures k > 0 ==> Reports(ms', gen + 1, lab)
    ensures k == 0 && torn ==> (Reports(ms', gen, was) <==> Backup(ms, order[0], gen, was))
  {
    var b :| Newest(ms, gen, was, b);
    if k > 0 {
      NewerReported(ms, order, k, torn, gen + 1, lab, ms');
    } else if torn {
      assert ms' == ms[order[0] := Untrusted];
      LosingOne(ms, order[0], gen, was);
    }
  }

  /** All trusted mirrors carry one generation and label. */
  predicate Agree(ms: seq<Mark>, gen: int, lab: seq<Byte>) {
    forall i | 0 <= i < |ms| && ms[i].Good? :: ms[i] == Good(gen, lab)
  }

  lemma AgreementBacksUp(ms: seq<Mark>, gen: int, lab: seq<Byte>, f: int, j: int)
    requires |ms| == 3 && Agree(ms, gen, lab) && 0 <= j < |ms| && j != f && ms[j].Good?
    ensures Backup(ms, f, gen, lab)
  {
    var b := if f != 0 && ms[0].Good? then 0 else if f != 1 && ms[1].Good? then 1 else j;
    assert IsBackup(ms, f, gen, lab, b);
  }

  /** With two trusted mirrors in agreement a crash leaves the old pair or the new one, never anything else. */
  lemma CrashLeavesOldOrNew(crc: Checksum, m: Media, ms: seq<Mark>, gen: int, was: seq<Byte>, lab: seq<Byte>,
                            order: seq<int>, k: nat, torn: bool, m': Media, a: int, b: int)
    requires Marked(crc, m, ms) && Probes(crc, m, gen, was) && 0 <= gen < GEN_MAX
    requires Interrupted(crc, m, gen + 1, lab, order, k, torn, m')
    requires |ms| == 3 && 0 <= a < b < |ms| && ms[a].Good? && ms[b].Good? && Agree(ms, gen, was)
    ensures if k > 0 then Probes(crc, m', gen + 1, lab) else Probes(crc, m', gen, was)
  {
    CrashAtomic(crc, m, ms, gen, was, lab, order, k, torn, m');
    if k == 0 && torn { AgreementBacksUp(ms, gen, was, order[0], if a != order[0] then a else b); }
  }

  // ---- The last generation ----

  /** Mirror `i` is among those a crash has not reached. */
  predicate Left(order: seq<int>, n: nat, i: int)
    requires n <= |order|
  {
    i in order[n..]
  }

  /** Some unreached mirror has the generation, and the first such carries the label. */
  predicate IsFirstLeft(ms: seq<Mark>, order: seq<int>, n: nat, gen: int, lab: seq<Byte>, j: int)
    requires n <= |order|
  {
    && 0 <= j < |ms| && Left(order, n, j) && ms[j] == Good(gen, lab)
    && forall i | 0 <= i < j && Left(order, n, i) && ms[i].Good? :: ms[i].gen != gen
  }

  ghost predicate FirstLeft(ms: seq<Mark>, order: seq<int>, n: nat, gen: int, lab: seq<Byte>)
    requires n <= |order|
  {
    exists j :: IsFirstLeft(ms, order, n, gen, lab, j)
  }

  /** Unreached mirrors, if any, have generation 0 and the first carries the label; else one has been written. */
  ghost predicate NewPrevails(ms: seq<Mark>, order: seq<int>, k: nat, n: nat, lab: seq<Byte>)
    requires k <= n <= |order|
  {
    if n == |order| then k > 0
    else FirstLeft(ms, order, n, 0, lab) && forall i | 0 <= i < |ms| && Left(order, n, i) && ms[i].Good? :: ms[i].gen == 0
  }

  /** After a crash exactly the written and the unreached mirrors are trusted, and the written ones come last. */
  lemma AfterTrusts(ms: seq<Mark>, order: seq<int>, k: nat, torn: bool, new': Mark, ms': seq<Mark>, i: int)
    requires Orderly(ms, order) && After(ms, order, k, torn, new', ms') && new'.Good? && 0 <= i < |ms|
    ensures var n := k + if torn then 1 else 0;
      && (i in order[..k] ==> ms'[i] == new' && !Left(order, n, i))
      && (Left(order, n, i) ==> ms'[i] == ms[i] && ms[i].Good? && i !in order[..k] && forall j | j in order[..k] :: i < j)
      && (i !in order[..k] && !Left(order, n, i) ==> ms'[i] == Untrusted)
  {
  }

  /** What is reported when the written mirrors have generation 0 and some mirror had the last one. */
  lemma WrapMarks(ms: seq<Mark>, order: seq<int>, k: nat, torn: bool, gen: int, was: seq<Byte>, lab: seq<Byte>, ms': seq<Mark>)
    requires Orderly(ms, order) && After(ms, order, k, torn, Good(0, lab), ms') && Reports(ms, gen, was) && gen > 0
    requires forall i | 0 <= i < |ms| && ms[i].Good? :: 0 <= ms[i].gen
    ensures var n := k + if torn then 1 else 0;
      && (Reports(ms', gen, was) <==> FirstLeft(ms, order, n, gen, was))
      && (Reports(ms', 0, lab) <==> NewPrevails(ms, order, k, n, lab))
  {
    var n := k + if torn then 1 else 0;
    var b :| Newest(ms, gen, was, b);
    forall i | 0 <= i < |ms|
      ensures i in order[..k] ==> ms'[i] == Good(0, lab) && !Left(order, n, i)
      ensures Left(order, n, i) ==> ms'[i] == ms[i] && ms[i].Good? && i !in order[..k] && forall j | j in order[..k] :: i < j
      ensures i !in order[..k] && !Left(order, n, i) ==> ms'[i] == Untrusted
    {
      AfterTrusts(ms, order, k, torn, Good(0, lab), ms', i);
    }
    WrapOld(ms, order, k, n, gen, was, lab, ms');
    WrapNew(ms, order, k, n, lab, ms');
  }

  /** The facts about a crash that the two lemmas below need. */
  predicate Sorted(ms: seq<Mark>, order: seq<int>, k: nat, n: nat, lab: seq<Byte>, ms': seq<Mark>) {
    && k <= n <= |order| && |ms| == |ms'|
    && (forall j | j in order :: 0 <= j < |ms|)
    && forall i | 0 <= i < |ms| ::
      && (i in order[..k] ==> ms'[i] == Good(0, lab) && !Left(order, n, i))
      && (Left(order, n, i) ==> ms'[i] == ms[i] && ms[i].Good? && i !in order[..k] && forall j | j in order[..k] :: i < j)
      && (i !in order[..k] && !Left(order, n, i) ==> ms'[i] == Untrusted)
  }

  lemma WrapOld(ms: seq<Mark>, order: seq<int>, k: nat, n: nat, gen: int, was: seq<Byte>, lab: seq<Byte>, ms': seq<Mark>)
    requires Sorted(ms, order, k, n, lab, ms') && gen > 0
    requires forall i | 0 <= i < |ms| && ms[i].Good? :: ms[i].gen <= gen
    ensures Reports(ms', gen, was) <==> FirstLeft(ms, order, n, gen, was)
  {
    if Reports(ms', gen, was) {
      var j :| Newest(ms', gen, was, j);
      assert IsFirstLeft(ms, order, n, gen, was, j);
    }
    if FirstLeft(ms, order, n, gen, was) {
      var j :| IsFirstLeft(ms, order, n, gen, was, j);
      assert Newest(ms', gen, was, j);
    }
  }

  lemma WrapNew(ms: seq<Mark>, order: seq<int>, k: nat, n: nat, lab: seq<Byte>, ms': seq<Mark>)
    requires Sorted(ms, order, k, n, lab, ms') && forall i | 0 <= i < |ms| && ms[i].Good? :: 0 <= ms[i].gen
    requires forall j, l | 0 <= j < l < |order| :: order[j] > order[l]
    ensures Reports(ms', 0, lab) <==> NewPrevails(ms, order, k, n, lab)
  {
    if n == |order| {
      assert forall i :: !Left(order, n, i);
      if k > 0 {
        assert order[..k][k - 1] == order[k - 1] && order[k - 1] in order;
        assert forall j | j in order[..k] :: j >= order[k - 1];
        assert Newest(ms', 0, lab, order[k - 1]);
      }
    } else {
      assert order[n..][0] == order[n] && order[n] in order && Left(order, n, order[n]);
      if Reports(ms', 0, lab) {
        var j :| Newest(ms', 0, lab, j);
        assert IsFirstLeft(ms, order, n, 0, lab, j);
      }
      if NewPrevails(ms, order, k, n, lab) {
        var j :| IsFirstLeft(ms, order, n, 0, lab, j);
        assert Newest(ms', 0, lab, j);
      }
    }
  }

  /**
   * At the last 64-bit generation the counter wraps to 0. The old pair is found exactly if the first unreached trusted
   * mirror of the last generation carries the old label; the new pair exactly if no unreached trusted mirror has another
   * generation than 0 and the first of them, if there is one, happens to carry the new label.
   */
  lemma CrashAtWrap(crc: Checksum, m: Media, ms: seq<Mark>, was: seq<Byte>, lab: seq<Byte>,
                    order: seq<int>, k: nat, torn: bool, m': Media)
    requires Marked(crc, m, ms) && Probes(crc, m, GEN_MAX, was)
    requires Interrupted(crc, m, Next(GEN_MAX), lab, order, k, torn, m')
    ensures var n := k + if torn then 1 else 0;
      && n <= |order|
      && (Probes(crc, m', GEN_MAX, was) <==> FirstLeft(ms, order, n, GEN_MAX, was))
      && (Probes(crc, m', 0, lab) <==> NewPrevails(ms, order, k, n, lab))
  {
    var ms' := Interruption(crc, m, ms, 0, lab, order, k, torn, m');
    ProbesIs(crc, m, ms, GEN_MAX, was);
    ProbesIs(crc, m', ms', GEN_MAX, was);
    ProbesIs(crc, m', ms', 0, lab);
    MarksNatural(crc, m, ms);
    WrapMarks(ms, order, k, torn, GEN_MAX, was, lab, ms');
  }

  lemma MarksNatural(crc: Checksum, m: Media, ms: seq<Mark>)
    requires Marked(crc, m, ms)
    ensures forall i | 0 <= i < |ms| && ms[i].Good? :: 0 <= ms[i].gen
  {
    assert MarkedAt(crc, m, ms, true);
  }

  // ---- All crashes of one update ----

  /** What the probe finds after a crash of the writes `ws`, which put label `lab` in the place of generation `gen` and
      label `was`: the conclusions of the two theorems above. */
  ghost predicate Outcome(crc: Checksum, m: Media, gen: int, was: seq<Byte>, lab: seq<Byte>, ws: seq<Write>, k: nat, torn: bool, m': Media) {
    var ms, order, n := Marks(crc, m), Order(ws), k + if torn then 1 else 0;
    && n <= |ws|
    && if gen < GEN_MAX then
         && (k > 0 ==> Probes(crc, m', gen + 1, lab))
         && (n == 0 ==> m' == m)
         && (k == 0 && torn ==> (Probes(crc, m', gen, was) <==> Backup(ms, order[0], gen, was)))
       else
         && (Probes(crc, m', gen, was) <==> FirstLeft(ms, order, n, gen, was))
         && (Probes(crc, m', 0, lab) <==> NewPrevails(ms, order, k, n, lab))
  }

  ghost predicate EveryOutcome(crc: Checksum, m: Media, gen: int, was: seq<Byte>, lab: seq<Byte>, ws: seq<Write>) {
    OnMirrors(ws) &&
    forall k: nat, torn: bool, m': Media | Crashed(crc, m, ws, k, torn, m') :: Outcome(crc, m, gen, was, lab, ws, k, torn, m')
  }

  lemma OutcomeOf(crc: Checksum, m: Media, gen: int, was: seq<Byte>, lab: seq<Byte>, ws: seq<Write>, k: nat, torn: bool, m': Media)
    requires 0 <= gen <= GEN_MAX && Probes(crc, m, gen, was) && Interrupted(crc, m, Next(gen), lab, Order(ws), k, torn, m')
    ensures Outcome(crc, m, gen, was, lab, ws, k, torn, m')
  {
    var ms := MarksOf(crc, m);
    assert MarkedAt(crc, m, ms, true);
    if gen < GEN_MAX {
      var ms' := Interruption(crc, m, ms, gen + 1, lab, Order(ws), k, torn, m');
      CrashAtomic(crc, m, ms, gen, was, lab, Order(ws), k, torn, m');
    } else {
      CrashAtWrap(crc, m, ms, was, lab, Order(ws), k, torn, m');
    }
  }

  /** Wherever an update of media in a state that the probe reports is interrupted, the two theorems apply. */
  lemma PlanOutcomes(crc: Checksum, m: Media, gen: int, was: seq<Byte>, lab: seq<Byte>)
    requires 0 <= gen <= GEN_MAX && Probes(crc, m, gen, was) && LabelOk(lab) && Preflight(crc, ExamineAll(crc, m), m)
    ensures EveryOutcome(crc, m, gen, was, lab, Plan(crc, m, Next(gen), lab))
  {
    var ws := Plan(crc, m, Next(gen), lab);
    forall k: nat, torn: bool, m': Media | Crashed(crc, m, ws, k, torn, m') ensures Outcome(crc, m, gen, was, lab, ws, k, torn, m') {
      forall u: bool ensures InterruptedAt(crc, m, Next(gen), lab, Order(ws), k, torn, m', u) {}
      OutcomeOf(crc, m, gen, was, lab, ws, k, torn, m');
    }
  }

  // ---- Concrete media ----

  /** A superblock with the fields of mirror `i` and no checksum yet. */
  function Blank(i: int): (s: Super)
    requires 0 <= i < MIRROR_MAX
  {
    Zeros(0x30) + Put64(Offset(i)) + Zeros(8) + MAGIC + Zeros(0x48) + Put32(4096) + Put32(4096) + Zeros(0xF68)
  }

  lemma BlankFields(i: int)
    requires 0 <= i < MIRROR_MAX
    ensures var b := Blank(i); Bytenr(b) == Offset(i) && MagicOk(b) && GeometryOk(b) && b[0xC4] == 0 && b[0xC5] == 0
  {
    var b := Blank(i);
    assert b[0x30..0x38] == Put64(Offset(i));
    assert b[0x40..0x48] == MAGIC;
    assert b[0x90..0x94] == Put32(4096) && b[0x94..0x98] == Put32(4096);
  }

  function Sealed(crc: Checksum, s: Super): Super {
    Put32(crc(s[0x20..])) + s[4..]
  }

  lemma SealedIsValid(crc: Checksum, s: Super, i: int)
    requires Inspectable(s, i) && s[0xC4] == 0 && s[0xC5] == 0
    ensures SuperValidAt(crc, Sealed(crc, s), i)
  {
    var r := Sealed(crc, s);
    assert r[0x20..] == s[0x20..] && r[..4] == Put32(crc(s[0x20..]));
    assert r[0x30..0x38] == s[0x30..0x38] && r[0x40..0x48] == s[0x40..0x48];
    assert r[0x90..0x94] == s[0x90..0x94] && r[0x94..0x98] == s[0x94..0x98];
  }

  /** Valid superblocks exist for every mirror, generation and legal label, whatever the checksum function. */
  lemma Sample(crc: Checksum, i: int, gen: int, lab: seq<Byte>) returns (s: Super)
    requires 0 <= i < MIRROR_MAX && 0 <= gen <= GEN_MAX && LabelOk(lab)
    ensures SuperValidAt(crc, s, i) && Generation(s) == gen && LabelOf(s) == lab
  {
    BlankFields(i);
    SealedIsValid(crc, Blank(i), i);
    NewSuperReads(crc, Sealed(crc, Blank(i)), gen, lab, i);
    s := NewSuper(crc, Sealed(crc, Blank(i)), gen, lab);
  }

  lemma TornExists(crc: Checksum) returns (s: Super)
    ensures !CsumOk(crc, s)
  {
    s := Zeros(SUPER_SIZE)[0xC4 := 1];
  }

  /** Media with two trusted mirrors, as the probe sees them, and the order in which they are written. */
  lemma TwoOf(crc: Checksum, g0: int, t0: seq<Byte>, g1: int, t1: seq<Byte>) returns (m: Media, ms: seq<Mark>)
    requires 0 <= g0 <= GEN_MAX && 0 <= g1 <= GEN_MAX && LabelOk(t0) && LabelOk(t1)
    ensures Marked(crc, m, ms) && ms == [Good(g0, t0), Good(g1, t1), Untrusted]
    ensures var infos := ExamineAll(crc, m);
      Preflight(crc, infos, m) && Usable(infos, 0) && Usable(infos, 1) && !Usable(infos, 2)
  {
    var a := Sample(crc, 0, g0, t0);
    var b := Sample(crc, 1, g1, t1);
    m := [Holds(a), Holds(b), Absent];
    TwoUsable(crc, m, a, b);
    TwoMarks(crc, m, a, b);
    ms := [Good(g0, t0), Good(g1, t1), Untrusted];
  }

  lemma TwoMarks(crc: Checksum, m: Media, a: Super, b: Super)
    requires SuperValidAt(crc, a, 0) && SuperValidAt(crc, b, 1) && m == [Holds(a), Holds(b), Absent]
    ensures Marks(crc, m) == [Good(Generation(a), LabelOf(a)), Good(Generation(b), LabelOf(b)), Untrusted]
  {
    assert MarkAt(crc, m, 0) == Good(Generation(a), LabelOf(a));
    assert MarkAt(crc, m, 1) == Good(Generation(b), LabelOf(b));
    assert MarkAt(crc, m, 2) == Untrusted;
  }

  lemma TwoUsable(crc: Checksum, m: Media, a: Super, b: Super)
    requires SuperValidAt(crc, a, 0) && SuperValidAt(crc, b, 1) && m == [Holds(a), Holds(b), Absent]
    ensures var infos := ExamineAll(crc, m);
      Preflight(crc, infos, m) && Usable(infos, 0) && Usable(infos, 1) && !Usable(infos, 2)
  {
    var infos := ExamineAll(crc, m);
    forall i | 0 <= i < MIRROR_MAX && Usable(infos, i) ensures TrustedAt(crc, m, i) {
      if i != 0 { assert i == 1; }
    }
  }

  lemma TwoWrites(infos: seq<Info>, tx: seq<Super>)
    requires Usable(infos, 0) && Usable(infos, 1) && !Usable(infos, 2) && |tx| == MIRROR_MAX
    ensures PlanDown(infos, tx, 0) == [Write(1, tx[1]), Write(0, tx[0])]
  {
  }

  /** On such media an update can be interrupted in its first write, or after it. */
  lemma InterruptTwo(crc: Checksum, m: Media, gen: int, lab: seq<Byte>, k: nat, torn: bool) returns (m': Media)
    requires 0 <= gen <= GEN_MAX && LabelOk(lab) && k + (if torn then 1 else 0) == 1
    requires var infos := ExamineAll(crc, m);
      Preflight(crc, infos, m) && Usable(infos, 0) && Usable(infos, 1) && !Usable(infos, 2)
    ensures Interrupted(crc, m, gen, lab, [1, 0], k, torn, m')
  {
    var tx := PrepareAll(crc, ExamineAll(crc, m), m, gen, lab);
    TwoWrites(ExamineAll(crc, m), tx);
    var ws := Plan(crc, m, gen, lab);
    assert Order(ws) == [1, 0];
    var t := TornExists(crc);
    m' := if torn then Apply(m, ws[..k])[ws[k].i := Holds(t)] else Apply(m, ws[..k]);
  }

  /**
   * Two trusted mirrors are not enough when they disagree: a crash during the first write can leave a
   * state in which the probe finds neither the old label nor the new one.
   */
  lemma DisagreementLosesBoth(crc: Checksum) returns (m: Media, ms: seq<Mark>, m': Media)
    ensures Marked(crc, m, ms) && ms == [Good(5, [0x61]), Good(6, [0x62]), Untrusted]
    ensures Probes(crc, m, 6, [0x62]) && Interrupted(crc, m, 7, [0x63], [1, 0], 0, true, m')
    ensures Probes(crc, m', 5, [0x61])
  {
    m, ms := TwoOf(crc, 5, [0x61], 6, [0x62]);
    m' := InterruptTwo(crc, m, 7, [0x63], 0, true);
    var ms' := Interruption(crc, m, ms, 7, [0x63], [1, 0], 0, true, m');
    ProbesIs(crc, m, ms, 6, [0x62]);
    ProbesIs(crc, m', ms', 5, [0x61]);
    assert Newest(ms, 6, [0x62], 1);
    assert Newest(ms', 5, [0x61], 0);
  }

  /** Two mirrors at the last generation, one of them rewritten: the probe still finds the old label. */
  lemma WrapKeepsOld(crc: Checksum) returns (m: Media, ms: seq<Mark>, m': Media)
    ensures Marked(crc, m, ms) && ms == [Good(GEN_MAX, [0x61]), Good(GEN_MAX, [0x61]), Untrusted]
    ensures Probes(crc, m, GEN_MAX, [0x61]) && Interrupted(crc, m, Next(GEN_MAX), [0x63], [1, 0], 1, false, m')
    ensures Probes(crc, m', GEN_MAX, [0x61])
  {
    m, ms := TwoOf(crc, GEN_MAX, [0x61], GEN_MAX, [0x61]);
    m' := InterruptTwo(crc, m, 0, [0x63], 1, false);
    ProbesIs(crc, m, ms, GEN_MAX, [0x61]);
    assert Newest(ms, GEN_MAX, [0x61], 0);
    CrashAtWrap(crc, m, ms, [0x61], [0x63], [1, 0], 1, false, m');
    assert IsFirstLeft(ms, [1, 0], 1, GEN_MAX, [0x61], 0);
  }
}
