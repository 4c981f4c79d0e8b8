/** The mounted Btrfs volume: probe, write enabling and the label transaction, over real media. */
module BtrfsVolume {
  import opened Words
  import opened Btrfs
  import opened BtrfsCrash

  datatype Status = Done | Refused | PreflightFailed | NoMirror | VerifyFailed

  function CsumType(s: Super): int { s[0xC4] as int + 0x100 * s[0xC5] as int }

  /** How many of the first `n` mirrors are usable. */
  function UsableCount(infos: seq<Info>, n: nat): nat
    requires n <= |infos|
  {
    if n == 0 then 0 else UsableCount(infos, n - 1) + if Usable(infos, n - 1) then 1 else 0
  }

  /** The first `n` mirrors, where usable, are trusted. */
  predicate CheckedTo(crc: Checksum, infos: seq<Info>, m: Media, n: nat) {
    n == 0 || (CheckedTo(crc, infos, m, n - 1) && (Usable(infos, n - 1) ==> TrustedAt(crc, m, n - 1)))
  }

  lemma {:induction false} CheckedMeans(crc: Checksum, infos: seq<Info>, m: Media, n: nat)
    ensures CheckedTo(crc, infos, m, n) <==> forall i | 0 <= i < n && Usable(infos, i) :: TrustedAt(crc, m, i)
    decreases n
  {
    if n > 0 { CheckedMeans(crc, infos, m, n - 1); }
  }

  /** The writes that give every usable mirror generation `gen` and label `lab`. */
  function PlanFor(crc: Checksum, infos: seq<Info>, m: Media, gen: int, lab: seq<Byte>): (ws: seq<Write>)
    requires 0 <= gen <= GEN_MAX && LabelOk(lab) && Preflight(crc, infos, m)
    ensures OnMirrors(ws)
  {
    PlanDown(infos, PrepareAll(crc, infos, m, gen, lab), 0)
  }

  predicate AllCarry(crc: Checksum, infos: seq<Info>, m: Media, gen: int, lab: seq<Byte>) {
    forall i | 0 <= i < MIRROR_MAX && Usable(infos, i) ::
      TrustedAt(crc, m, i) && Generation(m[i].sb) == gen && LabelOf(m[i].sb) == lab
  }

  /** The records of the usable mirrors have taken the generation, and nothing else changed. */
  predicate Recorded(infos: seq<Info>, gen: int, infos': seq<Info>) {
    && |infos| == |infos'|
    && forall i | 0 <= i < |infos| ::
      infos'[i] == if Usable(infos, i) then infos[i].(generation := gen) else infos[i]
  }

  /** A completed update: the writes `ws`, the media `m'` and the records `infos'` they leave. Stated so that it is handed
      on without unfolding. */
  ghost predicate Updated(crc: Checksum, infos: seq<Info>, m: Media, gen: int, lab: seq<Byte>, ws: seq<Write>, m': Media, infos': seq<Info>) {
    forall u: bool {:trigger UpdatedAt(crc, infos, m, gen, lab, ws, m', infos', u)} :: UpdatedAt(crc, infos, m, gen, lab, ws, m', infos', u)
  }

  /** The writes are the plan; every usable mirror is valid, carries the new pair and is recorded so; the others are untouched. */
  ghost predicate UpdatedAt(crc: Checksum, infos: seq<Info>, m: Media, gen: int, lab: seq<Byte>, ws: seq<Write>, m': Media, infos': seq<Info>, u: bool) {
    && 0 <= gen <= GEN_MAX && LabelOk(lab) && Preflight(crc, infos, m)
    && ws == PlanFor(crc, infos, m, gen, lab) && m' == Apply(m, ws)
    && AllCarry(crc, infos, m', gen, lab) && Recorded(infos, gen, infos')
    && forall i | 0 <= i < MIRROR_MAX && !Usable(infos, i) :: m'[i] == m[i]
  }

  class Volume {
    const crc: Checksum
    var media: Media
    /** Every superblock write issued so far, in order. */
    ghost var log: seq<Write>

    var valid: bool
    var trusted: bool
    var writeEnabled: bool
    var selected: int
    var csumType: int
    var generation: int
    var tag: seq<Byte>
    var mirrors: seq<Info>

    ghost predicate Valid()
      reads this
    {
      0 <= generation <= GEN_MAX && (valid ==> |mirrors| == MIRROR_MAX)
    }

    /** The state is what a probe of the present media would report. */
    ghost predicate Accurate()
      reads this
    {
      && Valid() && valid
      && mirrors == ExamineAll(crc, media)
      && Find(crc, media) == Found(selected, trusted, generation, tag)
      && InspectableAt(media, selected) && csumType == CsumType(media[selected].sb)
    }

    /** The mirror records are accurate, and generation and label are those a probe of the present media would report. */
    ghost predicate Current()
      reads this
    {
      && Valid() && valid && trusted
      && mirrors == ExamineAll(crc, media) && Probes(crc, media, generation, tag)
    }

    constructor (crc: Checksum, media: Media)
      ensures Valid() && !valid && !writeEnabled && this.crc == crc && this.media == media && log == []
    {
      this.crc, this.media, log := crc, media, [];
      valid, trusted, writeEnabled := false, false, false;
      selected, csumType, generation, tag, mirrors := -1, 0, 0, [], [];
    }

    /** Look at every mirror and select the best; only reads the media. */
    method Probe() returns (ok: bool)
      modifies this
      ensures Valid() && media == old(media) && log == old(log)
      ensures ok == valid == Find(crc, media).Found?
      ensures ok ==> Accurate() && (trusted ==> Current())
      ensures ok <==> exists i | 0 <= i < MIRROR_MAX :: InspectableAt(media, i)
      ensures ok ==> Selects(crc, media, selected) && trusted == CsumOk(crc, media[selected].sb)
                     && generation == Generation(media[selected].sb) && tag == LabelOf(media[selected].sb)
      ensures !writeEnabled && mirrors == ExamineAll(crc, media) && (!ok ==> !trusted && selected == -1)
    {
      valid, trusted, writeEnabled := false, false, false;
      selected, csumType, generation, tag, mirrors := -1, 0, 0, [], [];
      FindSelects(crc, media);
      var best := Scan();
      if best < 0 { return false; }
      SelectedIsFound(crc, media, best);
      Select(best);
      return true;
    }

    /** Copies the selected superblock's fields. */
    method Select(best: int)
      requires 0 <= best < MIRROR_MAX && mirrors == ExamineAll(crc, media) && media[best].Holds?
      requires Find(crc, media) == Found(best, mirrors[best].csumOk, Generation(media[best].sb), LabelOf(media[best].sb))
      modifies this`selected, this`valid, this`trusted, this`generation, this`tag, this`csumType
      ensures Accurate()
    {
      var s := media[best].sb;
      selected, valid, trusted := best, true, mirrors[best].csumOk;
      generation, tag, csumType := Generation(s), LabelOf(s), CsumType(s);
    }

    /** Records every mirror and returns the one to select. */
    method Scan() returns (best: int)
      requires mirrors == []
      modifies this`mirrors
      ensures mirrors == ExamineAll(crc, media) && best == Best(mirrors, |mirrors|)
      ensures best >= 0 ==> media[best].Holds?
    {
      best := -1;
      ghost var infos := ExamineAll(crc, media);
      var i := 0;
      while i < MIRROR_MAX
        invariant 0 <= i <= MIRROR_MAX
        invariant mirrors == infos[..i] && best == Best(infos, i)
      {
        assert infos[..i + 1] == infos[..i] + [infos[i]];
        var x := Examine(crc, media[i]);
        mirrors := mirrors + [x];
        if Candidate(x, i) && (best < 0 || Better(x, mirrors[best])) { best := i; }
        i := i + 1;
      }
      assert mirrors == infos;
      if best >= 0 { assert infos[best] == Examine(crc, media[best]); }
    }

    /** Writing can be enabled exactly on a trusted selection; a refused request leaves the state as it was. */
    method SetWriteEnabled(enabled: bool) returns (ok: bool)
      requires Valid()
      modifies this`writeEnabled
      ensures Valid()
      ensures ok == (!enabled || (valid && trusted && csumType == 0))
      ensures writeEnabled == if ok then enabled else old(writeEnabled)
    {
      if !enabled {
        writeEnabled := false;
        return true;
      }
      if !valid || !trusted || csumType != 0 { return false; }
      writeEnabled := true;
      return true;
    }

    method CheckLabel(lab: seq<Byte>) returns (ok: bool)
      ensures ok == LabelOk(lab)
    {
      if lab == [] { return false; }
      var n := 0;
      while n < |lab|
        invariant 0 <= n <= |lab| && n <= 255
        invariant forall k | 0 <= k < n :: lab[k] >= 0x20 && lab[k] != 0x2F && lab[k] != 0x5C
      {
        var c := lab[n];
        if c < 0x20 || c == 0x2F || c == 0x5C || n >= 255 {
          assert c in lab;
          return false;
        }
        n := n + 1;
      }
      return true;
    }

    method WriteSuper(i: int, sb: Super)
      requires 0 <= i < MIRROR_MAX
      modifies this`media, this`log
      ensures media == old(media)[i := Holds(sb)] && log == old(log) + [Write(i, sb)]
    {
      media := media[i := Holds(sb)];
      log := log + [Write(i, sb)];
    }

    method CheckMirror(i: int) returns (ok: bool)
      requires 0 <= i < MIRROR_MAX
      ensures ok == TrustedAt(crc, media, i)
    {
      ok := media[i].Holds? && SuperValidAt(crc, media[i].sb, i);
    }

    /** Reads back every usable mirror before anything is written. */
    method Preflighted() returns (ok: bool, n: nat)
      requires Valid() && valid
      ensures ok == Preflight(crc, mirrors, media)
      ensures ok ==> n == UsableCount(mirrors, |mirrors|)
    {
      n := 0;
      var i := 0;
      while i < MIRROR_MAX
        invariant 0 <= i <= MIRROR_MAX
        invariant CheckedTo(crc, mirrors, media, i)
        invariant n == UsableCount(mirrors, i)
      {
        if Usable(mirrors, i) {
          var ok' := CheckMirror(i);
          if !ok' {
            return false, n;
          }
          n := n + 1;
        }
        i := i + 1;
      }
      CheckedMeans(crc, mirrors, media, MIRROR_MAX);
      ok := true;
    }

    /** Secondary mirrors from the last down, then the primary. */
    method WriteAll(tx: seq<Super>)
      requires Valid() && valid && |tx| == MIRROR_MAX
      modifies this`media, this`log
      ensures log == old(log) + PlanDown(mirrors, tx, 0)
      ensures media == Apply(old(media), PlanDown(mirrors, tx, 0))
    {
      assert PlanDown(mirrors, tx, MIRROR_MAX) == [];
      var i := MIRROR_MAX;
      while i > 1
        invariant 1 <= i <= MIRROR_MAX
        invariant log == old(log) + PlanDown(mirrors, tx, i)
        invariant media == Apply(old(media), PlanDown(mirrors, tx, i))
      {
        i := i - 1;
        StepDown(i, tx, old(media), old(log));
      }
      StepDown(0, tx, old(media), old(log));
    }

    method StepDown(i: nat, tx: seq<Super>, ghost m0: Media, ghost log0: seq<Write>)
      requires Valid() && valid && |tx| == MIRROR_MAX && i < MIRROR_MAX
      requires log == log0 + PlanDown(mirrors, tx, i + 1)
      requires media == Apply(m0, PlanDown(mirrors, tx, i + 1))
      modifies this`media, this`log
      ensures log == log0 + PlanDown(mirrors, tx, i)
      ensures media == Apply(m0, PlanDown(mirrors, tx, i))
    {
      PlanStep(mirrors, tx, i, m0);
      if Usable(mirrors, i) { WriteSuper(i, tx[i]); }
    }

    /**
     * Set the label. Refused or failing preflight: nothing is written. Otherwise the writes are exactly
     * the plan, the verification that follows always passes, and every usable mirror carries the new
     * generation and label. On a current state those writes are crash-safe, and the state stays current.
     */
    method LabelSet(lab: seq<Byte>) returns (st: Status, ghost ws: seq<Write>)
      requires Valid()
      modifies this`media, this`log, this`mirrors, this`generation, this`tag
      ensures Valid() && log == old(log) + ws
      ensures st == if !(writeEnabled && valid && trusted && LabelOk(lab)) then Refused
                    else if !Preflight(crc, old(mirrors), old(media)) then PreflightFailed
                    else if UsableCount(old(mirrors), |old(mirrors)|) == 0 then NoMirror
                    else Done
      ensures st != Done ==> unchanged(this) && ws == []
      ensures st == Done ==> generation == Next(old(generation)) && tag == lab
                             && Updated(crc, old(mirrors), old(media), generation, lab, ws, media, mirrors)
      ensures st == Done && old(Current()) ==>
                Current() && EveryOutcome(crc, old(media), old(generation), old(tag), lab, ws)
    {
      ws := [];
      var labelOk := CheckLabel(lab);
      if !writeEnabled || !valid || !trusted || !labelOk { return Refused, ws; }
      var ok, n := Preflighted();
      if !ok { return PreflightFailed, ws; }
      if n == 0 { return NoMirror, ws; }
      st, ws := Commit(lab);
      if old(Current()) {
        UpdateIsSafe(crc, old(mirrors), old(media), old(generation), old(tag), lab, ws, media, mirrors);
      }
    }

    method Commit(lab: seq<Byte>) returns (st: Status, ghost ws: seq<Write>)
      requires Valid() && valid && LabelOk(lab) && Preflight(crc, mirrors, media)
      modifies this`media, this`log, this`mirrors, this`generation, this`tag
      ensures Valid() && st == Done && log == old(log) + ws
      ensures generation == Next(old(generation)) && tag == lab
      ensures Updated(crc, old(mirrors), old(media), generation, lab, ws, media, mirrors)
    {
      var next := Next(generation);
      var tx := PrepareAll(crc, mirrors, media, next, lab);
      ws := PlanDown(mirrors, tx, 0);
      PreparedIsReady(crc, mirrors, media, next, lab);
      WriteAll(tx);
      WrittenAll(crc, mirrors, old(media), tx, next, lab);
      var passed := Verify(next, lab);
      Completed(crc, old(mirrors), old(media), next, lab, ws, media, mirrors);
      generation, tag := next, lab;
      st := if passed then Done else VerifyFailed;
    }

    /** The read-back pass; `media` holding the prepared superblocks, it succeeds and records the generation. */
    method Verify(next: int, lab: seq<Byte>) returns (ok: bool)
      requires Valid() && valid
      requires AllCarry(crc, mirrors, media, next, lab)
      modifies this`mirrors
      ensures ok && Recorded(old(mirrors), next, mirrors)
    {
      var i := 0;
      while i < MIRROR_MAX
        invariant 0 <= i <= MIRROR_MAX && |mirrors| == MIRROR_MAX
        invariant forall k | 0 <= k < i ::
          mirrors[k] == if Usable(old(mirrors), k) then old(mirrors)[k].(generation := next) else old(mirrors)[k]
        invariant forall k | i <= k < MIRROR_MAX :: mirrors[k] == old(mirrors)[k]
      {
        if Usable(mirrors, i) {
          assert Usable(old(mirrors), i);
          var s := media[i].sb;
          if !SuperValidAt(crc, s, i) || Generation(s) != next || LabelOf(s) != lab { return false; }
          mirrors := mirrors[i := mirrors[i].(generation := next)];
        }
        i := i + 1;
      }
      return true;
    }
  }

  lemma SelectedIsFound(crc: Checksum, m: Media, best: int)
    requires 0 <= best < MIRROR_MAX && m[best].Holds? && best == Best(ExamineAll(crc, m), MIRROR_MAX)
    ensures Find(crc, m) == Found(best, ExamineAll(crc, m)[best].csumOk, Generation(m[best].sb), LabelOf(m[best].sb))
  {
  }

  lemma Completed(crc: Checksum, infos: seq<Info>, m: Media, gen: int, lab: seq<Byte>, ws: seq<Write>, m': Media, infos': seq<Info>)
    requires 0 <= gen <= GEN_MAX && LabelOk(lab) && Preflight(crc, infos, m) && OnMirrors(ws) && m' == Apply(m, ws)
    requires ws == PlanDown(infos, PrepareAll(crc, infos, m, gen, lab), 0)
    requires AllCarry(crc, infos, m', gen, lab) && Recorded(infos, gen, infos')
    requires forall i | 0 <= i < MIRROR_MAX && !Usable(infos, i) :: m'[i] == m[i]
    ensures Updated(crc, infos, m, gen, lab, ws, m', infos')
  {
  }

  lemma {:induction false} SomeUsable(infos: seq<Info>, n: nat)
    requires n <= |infos|
    ensures UsableCount(infos, n) > 0 <==> exists i | 0 <= i < n :: Usable(infos, i)
    decreases n
  {
    if n > 0 { SomeUsable(infos, n - 1); }
  }

  /** With accurate records the writes are the plan for the media, so that every crash has the outcome it should, and
      once all are done the records are accurate again. */
  lemma UpdateIsSafe(crc: Checksum, infos: seq<Info>, m: Media, gen: int, was: seq<Byte>, lab: seq<Byte>, ws: seq<Write>,
                     m': Media, infos': seq<Info>)
    requires infos == ExamineAll(crc, m) && 0 <= gen <= GEN_MAX && Probes(crc, m, gen, was) && UsableCount(infos, |infos|) > 0
    requires Updated(crc, infos, m, Next(gen), lab, ws, m', infos')
    ensures EveryOutcome(crc, m, gen, was, lab, ws)
    ensures infos' == ExamineAll(crc, m') && Probes(crc, m', Next(gen), lab)
  {
    assert UpdatedAt(crc, infos, m, Next(gen), lab, ws, m', infos', true);
    PlanOutcomes(crc, m, gen, was, lab);
    SomeUsable(infos, |infos|);
    UpdatedIsCurrent(crc, infos, m, m', Next(gen), lab, infos');
  }

  /** Once all usable mirrors carry the new pair, a probe reports it, and records what the update has recorded. */
  lemma UpdatedIsCurrent(crc: Checksum, infos: seq<Info>, m: Media, m': Media, gen: int, lab: seq<Byte>, infos': seq<Info>)
    requires infos == ExamineAll(crc, m) && Preflight(crc, infos, m) && exists i | 0 <= i < MIRROR_MAX :: Usable(infos, i)
    requires AllCarry(crc, infos, m', gen, lab) && Recorded(infos, gen, infos')
    requires forall i | 0 <= i < MIRROR_MAX && !Usable(infos, i) :: m'[i] == m[i]
    ensures infos' == ExamineAll(crc, m') && Probes(crc, m', gen, lab)
  {
    forall i | 0 <= i < MIRROR_MAX
      ensures infos'[i] == Examine(crc, m'[i]) && (TrustedAt(crc, m', i) <==> Usable(infos, i))
    {
      if Usable(infos, i) {
        RewrittenRecord(crc, m[i], m'[i], i, gen, lab);
      } else {
        assert !TrustedAt(crc, m, i);
      }
    }
    SameRecords(crc, infos', m');
    var b := if Usable(infos, 0) then 0 else if Usable(infos, 1) then 1 else 2;
    FirstOfEqual(crc, infos, m', gen, lab, b);
  }

  lemma SameRecords(crc: Checksum, infos: seq<Info>, m: Media)
    requires |infos| == MIRROR_MAX && forall i | 0 <= i < MIRROR_MAX :: infos[i] == Examine(crc, m[i])
    ensures infos == ExamineAll(crc, m)
  {
  }

  /** Rewriting a trusted mirror changes nothing in its record but the generation. */
  lemma RewrittenRecord(crc: Checksum, old': Slot, new': Slot, i: int, gen: int, lab: seq<Byte>)
    requires 0 <= i < MIRROR_MAX && old'.Holds? && SuperValidAt(crc, old'.sb, i)
    requires new'.Holds? && SuperValidAt(crc, new'.sb, i) && Generation(new'.sb) == gen
    ensures Examine(crc, new') == Examine(crc, old').(generation := gen)
  {
  }

  lemma FirstOfEqual(crc: Checksum, infos: seq<Info>, m: Media, gen: int, lab: seq<Byte>, b: int)
    requires 0 <= b < MIRROR_MAX && Usable(infos, b) && forall i | 0 <= i < b :: !Usable(infos, i)
    requires AllCarry(crc, infos, m, gen, lab) && forall i | 0 <= i < MIRROR_MAX :: TrustedAt(crc, m, i) <==> Usable(infos, i)
    ensures Probes(crc, m, gen, lab)
  {
    FindIs(crc, m, b);
  }

  /** The plan down to `i` is the plan above it and, if mirror `i` is usable, its write. */
  lemma PlanStep(infos: seq<Info>, tx: seq<Super>, i: nat, m: Media)
    requires |tx| == MIRROR_MAX && i < MIRROR_MAX
    ensures var ws, ws' := PlanDown(infos, tx, i + 1), PlanDown(infos, tx, i);
      if Usable(infos, i) then ws' == ws + [Write(i, tx[i])] && Apply(m, ws') == Apply(m, ws)[i := Holds(tx[i])]
      else ws' == ws
  {
  }

  /** Applying the plan gives every usable mirror its prepared superblock and leaves the others. */
  lemma WrittenAll(crc: Checksum, infos: seq<Info>, m: Media, tx: seq<Super>, gen: int, lab: seq<Byte>)
    requires |infos| == MIRROR_MAX && Ready(crc, infos, tx, gen, lab)
    ensures var m' := Apply(m, PlanDown(infos, tx, 0));
      && AllCarry(crc, infos, m', gen, lab)
      && forall i | 0 <= i < MIRROR_MAX && !Usable(infos, i) :: m'[i] == m[i]
  {
    var ws := PlanDown(infos, tx, 0);
    var m' := Apply(m, ws);
    PlanIsPlanned(infos, tx, 0);
    forall i | 0 <= i < MIRROR_MAX
      ensures m'[i] == if Usable(infos, i) then Holds(tx[i]) else m[i]
    {
      ApplyAt(infos, tx, m, ws, i);
      if Usable(infos, i) { var j := PlanCovers(infos, tx, 0, i); }
    }
  }
}
