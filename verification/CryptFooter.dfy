/**
 The crypto footer across starts, stops, failures, power losses and resumptions of the full in-place copy,
 and what do_crypto_complete may conclude from it.
 */
module CryptFooter {
  import opened Common
  import opened FullCopy

  /** The cipher of each master key. */
  type Ciphers<!B> = nat -> Cipher<B>

  /** inProgress is CRYPT_ENCRYPTION_IN_PROGRESS, inconsistent is CRYPT_INCONSISTENT_STATE. */
  datatype Footer = Footer(inProgress: bool, inconsistent: bool, encryptedUpto: nat, fsSize: nat, key: nat)

  /** stateProp says that ro.crypto.state reads "encrypted"; it is set at boot and lost with the power. */
  datatype Device<B> = Device(footer: Option<Footer>, sectors: seq<B>, stateProp: bool)

  datatype Completion = Encrypted | NotEncrypted | BadMetadata | Partial | Inconsistent

  /** How one call to enable encryption goes. */
  datatype Outcome =
    | ChecksFail                    // an error before a new footer is written
    | HashMismatch                  // the first block changed since the stop; nothing is copied
    | CopyBreaksOff(written: set<nat>)   // power lost or copy failed; these of its sectors are on the disk
    | CopyReturns                   // the copy ends, or stops on low battery, and the footer is updated

  /** The key is the one that the call makes if it starts afresh. */
  datatype Event =
    | Boot
    | Enable(outcome: Outcome, ok: Battery, key: nat)

  function DoCryptoComplete<B>(d: Device<B>): Completion {
    if !d.stateProp then NotEncrypted
    else if d.footer.None? then BadMetadata
    else if d.footer.value.inProgress then Partial
    else if d.footer.value.inconsistent then Inconsistent
    else Encrypted
  }

  predicate Resuming<B>(d: Device<B>) {
    d.footer.Some? && d.footer.value.inProgress
  }

  function PreviouslyEncryptedUpto<B>(d: Device<B>): nat {
    if Resuming(d) then d.footer.value.encryptedUpto else 0
  }

  /** The device after the stop of an earlier call has been taken out of the footer. */
  function MarkResumed<B>(d: Device<B>): Device<B> {
    if Resuming(d)
    then d.(footer := Some(d.footer.value.(encryptedUpto := 0, inProgress := false, inconsistent := true)))
    else d
  }

  /** A fresh start writes a new footer with a new key, marked inconsistent until the copy returns. */
  function MarkStarted<B>(d: Device<B>, upto: nat, size: nat, key: nat): Device<B> {
    if upto == 0 then d.(footer := Some(Footer(false, true, 0, size, key))) else d
  }

  function MarkReturned(f: Footer, done: nat): Footer {
    f.(inProgress := f.inProgress || done != f.fsSize, inconsistent := false, encryptedUpto := done)
  }

  predicate InRange(from: nat, s: nat, to: nat) {
    from <= s < to
  }

  function Range(from: nat, to: nat): (r: set<nat>)
    ensures forall s: nat :: s in r <==> from <= s < to
  {
    set s: nat | s < to && InRange(from, s, to)
  }

  /** Those of the sectors from, ..., to - 1 that the set holds are encrypted. */
  function EncryptSome<B>(c: Cipher<B>, disk: seq<B>, from: nat, to: nat, written: set<nat>): (r: seq<B>)
    ensures |r| == |disk|
  {
    seq(|disk|, s requires 0 <= s < |disk| => if from <= s < to && s in written then c(s, disk[s]) else disk[s])
  }

  /**
   One call of cryptfs_enable_internal for an in-place encryption by the full copy.  When the copy returns,
   the device reboots, shuts down, or sets ro.crypto.state itself, so the state property is set from then on.
   */
  function EnableStep<B>(cs: Ciphers<B>, d: Device<B>, size: nat, outcome: Outcome, ok: Battery, key: nat): Device<B> {
    var upto := PreviouslyEncryptedUpto(d);
    var resumed := MarkResumed(d);
    if d.stateProp && upto == 0 then resumed
    else if outcome.ChecksFail? then resumed
    else
      var started := MarkStarted(resumed, upto, size, key);
      var f := started.footer.value;
      match outcome
      case HashMismatch => started
      case CopyBreaksOff(written) =>
        started.(sectors := EncryptSome(cs(f.key), d.sectors, upto + 1, CopyEnd(f.fsSize, upto, ok), written))
      case CopyReturns =>
        var skip := f.fsSize < upto;
        var done := if skip then f.fsSize else ReportedDone(f.fsSize, upto, ok);
        Device(Some(MarkReturned(f, done)),
               if skip then d.sectors
               else EncryptSpan(cs(f.key), d.sectors, upto + 1, CopyEnd(f.fsSize, upto, ok)),
               true)
  }

  /** A boot finds the state property from whether there is a footer. */
  function Step<B>(cs: Ciphers<B>, d: Device<B>, size: nat, e: Event): Device<B> {
    match e
    case Boot => d.(stateProp := d.footer.Some?)
    case Enable(outcome, ok, key) => EnableStep(cs, d, size, outcome, ok, key)
  }

  // ----- Honesty -------------------------------------------------------------------------------

  /** The footer tells the truth about a volume of size sectors that started out as orig. */
  ghost predicate Honest<B>(cs: Ciphers<B>, orig: seq<B>, size: nat, d: Device<B>) {
    match d.footer
    case None => d.sectors == orig
    case Some(f) =>
      && f.fsSize == size
      && !(f.inProgress && f.inconsistent)
      && (f.inProgress ==>
            0 < f.encryptedUpto < size && ResumePoint(size, f.encryptedUpto)
            && d.sectors == EncryptSpan(cs(f.key), orig, 1, f.encryptedUpto + 1))
      && (f.inconsistent ==> PartlyEncrypted(cs(f.key), orig, size, d.sectors))
      && (!f.inProgress && !f.inconsistent ==> d.sectors == EncryptSpan(cs(f.key), orig, 1, size))
  }

  /** Some of the sectors 1, ..., size - 1 are encrypted, each once, and the others are as they were. */
  ghost predicate PartlyEncrypted<B>(c: Cipher<B>, orig: seq<B>, size: nat, sectors: seq<B>) {
    exists done :: sectors == EncryptSome(c, orig, 1, size, done)
  }

  /** A call that starts afresh although a footer is there, because ro.crypto.state does not say so yet. */
  predicate StartsOver<B>(d: Device<B>, e: Event) {
    e.Enable? && !e.outcome.ChecksFail? && d.footer.Some? && !d.stateProp && !Resuming(d)
  }

  /** Encryption is not started over once sectors have been written. */
  ghost predicate Legal<B>(orig: seq<B>, d: Device<B>, e: Event) {
    StartsOver(d, e) ==> d.sectors == orig
  }

  /** Where a copy that starts at a resume point can end. */
  lemma CopyEndInVolume(size: nat, upto: nat, ok: Battery)
    requires ResumePoint(size, upto)
    ensures upto + 1 <= CopyEnd(size, upto, ok) <= size
    ensures ReportedDone(size, upto, ok) == size <==> CopyEnd(size, upto, ok) == size && !Stops(size, upto, ok)
    ensures ReportedDone(size, upto, ok) == size || (
      && 0 < ReportedDone(size, upto, ok) < size
      && ResumePoint(size, ReportedDone(size, upto, ok))
      && CopyEnd(size, upto, ok) == ReportedDone(size, upto, ok) + 1)
  {
    if Stops(size, upto, ok) {
      StopMakesProgress(size, upto, ok);
    }
  }

  /** A copy that breaks off adds some sectors to those already encrypted. */
  lemma BreakOffIsPartial<B>(c: Cipher<B>, orig: seq<B>, size: nat, from: nat, to: nat, written: set<nat>)
    requires 1 <= from <= size && to <= size
    ensures PartlyEncrypted(c, orig, size, EncryptSome(c, EncryptSpan(c, orig, 1, from), from, to, written))
  {
    var done := Range(1, from) + (written * Range(from, to));
    assert EncryptSome(c, EncryptSpan(c, orig, 1, from), from, to, written) == EncryptSome(c, orig, 1, size, done);
  }

  lemma SpanIsPartial<B>(c: Cipher<B>, orig: seq<B>, size: nat, to: nat)
    requires to <= size
    ensures PartlyEncrypted(c, orig, size, EncryptSpan(c, orig, 1, to))
  {
    assert EncryptSpan(c, orig, 1, to) == EncryptSome(c, orig, 1, size, Range(1, to));
  }

  /** One event keeps the footer honest, unless it starts over on sectors already written. */
  lemma StepKeepsHonest<B>(cs: Ciphers<B>, orig: seq<B>, size: nat, d: Device<B>, e: Event)
    requires ResumePoint(size, 0)
    requires Honest(cs, orig, size, d) && Legal(orig, d, e)
    ensures Honest(cs, orig, size, Step(cs, d, size, e))
  {
    hide EncryptSpan, EncryptSome, CopyEnd, ReportedDone, PartlyEncrypted;
    if e.Enable? {
      var upto := PreviouslyEncryptedUpto(d);
      var started := MarkStarted(MarkResumed(d), upto, size, e.key);
      EmptySpan(cs(e.key), orig, 1);
      SpanIsPartial(cs(e.key), orig, size, 1);
      if Resuming(d) {
        SpanIsPartial(cs(d.footer.value.key), orig, size, upto + 1);
      }
      if !e.outcome.ChecksFail? && (Resuming(d) || !d.stateProp) {
        var c := cs(started.footer.value.key);
        var end := CopyEnd(size, upto, e.ok);
        assert d.sectors == EncryptSpan(c, orig, 1, upto + 1);
        CopyEndInVolume(size, upto, e.ok);
        SpanJoins(c, orig, 1, upto + 1, end);
        if e.outcome.CopyBreaksOff? {
          BreakOffIsPartial(c, orig, size, upto + 1, end, e.outcome.written);
        }
      }
    }
  }

  /**
   No sector of the original comes out of encryption with one key, or with one key and then the other, as
   itself or as the other key makes it.
   */
  ghost predicate KeysApart<B(!new)>(c: Cipher<B>, c': Cipher<B>, orig: seq<B>) {
    forall s: nat :: s < |orig| && c(s, orig[s]) != orig[s] ==>
      var x := orig[s];
      c(s, x) != c'(s, x) && c'(s, c(s, x)) !in {x, c'(s, x)}
  }

  /** Under an honest footer every sector is as it was or as the key makes it. */
  lemma HonestSector<B>(cs: Ciphers<B>, orig: seq<B>, size: nat, d: Device<B>, s: nat)
    requires Honest(cs, orig, size, d) && d.footer.Some?
    ensures |d.sectors| == |orig|
    ensures s < |orig| ==> d.sectors[s] == orig[s] || d.sectors[s] == cs(d.footer.value.key)(s, orig[s])
  {
  }

  /**
   Exactly which events a truthful footer survives: all but those that start over on sectors already written.
   The converse needs keys that do not happen to agree on the original data.
   */
  lemma StepHonestIffLegal<B(!new)>(cs: Ciphers<B>, orig: seq<B>, size: nat, d: Device<B>, e: Event)
    requires ResumePoint(size, 0) && Honest(cs, orig, size, d)
    requires StartsOver(d, e) ==> KeysApart(cs(d.footer.value.key), cs(e.key), orig)
    ensures Honest(cs, orig, size, Step(cs, d, size, e)) <==> Legal(orig, d, e)
  {
    if Legal(orig, d, e) {
      StepKeepsHonest(cs, orig, size, d, e);
    } else {
      hide Honest, CopyEnd, ReportedDone;
      var after := Step(cs, d, size, e);
      HonestSector(cs, orig, size, d, 0);
      var s: nat :| s < |orig| && d.sectors[s] != orig[s];
      HonestSector(cs, orig, size, d, s);
      assert after.sectors[s] in {d.sectors[s], cs(e.key)(s, d.sectors[s])};
      if Honest(cs, orig, size, after) {
        HonestSector(cs, orig, size, after, s);
      }
    }
  }

  /**
   A call on a device that has a footer but whose state property does not yet say so, whose copy returns: it
   reports the device as encrypted, or as partly so on a stop, and that is true if and only if no sector had
   been encrypted.
   */
  lemma RetryHonestIffUntouched<B(!new)>(cs: Ciphers<B>, orig: seq<B>, size: nat, d: Device<B>, ok: Battery, key: nat)
    requires ResumePoint(size, 0) && Honest(cs, orig, size, d)
    requires d.footer.Some? && !d.stateProp && !Resuming(d) && KeysApart(cs(d.footer.value.key), cs(key), orig)
    ensures var after := EnableStep(cs, d, size, CopyReturns, ok, key);
      && DoCryptoComplete(after) == (if Stops(size, 0, ok) then Partial else Encrypted)
      && (Honest(cs, orig, size, after) <==> d.sectors == orig)
  {
    hide Honest, CopyEnd, ReportedDone, EncryptSpan;
    StepHonestIffLegal(cs, orig, size, d, Enable(CopyReturns, ok, key));
    CopyEndInVolume(size, 0, ok);
    ReportedOnStop(size, 0, ok);
  }

  lemma ReportedOnStop(size: nat, upto: nat, ok: Battery)
    ensures ReportedDone(size, upto, ok) == size <==> !Stops(size, upto, ok)
  {
    if Stops(size, upto, ok) {
      FirstStopRange(ok, StartBlock(upto), NumBlocks(size));
    }
  }

  /**
   Such a device is reached in one step: a first call whose copy breaks off after changing a sector.  The next
   call, in the same boot, leaves an untruthful footer.
   */
  lemma RetryIsReachable<B(!new)>(cs: Ciphers<B>, orig: seq<B>, size: nat, written: set<nat>, s: nat, ok: Battery,
                                  ok': Battery, key: nat, key': nat)
    requires ResumePoint(size, 0) && KeysApart(cs(key), cs(key'), orig)
    requires s in written && 1 <= s < CopyEnd(size, 0, ok) && s < |orig| && cs(key)(s, orig[s]) != orig[s]
    ensures var plain := Device(None, orig, false);
      var broken := EnableStep(cs, plain, size, CopyBreaksOff(written), ok, key);
      && Honest(cs, orig, size, plain) && Honest(cs, orig, size, broken)
      && !broken.stateProp && !Resuming(broken) && broken.sectors != orig
      && !Honest(cs, orig, size, EnableStep(cs, broken, size, CopyReturns, ok', key'))
  {
    hide CopyEnd, ReportedDone, PartlyEncrypted;
    var plain := Device(None, orig, false);
    var broken := EnableStep(cs, plain, size, CopyBreaksOff(written), ok, key);
    StepKeepsHonest(cs, orig, size, plain, Enable(CopyBreaksOff(written), ok, key));
    assert broken.sectors[s] == cs(key)(s, orig[s]);
    RetryHonestIffUntouched(cs, orig, size, broken, ok', key');
  }

  ghost predicate IsRun<B>(cs: Ciphers<B>, size: nat, devices: seq<Device<B>>, events: seq<Event>) {
    && |devices| == |events| + 1
    && forall i :: 0 <= i < |events| ==> devices[i + 1] == Step(cs, devices[i], size, events[i])
  }

  ghost predicate LegalUpTo<B>(devices: seq<Device<B>>, events: seq<Event>, n: nat)
    requires n <= |events| < |devices|
  {
    forall i :: 0 <= i < n ==> Legal(devices[0].sectors, devices[i], events[i])
  }

  ghost predicate HonestUpTo<B>(cs: Ciphers<B>, size: nat, devices: seq<Device<B>>, n: nat)
    requires n < |devices|
  {
    forall j :: 0 <= j <= n ==> Honest(cs, devices[0].sectors, size, devices[j])
  }

  /**
   Over every run from a plain device that never starts over on sectors already written, the footer stays
   honest; so ENCRYPTED is reported only when every sector from 1 on is encrypted exactly once with the key in
   the footer, and PARTIAL only when exactly those up to encrypted_upto are.
   */
  lemma {:induction false} RunsAreHonest<B>(cs: Ciphers<B>, size: nat, devices: seq<Device<B>>, events: seq<Event>,
                                            i: nat)
    requires ResumePoint(size, 0)
    requires IsRun(cs, size, devices, events) && devices[0].footer.None? && i < |devices|
    requires LegalUpTo(devices, events, i)
    ensures var orig, d := devices[0].sectors, devices[i];
      && Honest(cs, orig, size, d)
      && (DoCryptoComplete(d) == Encrypted ==> d.sectors == EncryptSpan(cs(d.footer.value.key), orig, 1, size))
      && (DoCryptoComplete(d) == Partial ==>
            d.sectors == EncryptSpan(cs(d.footer.value.key), orig, 1, d.footer.value.encryptedUpto + 1))
  {
    hide EncryptSpan, PartlyEncrypted, Step;
    if i > 0 {
      RunsAreHonest(cs, size, devices, events, i - 1);
      assert Legal(devices[0].sectors, devices[i - 1], events[i - 1]);
      StepKeepsHonest(cs, devices[0].sectors, size, devices[i - 1], events[i - 1]);
    }
  }

  /**
   And those are all the runs over which it does, at every moment, as long as no new key happens to agree with
   the one it replaces on the original data.
   */
  lemma {:induction false} RunsHonestIffLegal<B(!new)>(cs: Ciphers<B>, size: nat, devices: seq<Device<B>>,
                                                       events: seq<Event>, n: nat)
    requires ResumePoint(size, 0) && n <= |events|
    requires IsRun(cs, size, devices, events) && devices[0].footer.None?
    requires forall i :: 0 <= i < |events| && StartsOver(devices[i], events[i]) ==>
      KeysApart(cs(devices[i].footer.value.key), cs(events[i].key), devices[0].sectors)
    ensures HonestUpTo(cs, size, devices, n) <==> LegalUpTo(devices, events, n)
  {
    hide EncryptSpan, PartlyEncrypted, Step, KeysApart, StartsOver, Legal, Honest;
    if n == 0 {
      HonestAtStart(cs, size, devices[0]);
    } else {
      RunsHonestIffLegal(cs, size, devices, events, n - 1);
      LegalStep(devices, events, n);
      assert devices[(n - 1) + 1] == Step(cs, devices[n - 1], size, events[n - 1]);
      if HonestUpTo(cs, size, devices, n - 1) {
        assert Honest(cs, devices[0].sectors, size, devices[n - 1]);
        StepHonestIffLegal(cs, devices[0].sectors, size, devices[n - 1], events[n - 1]);
        assert Honest(cs, devices[0].sectors, size, devices[n])
          <==> Legal(devices[0].sectors, devices[n - 1], events[n - 1]);
      }
    }
  }

  lemma LegalStep<B>(devices: seq<Device<B>>, events: seq<Event>, n: nat)
    requires 0 < n <= |events| < |devices|
    ensures LegalUpTo(devices, events, n)
       <==> LegalUpTo(devices, events, n - 1) && Legal(devices[0].sectors, devices[n - 1], events[n - 1])
  {
  }

  lemma HonestAtStart<B>(cs: Ciphers<B>, size: nat, d: Device<B>)
    requires d.footer.None?
    ensures Honest(cs, d.sectors, size, d)
  {
  }

  // ----- What is reported ----------------------------------------------------------------------

  /** What has become of a device, by its history alone. */
  datatype Fate = Plain | Broken | Stopped(upto: nat) | Done

  /** known says that ro.crypto.state reads "encrypted". */
  datatype Story = Story(fate: Fate, known: bool)

  /**
   A call goes ahead on a stopped device, and on any other whose property does not yet read "encrypted" if its
   checks pass.  It then breaks the device unless its copy returns.
   */
  function Next(size: nat, s: Story, e: Event): Story {
    match e
    case Boot => s.(known := s.fate != Plain)
    case Enable(outcome, ok, _) =>
      if !s.fate.Stopped? && (s.known || outcome.ChecksFail?) then s
      else if !outcome.CopyReturns? then s.(fate := Broken)
      else
        var from := if s.fate.Stopped? then s.fate.upto else 0;
        Story(if Stops(size, from, ok) then Stopped(ReportedDone(size, from, ok)) else Done, true)
  }

  function Told(size: nat, events: seq<Event>): Story {
    if events == [] then Story(Plain, false)
    else Next(size, Told(size, events[..|events| - 1]), events[|events| - 1])
  }

  function Answer(s: Story): Completion {
    if !s.known then NotEncrypted
    else
      match s.fate
      case Plain => BadMetadata
      case Broken => Inconsistent
      case Stopped(_) => Partial
      case Done => Encrypted
  }

  /** The footer bears out the story. */
  ghost predicate BearsOut<B>(size: nat, d: Device<B>, s: Story) {
    && d.stateProp == s.known
    && (s.known ==> s.fate != Plain)
    && (d.footer.None? <==> s.fate == Plain)
    && (d.footer.Some? ==>
          var f := d.footer.value;
          && f.fsSize == size
          && (f.inProgress <==> s.fate.Stopped?) && (f.inconsistent <==> s.fate == Broken)
          && (s.fate.Stopped? ==> f.encryptedUpto == s.fate.upto)
          && (s.fate.Stopped? ==> 0 < s.fate.upto < size && ResumePoint(size, s.fate.upto)))
  }

  lemma StepBearsOut<B>(cs: Ciphers<B>, size: nat, d: Device<B>, s: Story, e: Event)
    requires ResumePoint(size, 0) && BearsOut(size, d, s)
    ensures BearsOut(size, Step(cs, d, size, e), Next(size, s, e))
  {
    hide EncryptSpan, EncryptSome, CopyEnd, ReportedDone, Stops;
    if e.Enable? {
      var upto := PreviouslyEncryptedUpto(d);
      CopyEndInVolume(size, upto, e.ok);
      ReportedOnStop(size, upto, e.ok);
    }
  }

  /** Over every run from a plain device, do_crypto_complete answers what the history of calls and boots says. */
  lemma {:induction false} AnswersByHistory<B>(cs: Ciphers<B>, size: nat, devices: seq<Device<B>>, events: seq<Event>,
                                               n: nat)
    requires ResumePoint(size, 0) && n <= |events|
    requires IsRun(cs, size, devices, events) && devices[0].footer.None? && !devices[0].stateProp
    ensures DoCryptoComplete(devices[n]) == Answer(Told(size, events[..n]))
    ensures BearsOut(size, devices[n], Told(size, events[..n]))
  {
    hide Step, Next;
    if n > 0 {
      AnswersByHistory(cs, size, devices, events, n - 1);
      assert events[..n][..n - 1] == events[..n - 1];
      assert devices[(n - 1) + 1] == Step(cs, devices[n - 1], size, events[n - 1]);
      StepBearsOut(cs, size, devices[n - 1], Told(size, events[..n - 1]), events[n - 1]);
    }
  }

  /** The call gets past its state check, and past its checks if it starts afresh. */
  predicate GoesAhead(s: Story, e: Event) {
    e.Enable? && (s.fate.Stopped? || (!s.known && !e.outcome.ChecksFail?))
  }

  lemma {:induction false} StaysBroken(size: nat, events: seq<Event>, i: nat, n: nat)
    requires i < n <= |events|
    requires GoesAhead(Told(size, events[..i]), events[i]) && !events[i].outcome.CopyReturns?
    requires forall j :: i < j < n ==> events[j].Boot? || !events[j].outcome.CopyReturns?
    ensures Told(size, events[..n]).fate == Broken
    ensures forall b :: i < b < n && events[b].Boot? ==> Told(size, events[..n]).known
  {
    assert events[..n][..n - 1] == events[..n - 1];
    if n - 1 > i {
      StaysBroken(size, events, i, n - 1);
    }
  }

  /**
   A call that went ahead and was cut short, failed or found its first block changed leaves the device
   reported as inconsistent from the next boot on, until a call returns.
   */
  lemma CutShortIsInconsistent<B>(cs: Ciphers<B>, size: nat, devices: seq<Device<B>>, events: seq<Event>,
                                  i: nat, boot: nat, n: nat)
    requires ResumePoint(size, 0) && i < boot < n <= |events|
    requires IsRun(cs, size, devices, events) && devices[0].footer.None? && !devices[0].stateProp
    requires events[i].Enable? && !events[i].outcome.CopyReturns?
    requires Resuming(devices[i]) || (!devices[i].stateProp && !events[i].outcome.ChecksFail?)
    requires events[boot].Boot?
    requires forall j :: i < j < n ==> events[j].Boot? || !events[j].outcome.CopyReturns?
    ensures DoCryptoComplete(devices[n]) == Inconsistent
  {
    AnswersByHistory(cs, size, devices, events, i);
    AnswersByHistory(cs, size, devices, events, n);
    StaysBroken(size, events, i, n);
  }

  lemma {:induction false} PlainUntilAhead(size: nat, events: seq<Event>, n: nat)
    requires n <= |events|
    ensures Told(size, events[..n]).fate == Plain
       <==> forall i :: 0 <= i < n ==> !GoesAhead(Told(size, events[..i]), events[i])
    ensures Told(size, events[..n]).fate == Plain ==> !Told(size, events[..n]).known
  {
    if n > 0 {
      assert events[..n][..n - 1] == events[..n - 1];
      PlainUntilAhead(size, events, n - 1);
    }
  }

  /** After a boot the device passes as not encrypted if and only if no call has ever gone ahead to write a footer. */
  lemma NotEncryptedIffNeverStarted<B>(cs: Ciphers<B>, size: nat, devices: seq<Device<B>>, events: seq<Event>, n: nat)
    requires ResumePoint(size, 0) && 0 < n <= |events| && events[n - 1].Boot?
    requires IsRun(cs, size, devices, events) && devices[0].footer.None? && !devices[0].stateProp
    ensures DoCryptoComplete(devices[n]) == NotEncrypted
       <==> forall i :: 0 <= i < n && events[i].Enable? ==> devices[i].stateProp || events[i].outcome.ChecksFail?
  {
    hide Next, Step;
    AnswersByHistory(cs, size, devices, events, n);
    PlainUntilAhead(size, events, n);
    BootKnows(size, events[..n]);
    forall i | 0 <= i < n
      ensures devices[i].stateProp == Told(size, events[..i]).known
    {
      AnswersByHistory(cs, size, devices, events, i);
    }
    if forall i :: 0 <= i < n && events[i].Enable? ==> devices[i].stateProp || events[i].outcome.ChecksFail? {
      NeverStopped(size, events, n);
    }
  }

  lemma BootKnows(size: nat, events: seq<Event>)
    requires events != [] && events[|events| - 1].Boot?
    ensures var s := Told(size, events); s.known <==> s.fate != Plain
  {
  }

  lemma ToldStep(size: nat, events: seq<Event>, n: nat)
    requires n <= |events|
    ensures n == 0 ==> Told(size, events[..n]) == Story(Plain, false)
    ensures n > 0 ==> Told(size, events[..n]) == Next(size, Told(size, events[..n - 1]), events[n - 1])
  {
    if n > 0 {
      assert events[..n][..n - 1] == events[..n - 1];
    }
  }

  lemma PlainStays(size: nat, e: Event)
    requires !GoesAhead(Story(Plain, false), e)
    ensures Next(size, Story(Plain, false), e) == Story(Plain, false)
  {
  }

  /** Without a fresh start there is nothing to resume. */
  lemma {:induction false} NeverStopped(size: nat, events: seq<Event>, n: nat)
    requires n <= |events|
    requires forall i :: 0 <= i < n && events[i].Enable? ==>
      Told(size, events[..i]).known || events[i].outcome.ChecksFail?
    ensures forall i :: 0 <= i < n ==> !GoesAhead(Told(size, events[..i]), events[i])
    ensures Told(size, events[..n]) == Story(Plain, false)
  {
    hide Told, Next;
    ToldStep(size, events, n);
    if n > 0 {
      NeverStopped(size, events, n - 1);
      PlainStays(size, events[n - 1]);
    }
  }

  /** A resumed call whose checks fail has taken the stop out of the footer and left it inconsistent. */
  lemma ResumeFailsInconsistent<B>(cs: Ciphers<B>, size: nat, d: Device<B>, ok: Battery, key: nat)
    requires Resuming(d)
    ensures var after := EnableStep(cs, d, size, ChecksFail, ok, key);
      && after.footer.Some? && after.footer.value.inconsistent && !after.footer.value.inProgress
      && after.footer.value.encryptedUpto == 0 && after.footer.value.key == d.footer.value.key
      && after.sectors == d.sectors
  {
  }

  // ----- The call itself -----------------------------------------------------------------------

  class UserData<B(0, !new)> {
    var footer: Option<Footer>
    var stateProp: bool
    const disk: array<B>
    const ciphers: Ciphers<B>

    constructor (disk: array<B>, ciphers: Ciphers<B>, footer: Option<Footer>, stateProp: bool)
      ensures this.disk == disk && this.ciphers == ciphers && State() == Device(footer, disk[..], stateProp)
    {
      this.disk, this.ciphers, this.footer, this.stateProp := disk, ciphers, footer, stateProp;
    }

    ghost function State(): Device<B>
      reads this, disk
    {
      Device(footer, disk[..], stateProp)
    }

    /** How a call on device d goes that nothing cuts short but its own division by zero. */
    ghost function OutcomeOf(d: Device<B>, size: nat, checksPass: bool, hashMatches: bool, ok: Battery): Outcome {
      var upto := PreviouslyEncryptedUpto(d);
      if !checksPass then ChecksFail
      else if upto > 0 && !hashMatches then HashMismatch
      else if upto <= size && DividesByZero(size, upto)
      then CopyBreaksOff(Range(upto + 1, RunEnd(size, upto, ok)))
      else CopyReturns
    }

    /** cryptfs_enable_internal, "inplace", when the full copy is used; no code is returned if the process dies. */
    method EnableInternal(size: nat, checksPass: bool, hashMatches: bool, ok: Battery, newKey: nat)
        returns (rc: Option<int>)
      requires footer.Some? ==> footer.value.fsSize == size
      requires PreviouslyEncryptedUpto(State()) > size
            || RunEnd(size, PreviouslyEncryptedUpto(State()), ok) <= disk.Length
      modifies this, disk
      ensures State() == EnableStep(ciphers, old(State()), size,
                                    OutcomeOf(old(State()), size, checksPass, hashMatches, ok), ok, newKey)
      ensures var upto := PreviouslyEncryptedUpto(old(State()));
        && rc in {None, Some(0), Some(-1)}
        && (rc == Some(-1) <==> (old(stateProp) && upto == 0) || !checksPass || (upto > 0 && !hashMatches))
        && (rc == None ==> upto <= size && DividesByZero(size, upto))
        && (rc == Some(0) ==> upto > size || !DividesByZero(size, upto))
      ensures rc == Some(0) ==> footer.Some? && !footer.value.inconsistent
      ensures rc.None? ==> footer.Some? && footer.value.inconsistent
    {
      hide EncryptSpan, EncryptSome, CopyEnd, ReportedDone, RunEnd, ResumePoint, DividesByZero;
      ghost var d := State();
      var previouslyEncryptedUpto := 0;
      if footer.Some? && footer.value.inProgress {
        previouslyEncryptedUpto := footer.value.encryptedUpto;
        footer := Some(footer.value.(encryptedUpto := 0, inProgress := false, inconsistent := true));
      }
      if stateProp && previouslyEncryptedUpto == 0 {
        return Some(-1);
      }
      if !checksPass {
        return Some(-1);
      }
      if previouslyEncryptedUpto == 0 {
        footer := Some(Footer(false, true, 0, size, newKey));
      }
      if previouslyEncryptedUpto > 0 && !hashMatches {
        return Some(-1);
      }
      var cipher := ciphers(footer.value.key);
      var done;
      if size < previouslyEncryptedUpto {
        done := size;
      } else {
        DeathIsBreakOff(cipher, disk[..], size, previouslyEncryptedUpto, ok);
        var r := EnableInplaceFull(cipher, disk, size, previouslyEncryptedUpto, ok);
        if r.None? {
          return None;
        }
        done := r.value;
      }
      var f := footer.value.(encryptedUpto := done, inconsistent := false);
      if done != f.fsSize {
        f := f.(inProgress := true);
      }
      footer := Some(f);
      stateProp := true;
      return Some(0);
    }
  }

  /** What a run has written when it dies of its division by zero. */
  lemma DeathIsBreakOff<B>(c: Cipher<B>, sectors: seq<B>, size: nat, upto: nat, ok: Battery)
    ensures var end := RunEnd(size, upto, ok);
      if DividesByZero(size, upto)
      then EncryptSpan(c, sectors, upto + 1, end)
        == EncryptSome(c, sectors, upto + 1, CopyEnd(size, upto, ok), Range(upto + 1, end))
      else end == CopyEnd(size, upto, ok)
  {
    hide CopyEnd, ReportedDone;
    CopyEndCovers(size, upto, ok);
    BlockArithmetic(size, upto);
  }
}
