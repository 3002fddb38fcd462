// Saving, loading and creating the enclave's keys (attestation.c).
module KeyStore {
  // The directory is one in which every call can fail, and a power loss can come after any of them.

  import opened Bytes
  import opened ChunkedFile
  import opened KeyFile

  /** A file: its bytes, and whether they have reached the disk. */
  datatype File = File(data: bytes, synced: bool)

  /** The key file as the directory shows it, as the directory on disk has it, and the temporary. */
  datatype Dir = Dir(file: Option<File>, durable: Option<File>, temporary: Option<File>)

  class Directory {
    var now: Dir
    // every state since the beginning, oldest first
    ghost var passed: seq<Dir>
    // how many of the calls that a save cannot do without have failed
    ghost var failures: nat

    /** Makes the directory, unless it is there. */
    method MakeDirectory() returns (ok: bool)
      modifies this
      ensures now == old(now) && passed == old(passed) + [now]
      ensures failures == old(failures) + if ok then 0 else 1
    {
      ok := *;
      passed, failures := passed + [now], failures + if ok then 0 else 1;
    }

    method UnlinkTemporary()
      modifies this
      ensures now == old(now) || now == old(now).(temporary := None)
      ensures passed == old(passed) + [now] && failures == old(failures)
    {
      var done: bool := *;
      if done {
        now := now.(temporary := None);
      }
      passed := passed + [now];
    }

    method CreateTemporary() returns (ok: bool)
      modifies this
      ensures now == if ok then old(now).(temporary := Some(File([], false))) else old(now)
      ensures passed == old(passed) + [now] && failures == old(failures) + if ok then 0 else 1
    {
      ok := *;
      if ok {
        now := now.(temporary := Some(File([], false)));
      }
      passed, failures := passed + [now], failures + if ok then 0 else 1;
    }

    /** Appends some of the bytes, at least one; -1 on failure. */
    method Write(b: bytes) returns (n: int)
      requires now.temporary.Some? && b != []
      modifies this
      ensures n == -1 || 0 < n <= |b|
      ensures now == if n == -1 then old(now)
                     else old(now).(temporary := Some(File(old(now).temporary.value.data + b[..n], false)))
      ensures passed == old(passed) + [now] && failures == old(failures) + if n == -1 then 1 else 0
    {
      n := *;
      if !(0 < n <= |b|) {
        n := -1;
      } else {
        now := now.(temporary := Some(File(now.temporary.value.data + b[..n], false)));
      }
      passed, failures := passed + [now], failures + if n == -1 then 1 else 0;
    }

    method SyncTemporary() returns (ok: bool)
      requires now.temporary.Some?
      modifies this
      ensures now == if ok then old(now).(temporary := Some(old(now).temporary.value.(synced := true))) else old(now)
      ensures passed == old(passed) + [now] && failures == old(failures) + if ok then 0 else 1
    {
      ok := *;
      if ok {
        now := now.(temporary := Some(now.temporary.value.(synced := true)));
      }
      passed, failures := passed + [now], failures + if ok then 0 else 1;
    }

    method Rename() returns (ok: bool)
      requires now.temporary.Some?
      modifies this
      ensures now == if ok then Dir(old(now).temporary, old(now).durable, None) else old(now)
      ensures passed == old(passed) + [now] && failures == old(failures) + if ok then 0 else 1
    {
      ok := *;
      if ok {
        now := Dir(now.temporary, now.durable, None);
      }
      passed, failures := passed + [now], failures + if ok then 0 else 1;
    }

    method SyncDirectory()
      modifies this
      ensures now == old(now) || now == old(now).(durable := old(now).file)
      ensures passed == old(passed) + [now] && failures == old(failures)
    {
      var done: bool := *;
      if done {
        now := now.(durable := now.file);
      }
      passed := passed + [now];
    }
  }

  // ---------------------------------------------------------------------------
  // Which states a save and a start pass through

  /** Nothing has changed but perhaps the temporary. */
  predicate Untouched(d: Dir, s: Dir) {
    s.file == d.file && s.durable == d.durable
  }

  /** The whole image is in place, on disk; the directory on disk may still be the old one. */
  predicate Replaced(d: Dir, image: bytes, s: Dir) {
    s.file == Some(File(image, true)) && (s.durable == d.durable || s.durable == s.file)
  }

  predicate Saving(d: Dir, image: bytes, s: Dir) {
    Untouched(d, s) || Replaced(d, image, s)
  }

  /** The states that were added are all ones that a save of the image from d may pass through. */
  ghost predicate OnlySaving(d: Dir, image: bytes, before: seq<Dir>, after: seq<Dir>) {
    before <= after && forall i :: |before| <= i < |after| ==> Saving(d, image, after[i])
  }

  /** One start of the process: the key of its environment, the nonce it would seal with, the keys
      it would make (None if that fails), whether a key file can be read, and whether access() would
      report one that is there. */
  datatype Start = Start(kek: Option<bytes>, nonce: bytes, made: Option<Parts>, readable: bool, visible: bool)

  predicate Loads(a: Aead, f: File, b: Start) {
    b.readable && Loaded(a, f.data, b.kek).Some?
  }

  /** The file is there, but neither loads nor is reported. */
  predicate Missed(a: Aead, d: Dir, b: Start) {
    d.file.Some? && !Loads(a, d.file.value, b) && !b.visible
  }

  /** The keys that the start comes up with, if it does. */
  function Outcome(a: Aead, d: Dir, b: Start): Option<Parts> {
    if d.file.None? || Missed(a, d, b) then b.made
    else if Loads(a, d.file.value, b) then Loaded(a, d.file.value.data, b.kek)
    else None
  }

  /** It saves new keys, and those of a plain file if it has a key to seal them with. */
  predicate Saves(a: Aead, d: Dir, b: Start) {
    && Outcome(a, d, b).Some?
    && (d.file.None? || Missed(a, d, b) || (FormatOf(d.file.value.data).Plain? && b.kek.Some?))
  }

  /** The states it may pass through on the way from d. */
  ghost predicate StartReaches(a: Aead, d: Dir, b: Start, s: Dir) {
    Untouched(d, s) ||
    (Saves(a, d, b) && Replaced(d, Image(a, b.kek, b.nonce, Outcome(a, d, b).value), s))
  }

  /** Where it ends if none of the calls fails that it cannot do without: with the keys it came up with
      saved, if it is to save any, and else with the file untouched. */
  predicate Completes(a: Aead, d: Dir, b: Start, s: Dir) {
    if Saves(a, d, b) then Replaced(d, Image(a, b.kek, b.nonce, Outcome(a, d, b).value), s) else Untouched(d, s)
  }

  class Attestation {
    var boxPublic: bytes
    var boxSecret: bytes
    var kyberPublic: bytes
    var kyberSeed: bytes
    var signPublic: bytes
    var signSecret: bytes
    var mldsaPublic: bytes
    var mldsaSecret: bytes
    var kek: Option<bytes>
    var initialized: bool

    function Keys(): Parts
      reads this
    {
      Parts(boxPublic, boxSecret, kyberPublic, kyberSeed, signPublic, signSecret, mldsaPublic, mldsaSecret)
    }

    method ParseBody(body: bytes)
      requires |body| == BODY_SIZE
      modifies this
      ensures Keys() == Parse(body) && kek == old(kek) && initialized == old(initialized)
    {
      var off := 0;
      boxPublic := body[off..off + 32];
      off := off + 32;
      boxSecret := body[off..off + 32];
      off := off + 32;
      kyberPublic := body[off..off + 1184];
      off := off + 1184;
      kyberSeed := body[off..off + 64];
      off := off + 64;
      signPublic := body[off..off + 32];
      off := off + 32;
      signSecret := body[off..off + 64];
      off := off + 64;
      mldsaPublic := body[off..off + 1312];
      off := off + 1312;
      mldsaSecret := body[off..off + 2560];
      assert body[2720..5280] == body[2720..];
    }

    method Adopt(p: Parts)
      modifies this
      ensures Keys() == p && kek == old(kek) && initialized == old(initialized)
    {
      boxPublic, boxSecret, kyberPublic, kyberSeed := p.boxPublic, p.boxSecret, p.kyberPublic, p.kyberSeed;
      signPublic, signSecret, mldsaPublic, mldsaSecret := p.signPublic, p.signSecret, p.mldsaPublic, p.mldsaSecret;
    }

    /** Writes everything, however little each call takes. */
    method WriteAll(dir: Directory, image: bytes, ghost d: Dir) returns (ok: bool)
      requires dir.now.temporary == Some(File([], false)) && Untouched(d, dir.now)
      modifies dir
      ensures dir.now.temporary.Some? && Untouched(d, dir.now)
      ensures ok ==> dir.now.temporary.value.data == image
      ensures (ok <==> dir.failures == old(dir.failures)) && dir.failures >= old(dir.failures)
      ensures OnlySaving(d, image, old(dir.passed), dir.passed)
    {
      var written := 0;
      while written < |image|
        invariant 0 <= written <= |image|
        invariant dir.now.temporary.Some? && dir.now.temporary.value.data == image[..written]
        invariant Untouched(d, dir.now) && dir.failures == old(dir.failures)
        invariant OnlySaving(d, image, old(dir.passed), dir.passed)
      {
        var rest := image[written..];
        var n := dir.Write(rest);
        if n == -1 {
          return false;
        }
        assert image[..written] + rest[..n] == image[..written + n];
        written := written + n;
      }
      return true;
    }

    /** Succeeds exactly if none of the calls fails that it cannot do without, and then the file is the
        image; and every state on the way has the old file, or the new one complete and on disk. */
    method Save(dir: Directory, a: Aead, nonce: bytes) returns (ok: bool)
      modifies dir
      ensures ok <==> dir.failures == old(dir.failures)
      ensures dir.failures >= old(dir.failures)
      ensures var image := Image(a, kek, nonce, Keys());
              && (if ok then Replaced(old(dir.now), image, dir.now) else Untouched(old(dir.now), dir.now))
              && OnlySaving(old(dir.now), image, old(dir.passed), dir.passed)
    {
      ghost var d := dir.now;
      ok := dir.MakeDirectory();
      if !ok {
        return false;
      }
      var image := Image(a, kek, nonce, Keys());
      dir.UnlinkTemporary();
      ok := dir.CreateTemporary();
      if !ok {
        return false;
      }
      ok := WriteAll(dir, image, d);
      if ok {
        ok := dir.SyncTemporary();
      }
      if ok {
        ok := dir.Rename();
      }
      if !ok {
        dir.UnlinkTemporary();
        return false;
      }
      dir.SyncDirectory();
      return true;
    }

    /** Loads exactly when the file can be read and holds keys, and then holds those; a file in the
        plain is sealed on the way if there is a key. */
    method Load(dir: Directory, a: Aead, nonce: bytes, readable: bool) returns (ok: bool)
      modifies this, dir
      ensures kek == old(kek) && initialized == old(initialized)
      ensures ok <==> readable && old(dir.now).file.Some? && Loaded(a, old(dir.now).file.value.data, kek).Some?
      ensures if !ok then Keys() == old(Keys()) && dir.now == old(dir.now) && dir.passed == old(dir.passed)
              else Loaded(a, old(dir.now).file.value.data, kek) == Some(Keys())
      ensures old(dir.passed) <= dir.passed
      ensures ok && !(FormatOf(old(dir.now).file.value.data).Plain? && kek.Some?) ==>
                dir.now == old(dir.now) && dir.passed == old(dir.passed)
      ensures ok ==> Saving(old(dir.now), Image(a, kek, nonce, Keys()), dir.now)
      ensures ok && FormatOf(old(dir.now).file.value.data).Plain? && kek.Some? && dir.failures == old(dir.failures) ==>
                Replaced(old(dir.now), Image(a, kek, nonce, Keys()), dir.now)
      ensures dir.failures >= old(dir.failures)
      ensures ok ==> OnlySaving(old(dir.now), Image(a, kek, nonce, Keys()), old(dir.passed), dir.passed)
    {
      if !readable || dir.now.file.None? {
        return false;
      }
      var file := dir.now.file.value.data;
      var buffer := Seen(file);
      var body: bytes;
      var legacy := false;
      if |buffer| == PLAIN_SIZE && buffer[..4] == MAGIC_PLAIN {
        body := buffer[4..];
        legacy := true;
      } else if |buffer| == SEALED_SIZE && buffer[..4] == MAGIC_SEALED {
        if kek.None? {
          return false;
        }
        var opened' := a.open(kek.value, buffer[4..28], [], buffer[28..]);
        if opened'.None? || |opened'.value| != BODY_SIZE {
          return false;
        }
        body := opened'.value;
      } else {
        return false;
      }
      ParseBody(body);
      if legacy && kek.Some? {
        var _ := Save(dir, a, nonce);
      }
      return true;
    }

    /** 0 with the keys of the file, or new ones where no file is reported; `visible` is what access()
        says of one that is there. */
    method Init(dir: Directory, a: Aead, environment: Option<bytes>, nonce: bytes, made: Option<Parts>,
                readable: bool, visible: bool)
      returns (rc: int)
      modifies this, dir
      ensures kek == if old(initialized) || environment.None? then old(kek) else environment
      ensures old(initialized) ==> rc == 0 && Keys() == old(Keys()) && dir.now == old(dir.now) && dir.passed == old(dir.passed)
      ensures rc == 0 <==> initialized
      ensures !old(initialized) ==>
                var (d, b) := (old(dir.now), Start(kek, nonce, made, readable, visible));
                && (rc == 0 <==> Outcome(a, d, b).Some?)
                && (rc == 0 ==> Outcome(a, d, b) == Some(Keys()))
                && StartReaches(a, d, b, dir.now)
                && (dir.failures == old(dir.failures) ==> Completes(a, d, b, dir.now))
                && old(dir.passed) <= dir.passed
                && forall i :: |old(dir.passed)| <= i < |dir.passed| ==> StartReaches(a, d, b, dir.passed[i])
    {
      hide Image, Loaded, FormatOf;
      if initialized {
        return 0;
      }
      if environment.Some? {
        kek := environment;
      }
      var ok := Load(dir, a, nonce, readable);
      if !ok {
        if dir.now.file.Some? && visible {
          return -1;
        }
        if made.None? {
          return -1;
        }
        Adopt(made.value);
        var _ := Save(dir, a, nonce);
      }
      initialized := true;
      return 0;
    }
  }

  // ---------------------------------------------------------------------------
  // Runs: starts, each cut short anywhere, and power losses

  /** What a power loss leaves of a file: all of it if it was on disk, else anything. */
  predicate Survives(f: Option<File>, g: Option<File>) {
    match f
    case None => g.None?
    case Some(x) => g.Some? && g.value.synced && (x.synced ==> g.value.data == x.data)
  }

  /** The directory comes back as shown or as last written; the temporary may be anything. */
  predicate PowerLoss(d: Dir, e: Dir) {
    e.durable == e.file && (Survives(d.file, e.file) || Survives(d.durable, e.file))
  }

  predicate WrittenBack(d: Dir, e: Dir) {
    e == d.(durable := d.file)
  }

  datatype Event = Begin(start: Start) | Outage | WriteBack

  predicate ValidStart(b: Start) {
    |b.nonce| == NONCE_SIZE && (b.made.Some? ==> ValidParts(b.made.value))
  }

  /** A start counts with any state it may pass through as the one it stops in. */
  ghost predicate Step(a: Aead, d: Dir, v: Event, e: Dir) {
    match v
    case Begin(b) => ValidStart(b) && StartReaches(a, d, b, e)
    case Outage => PowerLoss(d, e)
    case WriteBack => WrittenBack(d, e)
  }

  ghost predicate IsRun(a: Aead, dirs: seq<Dir>, events: seq<Event>) {
    && |dirs| == |events| + 1
    && forall i :: 0 <= i < |events| ==> Step(a, dirs[i], events[i], dirs[i + 1])
  }

  /** Power loss at any state of a save leaves the file as it was, as it was on disk, or complete. */
  lemma SaveIsAtomic(d: Dir, image: bytes, s: Dir, e: Dir)
    requires d.file.Some? ==> d.file.value.synced
    requires d.durable.Some? ==> d.durable.value.synced
    requires Saving(d, image, s) && PowerLoss(s, e)
    ensures e.file == d.file || e.file == d.durable || e.file == Some(File(image, true))
  {
  }

  predicate OnDisk(f: Option<File>) {
    f.Some? ==> f.value.synced
  }

  /** The file shown and the one on disk are the same, or that on disk is missing, or the one is the
      sealed form of the other. */
  ghost predicate Coherent(a: Aead, d: Dir) {
    && OnDisk(d.file) && OnDisk(d.durable)
    && (d.durable.None? || d.file == d.durable || Migrating(a, d))
  }

  ghost predicate Migrating(a: Aead, d: Dir) {
    && d.file.Some? && d.durable.Some?
    && exists k, n, p :: ValidParts(p) && d.durable.value.data == PlainFile(p) && IsSealed(a, d.file.value.data, k, n, p)
  }

  /** What a start that misses no file writes over d, if anything, holds the keys it ends with; over a
      plain file they are the file's own, sealed. */
  lemma WrittenOver(a: Aead, d: Dir, b: Start, s: Dir)
    requires Lawful(a) && ValidStart(b) && StartReaches(a, d, b, s) && !Untouched(d, s) && !Missed(a, d, b)
    ensures Outcome(a, d, b).Some? && ValidParts(Outcome(a, d, b).value)
    ensures s.file.Some? && s.file.value.synced && HoldsParts(a, s.file.value.data, Outcome(a, d, b).value)
    ensures s.durable == d.durable || s.durable == s.file
    ensures d.file.Some? ==>
              && d.file.value.data == PlainFile(Outcome(a, d, b).value)
              && b.kek.Some? && IsSealed(a, s.file.value.data, b.kek.value, b.nonce, Outcome(a, d, b).value)
  {
    hide Loaded, FormatOf, PlainFile, SealedFile;
    if d.file.Some? {
      PlainLoadIsExact(a, d.file.value.data, b.kek);
    }
    if b.kek.Some? {
      assert IsSealed(a, s.file.value.data, b.kek.value, b.nonce, Outcome(a, d, b).value);
    }
  }

  /** access() reports an existing file whenever loading it fails. */
  ghost predicate NoneMissed(a: Aead, dirs: seq<Dir>, events: seq<Event>)
    requires |dirs| == |events| + 1
  {
    forall i :: 0 <= i < |events| && events[i].Begin? ==> !Missed(a, dirs[i], events[i].start)
  }

  lemma StepKeepsCoherent(a: Aead, d: Dir, v: Event, e: Dir)
    requires Lawful(a) && Coherent(a, d) && Step(a, d, v, e) && (v.Begin? ==> !Missed(a, d, v.start))
    ensures Coherent(a, e)
  {
    hide StartReaches, IsSealed, PlainFile, HoldsParts, Outcome;
    if v.Begin? && !Untouched(d, e) {
      WrittenOver(a, d, v.start, e);
      if d.file.Some? {
        PlainIsNotMigrating(a, d, Outcome(a, d, v.start).value);
        assert Migrating(a, e) || e.durable != d.durable || d.durable.None?;
      }
    }
  }

  lemma PlainIsNotMigrating(a: Aead, d: Dir, p: Parts)
    requires Lawful(a) && ValidParts(p) && d.file.Some? && d.file.value.data == PlainFile(p)
    ensures !Migrating(a, d)
  {
    hide PlainFile, SealedFile;
    PlainFileShape(p);
    forall k, n, q | ValidParts(q) && IsSealed(a, d.file.value.data, k, n, q) ensures false {
      SealedFileShape(a, k, n, q);
    }
  }

  lemma {:induction false} RunKeepsCoherent(a: Aead, dirs: seq<Dir>, events: seq<Event>, i: nat)
    requires Lawful(a) && IsRun(a, dirs, events) && NoneMissed(a, dirs, events) && Coherent(a, dirs[0]) && i <= |events|
    ensures Coherent(a, dirs[i])
  {
    hide Coherent, Step, Missed;
    if i > 0 {
      RunKeepsCoherent(a, dirs, events, i - 1);
      StepKeepsCoherent(a, dirs[i - 1], events[i - 1], dirs[i]);
    }
  }

  // ---------------------------------------------------------------------------
  // The keys are stable

  ghost predicate Keeps(a: Aead, f: Option<File>, p: Parts) {
    f.Some? && HoldsParts(a, f.value.data, p)
  }

  lemma ShownKeepsWhatIsOnDisk(a: Aead, d: Dir, p: Parts)
    requires Lawful(a) && ValidParts(p) && Coherent(a, d) && Keeps(a, d.durable, p)
    ensures Keeps(a, d.file, p)
  {
    hide PlainFile, SealedFile;
    if d.file != d.durable {
      var k, n, q :| ValidParts(q) && d.durable.value.data == PlainFile(q) && IsSealed(a, d.file.value.data, k, n, q);
      SamePlainFile(a, d.durable.value.data, p, q);
    }
  }

  lemma SamePlainFile(a: Aead, file: bytes, p: Parts, q: Parts)
    requires Lawful(a) && ValidParts(p) && ValidParts(q) && HoldsParts(a, file, p) && file == PlainFile(q)
    ensures p == q
  {
    hide Parse, Serialise;
    LoadsWhatItHolds(a, file, None, p);
    LoadsWhatItHolds(a, file, None, q);
  }

  /** A start over a file that holds p leaves it holding p, and ends with p if with any keys, unless it
      misses the file or its key wrongly opens the file's box. */
  lemma StartKeepsKeys(a: Aead, d: Dir, b: Start, e: Dir, p: Parts)
    requires Lawful(a) && ValidParts(p) && ValidStart(b) && StartReaches(a, d, b, e) && Keeps(a, d.file, p)
    requires !Missed(a, d, b)
    ensures Keeps(a, e.file, p) && (e.durable == d.durable || e.durable == e.file)
    ensures Outcome(a, d, b).Some? ==>
              Outcome(a, d, b) == Some(p) || Misopened(a, d.file.value.data, b.kek, p)
  {
    hide PlainFile, SealedFile, Loaded, FormatOf, Misopened;
    LoadsWhatItHolds(a, d.file.value.data, b.kek, p);
    if !Untouched(d, e) {
      WrittenOver(a, d, b, e);
      SamePlainFile(a, d.file.value.data, p, Outcome(a, d, b).value);
    }
  }

  /** Exactly when a start comes up with other keys than those of the file, cipher failures aside: it
      misses the file, and makes other keys. */
  lemma RotatesExactlyWhenMissed(a: Aead, d: Dir, b: Start, p: Parts)
    requires Lawful(a) && ValidParts(p) && Keeps(a, d.file, p) && !Misopened(a, d.file.value.data, b.kek, p)
    ensures Outcome(a, d, b).Some? && Outcome(a, d, b).value != p
       <==> Missed(a, d, b) && b.made.Some? && b.made.value != p
  {
    hide PlainFile, SealedFile, Loaded, FormatOf, Misopened;
    LoadsWhatItHolds(a, d.file.value.data, b.kek, p);
  }

  /** Such a start: without a key, over a sealed file that access() does not report. The keys p are
      gone from the directory and from the disk, and the format has gone back from sealed to plain. */
  lemma MissedFileIsReplaced(a: Aead, kek: bytes, nonce: bytes, p: Parts, q: Parts) returns (d: Dir, b: Start, e: Dir)
    requires Lawful(a) && ValidParts(p) && ValidParts(q) && p != q && |nonce| == NONCE_SIZE
    ensures Coherent(a, d) && Keeps(a, d.file, p) && Keeps(a, d.durable, p)
    ensures ValidStart(b) && Missed(a, d, b) && StartReaches(a, d, b, e) && Outcome(a, d, b) == Some(q)
    ensures !Keeps(a, e.file, p) && !Keeps(a, e.durable, p)
    ensures FormatIn(d.durable).Sealed? && FormatIn(e.durable).Plain?
  {
    hide PlainFile, SealedFile, FormatOf;
    var sealed := Some(File(SealedFile(a, kek, nonce, p), true));
    var plain := Some(File(PlainFile(q), true));
    d, e := Dir(sealed, sealed, None), Dir(plain, plain, None);
    b := Start(None, nonce, Some(q), true, false);
    assert IsSealed(a, sealed.value.data, kek, nonce, p);
    SealedFileShape(a, kek, nonce, p);
    LoadsWhatItHolds(a, sealed.value.data, None, p);
    PlainFileShape(q);
    if HoldsParts(a, plain.value.data, p) {
      SamePlainFile(a, plain.value.data, p, q);
    }
  }

  lemma StepKeepsKeys(a: Aead, d: Dir, v: Event, e: Dir, p: Parts)
    requires Lawful(a) && ValidParts(p) && Coherent(a, d) && Step(a, d, v, e)
    requires Keeps(a, d.file, p) && (v.Begin? ==> !Missed(a, d, v.start))
    ensures v.Outage? || Keeps(a, e.file, p)
    ensures Keeps(a, d.durable, p) ==> Keeps(a, e.durable, p)
  {
    hide HoldsParts, StartReaches, Missed;
    if v.Begin? {
      StartKeepsKeys(a, d, v.start, e, p);
    }
  }

  /** What the j-th event brings up, if it is a start that comes up: p, or else its key wrongly opens
      the box on disk. */
  ghost predicate ComesUpWith(a: Aead, dirs: seq<Dir>, events: seq<Event>, j: nat, p: Parts)
    requires |dirs| == |events| + 1 && j <= |events|
  {
    j < |events| && events[j].Begin? && Outcome(a, dirs[j], events[j].start).Some? ==>
      Outcome(a, dirs[j], events[j].start) == Some(p)
      || (dirs[j].file.Some? && Misopened(a, dirs[j].file.value.data, events[j].start.kek, p))
  }

  /** Once a file with the keys p is on disk, it is there and shown for the rest of the run, whatever
      keys the later starts have, wherever they are cut short; and any that comes up has the keys p. */
  lemma {:induction false} KeysAreStable(a: Aead, dirs: seq<Dir>, events: seq<Event>, i: nat, j: nat, p: Parts)
    requires Lawful(a) && IsRun(a, dirs, events) && NoneMissed(a, dirs, events) && Coherent(a, dirs[0])
    requires i <= j <= |events| && ValidParts(p) && Keeps(a, dirs[i].durable, p)
    ensures Keeps(a, dirs[j].durable, p) && Keeps(a, dirs[j].file, p)
    ensures ComesUpWith(a, dirs, events, j, p)
    decreases j
  {
    hide Coherent, HoldsParts, StartReaches, Misopened, Missed, Outcome;
    RunKeepsCoherent(a, dirs, events, j);
    if j > i {
      KeysAreStable(a, dirs, events, i, j - 1, p);
      RunKeepsCoherent(a, dirs, events, j - 1);
      StepKeepsKeys(a, dirs[j - 1], events[j - 1], dirs[j], p);
    }
    ShownKeepsWhatIsOnDisk(a, dirs[j], p);
    if j < |events| && events[j].Begin? {
      StartKeepsKeys(a, dirs[j], events[j].start, dirs[j + 1], p);
    }
  }

  /** Without a power loss it is enough that the file is shown. */
  lemma {:induction false} KeysAreStableWhileUp(a: Aead, dirs: seq<Dir>, events: seq<Event>, i: nat, j: nat, p: Parts)
    requires Lawful(a) && IsRun(a, dirs, events) && NoneMissed(a, dirs, events) && Coherent(a, dirs[0])
    requires i <= j <= |events| && ValidParts(p) && Keeps(a, dirs[i].file, p)
    requires forall k :: i <= k < j ==> !events[k].Outage?
    ensures Keeps(a, dirs[j].file, p)
    ensures ComesUpWith(a, dirs, events, j, p)
    decreases j
  {
    hide Coherent, HoldsParts, StartReaches, Misopened, Missed, Outcome;
    if j > i {
      KeysAreStableWhileUp(a, dirs, events, i, j - 1, p);
      RunKeepsCoherent(a, dirs, events, j - 1);
      StepKeepsKeys(a, dirs[j - 1], events[j - 1], dirs[j], p);
    }
    if j < |events| && events[j].Begin? {
      StartKeepsKeys(a, dirs[j], events[j].start, dirs[j + 1], p);
    }
  }

  /** From an empty directory: where the first start makes keys and its save does not fail, a second
      one that can read the file under the same key comes up with the same keys; at once, or after a
      power loss if the directory had reached the disk by then. */
  lemma SecondStartHasTheKeys(a: Aead, d: Dir, first: Start, e: Dir, f: Dir, second: Start)
    requires Lawful(a) && d.file.None? && ValidStart(first) && first.made.Some? && Completes(a, d, first, e)
    requires f.file == e.file || (PowerLoss(e, f) && e.durable == e.file)
    requires second.readable && second.kek == first.kek
    ensures Outcome(a, d, first) == first.made == Outcome(a, f, second)
  {
    hide Loaded, Image;
    LoadUndoesSave(a, first.kek, first.nonce, first.made.value);
  }

  /** And so does every later start of a run without a power loss that comes up at all, whatever its key,
      wherever the starts between are cut short. */
  lemma LaterStartsHaveTheKeys(a: Aead, dirs: seq<Dir>, events: seq<Event>, j: nat)
    requires Lawful(a) && IsRun(a, dirs, events) && NoneMissed(a, dirs, events) && 0 < j <= |events|
    requires dirs[0] == Dir(None, None, None) && forall k :: 0 <= k < j ==> !events[k].Outage?
    requires events[0].Begin? && events[0].start.made.Some? && Completes(a, dirs[0], events[0].start, dirs[1])
    ensures ComesUpWith(a, dirs, events, j, events[0].start.made.value)
  {
    hide Image, Misopened;
    var b := events[0].start;
    assert Step(a, dirs[0], events[0], dirs[1]);
    hide IsRun;
    ImageHolds(a, b.kek, b.nonce, b.made.value);
    KeysAreStableWhileUp(a, dirs, events, 1, j, b.made.value);
  }

  lemma ImageHolds(a: Aead, kek: Option<bytes>, nonce: bytes, p: Parts)
    requires |nonce| == NONCE_SIZE
    ensures HoldsParts(a, Image(a, kek, nonce, p), p)
  {
    if kek.Some? {
      assert IsSealed(a, Image(a, kek, nonce, p), kek.value, nonce, p);
    }
  }

  // ---------------------------------------------------------------------------
  // The format only moves forward

  function FormatIn(f: Option<File>): Format {
    if f.Some? then FormatOf(f.value.data) else Format.Absent
  }

  predicate Forward(x: Format, y: Format) {
    x == y || (x.Absent? && !y.Foreign?) || (x.Plain? && y.Sealed?)
  }

  /** Together: on disk, and from what is on disk to what is shown. */
  ghost predicate Advances(a: Aead, d: Dir) {
    Coherent(a, d) && Forward(FormatIn(d.durable), FormatIn(d.file))
  }

  lemma StepMovesForward(a: Aead, d: Dir, v: Event, e: Dir)
    requires Lawful(a) && Advances(a, d) && Step(a, d, v, e) && (v.Begin? ==> !Missed(a, d, v.start))
    ensures Advances(a, e)
    ensures Forward(FormatIn(d.durable), FormatIn(e.durable))
    ensures v.Outage? || Forward(FormatIn(d.file), FormatIn(e.file))
  {
    hide Coherent, PlainFile, SealedFile, FormatOf, Loaded, StartReaches, HoldsParts, Outcome, Missed;
    StepKeepsCoherent(a, d, v, e);
    if v.Begin? && !Untouched(d, e) {
      WrittenOver(a, d, v.start, e);
      FormatsWritten(a, d, v.start, e);
    } else if v.Outage? {
      OutageForward(a, d, e);
    }
  }

  lemma FormatsWritten(a: Aead, d: Dir, b: Start, e: Dir)
    requires Lawful(a) && ValidStart(b) && StartReaches(a, d, b, e) && !Untouched(d, e) && !Missed(a, d, b)
    ensures FormatIn(e.file).Plain? || FormatIn(e.file).Sealed?
    ensures d.file.Some? ==> FormatIn(d.file).Plain? && FormatIn(e.file).Sealed?
  {
    hide PlainFile, SealedFile, Loaded, FormatOf;
    WrittenOver(a, d, b, e);
    var p := Outcome(a, d, b).value;
    LoadsWhatItHolds(a, e.file.value.data, b.kek, p);
    if d.file.Some? {
      PlainFileShape(p);
      SealedFileShape(a, b.kek.value, b.nonce, p);
    }
  }

  lemma OutageForward(a: Aead, d: Dir, e: Dir)
    requires Advances(a, d) && PowerLoss(d, e)
    ensures Forward(FormatIn(d.durable), FormatIn(e.file)) && e.durable == e.file
  {
    hide FormatOf;
  }

  /** The format on disk only moves from absent to plain or sealed and from plain to sealed. */
  lemma {:induction false} FormatsMoveForward(a: Aead, dirs: seq<Dir>, events: seq<Event>, i: nat, j: nat)
    requires Lawful(a) && IsRun(a, dirs, events) && NoneMissed(a, dirs, events) && Advances(a, dirs[0]) && i <= j <= |events|
    ensures Forward(FormatIn(dirs[i].durable), FormatIn(dirs[j].durable)) && Advances(a, dirs[j])
    decreases j
  {
    hide Coherent, Step, FormatIn, Missed;
    if j > 0 {
      FormatsMoveForward(a, dirs, events, if i < j then i else j - 1, j - 1);
      StepMovesForward(a, dirs[j - 1], events[j - 1], dirs[j]);
    }
  }
}
